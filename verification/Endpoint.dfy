/** A whole endpoint: ikcp_input, ikcp_flush, ikcp_update, ikcp_check, ikcp_send and ikcp_recv as functions on `Kcb`,
    and the invariant every one of them keeps for whatever arguments it is given. */
module Endpoint {
  import opened Serial
  import opened Types
  import opened Transmit
  import opened Receive
  import opened Timers
  import Congestion
  import Messages
  import opened Wire

  // ----- ikcp_input

  /** The locals flag, maxack and latest_ts of ikcp_input. */
  datatype Best = Best(flag: bool, maxack: nat, ts: u32)

  const NO_ACK := Best(false, 0, 0)

  datatype Inner = Inner(kcb: Kcb, best: Best)

  /** Every segment carries the peer's window and una. */
  function TakeHeader(m: Arith, k: Kcb, q: Seg): Kcb {
    k.(prb := k.prb.(rmtWnd := q.wnd), snd := Shrink(k.snd.(buf := ParseUna(m, k.snd.buf, q.una))))
  }

  function BetterAck(m: Arith, b: Best, q: Seg): Best {
    if !b.flag then Best(true, q.sn, q.ts)
    else if Diff(m, q.sn, b.maxack) > 0 && TimeDiff(q.ts, b.ts) > 0 then b.(maxack := q.sn, ts := q.ts)
    else b
  }

  function SampleRtt(k: Kcb, ts: u32): Rtt {
    var d := TimeDiff(k.clk.current, ts);
    if d >= 0 then UpdateAck(k.rtt, k.cfg.interval, k.cfg.minrto, d) else k.rtt
  }

  function TakeAck(m: Arith, k: Kcb, q: Seg): Kcb {
    k.(rtt := SampleRtt(k, q.ts), snd := Shrink(ParseAck(m, k.snd, q.sn)))
  }

  /** A data segment is acknowledged even if it is old; only one inside the window is kept. */
  function TakePush(m: Arith, wnd: nat, r: Rcv, q: Seg): Rcv {
    if Diff(m, q.sn, Add(m, r.nxt, wnd)) < 0 then
      var r1 := r.(acks := r.acks + [AckItem(q.sn, q.ts)]);
      if Diff(m, q.sn, r.nxt) >= 0 then ParseData(m, wnd, r1, Part(q.sn, q.frg, q.data)) else r1
    else r
  }

  /** One turn of the loop of ikcp_input. */
  function Process(m: Arith, s: Inner, q: Seg): Inner {
    var k := TakeHeader(m, s.kcb, q);
    match q.cmd
    case Ack => Inner(TakeAck(m, k, q), BetterAck(m, s.best, q))
    case Push => Inner(k.(rcv := TakePush(m, k.cfg.rcvWnd, k.rcv, q)), s.best)
    case Wask => Inner(k.(prb := k.prb.(askTell := true)), s.best)
    case Wins => Inner(k, s.best)
  }

  function ProcessAll(m: Arith, s: Inner, segs: seq<Seg>): Inner
    decreases |segs|
  {
    if segs == [] then s else ProcessAll(m, Process(m, s, segs[0]), segs[1..])
  }

  /** What follows the loop. */
  function Finish(m: Arith, s: Inner, prevUna: nat): Kcb
    requires s.kcb.cfg.mss > 0
  {
    var k := s.kcb;
    var k1 := if s.best.flag then k.(snd := ParseFastack(m, k.snd, s.best.maxack, s.best.ts)) else k;
    if Diff(m, k1.snd.una, prevUna) > 0
    then k1.(cc := Congestion.OnAck(k1.cc, k1.prb.rmtWnd, k1.cfg.mss))
    else k1
  }

  lemma {:induction false} ProcessAllCfg(m: Arith, s: Inner, segs: seq<Seg>)
    ensures ProcessAll(m, s, segs).kcb.cfg == s.kcb.cfg
    ensures ProcessAll(m, s, segs).kcb.clk == s.kcb.clk
    decreases |segs|
  {
    if segs != [] { ProcessAllCfg(m, Process(m, s, segs[0]), segs[1..]); }
  }

  /** ikcp_input; its result is p.code. */
  function Input(m: Arith, k: Kcb, p: Parsed): Kcb
    requires k.cfg.mss > 0
  {
    var s := ProcessAll(m, Inner(k, NO_ACK), p.segs);
    ProcessAllCfg(m, Inner(k, NO_ACK), p.segs);
    if p.code == 0 then Finish(m, s, k.snd.una) else s.kcb
  }

  // ----- ikcp_flush

  /** "probe window size (if remote window size equals zero)". */
  function ProbeTick(p: Probe, current: u32): Probe {
    if p.rmtWnd != 0 then p.(ts := 0, wait := 0)
    else if p.wait == 0 then p.(wait := PROBE_INIT, ts := U32(current + PROBE_INIT))
    else if TimeDiff(current, p.ts) >= 0 then
      var w0 := Max(p.wait, PROBE_INIT);
      var w := U32(Min(U32(w0 + w0 / 2), PROBE_LIMIT));
      p.(wait := w, ts := U32(current + w), askSend := true)
    else p
  }

  function AckSeg(wnd: nat, una: nat, a: AckItem): Seg {
    Seg(Ack, 0, wnd, a.ts, a.sn, una, [])
  }

  function AckSegs(wnd: nat, una: nat, acks: seq<AckItem>): (r: seq<Seg>)
    ensures |r| == |acks| && forall i :: 0 <= i < |acks| ==> r[i] == AckSeg(wnd, una, acks[i])
  {
    seq(|acks|, i requires 0 <= i < |acks| => AckSeg(wnd, una, acks[i]))
  }

  /** The segment variable of ikcp_flush keeps sn and ts of the last acknowledgement. */
  function Leftover(acks: seq<AckItem>): AckItem {
    if acks == [] then AckItem(0, 0) else acks[|acks| - 1]
  }

  function ProbeSegs(p: Probe, wnd: nat, una: nat, a: AckItem): seq<Seg> {
    (if p.askSend then [Seg(Wask, 0, wnd, a.ts, a.sn, una, [])] else [])
    + (if p.askTell then [Seg(Wins, 0, wnd, a.ts, a.sn, una, [])] else [])
  }

  function Window(k: Kcb): nat {
    var w := Min(k.cfg.sndWnd, k.prb.rmtWnd);
    if k.cfg.nocwnd then Max(w, 0) else Max(Min(k.cc.cwnd, w), 0)
  }

  function Sent(c: Ctx, f: Flight): bool {
    !Decide(c, f).Idle?
  }

  function DataSeg(wnd: nat, una: nat, f: Flight): Seg {
    Seg(Push, f.frg, wnd, f.ts, f.sn, una, f.data)
  }

  /** "flush data segments": what is sent. */
  function DataSegs(c: Ctx, wnd: nat, una: nat, buf: seq<Flight>): seq<Seg> {
    if buf == [] then []
    else
      var f := buf[|buf| - 1];
      DataSegs(c, wnd, una, buf[..|buf| - 1]) + (if Sent(c, f) then [DataSeg(wnd, una, Touch(c, f))] else [])
  }

  /** "flush data segments": what becomes of snd_buf. */
  function TouchAll(c: Ctx, buf: seq<Flight>): (r: seq<Flight>)
    ensures |r| == |buf| && forall i :: 0 <= i < |buf| ==> r[i] == Touch(c, buf[i])
  {
    seq(|buf|, i requires 0 <= i < |buf| => Touch(c, buf[i]))
  }

  function Count(c: Ctx, a: Reason, buf: seq<Flight>): nat {
    if buf == [] then 0
    else Count(c, a, buf[..|buf| - 1]) + (if Decide(c, buf[|buf| - 1]) == a then 1 else 0)
  }

  function Died(c: Ctx, deadLink: nat, buf: seq<Flight>): bool {
    exists i :: 0 <= i < |buf| && Sent(c, buf[i]) && Touch(c, buf[i]).xmit >= deadLink
  }

  /** snd_buf and snd_queue when the data segments are about to be sent. */
  function Filled(m: Arith, k: Kcb): Snd {
    Fill(m, k.snd, Window(k), k.clk.current, k.rtt.rto)
  }

  /** Everything one ikcp_flush hands to the packer, in order. */
  function Emitted(m: Arith, k: Kcb): seq<Seg> {
    if !k.clk.updated then []
    else
      var wnd := Unused(k.cfg.rcvWnd, k.rcv);
      AckSegs(wnd, k.rcv.nxt, k.rcv.acks)
      + ProbeSegs(ProbeTick(k.prb, k.clk.current), wnd, k.rcv.nxt, Leftover(k.rcv.acks))
      + DataSegs(MakeCtx(k), wnd, k.rcv.nxt, Filled(m, k).buf)
  }

  /** ikcp_flush. */
  function Flush(m: Arith, k: Kcb): Kcb {
    if !k.clk.updated then k
    else
      var c := MakeCtx(k);
      var s := Filled(m, k);
      k.(rcv := k.rcv.(acks := []),
         prb := ProbeTick(k.prb, k.clk.current).(askSend := false, askTell := false),
         snd := s.(buf := TouchAll(c, s.buf)),
         cc := Congestion.AfterFlush(k.cc, Count(c, Fast, s.buf) > 0, Count(c, Timeout, s.buf) > 0,
                                     U32(Off(m, s.nxt, s.una)), c.resent, U32(Window(k)), k.cfg.mss),
         xmit := U32(k.xmit + Count(c, Timeout, s.buf)),
         dead := k.dead || Died(c, k.cfg.deadLink, s.buf))
  }

  /** The datagrams of one ikcp_flush. */
  function Datagrams(m: Arith, k: Kcb): seq<seq<Seg>> {
    Pack(k.cfg.mtu, Emitted(m, k))
  }

  // ----- ikcp_update and ikcp_check

  /** ikcp_update up to the call of ikcp_flush. */
  function Tick(c: Clock, interval: nat, current: u32): (Clock, bool) {
    var c1 := Clock(current, if c.updated then c.tsFlush else current, true);
    var slap := TimeDiff(current, c1.tsFlush);
    var reset := slap >= 10000 || slap < -10000;
    var c2 := if reset then c1.(tsFlush := current) else c1;
    if reset || slap >= 0 then
      var t := U32(c2.tsFlush + interval);
      (c2.(tsFlush := if TimeDiff(current, t) >= 0 then U32(current + interval) else t), true)
    else (c2, false)
  }

  /** ikcp_update. */
  function Update(m: Arith, k: Kcb, current: u32): Kcb {
    var (clk, due) := Tick(k.clk, k.cfg.interval, current);
    if due then Flush(m, k.(clk := clk)) else k.(clk := clk)
  }

  function UpdateDatagrams(m: Arith, k: Kcb, current: u32): seq<seq<Seg>> {
    var (clk, due) := Tick(k.clk, k.cfg.interval, current);
    if due then Datagrams(m, k.(clk := clk)) else []
  }

  /** The smallest time to a resendts, or None when one is already due. */
  datatype Soonest = Due | In(ms: int)

  function NextResend(buf: seq<Flight>, current: u32): Soonest {
    if buf == [] then In(0x7fff_ffff)
    else
      var rest := NextResend(buf[..|buf| - 1], current);
      var d := TimeDiff(buf[|buf| - 1].resendts, current);
      if rest.Due? || d <= 0 then Due else In(Min(d, rest.ms))
  }

  /** ikcp_check. */
  function Check(k: Kcb, current: u32): u32 {
    if !k.clk.updated then current
    else
      var slap := TimeDiff(current, k.clk.tsFlush);
      if slap >= 10000 || slap < -10000 || slap >= 0 then current
      else
        match NextResend(k.snd.buf, current)
        case Due => current
        case In(ms) => U32(current + Min(Min(ms, TimeDiff(k.clk.tsFlush, current)), k.cfg.interval))
  }

  // ----- ikcp_send, ikcp_recv, ikcp_waitsnd

  function Send(k: Kcb, msg: bytes): (Kcb, int)
    requires k.cfg.mss > 0
  {
    var r := Messages.Send(k.cfg, k.snd.queue, msg);
    (k.(snd := k.snd.(queue := r.queue)), r.code)
  }

  function Received(m: Arith, k: Kcb, len: int): Kcb {
    var r := Recv(m, k.cfg.rcvWnd, k.rcv, len);
    k.(rcv := r.rcv, prb := k.prb.(askTell := k.prb.askTell || r.tell))
  }

  function WaitSnd(k: Kcb): nat {
    |k.snd.buf| + |k.snd.queue|
  }

  // ----- the invariant

  ghost predicate SmallFlights(mss: nat, buf: seq<Flight>) {
    forall i :: 0 <= i < |buf| ==> |buf[i].data| <= mss
  }

  ghost predicate KcbOk(m: Arith, k: Kcb) {
    && CfgOk(k.cfg)
    && SndOk(m, k.snd) && Messages.Small(k.cfg.mss, k.snd.queue) && SmallFlights(k.cfg.mss, k.snd.buf)
    && RcvOk(m, k.cfg.rcvWnd, k.rcv)
    && (SmallResend(k.cfg) ==> Congestion.CcOk(k.cc, k.cfg.mss))
    && RttOk(k.rtt, k.cfg.minrto)
    && k.prb.rmtWnd <= 65535 && k.prb.wait <= PROBE_LIMIT
  }

  /** Any segment the decoder can produce. */
  predicate Readable(m: Arith, q: Seg) {
    Num(m, q.sn) && Num(m, q.una) && q.wnd < 65536
  }

  lemma {:induction false} DecodeReadable(conv: u32, b: bytes)
    ensures forall i :: 0 <= i < |Decode(conv, b).segs| ==> Readable(Wrap, Decode(conv, b).segs[i])
    decreases |b|
  {
    if StopCode(conv, b) > 0 {
      DecodeReadable(conv, b[24 + FromLe32(b, 20)..]);
    }
  }

  lemma {:induction false} CreateOk(m: Arith, cfg: Cfg)
    requires CfgOk(cfg)
    ensures KcbOk(m, Create(cfg))
  {
  }

  lemma {:induction false} SubSmall(mss: nat, buf: seq<Flight>, k: nat)
    requires SmallFlights(mss, buf) && k <= |buf|
    ensures SmallFlights(mss, buf[k..]) && SmallFlights(mss, Without(buf, k))
  {
  }

  lemma {:induction false} TakeHeaderOk(m: Arith, k: Kcb, q: Seg)
    requires KcbOk(m, k) && Readable(m, q)
    ensures KcbOk(m, TakeHeader(m, k, q))
    ensures 0 <= Off(m, TakeHeader(m, k, q).snd.una, k.snd.una) <= Off(m, k.snd.nxt, k.snd.una)
  {
    AckUnaOk(m, k.snd, q.una);
    var n := ParseUnaSuffix(m, k.snd.buf, q.una);
    SubSmall(k.cfg.mss, k.snd.buf, n);
  }

  lemma {:induction false} TakeAckOk(m: Arith, k: Kcb, q: Seg)
    requires KcbOk(m, k)
    ensures KcbOk(m, TakeAck(m, k, q))
    ensures 0 <= Off(m, TakeAck(m, k, q).snd.una, k.snd.una) <= Off(m, k.snd.nxt, k.snd.una)
  {
    AckOneOk(m, k.snd, q.sn);
    var n := RemoveSnOne(m, k.snd.buf, q.sn);
    SubSmall(k.cfg.mss, k.snd.buf, n);
    var d := TimeDiff(k.clk.current, q.ts);
    if d >= 0 { UpdateAckOk(k.rtt, k.cfg.interval, k.cfg.minrto, d); }
  }

  lemma {:induction false} TakePushOk(m: Arith, wnd: nat, r: Rcv, q: Seg)
    requires RcvOk(m, wnd, r) && Readable(m, q)
    ensures RcvOk(m, wnd, TakePush(m, wnd, r, q))
  {
    var r1 := r.(acks := r.acks + [AckItem(q.sn, q.ts)]);
    assert RcvOk(m, wnd, r1);
    ParseDataOk(m, wnd, r1, Part(q.sn, q.frg, q.data));
  }

  /** One segment, whatever it says. */
  lemma {:induction false} ProcessOk(m: Arith, s: Inner, q: Seg)
    requires KcbOk(m, s.kcb) && Readable(m, q)
    ensures KcbOk(m, Process(m, s, q).kcb)
  {
    TakeHeaderOk(m, s.kcb, q);
    var k := TakeHeader(m, s.kcb, q);
    match q.cmd
    case Ack => TakeAckOk(m, k, q);
    case Push => TakePushOk(m, k.cfg.rcvWnd, k.rcv, q);
    case Wask =>
    case Wins =>
  }

  lemma {:induction false} ProcessAllOk(m: Arith, s: Inner, segs: seq<Seg>)
    requires KcbOk(m, s.kcb) && forall i :: 0 <= i < |segs| ==> Readable(m, segs[i])
    ensures KcbOk(m, ProcessAll(m, s, segs).kcb)
    decreases |segs|
  {
    if segs != [] {
      ProcessOk(m, s, segs[0]);
      ProcessAllOk(m, Process(m, s, segs[0]), segs[1..]);
    }
  }

  lemma {:induction false} FinishOk(m: Arith, s: Inner, prevUna: nat)
    requires KcbOk(m, s.kcb)
    ensures KcbOk(m, Finish(m, s, prevUna))
  {
    var k := s.kcb;
    FastackOk(m, k.snd, s.best.maxack, s.best.ts);
    SkipSame(m, k.snd.buf, s.best.maxack, s.best.ts);
    if SmallResend(k.cfg) { Congestion.OnAckOk(k.cc, k.prb.rmtWnd, k.cfg.mss); }
    hide SndOk, RcvOk, Skip, InFlight, Diff, Congestion.CcOk, Congestion.OnAck;
  }

  /** ikcp_input keeps the invariant for any segments and any result code. */
  lemma {:induction false} InputOk(m: Arith, k: Kcb, p: Parsed)
    requires KcbOk(m, k) && forall i :: 0 <= i < |p.segs| ==> Readable(m, p.segs[i])
    ensures KcbOk(m, Input(m, k, p))
  {
    ProcessAllOk(m, Inner(k, NO_ACK), p.segs);
    if p.code == 0 { FinishOk(m, ProcessAll(m, Inner(k, NO_ACK), p.segs), k.snd.una); }
  }

  lemma {:induction false} FillSmall(m: Arith, s: Snd, cwnd: nat, current: u32, rto: u32, mss: nat)
    requires Messages.Small(mss, s.queue) && SmallFlights(mss, s.buf)
    ensures var s' := Fill(m, s, cwnd, current, rto);
            Messages.Small(mss, s'.queue) && SmallFlights(mss, s'.buf)
    decreases |s.queue|
  {
    if Diff(m, s.nxt, Add(m, s.una, cwnd)) < 0 && s.queue != [] {
      FillSmall(m, Numbered(m, s, current, rto), cwnd, current, rto, mss);
    }
  }

  lemma {:induction false} TouchAllOk(m: Arith, c: Ctx, s: Snd, mss: nat)
    requires SndOk(m, s) && SmallFlights(mss, s.buf)
    ensures SndOk(m, s.(buf := TouchAll(c, s.buf))) && SmallFlights(mss, TouchAll(c, s.buf))
  {
    var b := TouchAll(c, s.buf);
    forall i | 0 <= i < |b| ensures b[i].sn == s.buf[i].sn && b[i].data == s.buf[i].data {
      assert b[i] == Touch(c, s.buf[i]);
    }
  }

  lemma {:induction false} FilledOk(m: Arith, k: Kcb)
    requires KcbOk(m, k)
    ensures var s := Filled(m, k);
            SndOk(m, s) && Messages.Small(k.cfg.mss, s.queue) && SmallFlights(k.cfg.mss, s.buf)
    ensures Window(k) <= 65535
  {
    FillOk(m, k.snd, Window(k), k.clk.current, k.rtt.rto);
    FillSmall(m, k.snd, Window(k), k.clk.current, k.rtt.rto, k.cfg.mss);
  }

  lemma {:induction false} FlushCcOk(m: Arith, k: Kcb, s: Snd, change: bool, lost: bool)
    requires KcbOk(m, k) && SndOk(m, s) && SmallResend(k.cfg)
    ensures Congestion.CcOk(Congestion.AfterFlush(k.cc, change, lost, U32(Off(m, s.nxt, s.una)),
              MakeCtx(k).resent, U32(Window(k)), k.cfg.mss), k.cfg.mss)
  {
    hide Congestion.CcOk, Congestion.AfterFlush, RcvOk, Ordered;
    var resent := MakeCtx(k).resent;
    assert 1 <= resent <= 32767 || resent == MOD - 1;
    assert U32(Off(m, s.nxt, s.una)) <= 65535 && U32(Window(k)) <= 65535;
    Congestion.AfterFlushOk(k.cc, change, lost, U32(Off(m, s.nxt, s.una)), resent, U32(Window(k)), k.cfg.mss);
  }

  /** ikcp_flush keeps the invariant. */
  lemma {:induction false} FlushOk(m: Arith, k: Kcb)
    requires KcbOk(m, k)
    ensures KcbOk(m, Flush(m, k))
  {
    hide Congestion.CcOk, Congestion.AfterFlush, SndOk, Count, Died, TouchAll, Filled, Consecutive, Ascending;
    if k.clk.updated {
      var c, s := MakeCtx(k), Filled(m, k);
      FilledOk(m, k);
      TouchAllOk(m, c, s, k.cfg.mss);
      if SmallResend(k.cfg) { FlushCcOk(m, k, s, Count(c, Fast, s.buf) > 0, Count(c, Timeout, s.buf) > 0); }
    }
  }

  lemma {:induction false} UpdateOk(m: Arith, k: Kcb, current: u32)
    requires KcbOk(m, k)
    ensures KcbOk(m, Update(m, k, current))
  {
    FlushOk(m, k.(clk := Tick(k.clk, k.cfg.interval, current).0));
  }

  lemma {:induction false} SendOk(m: Arith, k: Kcb, msg: bytes)
    requires KcbOk(m, k)
    ensures KcbOk(m, Send(k, msg).0)
  {
    Messages.SendSmall(k.cfg, k.snd.queue, msg);
  }

  lemma {:induction false} ReceivedOk(m: Arith, k: Kcb, len: int)
    requires KcbOk(m, k)
    ensures KcbOk(m, Received(m, k, len))
  {
    RecvOk(m, k.cfg.rcvWnd, k.rcv, len);
  }

  lemma {:induction false} OkMss(k: Kcb)
    requires KcbOk(Wrap, k)
    ensures k.cfg.mss > 0
  {
  }

  lemma {:induction false} ClockOk(k: Kcb, clk: Clock)
    requires KcbOk(Wrap, k)
    ensures KcbOk(Wrap, k.(clk := clk))
  {
  }

  /** ikcp_input keeps the invariant for any bytes. */
  lemma {:induction false} BytesOk(k: Kcb, data: bytes)
    requires KcbOk(Wrap, k)
    ensures k.cfg.mss > 0
    ensures var k' := Input(Wrap, k, Parse(k.cfg.conv, data)); KcbOk(Wrap, k') && k'.cfg == k.cfg
  {
    var p := Parse(k.cfg.conv, data);
    DecodeReadable(k.cfg.conv, data);
    InputOk(Wrap, k, p);
    ProcessAllCfg(Wrap, Inner(k, NO_ACK), p.segs);
  }
}
