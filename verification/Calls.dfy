/** What holds of one endpoint after any calls of its public interface, with any arguments and any input bytes. */
module Calls {
  import opened Serial
  import opened Types
  import opened Wire
  import opened Transmit
  import opened Receive
  import opened Timers
  import opened Endpoint
  import opened Schedule
  import Congestion
  import Messages

  datatype Call = CallSend(msg: bytes) | CallRecv(len: int) | CallInput(data: bytes) | CallUpdate(current: u32)
                | CallFlush

  /** One call of the public interface on the 32-bit endpoint. */
  function Do(k: Kcb, c: Call): Kcb
    requires k.cfg.mss > 0
  {
    match c
    case CallSend(msg) => Send(k, msg).0
    case CallRecv(len) => Received(Wrap, k, len)
    case CallInput(data) => Input(Wrap, k, Parse(k.cfg.conv, data))
    case CallUpdate(t) => Update(Wrap, k, t)
    case CallFlush => Flush(Wrap, k)
  }

  lemma {:induction false} DoOk(k: Kcb, c: Call)
    requires KcbOk(Wrap, k)
    ensures KcbOk(Wrap, Do(k, c)) && Do(k, c).cfg == k.cfg
  {
    hide KcbOk, Recv, Parse;
    match c
    case CallSend(msg) => OkMss(k); SendOk(Wrap, k, msg);
    case CallRecv(len) => ReceivedOk(Wrap, k, len);
    case CallInput(data) => OkMss(k); BytesOk(k, data);
    case CallUpdate(t) => UpdateOk(Wrap, k, t);
    case CallFlush => FlushOk(Wrap, k);
  }

  function DoAll(cfg: Cfg, calls: seq<Call>): (k: Kcb)
    requires CfgOk(cfg)
    ensures k.cfg == cfg
    ensures KcbOk(Wrap, k)
  {
    if calls == [] then CreateOk(Wrap, cfg); Create(cfg)
    else
      var k := DoAll(cfg, calls[..|calls| - 1]);
      DoOk(k, calls[|calls| - 1]);
      Do(k, calls[|calls| - 1])
  }

  /** snd_buf is strictly increasing inside [snd_una, snd_nxt) with its head at snd_una, at most 65535 in flight. */
  predicate SndBounded(s: Snd) {
    && U32(s.nxt - s.una) <= 65535 && |s.buf| <= U32(s.nxt - s.una)
    && s.una == (if s.buf == [] then s.nxt else s.buf[0].sn)
    && (forall i :: 0 <= i < |s.buf| ==> U32(s.buf[i].sn - s.una) < U32(s.nxt - s.una))
    && (forall i, j :: 0 <= i < j < |s.buf| ==> U32(s.buf[i].sn - s.una) < U32(s.buf[j].sn - s.una))
  }

  /** rcv_buf is strictly increasing inside the window, rcv_queue ends at rcv_nxt - 1 without gaps, neither is longer
      than rcv_wnd, and nothing that could move to the queue is left behind. */
  predicate RcvBounded(wnd: nat, r: Rcv) {
    && |r.queue| <= wnd && |r.buf| <= wnd
    && (forall i :: 0 <= i < |r.queue| ==> r.queue[i].sn == U32(r.nxt - (|r.queue| - i)))
    && (forall i :: 0 <= i < |r.buf| ==> U32(r.buf[i].sn - r.nxt) < wnd)
    && (forall i, j :: 0 <= i < j < |r.buf| ==> U32(r.buf[i].sn - r.nxt) < U32(r.buf[j].sn - r.nxt))
    && (|r.queue| < wnd && r.buf != [] ==> r.buf[0].sn != r.nxt)
  }

  lemma {:induction false} SndInv(s: Snd)
    requires SndOk(Wrap, s)
    ensures SndBounded(s)
  {
    OrderedFits(Wrap, s.una, Off(Wrap, s.nxt, s.una), s.buf);
  }

  lemma {:induction false} RcvInv(wnd: nat, r: Rcv)
    requires RcvOk(Wrap, wnd, r)
    ensures RcvBounded(wnd, r)
  {
    AscendingFits(Wrap, r.nxt, wnd, r.buf);
    forall i | 0 <= i < |r.queue| ensures r.queue[i].sn == U32(r.nxt - (|r.queue| - i)) {
      Backwards(r.nxt, r.queue[i].sn, |r.queue| - i);
    }
  }

  /** After any calls with any arguments and any input bytes: the windows are well formed and the retransmission timeout
      is in range; with a fast-resend threshold of at most 32767, cwnd and incr agree. */
  lemma {:induction false} AlwaysBounded(cfg: Cfg, calls: seq<Call>)
    requires CfgOk(cfg)
    ensures var k := DoAll(cfg, calls);
      && SndBounded(k.snd) && RcvBounded(cfg.rcvWnd, k.rcv)
      && (SmallResend(cfg) ==> Congestion.CcWindow(k.cc, cfg.mss) && k.cc.ssthresh >= 2)
      && cfg.minrto <= k.rtt.rto <= RTO_MAX
  {
    var k := DoAll(cfg, calls);
    hide DoAll, SndOk, RcvOk, SndBounded, RcvBounded, Congestion.CcWindow;
    SndInv(k.snd);
    RcvInv(cfg.rcvWnd, k.rcv);
  }

  lemma {:induction false} Backwards(nxt: nat, sn: nat, d: int)
    requires sn < MOD && U32(nxt - sn) == d
    ensures sn == U32(nxt - d)
  {
    assert nxt - sn == MOD * ((nxt - sn) / MOD) + d;
    ModShift(sn, (nxt - sn) / MOD);
  }

  // ----- one ikcp_input and the congestion window

  lemma {:induction false} ProcessAllCc(m: Arith, s: Inner, segs: seq<Seg>)
    ensures ProcessAll(m, s, segs).kcb.cc == s.kcb.cc
    decreases |segs|
  {
    if segs != [] { ProcessAllCc(m, Process(m, s, segs[0]), segs[1..]); }
  }

  /** However many segments a datagram carries, one ikcp_input never lowers cwnd and raises it by at most 2. */
  lemma {:induction false} InputCwnd(k: Kcb, data: bytes)
    requires KcbOk(Wrap, k) && SmallResend(k.cfg)
    ensures k.cc.cwnd <= Input(Wrap, k, Parse(k.cfg.conv, data)).cc.cwnd <= k.cc.cwnd + 2
    ensures Input(Wrap, k, Parse(k.cfg.conv, data)).cc.ssthresh == k.cc.ssthresh
  {
    var p := Parse(k.cfg.conv, data);
    DecodeReadable(k.cfg.conv, data);
    ProcessAllOk(Wrap, Inner(k, NO_ACK), p.segs);
    ProcessAllCc(Wrap, Inner(k, NO_ACK), p.segs);
    var s := ProcessAll(Wrap, Inner(k, NO_ACK), p.segs);
    ProcessAllCfg(Wrap, Inner(k, NO_ACK), p.segs);
    InputCcOnly(k, p, s);
  }

  lemma {:induction false} InputCcOnly(k: Kcb, p: Parsed, s: Inner)
    requires KcbOk(Wrap, k) && KcbOk(Wrap, s.kcb) && s == ProcessAll(Wrap, Inner(k, NO_ACK), p.segs)
    requires s.kcb.cc == k.cc && s.kcb.cfg == k.cfg && SmallResend(k.cfg)
    ensures k.cc.cwnd <= Input(Wrap, k, p).cc.cwnd <= k.cc.cwnd + 2
    ensures Input(Wrap, k, p).cc.ssthresh == k.cc.ssthresh
  {
    hide ProcessAll, Congestion.CcWindow, Congestion.Grow, SndOk, RcvOk;
    Congestion.OnAckOk(k.cc, s.kcb.prb.rmtWnd, k.cfg.mss);
    if k.cc.cwnd < s.kcb.prb.rmtWnd && k.cc.cwnd >= k.cc.ssthresh { Congestion.GrowOk(k.cc, k.cfg.mss); }
  }

  // ----- retransmission timeouts

  ghost predicate RtoAll(buf: seq<Flight>) {
    forall i :: 0 <= i < |buf| ==> RtoBounded(buf[i]) && Timed(buf[i])
  }

  lemma {:induction false} RtoSub(buf: seq<Flight>, k: nat)
    requires RtoAll(buf) && k <= |buf|
    ensures RtoAll(buf[k..]) && RtoAll(Without(buf, k))
  {
  }

  lemma {:induction false} RtoProcess(m: Arith, s: Inner, q: Seg)
    requires RtoAll(s.kcb.snd.buf)
    ensures RtoAll(Process(m, s, q).kcb.snd.buf)
  {
    hide RtoBounded, Timed, UpdateAck;
    var k := ParseUnaSuffix(m, s.kcb.snd.buf, q.una);
    RtoSub(s.kcb.snd.buf, k);
    var k1 := TakeHeader(m, s.kcb, q);
    var n := RemoveSnOne(m, k1.snd.buf, q.sn);
    RtoSub(k1.snd.buf, n);
  }

  lemma {:induction false} RtoProcessAll(m: Arith, s: Inner, segs: seq<Seg>)
    requires RtoAll(s.kcb.snd.buf)
    ensures RtoAll(ProcessAll(m, s, segs).kcb.snd.buf)
    decreases |segs|
  {
    hide RtoAll;
    if segs != [] {
      RtoProcess(m, s, segs[0]);
      RtoProcessAll(m, Process(m, s, segs[0]), segs[1..]);
    }
  }

  lemma {:induction false} RtoInput(k: Kcb, p: Parsed)
    requires KcbOk(Wrap, k) && RtoAll(k.snd.buf)
    ensures RtoAll(Input(Wrap, k, p).snd.buf)
  {
    RtoProcessAll(Wrap, Inner(k, NO_ACK), p.segs);
    var s := ProcessAll(Wrap, Inner(k, NO_ACK), p.segs);
    SkipSame(Wrap, s.kcb.snd.buf, s.best.maxack, s.best.ts);
    RtoSkip(s.kcb.snd, s.best.maxack, s.best.ts);
  }

  lemma {:induction false} RtoSkip(s: Snd, sn: nat, ts: u32)
    requires RtoAll(s.buf)
    ensures RtoAll(ParseFastack(Wrap, s, sn, ts).buf)
  {
    hide RtoCap;
    SkipSame(Wrap, s.buf, sn, ts);
    var buf := ParseFastack(Wrap, s, sn, ts).buf;
    forall i | 0 <= i < |buf| ensures RtoBounded(buf[i]) && Timed(buf[i]) {
      assert RtoBounded(s.buf[i]) && Timed(s.buf[i]);
    }
  }

  lemma {:induction false} RtoFill(m: Arith, s: Snd, cwnd: nat, current: u32, rto: u32)
    requires RtoAll(s.buf)
    ensures RtoAll(Fill(m, s, cwnd, current, rto).buf)
    decreases |s.queue|
  {
    if Diff(m, s.nxt, Add(m, s.una, cwnd)) < 0 && s.queue != [] {
      RtoFill(m, Numbered(m, s, current, rto), cwnd, current, rto);
    }
  }

  lemma {:induction false} RtoFlush(k: Kcb)
    requires KcbOk(Wrap, k) && RtoAll(k.snd.buf) && k.cfg.nodelay >= 1
    ensures RtoAll(Flush(Wrap, k).snd.buf)
  {
    hide RtoBounded, Timed, Touch, ProbeTick, Congestion.AfterFlush, Count, Died, Fill;
    if k.clk.updated {
      RtoFill(Wrap, k.snd, Window(k), k.clk.current, k.rtt.rto);
      var c, buf := MakeCtx(k), Filled(Wrap, k).buf;
      forall i | 0 <= i < |buf| ensures RtoBounded(Touch(c, buf[i])) && Timed(Touch(c, buf[i])) {
        TouchRto(c, buf[i]);
        TouchTimed(c, buf[i]);
      }
    }
  }

  lemma {:induction false} RtoReached(cfg: Cfg, calls: seq<Call>)
    requires CfgOk(cfg) && cfg.nodelay >= 1
    ensures RtoAll(DoAll(cfg, calls).snd.buf)
  {
    hide RtoAll, Do, KcbOk, CfgOk;
    if calls == [] {
      NoFlights();
    } else {
      RtoReached(cfg, calls[..|calls| - 1]);
      RtoDo(DoAll(cfg, calls[..|calls| - 1]), calls[|calls| - 1]);
    }
  }

  lemma {:induction false} NoFlights()
    ensures RtoAll([])
  {
  }

  ghost predicate RtoPow(f: Flight) {
    1 <= f.xmit <= DEADLINK ==> f.rto * Pow(2, f.xmit - 1) <= RTO_MAX * Pow(3, f.xmit - 1) && f.rto < HALF
  }

  /** With nodelay on, after any calls, every segment sent at most 20 times has rto * 2^(xmit-1) <= 60000 * 3^(xmit-1),
      which is below 2^31. */
  lemma {:induction false} RtoAlways(cfg: Cfg, calls: seq<Call>)
    requires CfgOk(cfg) && cfg.nodelay >= 1
    ensures forall i :: 0 <= i < |DoAll(cfg, calls).snd.buf| ==> RtoPow(DoAll(cfg, calls).snd.buf[i])
  {
    hide DoAll, KcbOk, Pow, RtoCap;
    RtoReached(cfg, calls);
    var buf := DoAll(cfg, calls).snd.buf;
    forall i | 0 <= i < |buf| ensures RtoPow(buf[i]) {
      if 1 <= buf[i].xmit <= DEADLINK { RtoBoundedPow(buf[i]); }
    }
  }

  /** Hence timer comparisons are exact up to the dead-link count: with nodelay on, after any calls, the test of
      ikcp_flush on a segment that was sent at true time `sent` fires exactly from sent + rto on, for every later time
      up to half the clock's range past that point. */
  lemma {:induction false} TimersExact(cfg: Cfg, calls: seq<Call>, i: nat, sent: nat, now: nat)
    requires CfgOk(cfg) && cfg.nodelay >= 1 && i < |DoAll(cfg, calls).snd.buf|
    requires var f := DoAll(cfg, calls).snd.buf[i];
      1 <= f.xmit <= DEADLINK && f.ts == U32(sent) && sent <= now < sent + f.rto + HALF
    ensures var f := DoAll(cfg, calls).snd.buf[i]; TimeDiff(U32(now), f.resendts) >= 0 <==> now >= sent + f.rto
  {
    hide DoAll, KcbOk, RtoCap, Pow, U32, S32;
    RtoReached(cfg, calls);
    var f := DoAll(cfg, calls).snd.buf[i];
    RtoBoundedPow(f);
    TimeoutExact(sent, f.rto, now);
  }

  lemma {:induction false} TouchXmit(c: Ctx, f: Flight)
    requires f.xmit < DEADLINK
    ensures 1 <= Touch(c, f).xmit <= DEADLINK
  {
    hide Backoff, TimeDiff;
  }

  /** The timeouts after one more flush. */
  lemma {:induction false} RtoAfterFlush(cfg: Cfg, calls: seq<Call>)
    requires CfgOk(cfg) && cfg.nodelay >= 1 && XmitBelow(DoAll(cfg, calls).snd.buf, DEADLINK)
    requires DoAll(cfg, calls).clk.updated
    ensures var k1 := Flush(Wrap, DoAll(cfg, calls));
      forall i :: 0 <= i < |k1.snd.buf| ==> 0 < k1.snd.buf[i].rto < HALF
  {
    var k := DoAll(cfg, calls);
    assert (calls + [CallFlush])[..|calls|] == calls;
    assert Flush(Wrap, k) == DoAll(cfg, calls + [CallFlush]);
    RtoReached(cfg, calls + [CallFlush]);
    FlushedParts(Wrap, k);
    FillXmit(Wrap, k.snd, Window(k), k.clk.current, k.rtt.rto, DEADLINK);
    var c, buf, k1 := MakeCtx(k), Filled(Wrap, k).buf, Flush(Wrap, k);
    hide DoAll, Flush, Filled, Touch, RtoCap, MakeCtx;
    forall i | 0 <= i < |k1.snd.buf| ensures 0 < k1.snd.buf[i].rto < HALF {
      assert k1.snd.buf[i] == Touch(c, buf[i]);
      TouchXmit(c, buf[i]);
      RtoBoundedPow(k1.snd.buf[i]);
    }
  }

  /** For every endpoint that any calls can lead to, with nodelay and nocwnd on and no segment at the dead-link count: a
      third flush at the same time emits nothing and changes nothing, and a second one emits nothing if and only if no
      segment is both due and skipped often enough. */
  lemma {:induction false} FlushSettles(cfg: Cfg, calls: seq<Call>)
    requires CfgOk(cfg) && cfg.nodelay >= 1 && cfg.nocwnd
    requires DoAll(cfg, calls).clk.updated && XmitBelow(DoAll(cfg, calls).snd.buf, DEADLINK)
    ensures var k := DoAll(cfg, calls);
      var k2 := Flush(Wrap, Flush(Wrap, k));
      && Flush(Wrap, k2) == k2 && Datagrams(Wrap, k2) == []
      && (Emitted(Wrap, Flush(Wrap, k)) == [] <==>
            forall i :: 0 <= i < |k.snd.buf| ==> !Again(MakeCtx(k), k.snd.buf[i]))
  {
    RtoAfterFlush(cfg, calls);
    var k := DoAll(cfg, calls);
    hide DoAll, Flush, Emitted, KcbOk, Again, Datagrams;
    FlushFixpoint(Wrap, k);
    SecondFlush(Wrap, k);
  }

  lemma {:induction false} RtoDo(k: Kcb, c: Call)
    requires KcbOk(Wrap, k) && RtoAll(k.snd.buf) && k.cfg.nodelay >= 1
    ensures k.cfg.mss > 0 && RtoAll(Do(k, c).snd.buf)
  {
    OkMss(k);
    hide KcbOk, RtoAll, Recv, Flush, Input, Messages.Send;
    match c
    case CallSend(msg) =>
    case CallRecv(len) =>
    case CallInput(data) => RtoInput(k, Parse(k.cfg.conv, data));
    case CallUpdate(t) =>
      var k1 := k.(clk := Tick(k.clk, k.cfg.interval, t).0);
      ClockOk(k, k1.clk);
      RtoFlush(k1);
    case CallFlush => RtoFlush(k);
  }

  // ----- the clock

  /** The arguments of ikcp_update among the calls. */
  function UpdateTimes(calls: seq<Call>): seq<nat> {
    if calls == [] then []
    else
      var c := calls[|calls| - 1];
      UpdateTimes(calls[..|calls| - 1]) + if c.CallUpdate? then [c.current] else []
  }

  /** How many of these calls flushed. */
  function UpdateFlushes(cfg: Cfg, calls: seq<Call>): nat
    requires CfgOk(cfg)
  {
    if calls == [] then 0
    else
      var front, c := calls[..|calls| - 1], calls[|calls| - 1];
      UpdateFlushes(cfg, front)
      + if c.CallUpdate? && Tick(DoAll(cfg, front).clk, cfg.interval, c.current).1 then 1 else 0
  }

  lemma {:induction false} DoClock(k: Kcb, c: Call)
    requires k.cfg.mss > 0
    ensures Do(k, c).clk == if c.CallUpdate? then Tick(k.clk, k.cfg.interval, c.current).0 else k.clk
  {
    hide Tick, Recv, Messages.Send;
    match c
    case CallSend(_) =>
    case CallRecv(_) =>
    case CallInput(data) =>
      var p := Parse(k.cfg.conv, data);
      ProcessAllCfg(Wrap, Inner(k, NO_ACK), p.segs);
    case CallUpdate(t) =>
    case CallFlush =>
  }

  lemma {:induction false} TickAllSnoc(interval: nat, times: seq<nat>, t: u32)
    ensures var before := TickAll(interval, times);
      var (clk, due) := Tick(before.clk, interval, t);
      TickAll(interval, times + [t]) == Ticks(clk, if due then before.flushes + 1 else before.flushes)
  {
    assert (times + [t])[..|times|] == times && U32(t) == t;
  }

  /** Only ikcp_update touches the clock: whatever is called between the updates, the clock is that of the updates
      alone. */
  lemma {:induction false} ClockAlone(cfg: Cfg, calls: seq<Call>)
    requires CfgOk(cfg)
    ensures TickAll(cfg.interval, UpdateTimes(calls)) == Ticks(DoAll(cfg, calls).clk, UpdateFlushes(cfg, calls))
  {
    hide Do, Tick, KcbOk, CfgOk;
    if calls != [] {
      var front, c := calls[..|calls| - 1], calls[|calls| - 1];
      ClockAlone(cfg, front);
      OkMss(DoAll(cfg, front));
      DoClock(DoAll(cfg, front), c);
      assert UpdateTimes(front) + [] == UpdateTimes(front);
      if c.CallUpdate? { TickAllSnoc(cfg.interval, UpdateTimes(front), c.current); }
    }
  }

  lemma {:induction false} TickAllImage(interval: nat, seen: seq<nat>, times: seq<nat>)
    requires |seen| == |times| && forall i :: 0 <= i < |times| ==> seen[i] == U32(times[i])
    ensures TickAll(interval, seen) == TickAll(interval, times)
  {
    hide Tick;
    if times != [] {
      var n := |times| - 1;
      TickAllImage(interval, seen[..n], times[..n]);
      assert U32(seen[n]) == U32(times[n]);
    }
  }

  /** The rate over whole runs: whatever else is called in between, if the calls of ikcp_update see a monotone clock
      then ts_flush stays strictly ahead of it by at most interval, and they flush at most (T - T0) / interval + 1
      times. */
  lemma {:induction false} FlushRateAlways(cfg: Cfg, calls: seq<Call>, times: seq<nat>) returns (next: nat)
    requires CfgOk(cfg) && times != [] && Monotone(times) && |UpdateTimes(calls)| == |times|
    requires forall i :: 0 <= i < |times| ==> UpdateTimes(calls)[i] == U32(times[i])
    ensures var last, clk := times[|times| - 1], DoAll(cfg, calls).clk;
      && clk.updated && clk.current == U32(last) && clk.tsFlush == U32(next) && last < next <= last + cfg.interval
      && times[0] + UpdateFlushes(cfg, calls) * cfg.interval <= last + cfg.interval
  {
    hide TickAll, Tick, DoAll, UpdateFlushes, UpdateTimes, U32, KcbOk;
    ClockAlone(cfg, calls);
    TickAllImage(cfg.interval, UpdateTimes(calls), times);
    next := FlushRate(cfg.interval, times);
  }

  // ----- round-trip samples

  /** The samples one segment gives ikcp_update_ack. */
  function SampleOf(clk: Clock, q: Seg): seq<nat> {
    var d := TimeDiff(clk.current, q.ts);
    if q.cmd.Ack? && d >= 0 then [d] else []
  }

  function SamplesIn(clk: Clock, segs: seq<Seg>): seq<nat>
    decreases |segs|
  {
    if segs == [] then [] else SampleOf(clk, segs[0]) + SamplesIn(clk, segs[1..])
  }

  /** All samples of the calls. */
  function Samples(cfg: Cfg, calls: seq<Call>): seq<nat>
    requires CfgOk(cfg)
  {
    if calls == [] then []
    else
      var front, c := calls[..|calls| - 1], calls[|calls| - 1];
      Samples(cfg, front)
      + if c.CallInput? then SamplesIn(DoAll(cfg, front).clk, Parse(cfg.conv, c.data).segs) else []
  }

  lemma {:induction false} EstimateConcat(r: Rtt, interval: nat, minrto: nat, a: seq<nat>, b: seq<nat>)
    ensures Estimate(r, interval, minrto, a + b) == Estimate(Estimate(r, interval, minrto, a), interval, minrto, b)
  {
    hide UpdateAck;
    if b == [] {
      assert a + b == a;
    } else {
      var n := |b| - 1;
      assert (a + b)[..|a| + n] == a + b[..n];
      EstimateConcat(r, interval, minrto, a, b[..n]);
    }
  }

  lemma {:induction false} ProcessRtt(s: Inner, q: Seg)
    ensures Process(Wrap, s, q).kcb.rtt
      == Estimate(s.kcb.rtt, s.kcb.cfg.interval, s.kcb.cfg.minrto, SampleOf(s.kcb.clk, q))
  {
    hide UpdateAck, S32, TakePush;
    var x := SampleOf(s.kcb.clk, q);
    if x != [] { assert x[..0] == []; }
  }

  lemma {:induction false} ProcessAllRtt(s: Inner, segs: seq<Seg>)
    ensures ProcessAll(Wrap, s, segs).kcb.rtt
         == Estimate(s.kcb.rtt, s.kcb.cfg.interval, s.kcb.cfg.minrto, SamplesIn(s.kcb.clk, segs))
    decreases |segs|
  {
    hide Process, SampleOf, Estimate;
    if segs == [] {
      NoSamples(s.kcb.rtt, s.kcb.cfg.interval, s.kcb.cfg.minrto);
    } else {
      var s' := Process(Wrap, s, segs[0]);
      ProcessRtt(s, segs[0]);
      ProcessAllCfg(Wrap, s, [segs[0]]);
      assert ProcessAll(Wrap, s, [segs[0]]) == s' by { assert [segs[0]][1..] == []; }
      ProcessAllRtt(s', segs[1..]);
      EstimateConcat(s.kcb.rtt, s.kcb.cfg.interval, s.kcb.cfg.minrto, SampleOf(s.kcb.clk, segs[0]),
                     SamplesIn(s.kcb.clk, segs[1..]));
    }
  }

  lemma {:induction false} NoSamples(r: Rtt, interval: nat, minrto: nat)
    ensures Estimate(r, interval, minrto, []) == r
  {
  }

  lemma {:induction false} DoRtt(k: Kcb, c: Call)
    requires k.cfg.mss > 0
    ensures Do(k, c).rtt == Estimate(k.rtt, k.cfg.interval, k.cfg.minrto,
      if c.CallInput? then SamplesIn(k.clk, Parse(k.cfg.conv, c.data).segs) else [])
  {
    hide Tick, Recv, Messages.Send, Estimate, ProcessAll, SamplesIn, Parse;
    NoSamples(k.rtt, k.cfg.interval, k.cfg.minrto);
    match c
    case CallSend(_) =>
    case CallRecv(_) =>
    case CallInput(data) => ProcessAllRtt(Inner(k, NO_ACK), Parse(k.cfg.conv, data).segs);
    case CallUpdate(t) =>
    case CallFlush =>
  }

  /** The rtt members of any endpoint are the estimate of the samples its datagrams gave, in order. */
  lemma {:induction false} RttIsEstimate(cfg: Cfg, calls: seq<Call>)
    requires CfgOk(cfg)
    ensures DoAll(cfg, calls).rtt == Estimate(Rtt(0, 0, RTO_DEF), cfg.interval, cfg.minrto, Samples(cfg, calls))
  {
    if calls != [] {
      var front, c := calls[..|calls| - 1], calls[|calls| - 1];
      var k := DoAll(cfg, front);
      RttIsEstimate(cfg, front);
      OkMss(k);
      hide Do, Estimate, KcbOk, CfgOk, SamplesIn, Parse;
      DoRtt(k, c);
      EstimateConcat(Rtt(0, 0, RTO_DEF), cfg.interval, cfg.minrto, Samples(cfg, front),
                     if c.CallInput? then SamplesIn(k.clk, Parse(cfg.conv, c.data).segs) else []);
      assert Samples(cfg, front) + [] == Samples(cfg, front);
    }
  }

  /** After any calls whose samples lie in [lo, hi], hi < 2^28: rx_srtt lies in [lo, hi] from the first sample on,
      rx_rttval is at most max(hi/2, hi-lo), rx_rto lies in [rx_minrto, 60000]. */
  lemma {:induction false} SamplesAlways(cfg: Cfg, calls: seq<Call>, lo: nat, hi: nat)
    requires CfgOk(cfg) && 1 <= lo <= hi < 0x1000_0000
    requires forall i :: 0 <= i < |Samples(cfg, calls)| ==> lo <= Samples(cfg, calls)[i] <= hi
    ensures var r := DoAll(cfg, calls).rtt;
      && Band(r, lo, hi) && (Samples(cfg, calls) != [] ==> r.srtt != 0) && cfg.minrto <= r.rto <= RTO_MAX
  {
    hide DoAll, Samples, Estimate, KcbOk;
    RttIsEstimate(cfg, calls);
    EstimateBand(cfg.interval, cfg.minrto, Samples(cfg, calls), lo, hi);
  }
}
