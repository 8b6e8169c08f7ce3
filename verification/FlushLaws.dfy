/** Exactly what one ikcp_flush does, told of the control block before and after it: how far it numbers, which segments
    it sends and with what timeout, what it asks and tells the peer, and what becomes of the congestion window. */
module FlushLaws {
  import opened Serial
  import opened Types
  import opened Transmit
  import opened Receive
  import opened Timers
  import opened Endpoint
  import opened Schedule
  import Congestion

  // ----- how far it numbers

  /** The peer's window, the own one and, unless it is switched off, the congestion window: what may be in flight. */
  function Allowed(k: Kcb): int {
    Min(k.cfg.sndWnd, Min(k.prb.rmtWnd, if k.cfg.nocwnd then k.cfg.sndWnd else k.cc.cwnd))
  }

  /** It takes the front of the queue and numbers it: none in flight past any of the windows if it takes any, and one
      of the windows full if it leaves any. */
  predicate Takes(m: Arith, cfg: Cfg, rmtWnd: nat, cwnd: nat, s: Snd, s': Snd) {
    var inflight := Off(m, s'.nxt, s'.una);
    && s'.una == s.una && |s'.queue| <= |s.queue| && s'.queue == s.queue[|s.queue| - |s'.queue|..]
    && inflight == Off(m, s.nxt, s.una) + |s.queue| - |s'.queue|
    && (|s'.queue| < |s.queue| ==>
          inflight <= cfg.sndWnd && inflight <= rmtWnd && (!cfg.nocwnd ==> inflight <= cwnd))
    && (s'.queue != [] ==> inflight >= cfg.sndWnd || inflight >= rmtWnd || (!cfg.nocwnd && inflight >= cwnd))
  }

  /** A flush numbers queued fragments exactly until the smallest of the windows is in flight or none is left. */
  lemma {:induction false} FlushWindow(m: Arith, k: Kcb)
    requires KcbOk(m, k) && k.clk.updated
    ensures Takes(m, k.cfg, k.prb.rmtWnd, k.cc.cwnd, k.snd, Flush(m, k).snd)
  {
    FillOk(m, k.snd, Window(k), k.clk.current, k.rtt.rto);
    FillExtent(m, k.snd, Window(k), k.clk.current, k.rtt.rto);
    WindowIs(m, k);
    FlushedSnd(m, k);
    hide Flush, Fill, Window, KcbOk, SndOk, Off;
  }

  lemma {:induction false} WindowIs(m: Arith, k: Kcb)
    requires KcbOk(m, k)
    ensures 0 <= Window(k) == Allowed(k) <= 65535
  {
  }

  lemma {:induction false} FlushedSnd(m: Arith, k: Kcb)
    requires k.clk.updated
    ensures var s, k' := Filled(m, k), Flush(m, k);
      k'.snd.una == s.una && k'.snd.nxt == s.nxt && k'.snd.queue == s.queue
  {
    hide Fill, Touch, Congestion.AfterFlush, Count, Died, Off, Window;
  }

  // ----- what becomes of a segment

  /** It was sent before and its timeout has passed. */
  predicate TimedOut(k: Kcb, f: Flight) {
    f.xmit > 0 && TimeDiff(k.clk.current, f.resendts) >= 0
  }

  /** It was sent before, is not due, and as many acknowledgements as fast resend asks for have skipped it, unless it
      was sent too often for that. */
  predicate SkippedOften(k: Kcb, f: Flight) {
    && f.xmit > 0 && TimeDiff(k.clk.current, f.resendts) < 0
    && (if k.cfg.fastresend > 0 then f.fastack >= k.cfg.fastresend else f.fastack == MOD - 1)
    && (k.cfg.fastlimit <= 0 || f.xmit <= k.cfg.fastlimit || f.xmit >= HALF)
  }

  /** The time since which it counts as sent, and when it is due. */
  predicate Scheduled(f: Flight, now: u32, delay: int) {
    f.ts == now && f.resendts == U32(now + delay)
  }

  /** A segment of snd_buf before and after. */
  predicate Treated(k: Kcb, f: Flight, f': Flight) {
    && f'.sn == f.sn && f'.frg == f.frg && f'.data == f.data
    && if f.xmit == 0 then
         && f'.xmit == 1 && f'.rto == k.rtt.rto && f'.fastack == f.fastack
         && Scheduled(f', k.clk.current, if k.cfg.nodelay == 0 then k.rtt.rto + k.rtt.rto / 8 else k.rtt.rto)
       else if TimedOut(k, f) then
         && f'.xmit == U32(f.xmit + 1) && f'.fastack == f.fastack
         && (f.rto < 0x4000_0000 ==> BackedOff(k.cfg.nodelay, k.rtt.rto, f.rto, f'.rto))
         && Scheduled(f', k.clk.current, f'.rto)
       else if SkippedOften(k, f) then
         && f'.xmit == U32(f.xmit + 1) && f'.fastack == 0 && f'.rto == f.rto
         && Scheduled(f', k.clk.current, f.rto)
       else f' == f
  }

  lemma {:induction false} DecideIs(m: Arith, k: Kcb, f: Flight)
    requires KcbOk(m, k)
    ensures Decide(MakeCtx(k), f) == if f.xmit == 0 then First else if TimedOut(k, f) then Timeout
                                     else if SkippedOften(k, f) then Fast else Idle
  {
    hide TimeDiff;
  }

  lemma {:induction false} TouchIs(m: Arith, k: Kcb, f: Flight)
    requires KcbOk(m, k)
    ensures Treated(k, f, Touch(MakeCtx(k), f))
  {
    DecideIs(m, k, f);
    RttIs(m, k);
    var c := MakeCtx(k);
    assert c.current == k.clk.current && c.rto == k.rtt.rto && c.nodelay == k.cfg.nodelay;
    if f.rto < 0x4000_0000 { BackoffLaw(c, f.rto); }
    hide KcbOk, Decide, Backoff, BackedOff, TimeDiff, MakeCtx, SkippedOften;
  }

  lemma {:induction false} RttIs(m: Arith, k: Kcb)
    requires KcbOk(m, k)
    ensures k.rtt.rto <= RTO_MAX
  {
  }

  /** What a flush does to each segment in flight and to each fragment it numbers: buf is snd_buf with these behind. */
  lemma {:induction false} FlushSegments(m: Arith, k: Kcb) returns (buf: seq<Flight>)
    requires KcbOk(m, k) && k.clk.updated
    ensures k.snd.buf <= buf && |buf| - |k.snd.buf| == |k.snd.queue| - |Flush(m, k).snd.queue|
    ensures forall i :: |k.snd.buf| <= i < |buf| ==> Unsent(buf[i], k.snd.queue[i - |k.snd.buf|])
    ensures |Flush(m, k).snd.buf| == |buf| && forall i :: 0 <= i < |buf| ==> Treated(k, buf[i], Flush(m, k).snd.buf[i])
    ensures buf == Filled(m, k).buf
  {
    buf := Filled(m, k).buf;
    FilledParts(m, k);
    FlushedSnd(m, k);
    FlushedParts(m, k);
    hide Flush, KcbOk, Filled, Touch, Treated, Unsent, MakeCtx;
    forall i | 0 <= i < |buf| ensures Treated(k, buf[i], Flush(m, k).snd.buf[i]) {
      TouchIs(m, k, buf[i]);
    }
  }

  lemma {:induction false} FilledParts(m: Arith, k: Kcb)
    requires KcbOk(m, k)
    ensures var s := Filled(m, k);
      && k.snd.buf <= s.buf && |s.queue| <= |k.snd.queue| && |s.buf| - |k.snd.buf| == |k.snd.queue| - |s.queue|
      && forall i :: |k.snd.buf| <= i < |s.buf| ==> Unsent(s.buf[i], k.snd.queue[i - |k.snd.buf|])
  {
    WindowIs(m, k);
    FillUnsent(m, k.snd, Window(k), k.clk.current, k.rtt.rto);
    FillOk(m, k.snd, Window(k), k.clk.current, k.rtt.rto);
    hide Fill, Unsent, Window;
  }

  // ----- what it sends

  /** Every segment advertises the room in rcv_queue and the next number expected. */
  predicate Advertises(k: Kcb, q: Seg) {
    q.wnd == Max(k.cfg.rcvWnd - |k.rcv.queue|, 0) && q.una == k.rcv.nxt
  }

  /** A data segment for f. */
  predicate Carries(q: Seg, f: Flight) {
    q.cmd.Push? && q.sn == f.sn && q.frg == f.frg && q.data == f.data && q.ts == f.ts
  }

  predicate Goes(k: Kcb, f: Flight) {
    f.xmit == 0 || TimedOut(k, f) || SkippedOften(k, f)
  }

  lemma {:induction false} DataSegsAre(c: Ctx, wnd: nat, una: nat, buf: seq<Flight>)
    ensures forall i :: 0 <= i < |buf| && Sent(c, buf[i]) ==>
      DataSeg(wnd, una, Touch(c, buf[i])) in DataSegs(c, wnd, una, buf)
    ensures forall q :: q in DataSegs(c, wnd, una, buf) ==>
      exists i :: 0 <= i < |buf| && Sent(c, buf[i]) && q == DataSeg(wnd, una, Touch(c, buf[i]))
  {
    hide Sent, Touch, DataSeg;
    if buf != [] {
      var n := |buf| - 1;
      DataSegsAre(c, wnd, una, buf[..n]);
      assert forall i :: 0 <= i < n ==> buf[..n][i] == buf[i];
      forall q | q in DataSegs(c, wnd, una, buf)
        ensures exists i :: 0 <= i < |buf| && Sent(c, buf[i]) && q == DataSeg(wnd, una, Touch(c, buf[i]))
      {
        if q in DataSegs(c, wnd, una, buf[..n]) {
          var i :| 0 <= i < n && Sent(c, buf[..n][i]) && q == DataSeg(wnd, una, Touch(c, buf[..n][i]));
          assert Sent(c, buf[i]);
        } else {
          assert Sent(c, buf[n]);
        }
      }
    }
  }

  /** The acknowledgements: one for each that is pending, in order, with its number and its time. */
  predicate Acknowledges(acks: seq<AckItem>, out: seq<Seg>) {
    && |acks| <= |out|
    && (forall j :: 0 <= j < |acks| ==> out[j].cmd.Ack? && out[j].sn == acks[j].sn && out[j].ts == acks[j].ts)
    && (forall j :: |acks| <= j < |out| ==> !out[j].cmd.Ack?)
  }

  /** The peer has no window, and the time to ask for it has come. */
  predicate ProbeDue(k: Kcb) {
    k.prb.askSend || (k.prb.rmtWnd == 0 && k.prb.wait > 0 && TimeDiff(k.clk.current, k.prb.ts) >= 0)
  }

  ghost predicate HasCmd(out: seq<Seg>, c: Cmd) {
    exists j :: 0 <= j < |out| && out[j].cmd == c
  }

  /** What a flush sends besides data: an acknowledgement for each pending one with its number and time, a probe if and
      only if the window of the peer is to be asked for, the own window if and only if that is to be told. */
  lemma {:induction false} FlushSignals(m: Arith, k: Kcb)
    requires k.clk.updated
    ensures var out := Emitted(m, k);
      && Acknowledges(k.rcv.acks, out) && (HasCmd(out, Wask) <==> ProbeDue(k)) && (HasCmd(out, Wins) <==> k.prb.askTell)
      && forall j :: 0 <= j < |out| ==> Advertises(k, out[j])
  {
    var wnd := Unused(k.cfg.rcvWnd, k.rcv);
    var p := ProbeTick(k.prb, k.clk.current);
    var acks := AckSegs(wnd, k.rcv.nxt, k.rcv.acks);
    var probes := ProbeSegs(p, wnd, k.rcv.nxt, Leftover(k.rcv.acks));
    var c, buf := MakeCtx(k), Filled(m, k).buf;
    var data := DataSegs(c, wnd, k.rcv.nxt, buf);
    DataSegsAre(c, wnd, k.rcv.nxt, buf);
    ProbeAsks(k);
    hide DataSegs, MakeCtx, Filled, Sent, Touch, ProbeTick, ProbeDue, Congestion.AfterFlush, Count, Died, Window, Off;
    var out := Emitted(m, k);
    assert out == acks + probes + data;
    forall j | |acks| + |probes| <= j < |out| ensures out[j].cmd.Push? && Advertises(k, out[j]) {
      assert out[j] == data[j - |acks| - |probes|] && out[j] in data;
    }
    if p.askSend { assert out[|acks|].cmd == Wask; }
    if p.askTell { assert out[|acks| + |probes| - 1].cmd == Wins; }
  }

  /** What was to be acknowledged, asked and told is done with; the probe timer goes on. */
  lemma {:induction false} FlushProbe(m: Arith, k: Kcb) returns (p: Probe)
    requires KcbOk(m, k) && k.clk.updated
    ensures Flush(m, k).rcv == k.rcv.(acks := [])
    ensures Probed(k.prb, k.clk.current, p) && Flush(m, k).prb == p.(askSend := false, askTell := false)
  {
    p := ProbeTick(k.prb, k.clk.current);
    ProbeLaw(k.prb, k.clk.current);
    hide Probed, MakeCtx, Filled, ProbeTick, Congestion.AfterFlush, Count, Died, Window, Off, Touch;
  }

  /** A receive that opens a shut window makes the next flush tell the peer, with room in every segment it sends. */
  lemma {:induction false} WindowTold(m: Arith, k: Kcb, len: int)
    requires KcbOk(m, k) && k.clk.updated && Unused(k.cfg.rcvWnd, k.rcv) == 0
    requires Unused(k.cfg.rcvWnd, Received(m, k, len).rcv) > 0
    ensures var out := Emitted(m, Received(m, k, len));
      HasCmd(out, Wins) && forall j :: 0 <= j < |out| ==> out[j].wnd > 0
  {
    var c := RecvLaw(m, k.cfg.rcvWnd, k.rcv, len);
    hide KcbOk, RecvCode, Recv, Emitted;
    FlushSignals(m, Received(m, k, len));
  }

  lemma {:induction false} ProbeAsks(k: Kcb)
    ensures ProbeTick(k.prb, k.clk.current).askSend == ProbeDue(k)
    ensures ProbeTick(k.prb, k.clk.current).askTell == k.prb.askTell
  {
    hide TimeDiff;
  }

  lemma {:induction false} EmittedPushes(m: Arith, k: Kcb)
    requires k.clk.updated
    ensures forall q :: q in Emitted(m, k) && q.cmd.Push? <==>
      q in DataSegs(MakeCtx(k), Unused(k.cfg.rcvWnd, k.rcv), k.rcv.nxt, Filled(m, k).buf)
  {
    var wnd := Unused(k.cfg.rcvWnd, k.rcv);
    DataSegsAre(MakeCtx(k), wnd, k.rcv.nxt, Filled(m, k).buf);
    hide DataSegs, MakeCtx, Sent, Touch, ProbeTick, Filled;
  }

  /** A data segment for f is sent. */
  ghost predicate Carried(out: seq<Seg>, f: Flight) {
    exists q :: q in out && Carries(q, f)
  }

  /** The i-th segment behind a flush is one that it numbered, or one that was to be sent. */
  predicate ToSend(k: Kcb, i: nat) {
    i < |k.snd.buf| ==> Goes(k, k.snd.buf[i])
  }

  lemma {:induction false} SentIs(m: Arith, k: Kcb, buf: seq<Flight>, i: nat)
    requires KcbOk(m, k) && k.snd.buf <= buf && i < |buf| && (i >= |k.snd.buf| ==> buf[i].xmit == 0)
    ensures Sent(MakeCtx(k), buf[i]) <==> ToSend(k, i)
  {
    DecideIs(m, k, buf[i]);
    hide KcbOk, MakeCtx, Decide;
  }

  /** The data a flush sends: exactly the segments that are numbered by it, were not sent yet, are due, or were skipped
      often enough, as they are afterwards. */
  lemma {:induction false} FlushData(m: Arith, k: Kcb)
    requires KcbOk(m, k) && k.clk.updated
    ensures var out, b' := Emitted(m, k), Flush(m, k).snd.buf;
      && |k.snd.buf| <= |b'|
      && (forall i :: 0 <= i < |b'| && ToSend(k, i) ==> Carried(out, b'[i]))
      && (forall q :: q in out && q.cmd.Push? ==> exists i :: 0 <= i < |b'| && ToSend(k, i) && Carries(q, b'[i]))
  {
    var buf := FlushSegments(m, k);
    var wnd, c := Unused(k.cfg.rcvWnd, k.rcv), MakeCtx(k);
    DataSegsAre(c, wnd, k.rcv.nxt, buf);
    FlushedParts(m, k);
    EmittedPushes(m, k);
    hide DataSegs, MakeCtx, Touch, Goes, KcbOk, Flush, Filled, Emitted, Treated, Sent, ToSend;
    var out, b' := Emitted(m, k), Flush(m, k).snd.buf;
    forall i | 0 <= i < |b'| ensures Sent(c, buf[i]) <==> ToSend(k, i) { SentIs(m, k, buf, i); }
    forall i | 0 <= i < |b'| ensures b'[i] == Touch(c, buf[i]) { }
    forall i | 0 <= i < |b'| && ToSend(k, i) ensures Carried(out, b'[i]) {
      assert DataSeg(wnd, k.rcv.nxt, Touch(c, buf[i])) in out;
    }
    forall q | q in out && q.cmd.Push? ensures exists i :: 0 <= i < |b'| && ToSend(k, i) && Carries(q, b'[i]) {
      var i :| 0 <= i < |buf| && Sent(c, buf[i]) && q == DataSeg(wnd, k.rcv.nxt, Touch(c, buf[i]));
      assert ToSend(k, i) && Carries(q, b'[i]);
    }
  }

  /** Numbers strictly increasing, below lim. */
  ghost predicate Rising(m: Arith, base: nat, lim: int, d: seq<Seg>) {
    && (forall j :: 0 <= j < |d| ==> Off(m, d[j].sn, base) < lim)
    && (forall j, l :: 0 <= j < l < |d| ==> Off(m, d[j].sn, base) < Off(m, d[l].sn, base))
  }

  lemma {:induction false} RisingSnoc(m: Arith, base: nat, lim: int, d: seq<Seg>, q: Seg)
    requires Rising(m, base, Off(m, q.sn, base), d) && Off(m, q.sn, base) < lim
    ensures Rising(m, base, lim, d) && Rising(m, base, lim, d + [q])
  {
    hide Off;
  }

  lemma {:induction false} DataSegsAscend(m: Arith, base: nat, lim: int, c: Ctx, wnd: nat, una: nat, buf: seq<Flight>)
    requires Ordered(m, base, lim, buf)
    ensures Rising(m, base, lim, DataSegs(c, wnd, una, buf))
    decreases |buf|
  {
    if buf != [] {
      var n := |buf| - 1;
      DataSegsAscend(m, base, Off(m, buf[n].sn, base), c, wnd, una, buf[..n]);
      var q := DataSeg(wnd, una, Touch(c, buf[n]));
      assert q.sn == buf[n].sn && Off(m, q.sn, base) < lim;
      hide Rising, Off;
      RisingSnoc(m, base, lim, DataSegs(c, wnd, una, buf[..n]), q);
    }
  }

  /** The data segments go in the order of their numbers, none twice. */
  ghost predicate InSequence(m: Arith, base: nat, out: seq<Seg>) {
    forall j, l :: 0 <= j < l < |out| && out[j].cmd.Push? && out[l].cmd.Push? ==>
      Off(m, out[j].sn, base) < Off(m, out[l].sn, base)
  }

  lemma {:induction false} TailRising(m: Arith, base: nat, lim: int, out: seq<Seg>, n: nat)
    requires n <= |out| && Rising(m, base, lim, out[n..]) && forall j :: 0 <= j < n ==> !out[j].cmd.Push?
    ensures InSequence(m, base, out)
  {
    hide Off;
    forall j, l | 0 <= j < l < |out| && out[j].cmd.Push? && out[l].cmd.Push?
      ensures Off(m, out[j].sn, base) < Off(m, out[l].sn, base)
    {
      assert out[j] == out[n..][j - n] && out[l] == out[n..][l - n];
    }
  }

  /** No segment is sent twice in one flush, and they go in the order of their numbers. */
  lemma {:induction false} FlushOrder(m: Arith, k: Kcb)
    requires KcbOk(m, k) && k.clk.updated
    ensures InSequence(m, k.snd.una, Emitted(m, k))
  {
    var wnd, s := Unused(k.cfg.rcvWnd, k.rcv), Filled(m, k);
    FilledOk(m, k);
    FilledUna(m, k);
    EmittedHead(m, k);
    var lim := Off(m, s.nxt, k.snd.una);
    DataSegsAscend(m, k.snd.una, lim, MakeCtx(k), wnd, k.rcv.nxt, s.buf);
    hide KcbOk, Emitted, DataSegs, Filled, MakeCtx, Rising, InSequence, SndOk;
    TailRising(m, k.snd.una, lim, Emitted(m, k), |Emitted(m, k)| - |DataSegs(MakeCtx(k), wnd, k.rcv.nxt, s.buf)|);
  }

  lemma {:induction false} EmittedHead(m: Arith, k: Kcb)
    requires k.clk.updated
    ensures var out, d := Emitted(m, k), DataSegs(MakeCtx(k), Unused(k.cfg.rcvWnd, k.rcv), k.rcv.nxt, Filled(m, k).buf);
      var n := |out| - |d|;
      n >= 0 && out[n..] == d && forall j :: 0 <= j < n ==> !out[j].cmd.Push?
  {
    hide DataSegs, MakeCtx, Filled, ProbeTick;
  }

  lemma {:induction false} FilledUna(m: Arith, k: Kcb)
    requires KcbOk(m, k)
    ensures Filled(m, k).una == k.snd.una && 0 <= Off(m, Filled(m, k).nxt, k.snd.una) <= 65535
  {
    WindowIs(m, k);
    FillOk(m, k.snd, Window(k), k.clk.current, k.rtt.rto);
    hide Fill, Window, Ordered;
  }

  // ----- what it makes of losses

  ghost predicate Lost(k: Kcb) {
    exists i :: 0 <= i < |k.snd.buf| && TimedOut(k, k.snd.buf[i])
  }

  ghost predicate Overtaken(k: Kcb) {
    exists i :: 0 <= i < |k.snd.buf| && SkippedOften(k, k.snd.buf[i])
  }

  lemma {:induction false} CountPositive(c: Ctx, a: Reason, buf: seq<Flight>)
    ensures Count(c, a, buf) > 0 <==> exists i :: 0 <= i < |buf| && Decide(c, buf[i]) == a
  {
    hide Decide;
    if buf != [] {
      var n := |buf| - 1;
      CountPositive(c, a, buf[..n]);
      assert forall i :: 0 <= i < n ==> buf[..n][i] == buf[i];
      if Count(c, a, buf[..n]) > 0 {
        var i :| 0 <= i < n && Decide(c, buf[..n][i]) == a;
        assert Decide(c, buf[i]) == a;
      }
    }
  }

  /** The congestion window behind a flush. */
  predicate CcAfter(k: Kcb, inflight: int, lost: bool, overtaken: bool, cc: Cc) {
    if lost then Congestion.CcIs(cc, 1, k.cfg.mss, Max(Allowed(k) / 2, THRESH_MIN))
    else if overtaken then
      1 <= k.cfg.fastresend <= 32767 ==>
        var half := Max(inflight / 2, THRESH_MIN);
        Congestion.CcIs(cc, half + k.cfg.fastresend, (half + k.cfg.fastresend) * k.cfg.mss, half)
    else if k.cc.cwnd >= 1 then cc == k.cc
    else Congestion.CcIs(cc, 1, k.cfg.mss, k.cc.ssthresh)
  }

  lemma {:induction false} LostIs(m: Arith, k: Kcb, buf: seq<Flight>)
    requires KcbOk(m, k) && k.snd.buf <= buf && forall i :: |k.snd.buf| <= i < |buf| ==> buf[i].xmit == 0
    ensures Count(MakeCtx(k), Timeout, buf) > 0 <==> Lost(k)
    ensures Count(MakeCtx(k), Fast, buf) > 0 <==> Overtaken(k)
  {
    var c := MakeCtx(k);
    CountPositive(c, Timeout, buf);
    CountPositive(c, Fast, buf);
    forall i | 0 <= i < |buf|
      ensures Decide(c, buf[i]) == Timeout <==> i < |k.snd.buf| && TimedOut(k, k.snd.buf[i])
      ensures Decide(c, buf[i]) == Fast <==> i < |k.snd.buf| && SkippedOften(k, k.snd.buf[i])
    {
      DecideIs(m, k, buf[i]);
      hide KcbOk, Decide, MakeCtx, Count;
    }
    hide KcbOk, Decide, MakeCtx, Count, TimedOut, SkippedOften;
  }

  /** A timeout takes cwnd down to one segment and ssthresh to half of what might have been in flight; a fast resend
      without one takes ssthresh to half of what is in flight, and cwnd as many segments above it as skips were asked
      for; otherwise both stay. */
  lemma {:induction false} FlushCongestion(m: Arith, k: Kcb)
    requires KcbOk(m, k) && k.clk.updated
    ensures var k' := Flush(m, k); CcAfter(k, Off(m, k'.snd.nxt, k'.snd.una), Lost(k), Overtaken(k), k'.cc)
  {
    var buf := FlushSegments(m, k);
    LostIs(m, k, buf);
    WindowIs(m, k);
    FilledUna(m, k);
    FlushedSnd(m, k);
    FlushedCc(m, k);
    var inflight := Off(m, Flush(m, k).snd.nxt, Flush(m, k).snd.una);
    SmallU32(inflight);
    SmallU32(Window(k));
    ResentIs(m, k);
    CfgMss(m, k);
    Congestion.AfterFlushLaw(k.cc, Overtaken(k), Lost(k), U32(inflight), MakeCtx(k).resent, U32(Window(k)), k.cfg.mss);
    hide KcbOk, Flush, Filled, Count, MakeCtx, Window, Congestion.AfterFlush, Lost, Overtaken, Off, U32, Treated,
         Unsent;
  }

  lemma {:induction false} SmallU32(x: int)
    requires 0 <= x <= 65535
    ensures U32(x) == x
  {
  }

  lemma {:induction false} CfgMss(m: Arith, k: Kcb)
    requires KcbOk(m, k)
    ensures 26 <= k.cfg.mss <= 65511
  {
  }

  lemma {:induction false} ResentIs(m: Arith, k: Kcb)
    requires KcbOk(m, k)
    ensures k.cfg.fastresend > 0 ==> MakeCtx(k).resent == k.cfg.fastresend
  {
  }

  lemma {:induction false} FlushedCc(m: Arith, k: Kcb)
    requires k.clk.updated
    ensures var s, c, k' := Filled(m, k), MakeCtx(k), Flush(m, k);
      k'.cc == Congestion.AfterFlush(k.cc, Count(c, Fast, s.buf) > 0, Count(c, Timeout, s.buf) > 0,
                                     U32(Off(m, s.nxt, s.una)), c.resent, U32(Window(k)), k.cfg.mss)
      && k'.xmit == U32(k.xmit + Count(c, Timeout, s.buf)) && (k'.dead <==> k.dead || Died(c, k.cfg.deadLink, s.buf))
  {
    hide Filled, MakeCtx, Congestion.AfterFlush, Count, Died, Off, Window, Touch, ProbeTick;
  }

  // ----- the counters

  /** How many of the first n segments time out. */
  ghost function Timeouts(k: Kcb, n: nat): set<int>
    requires n <= |k.snd.buf|
  {
    set i | 0 <= i < n && TimedOut(k, k.snd.buf[i])
  }

  lemma {:induction false} NoTimeouts(k: Kcb)
    ensures |Timeouts(k, 0)| == 0
  {
    assert Timeouts(k, 0) == {};
  }

  lemma {:induction false} OneMoreTimeout(k: Kcb, n: nat)
    requires 0 < n <= |k.snd.buf|
    ensures |Timeouts(k, n)| == |Timeouts(k, n - 1)| + if TimedOut(k, k.snd.buf[n - 1]) then 1 else 0
  {
    hide TimedOut;
    assert Timeouts(k, n) == Timeouts(k, n - 1) + if TimedOut(k, k.snd.buf[n - 1]) then {n - 1} else {};
  }

  lemma {:induction false} CountTimeouts(m: Arith, k: Kcb, n: nat)
    requires KcbOk(m, k) && n <= |k.snd.buf|
    ensures Count(MakeCtx(k), Timeout, k.snd.buf[..n]) == |Timeouts(k, n)|
  {
    hide KcbOk, Timeouts, Decide, MakeCtx, TimeDiff, SkippedOften;
    if n == 0 {
      NoTimeouts(k);
    } else {
      CountTimeouts(m, k, n - 1);
      var b := k.snd.buf;
      assert b[..n][..n - 1] == b[..n - 1];
      DecideIs(m, k, b[n - 1]);
      OneMoreTimeout(k, n);
    }
  }

  lemma {:induction false} CountUnsent(m: Arith, k: Kcb, buf: seq<Flight>)
    requires KcbOk(m, k) && k.snd.buf <= buf && forall i :: |k.snd.buf| <= i < |buf| ==> buf[i].xmit == 0
    ensures Count(MakeCtx(k), Timeout, buf) == |Timeouts(k, |k.snd.buf|)|
  {
    if |buf| == |k.snd.buf| {
      CountTimeouts(m, k, |buf|);
      assert k.snd.buf[..|buf|] == buf;
    } else {
      CountUnsent(m, k, buf[..|buf| - 1]);
      DecideIs(m, k, buf[|buf| - 1]);
    }
  }

  /** The control block counts its timeouts, and is dead from the first segment on that is sent dead_link times. */
  lemma {:induction false} FlushCounts(m: Arith, k: Kcb)
    requires KcbOk(m, k) && k.clk.updated
    ensures var k' := Flush(m, k);
      && k'.xmit == U32(k.xmit + |Timeouts(k, |k.snd.buf|)|)
      && (k'.dead <==>
            k.dead || exists i :: 0 <= i < |k'.snd.buf| && ToSend(k, i) && k'.snd.buf[i].xmit >= k.cfg.deadLink)
  {
    var buf := FlushSegments(m, k);
    FlushedCc(m, k);
    FlushedParts(m, k);
    CountUnsent(m, k, buf);
    var c, k' := MakeCtx(k), Flush(m, k);
    hide KcbOk, Flush, Filled, Count, MakeCtx, Touch, Timeouts, ToSend, Sent, Treated, Goes;
    forall i | 0 <= i < |buf| ensures Sent(c, buf[i]) <==> ToSend(k, i) { SentIs(m, k, buf, i); }
    forall i | 0 <= i < |buf| ensures k'.snd.buf[i] == Touch(c, buf[i]) { }
  }

  // ----- one timeout after the other

  /** ikcp_update at these times, with nothing in between. */
  function Updates(m: Arith, k: Kcb, times: seq<u32>): Kcb {
    if times == [] then k else Update(m, Updates(m, k, times[..|times| - 1]), times[|times| - 1])
  }

  /** ikcp_update at time t flushes, and the i-th segment in flight has timed out by then. */
  predicate Expires(k: Kcb, i: nat, t: u32) {
    && Tick(k.clk, k.cfg.interval, t).1 && i < |k.snd.buf| && k.snd.buf[i].xmit > 0
    && TimeDiff(t, k.snd.buf[i].resendts) >= 0
  }

  predicate ExpiresEach(m: Arith, k: Kcb, i: nat, times: seq<u32>) {
    forall n :: 0 <= n < |times| ==> Expires(Updates(m, k, times[..n]), i, times[n])
  }

  lemma {:induction false} OneTimeout(m: Arith, k: Kcb, i: nat, t: u32)
    requires KcbOk(m, k) && Expires(k, i, t)
    ensures var k' := Update(m, k, t);
      && KcbOk(m, k') && k'.cfg == k.cfg && k'.rtt == k.rtt && i < |k'.snd.buf|
      && var f, f' := k.snd.buf[i], k'.snd.buf[i];
         && f'.sn == f.sn && f'.xmit == U32(f.xmit + 1) && f'.resendts == U32(t + f'.rto)
         && (f.rto < 0x4000_0000 ==> BackedOff(k.cfg.nodelay, k.rtt.rto, f.rto, f'.rto))
  {
    hide KcbOk, Flush;
    UpdateOk(m, k, t);
    var k1 := k.(clk := Tick(k.clk, k.cfg.interval, t).0);
    AnyClockOk(m, k, k1.clk);
    UpdateIsFlush(m, k, t);
    hide Tick, Update;
    var buf := FlushSegments(m, k1);
    assert buf[i] == k.snd.buf[i];
    assert TimedOut(k1, buf[i]);
    assert Treated(k1, buf[i], Flush(m, k1).snd.buf[i]);
    FlushSame(m, k1);
  }

  lemma {:induction false} UpdateIsFlush(m: Arith, k: Kcb, t: u32)
    requires Tick(k.clk, k.cfg.interval, t).1
    ensures var clk := Tick(k.clk, k.cfg.interval, t).0;
      clk.current == t && clk.updated && Update(m, k, t) == Flush(m, k.(clk := clk))
  {
    hide Flush;
  }

  lemma {:induction false} AnyClockOk(m: Arith, k: Kcb, clk: Clock)
    requires KcbOk(m, k)
    ensures KcbOk(m, k.(clk := clk))
  {
  }

  /** Before the first ikcp_update a flush does nothing. */
  lemma {:induction false} NoFlush(m: Arith, k: Kcb)
    requires !k.clk.updated
    ensures Flush(m, k) == k && Emitted(m, k) == []
  {
  }

  lemma {:induction false} FlushSame(m: Arith, k: Kcb)
    ensures Flush(m, k).cfg == k.cfg && Flush(m, k).rtt == k.rtt && Flush(m, k).clk == k.clk
  {
    hide Filled, MakeCtx, Congestion.AfterFlush, Count, Died, Off, Window, Touch, ProbeTick;
  }

  /** The lower counterpart of the bound on rto: n timeouts in a row with nodelay 1 multiply it by (3/2)^n, but for the
      rounding; from nodelay 2 on each adds half of rx_rto. */
  predicate Grown(nodelay: nat, rx: int, n: nat, rto: int, rto': int) {
    if nodelay == 1 then Pow(3, n) * (rto - 1) <= Pow(2, n) * (rto' - 1) else 2 * rto + n * (rx - 1) <= 2 * rto'
  }

  lemma {:induction false} GrownStep(nodelay: nat, rx: int, n: nat, rto: int, a: int, b: int)
    requires nodelay >= 1 && Grown(nodelay, rx, n, rto, a) && BackedOff(nodelay, rx, a, b)
    ensures Grown(nodelay, rx, n + 1, rto, b)
  {
    if nodelay == 1 {
      var p, q, x, y := Pow(3, n), Pow(2, n), rto - 1, a - 1;
      assert 3 * y <= 2 * (b - 1);
      MulMono(3 * y, 2 * (b - 1), q);
      Triples(p, q, x, y, b - 1);
    } else {
      assert (n + 1) * (rx - 1) == n * (rx - 1) + (rx - 1);
    }
  }

  lemma {:induction false} Triples(p: int, q: int, x: int, y: int, z: int)
    requires p * x <= q * y && 3 * y * q <= 2 * z * q
    ensures 3 * p * x <= 2 * q * z
  {
    assert 3 * p * x == 3 * (p * x) && 3 * y * q == 3 * (q * y) && 2 * z * q == 2 * q * z;
  }

  /** The i-th segment n timeouts later. */
  ghost predicate Outlasted(m: Arith, k: Kcb, i: nat, n: nat, k': Kcb) {
    && KcbOk(m, k') && k'.cfg == k.cfg && k'.rtt == k.rtt && i < |k.snd.buf| && i < |k'.snd.buf|
    && var f, f' := k.snd.buf[i], k'.snd.buf[i];
       && f'.sn == f.sn && f'.xmit == f.xmit + n && RtoBounded(f')
       && Grown(k.cfg.nodelay, k.rtt.rto, n, f.rto, f'.rto)
  }

  lemma {:induction false} OutlastsOne(m: Arith, k: Kcb, i: nat, n: nat, k': Kcb, t: u32)
    requires Outlasted(m, k, i, n, k') && k.cfg.nodelay >= 1 && Expires(k', i, t)
    requires 1 <= k'.snd.buf[i].xmit < DEADLINK
    ensures Outlasted(m, k, i, n + 1, Update(m, k', t))
    ensures Update(m, k', t).snd.buf[i].resendts == U32(t + Update(m, k', t).snd.buf[i].rto)
  {
    hide KcbOk, Update, Expires, RtoBounded, Grown, BackedOff;
    OneTimeout(m, k', i, t);
    StillBounded(m, k', i, t);
    var f, f1, f2 := k.snd.buf[i], k'.snd.buf[i], Update(m, k', t).snd.buf[i];
    GrownStep(k.cfg.nodelay, k.rtt.rto, n, f.rto, f1.rto, f2.rto);
    assert U32(f1.xmit + 1) == f1.xmit + 1;
  }

  /** While the peer is silent the timeout of a segment grows with each transmission: never faster than the bound of
      RtoBounded, and never slower than this, up to the dead-link count. */
  lemma {:induction false} TimeoutsGrow(m: Arith, k: Kcb, i: nat, times: seq<u32>)
    requires KcbOk(m, k) && k.cfg.nodelay >= 1 && i < |k.snd.buf| && ExpiresEach(m, k, i, times)
    requires RtoBounded(k.snd.buf[i]) && 1 <= k.snd.buf[i].xmit && k.snd.buf[i].xmit + |times| <= DEADLINK
    ensures var k' := Updates(m, k, times);
      && Outlasted(m, k, i, |times|, k')
      && (times != [] ==> k'.snd.buf[i].resendts == U32(times[|times| - 1] + k'.snd.buf[i].rto))
  {
    hide KcbOk, Update, Expires, RtoBounded;
    var n := |times|;
    if n > 0 {
      var front, t := times[..n - 1], times[n - 1];
      assert forall j :: 0 <= j < n - 1 ==> front[..j] == times[..j];
      TimeoutsGrow(m, k, i, front);
      assert Expires(Updates(m, k, times[..n - 1]), i, times[n - 1]);
      assert Updates(m, k, times) == Update(m, Updates(m, k, front), t);
      assert Updates(m, k, front).snd.buf[i].xmit < DEADLINK;
      hide Outlasted, ExpiresEach, Updates;
      OutlastsOne(m, k, i, n - 1, Updates(m, k, front), t);
    }
  }

  lemma {:induction false} StillBounded(m: Arith, k: Kcb, i: nat, t: u32)
    requires KcbOk(m, k) && k.cfg.nodelay >= 1 && Expires(k, i, t) && RtoBounded(k.snd.buf[i])
    requires 1 <= k.snd.buf[i].xmit < DEADLINK
    ensures i < |Update(m, k, t).snd.buf| && RtoBounded(Update(m, k, t).snd.buf[i])
    ensures k.snd.buf[i].rto < 0x4000_0000
  {
    hide KcbOk, Flush, RtoCap;
    var f, k1 := k.snd.buf[i], k.(clk := Tick(k.clk, k.cfg.interval, t).0);
    RtoCapMono(f.xmit, 20);
    RtoCapAtDeadLink();
    AnyClockOk(m, k, k1.clk);
    UpdateIsFlush(m, k, t);
    RttPositive(m, k);
    hide Tick, Update, Expires, RtoBounded;
    var buf := FlushSegments(m, k1);
    assert buf[i] == f;
    FlushedParts(m, k1);
    TouchRto(MakeCtx(k1), f);
  }

  lemma {:induction false} RttPositive(m: Arith, k: Kcb)
    requires KcbOk(m, k)
    ensures 0 < k.rtt.rto <= RTO_MAX
  {
  }
}
