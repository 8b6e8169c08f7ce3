/** The flush timer: how often ikcp_update flushes, what ikcp_check promises, and when flushing again is idle. */
module Schedule {
  import opened Serial
  import opened Types
  import opened Transmit
  import opened Receive
  import opened Timers
  import opened Endpoint
  import Congestion

  // ----- how often ikcp_update flushes

  /** Calls of ikcp_update at true times; the endpoint sees them modulo 2^32. */
  predicate Monotone(times: seq<nat>) {
    forall i :: 0 < i < |times| ==> times[i - 1] <= times[i] < times[i - 1] + HALF
  }

  datatype Ticks = Ticks(clk: Clock, flushes: nat)

  function TickAll(interval: nat, times: seq<nat>): Ticks {
    if times == [] then Ticks(Clock(0, INTERVAL, false), 0)
    else
      var t := TickAll(interval, times[..|times| - 1]);
      var (clk, due) := Tick(t.clk, interval, U32(times[|times| - 1]));
      Ticks(clk, if due then t.flushes + 1 else t.flushes)
  }

  /** ts_flush as a true time: strictly ahead of the last call by at most interval, and each flush moved it on by at
      least interval since the first call. */
  ghost predicate FlushTime(t: Ticks, interval: nat, first: nat, last: nat, next: nat) {
    && t.clk.updated && t.clk.current == U32(last) && t.clk.tsFlush == U32(next)
    && last < next <= last + interval
    && first + t.flushes * interval <= next
  }

  /** One call of ikcp_update: it flushes when ts_flush has come or the clock has jumped by ten seconds, and then sets
      ts_flush one interval on; it keeps the beat of ts_flush unless it is late by a whole interval or more. */
  predicate OnBeat(c: Clock, interval: nat, current: u32, c': Clock, due: bool) {
    var slap := if c.updated then TimeDiff(current, c.tsFlush) else 0;
    && c'.current == current && c'.updated && (due <==> slap >= 0 || slap < -10000)
    && c'.tsFlush == if !due then c.tsFlush
                     else if c.updated && 0 <= slap < interval then U32(c.tsFlush + interval)
                     else U32(current + interval)
  }

  lemma {:induction false} TickLaw(c: Clock, interval: nat, current: u32)
    requires 10 <= interval <= 5000
    ensures OnBeat(c, interval, current, Tick(c, interval, current).0, Tick(c, interval, current).1)
  {
    var start := if c.updated then c.tsFlush else current;
    var slap := TimeDiff(current, start);
    if 0 <= slap < 10000 { TimeAhead(current, start, interval); }
    if slap >= 10000 || slap < -10000 { TimeAhead(current, current, interval); }
  }

  lemma {:induction false} TimeAhead(current: u32, ts: u32, interval: nat)
    requires 10 <= interval <= 5000 && 0 <= TimeDiff(current, ts) < 10000
    ensures TimeDiff(current, U32(ts + interval)) == TimeDiff(current, ts) - interval
  {
    var d := TimeDiff(current, ts);
    assert current - ts == MOD * ((current - ts) / MOD) + d;
    assert ts + interval == MOD * ((ts + interval) / MOD) + U32(ts + interval);
    ModShift(d - interval, (current - ts) / MOD + (ts + interval) / MOD);
  }

  lemma {:induction false} TickExact(c: Clock, interval: nat, last: nat, next: nat, now: nat) returns (next': nat)
    requires c.updated && c.tsFlush == U32(next) && 10 <= interval <= 5000
    requires last < next <= last + interval && last <= now < last + HALF
    ensures var (clk, due) := Tick(c, interval, U32(now));
      && clk.updated && clk.current == U32(now) && clk.tsFlush == U32(next')
      && (due <==> now >= next)
      && (if due then next' >= next + interval else next' == next)
      && now < next' <= now + interval
  {
    ImageDiffExact(now, next);
    if now >= next {
      ImageAdd(next, interval);
      ImageAdd(now, interval);
      ImageDiffExact(now, next + interval);
      ImageDiffExact(now, now + interval);
      next' := if now - next >= 10000 then now + interval
               else if now >= next + interval then now + interval else next + interval;
    } else {
      next' := next;
    }
  }

  lemma {:induction false} NextTick(t: Ticks, interval: nat, first: nat, last: nat, next: nat, now: nat)
    returns (next': nat)
    requires 10 <= interval <= 5000 && FlushTime(t, interval, first, last, next) && last <= now < last + HALF
    ensures var (clk, due) := Tick(t.clk, interval, U32(now));
      FlushTime(Ticks(clk, if due then t.flushes + 1 else t.flushes), interval, first, now, next')
  {
    next' := TickExact(t.clk, interval, last, next, now);
    hide Tick, U32;
    assert (t.flushes + 1) * interval == t.flushes * interval + interval;
  }

  /** Over every run of calls with a monotone clock: ts_flush stays strictly ahead of the clock by at most interval,
      and the number of flushes is at most (T - T0) / interval + 1. */
  lemma {:induction false} FlushRate(interval: nat, times: seq<nat>) returns (next: nat)
    requires 10 <= interval <= 5000 && Monotone(times) && times != []
    ensures FlushTime(TickAll(interval, times), interval, times[0], times[|times| - 1], next)
    ensures times[0] + TickAll(interval, times).flushes * interval <= times[|times| - 1] + interval
  {
    hide Tick, U32;
    var n := |times| - 1;
    if n == 0 {
      FirstTick(interval, times[0]);
      next := times[0] + interval;
      assert TickAll(interval, times[..0]) == Ticks(Clock(0, INTERVAL, false), 0);
    } else {
      var next0 := FlushRate(interval, times[..n]);
      assert times[n - 1] <= times[n];
      next := NextTick(TickAll(interval, times[..n]), interval, times[0], times[n - 1], next0, times[n]);
    }
  }

  lemma {:induction false} FirstTick(interval: nat, now: nat)
    requires 10 <= interval <= 5000
    ensures Tick(Clock(0, INTERVAL, false), interval, U32(now)) ==
            (Clock(U32(now), U32(now + interval), true), true)
  {
    ImageAdd(now, interval);
    ImageDiffExact(now, now + interval);
  }

  // ----- ikcp_check

  lemma {:induction false} NextResendBound(buf: seq<Flight>, current: u32)
    ensures NextResend(buf, current).In? ==>
      && 0 < NextResend(buf, current).ms <= 0x7fff_ffff
      && forall i :: 0 <= i < |buf| ==> 0 < NextResend(buf, current).ms <= TimeDiff(buf[i].resendts, current)
  {
    if buf != [] { NextResendBound(buf[..|buf| - 1], current); }
  }

  /** The delay ikcp_check returns is at most the interval, the time to the next flush, and the time to every pending
      retransmission. */
  lemma {:induction false} CheckBounds(k: Kcb, current: u32)
    requires k.clk.updated && CfgOk(k.cfg) && Check(k, current) != current
    ensures var d := U32(Check(k, current) - current);
      && 0 < d <= k.cfg.interval && d <= TimeDiff(k.clk.tsFlush, current)
      && forall i :: 0 <= i < |k.snd.buf| ==> d <= TimeDiff(k.snd.buf[i].resendts, current)
  {
    NextResendBound(k.snd.buf, current);
    var ms := NextResend(k.snd.buf, current).ms;
    CheckDelay(k, current, ms);
    hide Check, U32, S32, NextResend;
  }

  lemma {:induction false} NextResendAttained(buf: seq<Flight>, current: u32)
    ensures NextResend(buf, current).In? ==>
      NextResend(buf, current).ms == 0x7fff_ffff
      || exists i :: 0 <= i < |buf| && NextResend(buf, current).ms == TimeDiff(buf[i].resendts, current)
  {
    if buf != [] && NextResend(buf, current).In? {
      var n := |buf| - 1;
      NextResendAttained(buf[..n], current);
      hide TimeDiff;
      var ms, before := NextResend(buf, current).ms, NextResend(buf[..n], current).ms;
      if ms == TimeDiff(buf[n].resendts, current) {
      } else if before != 0x7fff_ffff {
        var i :| 0 <= i < n && before == TimeDiff(buf[..n][i].resendts, current);
        assert ms == TimeDiff(buf[i].resendts, current);
      }
    }
  }

  /** And it is one of them: the delay is exactly the smallest. */
  lemma {:induction false} CheckAttained(k: Kcb, current: u32)
    requires k.clk.updated && CfgOk(k.cfg) && Check(k, current) != current
    ensures var d := U32(Check(k, current) - current);
      || d == k.cfg.interval || d == TimeDiff(k.clk.tsFlush, current)
      || exists i :: 0 <= i < |k.snd.buf| && d == TimeDiff(k.snd.buf[i].resendts, current)
  {
    NextResendBound(k.snd.buf, current);
    NextResendAttained(k.snd.buf, current);
    var ms := NextResend(k.snd.buf, current).ms;
    CheckDelay(k, current, ms);
    hide Check, U32, S32, NextResend;
  }

  lemma {:induction false} CheckDelay(k: Kcb, current: u32, ms: int)
    requires CfgOk(k.cfg) && 0 < ms && 0 < TimeDiff(k.clk.tsFlush, current)
    ensures var e := Min(Min(ms, TimeDiff(k.clk.tsFlush, current)), k.cfg.interval);
            0 < e && U32(U32(current + e) - current) == e
  {
    var e := Min(Min(ms, TimeDiff(k.clk.tsFlush, current)), k.cfg.interval);
    ModShift(e, -((current + e) / MOD));
    assert current + e == MOD * ((current + e) / MOD) + U32(current + e);
  }

  /** A tick before ts_flush only moves the clock. */
  lemma {:induction false} QuietTick(k: Kcb, current: u32, delay: nat)
    requires k.clk.updated && CfgOk(k.cfg) && Check(k, current) != current
    requires delay < U32(Check(k, current) - current)
    ensures Tick(k.clk, k.cfg.interval, U32(current + delay)) == (k.clk.(current := U32(current + delay)), false)
  {
    CheckBounds(k, current);
    var ahead := TimeDiff(k.clk.tsFlush, current);
    assert U32(k.clk.tsFlush - current) == ahead;
    Behind(current, delay, k.clk.tsFlush, ahead);
  }

  lemma {:induction false} Behind(current: u32, delay: nat, ts: u32, ahead: nat)
    requires U32(ts - current) == ahead && 0 < ahead && delay < ahead && ahead <= 10000
    ensures TimeDiff(U32(current + delay), ts) == delay - ahead
  {
    assert current + delay == MOD * ((current + delay) / MOD) + U32(current + delay);
    assert ts - current == MOD * ((ts - current) / MOD) + ahead;
    ModShift(delay - ahead, -((current + delay) / MOD) - (ts - current) / MOD);
  }

  function UpdateAll(m: Arith, k: Kcb, current: u32, delays: seq<nat>): Kcb {
    if delays == [] then k
    else Update(m, UpdateAll(m, k, current, delays[..|delays| - 1]), U32(current + delays[|delays| - 1]))
  }

  /** ikcp_check is a sound scheduler: any calls of ikcp_update before the returned time change nothing but
      `current`, and emit nothing. */
  lemma {:induction false} CheckSound(m: Arith, k: Kcb, current: u32, delays: seq<nat>)
    requires k.clk.updated && CfgOk(k.cfg) && Check(k, current) != current
    requires forall i :: 0 <= i < |delays| ==> delays[i] < U32(Check(k, current) - current)
    ensures UpdateAll(m, k, current, delays) ==
      if delays == [] then k else k.(clk := k.clk.(current := U32(current + delays[|delays| - 1])))
    ensures delays != [] ==> UpdateDatagrams(m, UpdateAll(m, k, current, delays[..|delays| - 1]),
                                             U32(current + delays[|delays| - 1])) == []
  {
    hide Flush, Datagrams, Tick, Check, U32, S32, CfgOk;
    if delays != [] {
      var n := |delays| - 1;
      CheckSound(m, k, current, delays[..n]);
      var k1 := UpdateAll(m, k, current, delays[..n]);
      QuietTick(k, current, delays[n]);
      TickIgnoresCurrent(k.clk, k1.clk.current, k.cfg.interval, U32(current + delays[n]));
    }
  }

  lemma {:induction false} TickIgnoresCurrent(c: Clock, other: u32, interval: nat, current: u32)
    ensures Tick(c.(current := other), interval, current) == Tick(c, interval, current)
  {
  }

  /** ikcp_check says "now" exactly when a flush or a retransmission is due, or was never scheduled. */
  lemma {:induction false} CheckNow(k: Kcb, current: u32)
    requires k.clk.updated && CfgOk(k.cfg)
    ensures Check(k, current) == current <==>
      (var slap := TimeDiff(current, k.clk.tsFlush);
       slap >= 0 || slap < -10000 || exists i :: 0 <= i < |k.snd.buf| && TimeDiff(k.snd.buf[i].resendts, current) <= 0)
  {
    NextResendDue(k.snd.buf, current);
    var slap := TimeDiff(current, k.clk.tsFlush);
    if -10000 <= slap < 0 && NextResend(k.snd.buf, current).In? {
      NextResendBound(k.snd.buf, current);
      Antisymmetric(current, k.clk.tsFlush);
      CheckDelay(k, current, NextResend(k.snd.buf, current).ms);
    }
  }

  lemma {:induction false} Antisymmetric(a: u32, b: u32)
    requires -HALF < TimeDiff(a, b)
    ensures TimeDiff(b, a) == -TimeDiff(a, b)
  {
  }

  lemma {:induction false} NextResendDue(buf: seq<Flight>, current: u32)
    ensures NextResend(buf, current).Due? <==>
      exists i :: 0 <= i < |buf| && TimeDiff(buf[i].resendts, current) <= 0
  {
    if buf != [] {
      var n := |buf| - 1;
      NextResendDue(buf[..n], current);
      if NextResend(buf[..n], current).Due? {
        var i :| 0 <= i < n && TimeDiff(buf[..n][i].resendts, current) <= 0;
        assert TimeDiff(buf[i].resendts, current) <= 0;
      }
      if i :| 0 <= i < |buf| && TimeDiff(buf[i].resendts, current) <= 0 {
        if i < n { assert buf[..n][i] == buf[i]; }
      }
    }
  }

  // ----- flushing twice is flushing enough

  /** Nothing to send, now. */
  ghost predicate Settled(c: Ctx, buf: seq<Flight>) {
    forall i :: 0 <= i < |buf| ==> Decide(c, buf[i]) == Idle
  }

  lemma {:induction false} SoonNegative(current: u32, d: int)
    requires 0 < d <= HALF
    ensures TimeDiff(current, U32(current + d)) < 0
  {
    assert current + d == MOD * ((current + d) / MOD) + U32(current + d);
    ModShift(-d, (current + d) / MOD);
  }

  /** One look at a segment disarms its timer. */
  lemma {:induction false} TouchDisarms(c: Ctx, f: Flight)
    requires f.xmit < MOD - 3 && 0 < c.rto <= RTO_MAX && 0 < Touch(c, f).rto < HALF
    ensures var f' := Touch(c, f); 0 < f'.xmit < MOD - 2 && TimeDiff(c.current, f'.resendts) < 0
  {
    hide TimeDiff, Backoff;
    match Decide(c, f)
    case Idle => IdleNegative(c, f);
    case First => SoonNegative(c.current, c.rto + RtoMin(c));
    case Timeout => SoonNegative(c.current, Backoff(c, f.rto));
    case Fast => SoonNegative(c.current, f.rto);
  }

  lemma {:induction false} IdleNegative(c: Ctx, f: Flight)
    requires Decide(c, f) == Idle
    ensures f.xmit > 0 && TimeDiff(c.current, f.resendts) < 0
  {
  }

  /** A second look resends it at most for skipped acknowledgements, and clears their count. */
  lemma {:induction false} TouchSettles(c: Ctx, f: Flight)
    requires f.xmit > 0 && f.xmit < MOD - 1 && TimeDiff(c.current, f.resendts) < 0
    requires 0 < f.rto < HALF && c.resent >= 1
    ensures Decide(c, Touch(c, f)) == Idle
  {
    if Decide(c, f) == Fast { SoonNegative(c.current, f.rto); }
  }

  lemma {:induction false} SettledTouch(c: Ctx, wnd: nat, una: nat, buf: seq<Flight>)
    requires Settled(c, buf)
    ensures TouchAll(c, buf) == buf && DataSegs(c, wnd, una, buf) == []
    ensures Count(c, Fast, buf) == 0 && Count(c, Timeout, buf) == 0
  {
    if buf != [] {
      SettledTouch(c, wnd, una, buf[..|buf| - 1]);
      assert Decide(c, buf[|buf| - 1]) == Idle;
    }
    assert forall i :: 0 <= i < |buf| ==> Touch(c, buf[i]) == buf[i];
  }

  /** The window is closed or the queue empty: nothing more to number. */
  predicate Full(m: Arith, s: Snd, cwnd: nat) {
    Diff(m, s.nxt, Add(m, s.una, cwnd)) >= 0 || s.queue == []
  }

  lemma {:induction false} FillFull(m: Arith, s: Snd, cwnd: nat, current: u32, rto: u32)
    ensures Full(m, Fill(m, s, cwnd, current, rto), cwnd) && Fill(m, s, cwnd, current, rto).una == s.una
    decreases |s.queue|
  {
    if Diff(m, s.nxt, Add(m, s.una, cwnd)) < 0 && s.queue != [] {
      FillFull(m, Numbered(m, s, current, rto), cwnd, current, rto);
    }
  }

  /** The probe timer is ahead of the clock, and nothing is asked for. */
  predicate ProbeQuiet(p: Probe, current: u32) {
    !p.askSend && !p.askTell && ProbeTick(p, current) == p
  }

  /** The probe timer: stopped by any window, 7 seconds at first, then half as long again each time it fires, up to two
      minutes; it asks for the window exactly when it fires. */
  predicate Probed(p: Probe, current: u32, p': Probe) {
    && p'.rmtWnd == p.rmtWnd
    && if p.rmtWnd != 0 then p'.wait == 0 && p'.ts == 0 && p'.askSend == p.askSend
       else if p.wait == 0 then p'.wait == PROBE_INIT && p'.ts == U32(current + PROBE_INIT) && p'.askSend == p.askSend
       else if TimeDiff(current, p.ts) < 0 then p'.wait == p.wait && p'.ts == p.ts && p'.askSend == p.askSend
       else
         && p'.askSend && p'.ts == U32(current + p'.wait)
         && if 3 * p.wait >= 2 * PROBE_LIMIT then p'.wait == PROBE_LIMIT
            else 3 * Max(p.wait, PROBE_INIT) - 1 <= 2 * p'.wait <= 3 * Max(p.wait, PROBE_INIT)
  }

  lemma {:induction false} ProbeLaw(p: Probe, current: u32)
    requires p.wait <= PROBE_LIMIT
    ensures Probed(p, current, ProbeTick(p, current))
  {
    hide TimeDiff;
  }

  lemma {:induction false} ProbeSettles(p: Probe, current: u32)
    requires p.wait <= PROBE_LIMIT
    ensures ProbeQuiet(ProbeTick(p, current).(askSend := false, askTell := false), current)
  {
    if p.rmtWnd == 0 {
      if p.wait == 0 {
        SoonNegative(current, PROBE_INIT);
      } else if TimeDiff(current, p.ts) >= 0 {
        SoonNegative(current, ProbeTick(p, current).wait);
      }
    }
  }

  /** What one flush leaves behind. */
  ghost predicate Calm(m: Arith, k: Kcb, lim: nat) {
    && KcbOk(m, k) && k.clk.updated && k.cfg.nocwnd
    && Full(m, k.snd, Window(k)) && k.rcv.acks == [] && ProbeQuiet(k.prb, k.clk.current) && k.cc.cwnd >= 1
    && forall i :: 0 <= i < |k.snd.buf| ==>
         var f := k.snd.buf[i];
         0 < f.xmit < lim && 0 < f.rto < HALF && TimeDiff(k.clk.current, f.resendts) < 0
  }

  lemma {:induction false} FlushCalms(m: Arith, k: Kcb)
    requires KcbOk(m, k) && k.clk.updated && k.cfg.nocwnd
    requires XmitBelow(k.snd.buf, MOD - 3)
    requires forall i :: 0 <= i < |Flush(m, k).snd.buf| ==> 0 < Flush(m, k).snd.buf[i].rto < HALF
    ensures Calm(m, Flush(m, k), MOD - 2)
  {
    FlushOk(m, k);
    FlushedCwnd(m, k);
    FillFull(m, k.snd, Window(k), k.clk.current, k.rtt.rto);
    FillXmit(m, k.snd, Window(k), k.clk.current, k.rtt.rto, MOD - 3);
    ProbeSettles(k.prb, k.clk.current);
    hide KcbOk, Touch, ProbeTick, Congestion.AfterFlush, Fill, Died, Count, ProbeQuiet, TimeDiff, Off, U32, MakeCtx,
         Congestion.CcOk, CfgOk;
    var c, buf := MakeCtx(k), Filled(m, k).buf;
    forall i | 0 <= i < |buf|
      ensures var f := Touch(c, buf[i]); 0 < f.xmit < MOD - 2 && TimeDiff(k.clk.current, f.resendts) < 0
    {
      assert Flush(m, k).snd.buf[i] == Touch(c, buf[i]);
      RtoPositive(m, k);
      TouchDisarms(c, buf[i]);
    }
  }

  lemma {:induction false} RtoPositive(m: Arith, k: Kcb)
    requires KcbOk(m, k)
    ensures 0 < k.rtt.rto <= RTO_MAX
  {
  }

  lemma {:induction false} FlushedCwnd(m: Arith, k: Kcb)
    requires KcbOk(m, k) && k.clk.updated
    ensures Flush(m, k).cc.cwnd >= 1
  {
    hide KcbOk, Touch, ProbeTick, Fill, Died, Count, Off;
  }

  ghost predicate XmitBelow(buf: seq<Flight>, lim: nat) {
    forall i :: 0 <= i < |buf| ==> buf[i].xmit < lim
  }

  lemma {:induction false} FillXmit(m: Arith, s: Snd, cwnd: nat, current: u32, rto: u32, lim: nat)
    requires XmitBelow(s.buf, lim) && lim > 0
    ensures XmitBelow(Fill(m, s, cwnd, current, rto).buf, lim)
    decreases |s.queue|
  {
    if Diff(m, s.nxt, Add(m, s.una, cwnd)) < 0 && s.queue != [] {
      FillXmit(m, Numbered(m, s, current, rto), cwnd, current, rto, lim);
    }
  }

  lemma {:induction false} ResentPositive(m: Arith, k: Kcb)
    requires KcbOk(m, k)
    ensures MakeCtx(k).resent >= 1
  {
  }

  lemma {:induction false} StaysDisarmed(c: Ctx, f: Flight)
    requires 0 < f.xmit < MOD - 2 && 0 < f.rto < HALF && TimeDiff(c.current, f.resendts) < 0
    ensures var f' := Touch(c, f);
      0 < f'.xmit < MOD - 1 && 0 < f'.rto < HALF && TimeDiff(c.current, f'.resendts) < 0
  {
    if Decide(c, f) == Fast { SoonNegative(c.current, f.rto); }
  }

  /** The second flush numbers nothing and leaves nothing to resend. */
  lemma {:induction false} CalmFlushSettles(m: Arith, k: Kcb)
    requires Calm(m, k, MOD - 2)
    ensures var k2 := Flush(m, k);
      && Calm(m, k2, MOD - 1) && Settled(MakeCtx(k2), k2.snd.buf)
  {
    FlushOk(m, k);
    FlushedCwnd(m, k);
    ProbeSettles(k.prb, k.clk.current);
    assert Filled(m, k) == k.snd;
    ResentPositive(m, k);
    hide KcbOk, ProbeTick, Congestion.AfterFlush, Fill, Died, Count, Off, ProbeQuiet, TimeDiff, U32;
    var c := MakeCtx(k);
    var k2 := Flush(m, k);
    forall i | 0 <= i < |k.snd.buf| ensures Decide(c, Touch(c, k.snd.buf[i])) == Idle {
      TouchSettles(c, k.snd.buf[i]);
    }
    hide Touch, Decide;
    forall i | 0 <= i < |k2.snd.buf|
      ensures var f := k2.snd.buf[i];
        0 < f.xmit < MOD - 1 && 0 < f.rto < HALF && TimeDiff(k2.clk.current, f.resendts) < 0
    {
      assert k2.snd.buf[i] == Touch(c, k.snd.buf[i]);
      StaysDisarmed(c, k.snd.buf[i]);
    }
  }

  /** A settled endpoint flushes without effect. */
  lemma {:induction false} SettledFlush(m: Arith, k: Kcb)
    requires Calm(m, k, MOD - 1) && Settled(MakeCtx(k), k.snd.buf)
    ensures Flush(m, k) == k && Emitted(m, k) == []
  {
    assert Filled(m, k) == k.snd;
    hide KcbOk, ProbeTick, Fill, Filled, Off, Touch, Decide, Window;
    var c, wnd := MakeCtx(k), Unused(k.cfg.rcvWnd, k.rcv);
    SettledTouch(c, wnd, k.rcv.nxt, k.snd.buf);
    assert !Died(c, k.cfg.deadLink, k.snd.buf);
    assert AckSegs(wnd, k.rcv.nxt, []) == [];
    assert U32(k.xmit + 0) == k.xmit;
  }

  /** After two flushes at the same time a third emits nothing and changes nothing: with congestion control off, for
      timeouts in (0, 2^31). */
  lemma {:induction false} FlushFixpoint(m: Arith, k: Kcb)
    requires KcbOk(m, k) && k.clk.updated && k.cfg.nocwnd
    requires XmitBelow(k.snd.buf, MOD - 3)
    requires forall i :: 0 <= i < |Flush(m, k).snd.buf| ==> 0 < Flush(m, k).snd.buf[i].rto < HALF
    ensures var k2 := Flush(m, Flush(m, k)); Flush(m, k2) == k2 && Datagrams(m, k2) == []
  {
    hide Calm, Settled, Flush, Emitted, KcbOk;
    FlushCalms(m, k);
    CalmFlushSettles(m, Flush(m, k));
    SettledFlush(m, Flush(m, Flush(m, k)));
  }

  // ----- when one flush is enough

  /** A segment that the first flush sends for its timer, or for the first time, and whose count of skipped
      acknowledgements makes the second flush send it once more. */
  predicate Again(c: Ctx, f: Flight) {
    && (f.xmit == 0 || TimeDiff(c.current, f.resendts) >= 0)
    && f.fastack >= c.resent && (f.xmit + 1 <= c.fastlimit || c.fastlimit <= 0)
  }

  lemma {:induction false} TouchAgain(c: Ctx, f: Flight)
    requires f.xmit < HALF - 3 && 0 < c.rto <= RTO_MAX && 0 < Touch(c, f).rto < HALF && c.resent >= 1
    ensures Decide(c, Touch(c, f)) != Idle <==> Again(c, f)
  {
    TouchDisarms(c, f);
    hide TimeDiff, Backoff;
    assert S32(f.xmit + 1) == f.xmit + 1 && U32(f.xmit + 1) == f.xmit + 1;
    hide S32, U32;
  }

  lemma {:induction false} NothingSent(c: Ctx, wnd: nat, una: nat, buf: seq<Flight>)
    ensures DataSegs(c, wnd, una, buf) == [] <==> Settled(c, buf)
  {
    hide Decide, Touch;
    if buf != [] {
      var n := |buf| - 1;
      NothingSent(c, wnd, una, buf[..n]);
      assert Settled(c, buf) <==> Settled(c, buf[..n]) && Decide(c, buf[n]) == Idle by {
        assert forall i :: 0 <= i < n ==> buf[..n][i] == buf[i];
      }
    }
  }

  /** What a flush numbers has not been skipped yet. */
  lemma {:induction false} FillNew(m: Arith, s: Snd, cwnd: nat, current: u32, rto: u32)
    ensures var s' := Fill(m, s, cwnd, current, rto);
      s.buf <= s'.buf && forall i :: |s.buf| <= i < |s'.buf| ==> s'.buf[i].fastack == 0
    decreases |s.queue|
  {
    if Diff(m, s.nxt, Add(m, s.una, cwnd)) < 0 && s.queue != [] {
      FillNew(m, Numbered(m, s, current, rto), cwnd, current, rto);
    }
  }

  /** What a calm endpoint emits is its data. */
  lemma {:induction false} CalmEmits(m: Arith, k: Kcb, lim: nat)
    requires Calm(m, k, lim)
    ensures Emitted(m, k) == DataSegs(MakeCtx(k), Unused(k.cfg.rcvWnd, k.rcv), k.rcv.nxt, k.snd.buf)
  {
    assert Filled(m, k) == k.snd;
    hide KcbOk, DataSegs, ProbeTick, Filled, Fill;
    var wnd := Unused(k.cfg.rcvWnd, k.rcv);
    assert AckSegs(wnd, k.rcv.nxt, []) == [] && ProbeSegs(k.prb, wnd, k.rcv.nxt, Leftover([])) == [];
  }

  lemma {:induction false} FlushedParts(m: Arith, k: Kcb)
    requires k.clk.updated
    ensures MakeCtx(Flush(m, k)) == MakeCtx(k) && Flush(m, k).snd.buf == TouchAll(MakeCtx(k), Filled(m, k).buf)
  {
    hide Filled, Touch, Congestion.AfterFlush, Count, Died, Off;
  }

  /** Exactly when one flush is enough: a second flush at the same time emits nothing if and only if no segment in
      flight is both due and skipped often enough to be resent for that. */
  lemma {:induction false} SecondFlush(m: Arith, k: Kcb)
    requires KcbOk(m, k) && k.clk.updated && k.cfg.nocwnd
    requires XmitBelow(k.snd.buf, HALF - 3)
    requires forall i :: 0 <= i < |Flush(m, k).snd.buf| ==> 0 < Flush(m, k).snd.buf[i].rto < HALF
    ensures Emitted(m, Flush(m, k)) == [] <==> forall i :: 0 <= i < |k.snd.buf| ==> !Again(MakeCtx(k), k.snd.buf[i])
  {
    FlushCalms(m, k);
    RtoPositive(m, k);
    ResentPositive(m, k);
    FillXmit(m, k.snd, Window(k), k.clk.current, k.rtt.rto, HALF - 3);
    FillNew(m, k.snd, Window(k), k.clk.current, k.rtt.rto);
    FlushedParts(m, k);
    var c, k1, buf := MakeCtx(k), Flush(m, k), Filled(m, k).buf;
    hide KcbOk, Flush, Fill, Touch, Decide, Emitted, DataSegs, MakeCtx;
    CalmEmits(m, k1, MOD - 2);
    NothingSent(c, Unused(k1.cfg.rcvWnd, k1.rcv), k1.rcv.nxt, k1.snd.buf);
    hide Calm;
    forall i | 0 <= i < |buf| ensures Decide(c, k1.snd.buf[i]) != Idle <==> i < |k.snd.buf| && Again(c, k.snd.buf[i]) {
      assert k1.snd.buf[i] == Touch(c, buf[i]);
      TouchAgain(c, buf[i]);
    }
  }

  /** An endpoint with a segment that has been sent once, timed out at 500, and was skipped twice. */
  const SKIPPED := Create(KcpImplCfg(0)).(snd := Snd(0, 1, [], [Flight(0, 0, [], 0, 500, 100, 2, 1)]),
                                          rtt := Rtt(100, 50, 100), clk := Clock(1000, 1010, true))

  /** One flush is not always enough: a timeout resends a segment and leaves its count of skipped acknowledgements,
      which resends it once more. */
  lemma {:induction false} OneFlushIsNotEnough()
    ensures KcbOk(Wrap, SKIPPED) && SKIPPED.clk.updated && SKIPPED.cfg.nocwnd
    ensures Emitted(Wrap, SKIPPED) != [] && Emitted(Wrap, Flush(Wrap, SKIPPED)) != []
  {
    var k, c := SKIPPED, MakeCtx(SKIPPED);
    var f := k.snd.buf[0];
    assert KcbOk(Wrap, k);
    assert Filled(Wrap, k) == k.snd;
    assert Touch(c, f) == Flight(0, 0, [], 1000, 1150, 150, 2, 2);
    assert Again(c, f);
    FlushedParts(Wrap, k);
    hide KcbOk, Flush, Fill, Touch, Decide, DataSegs, MakeCtx, Again;
    SecondFlush(Wrap, k);
    NothingSent(c, Unused(k.cfg.rcvWnd, k.rcv), k.rcv.nxt, k.snd.buf);
  }
}
