/** The laws of FlushLaws and InputLaws for every endpoint that any calls can lead to. */
module CallLaws {
  import opened Serial
  import opened Types
  import opened Wire
  import opened Transmit
  import opened Timers
  import opened Endpoint
  import opened FlushLaws
  import opened InputLaws
  import opened Calls

  // ----- the round-trip estimate

  /** An ikcp_input that gives one sample moves the estimate by the law of one sample. */
  lemma {:induction false} SampleAlways(cfg: Cfg, calls: seq<Call>, data: bytes, x: nat)
    requires CfgOk(cfg) && x >= 1 && SamplesIn(DoAll(cfg, calls).clk, Parse(cfg.conv, data).segs) == [x]
    ensures Smoothed(DoAll(cfg, calls).rtt, x, DoAll(cfg, calls + [CallInput(data)]).rtt)
  {
    var k := DoAll(cfg, calls);
    hide SamplesIn, DoAll, Smoothed;
    LastCall(cfg, calls, CallInput(data));
    RttSigns(k);
    hide KcbOk, Do;
    DoRtt(k, CallInput(data));
    OneEstimate(k.rtt, cfg.interval, cfg.minrto, x);
    SampleLaw(k.rtt, cfg.interval, cfg.minrto, x);
  }

  lemma {:induction false} OneEstimate(r: Rtt, interval: nat, minrto: nat, x: nat)
    ensures Estimate(r, interval, minrto, [x]) == UpdateAck(r, interval, minrto, x)
  {
    assert [x][..0] == [];
    assert Estimate(r, interval, minrto, []) == r;
  }

  lemma {:induction false} RttSigns(k: Kcb)
    requires KcbOk(Wrap, k)
    ensures 0 <= k.rtt.srtt && 0 <= k.rtt.rttval && k.cfg.mss > 0
  {
  }

  lemma {:induction false} LastCall(cfg: Cfg, calls: seq<Call>, c: Call)
    requires CfgOk(cfg)
    ensures var k := DoAll(cfg, calls); k.cfg.mss > 0 && DoAll(cfg, calls + [c]) == Do(k, c)
  {
    assert (calls + [c])[..|calls|] == calls;
    RttSigns(DoAll(cfg, calls));
    hide Do, KcbOk;
  }

  /** After any calls rx_srtt is less than 8 below the weighted mean of all samples, and never above it. */
  lemma {:induction false} MeanAlways(cfg: Cfg, calls: seq<Call>)
    requires CfgOk(cfg) && Samples(cfg, calls) != []
    requires forall i :: 0 <= i < |Samples(cfg, calls)| ==> 1 <= Samples(cfg, calls)[i]
    ensures var mean := Ewma(Samples(cfg, calls)); mean - 8.0 < DoAll(cfg, calls).rtt.srtt as real <= mean
  {
    hide DoAll, Samples, Estimate, KcbOk, Ewma;
    RttIsEstimate(cfg, calls);
    EstimateIsMean(cfg.interval, cfg.minrto, Samples(cfg, calls));
  }

  // ----- the windows

  /** The window in the last segment read, 128 before the first. */
  function LastWindow(cfg: Cfg, calls: seq<Call>): nat {
    if calls == [] then WND_RCV
    else
      var c, before := calls[|calls| - 1], LastWindow(cfg, calls[..|calls| - 1]);
      if c.CallInput? && Parse(cfg.conv, c.data).segs != [] then
        var segs := Parse(cfg.conv, c.data).segs;
        segs[|segs| - 1].wnd
      else before
  }

  lemma {:induction false} DoWindow(k: Kcb, c: Call)
    requires KcbOk(Wrap, k) && k.cfg.mss > 0
    ensures Do(k, c).prb.rmtWnd ==
      var segs := if c.CallInput? then Parse(k.cfg.conv, c.data).segs else [];
      if segs == [] then k.prb.rmtWnd else segs[|segs| - 1].wnd
  {
    hide Input, Parse, Tick, Receive.Recv, Messages.Send;
    match c
    case CallSend(_) =>
    case CallRecv(_) =>
    case CallInput(data) => InputWindow(Wrap, k, Parse(k.cfg.conv, data));
    case CallUpdate(t) => FlushPeer(k.(clk := Tick(k.clk, k.cfg.interval, t).0));
    case CallFlush => FlushPeer(k);
  }

  lemma {:induction false} FlushPeer(k: Kcb)
    ensures Flush(Wrap, k).prb.rmtWnd == k.prb.rmtWnd
  {
    hide TimeDiff, Filled, MakeCtx, Count, Died, Off, Window, Touch;
  }

  /** rmt_wnd is the window read last. */
  lemma {:induction false} WindowIsLast(cfg: Cfg, calls: seq<Call>)
    requires CfgOk(cfg)
    ensures DoAll(cfg, calls).prb.rmtWnd == LastWindow(cfg, calls)
  {
    if calls != [] {
      var front, c := calls[..|calls| - 1], calls[|calls| - 1];
      WindowIsLast(cfg, front);
      RttSigns(DoAll(cfg, front));
      DoWindow(DoAll(cfg, front), c);
      hide Do, KcbOk, Parse;
    }
  }

  /** Whatever was called, an ikcp_update that numbers fragments ends with at most as many in flight as the own window,
      the window read last and, unless it is off, the congestion window allow; one that leaves any has filled one of
      these. */
  lemma {:induction false} WindowsAlways(cfg: Cfg, calls: seq<Call>, t: u32)
    requires CfgOk(cfg)
    ensures var k, k' := DoAll(cfg, calls), DoAll(cfg, calls + [CallUpdate(t)]);
      if Tick(k.clk, cfg.interval, t).1 then Takes(Wrap, cfg, LastWindow(cfg, calls), k.cc.cwnd, k.snd, k'.snd)
      else k'.snd == k.snd
  {
    WindowIsLast(cfg, calls);
    LastCall(cfg, calls, CallUpdate(t));
    var k := DoAll(cfg, calls);
    hide Do, DoAll, LastWindow, Takes, KcbOk, Flush, Update;
    UpdateTakes(k, t);
  }

  lemma {:induction false} UpdateTakes(k: Kcb, t: u32)
    requires KcbOk(Wrap, k)
    ensures k.cfg.mss > 0
    ensures var k' := Do(k, CallUpdate(t));
      if Tick(k.clk, k.cfg.interval, t).1 then Takes(Wrap, k.cfg, k.prb.rmtWnd, k.cc.cwnd, k.snd, k'.snd)
      else k'.snd == k.snd
  {
    RttSigns(k);
    hide KcbOk, Flush, Takes, Tick;
    if Tick(k.clk, k.cfg.interval, t).1 {
      UpdateIsFlush(Wrap, k, t);
      var clk := Tick(k.clk, k.cfg.interval, t).0;
      AnyClockOk(Wrap, k, clk);
      FlushWindow(Wrap, k.(clk := clk));
    }
  }

  /** The largest window read so far. */
  function LargestWindow(cfg: Cfg, calls: seq<Call>): nat {
    if calls == [] then WND_RCV
    else Max(LargestWindow(cfg, calls[..|calls| - 1]), LastWindow(cfg, calls)) as nat
  }

  lemma {:induction false} LastIsNotLarger(cfg: Cfg, calls: seq<Call>)
    ensures LastWindow(cfg, calls) <= LargestWindow(cfg, calls)
  {
    hide Parse;
  }

  /** At most w in flight. */
  predicate AtMost(k: Kcb, w: nat) {
    U32(k.snd.nxt - k.snd.una) <= w
  }

  lemma {:induction false} InputAtMost(k: Kcb, p: Parsed, w: nat)
    requires KcbOk(Wrap, k) && k.cfg.mss > 0 && AtMost(k, w) && Readables(Wrap, p)
    ensures AtMost(Input(Wrap, k, p), w)
  {
    var s := ProcessAll(Wrap, Inner(k, NO_ACK), p.segs);
    ProcessAllMoves(Wrap, Inner(k, NO_ACK), p.segs);
    ProcessAllCfg(Wrap, Inner(k, NO_ACK), p.segs);
    FinishCc(Wrap, s, k.snd.una);
    FinishNxt(s, k.snd.una);
    hide ProcessAll, Finish, KcbOk;
    Rebase(Wrap, k.snd.nxt, k.snd.una, s.kcb.snd.una);
  }

  lemma {:induction false} FinishNxt(s: Inner, prevUna: nat)
    requires s.kcb.cfg.mss > 0
    ensures Finish(Wrap, s, prevUna).snd.nxt == s.kcb.snd.nxt
  {
    hide Skip, Diff, InFlight;
  }

  lemma {:induction false} FlushAtMost(k: Kcb, w: nat)
    requires KcbOk(Wrap, k) && AtMost(k, w) && w <= k.cfg.sndWnd
    ensures AtMost(Flush(Wrap, k), Min(Max(w, k.prb.rmtWnd), k.cfg.sndWnd))
  {
    hide KcbOk, Flush;
    if k.clk.updated { FlushWindow(Wrap, k); } else { NoFlush(Wrap, k); }
  }

  lemma {:induction false} DoAtMost(k: Kcb, c: Call, w: nat)
    requires KcbOk(Wrap, k) && k.cfg.mss > 0 && AtMost(k, w) && w <= k.cfg.sndWnd
    ensures AtMost(Do(k, c), Min(Max(w, k.prb.rmtWnd), k.cfg.sndWnd))
  {
    hide KcbOk, Input, Parse, Tick, Receive.Recv, Messages.Send, Flush;
    match c
    case CallSend(_) =>
    case CallRecv(_) =>
    case CallInput(data) =>
      DecodedReadable(k.cfg.conv, data);
      InputAtMost(k, Parse(k.cfg.conv, data), w);
    case CallUpdate(t) =>
      var clk := Tick(k.clk, k.cfg.interval, t).0;
      AnyClockOk(Wrap, k, clk);
      FlushAtMost(k.(clk := clk), w);
    case CallFlush => FlushAtMost(k, w);
  }

  lemma {:induction false} DecodedReadable(conv: u32, data: bytes)
    ensures Readables(Wrap, Parse(conv, data))
  {
    DecodeReadable(conv, data);
    hide Decode;
  }

  /** After any calls no more is in flight than the own window and the largest window read so far allow. */
  lemma {:induction false} InFlightAlways(cfg: Cfg, calls: seq<Call>)
    requires CfgOk(cfg)
    ensures AtMost(DoAll(cfg, calls), Min(LargestWindow(cfg, calls), cfg.sndWnd))
  {
    if calls != [] {
      var front, c := calls[..|calls| - 1], calls[|calls| - 1];
      LargestGrows(cfg, calls);
      hide KcbOk, Do, LastWindow, LargestWindow, AtMost, CfgOk;
      InFlightAlways(cfg, front);
      WindowIsLast(cfg, front);
      LastIsNotLarger(cfg, front);
      var k, w := DoAll(cfg, front), Min(LargestWindow(cfg, front), cfg.sndWnd);
      RttSigns(k);
      DoAtMost(k, c, w);
      MoreAllowed(Do(k, c), w, Min(LargestWindow(cfg, calls), cfg.sndWnd));
    } else {
      hide KcbOk;
    }
  }

  lemma {:induction false} LargestGrows(cfg: Cfg, calls: seq<Call>)
    requires calls != []
    ensures LargestWindow(cfg, calls[..|calls| - 1]) <= LargestWindow(cfg, calls)
  {
    hide LastWindow;
  }

  lemma {:induction false} MoreAllowed(k: Kcb, w: nat, w': nat)
    requires AtMost(k, w) && w <= w'
    ensures AtMost(k, w')
  {
  }

  // ----- timeouts in a row

  function UpdateCalls(times: seq<u32>): (r: seq<Call>)
    ensures |r| == |times| && forall i :: 0 <= i < |times| ==> r[i] == CallUpdate(times[i])
  {
    seq(|times|, i requires 0 <= i < |times| => CallUpdate(times[i]))
  }

  lemma {:induction false} UpdatesAreCalls(cfg: Cfg, calls: seq<Call>, times: seq<u32>)
    requires CfgOk(cfg)
    ensures DoAll(cfg, calls + UpdateCalls(times)) == Updates(Wrap, DoAll(cfg, calls), times)
  {
    hide KcbOk, Update;
    if times == [] {
      assert calls + UpdateCalls([]) == calls;
    } else {
      var n := |times| - 1;
      UpdatesAreCalls(cfg, calls, times[..n]);
      assert calls + UpdateCalls(times) == (calls + UpdateCalls(times[..n])) + [CallUpdate(times[n])];
      LastCall(cfg, calls + UpdateCalls(times[..n]), CallUpdate(times[n]));
    }
  }

  /** Whatever was called, with nodelay on: n timeouts in a row take the timeout of a segment at least to (3/2)^n of
      what it was, but for the rounding, with nodelay 1, and add at least half of rx_rto each from nodelay 2 on; and
      each time it is due that much later. */
  lemma {:induction false} GrowsAlways(cfg: Cfg, calls: seq<Call>, i: nat, times: seq<u32>)
    requires CfgOk(cfg) && cfg.nodelay >= 1 && i < |DoAll(cfg, calls).snd.buf|
    requires 1 <= DoAll(cfg, calls).snd.buf[i].xmit && DoAll(cfg, calls).snd.buf[i].xmit + |times| <= DEADLINK
    requires ExpiresEach(Wrap, DoAll(cfg, calls), i, times)
    ensures var k, k' := DoAll(cfg, calls), DoAll(cfg, calls + UpdateCalls(times));
      && Outlasted(Wrap, k, i, |times|, k')
      && (times != [] ==> k'.snd.buf[i].resendts == U32(times[|times| - 1] + k'.snd.buf[i].rto))
  {
    hide DoAll, KcbOk, ExpiresEach, Outlasted, Updates, RtoBounded;
    RtoReached(cfg, calls);
    UpdatesAreCalls(cfg, calls, times);
    TimeoutsGrow(Wrap, DoAll(cfg, calls), i, times);
  }
}
