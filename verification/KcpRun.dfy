/** A run of the two programs over KCP in which a datagram that the network kept for 2^32 fragments breaks delivery. */
module KcpRun {
  import opened Serial
  import opened Types
  import opened Headers
  import opened Receive
  import opened System
  import opened Delivery
  import opened Transfer
  import opened KcpCalls
  import opened Exchange

  /** Between two frames: the next fragment has number n, and the next flush of either side is at time t. */
  predicate Quiet(w: World, conv: u32, n: nat, t: u32) {
    Idling(w.s.a.kcb, conv, n, 0, t) && Idling(w.s.b.kcb, conv, 0, n, t) && Runnable(w.s)
  }

  lemma {:induction false} OneEvent(s: Sys, first: bool, e: Event)
    requires Runnable(s)
    ensures After(Wrap, s, Moves(first, [e])) == Step(Wrap, s, if first then ByA(e) else ByB(e))
  {
    hide Step;
    OneMove(Wrap, s, if first then ByA(e) else ByB(e));
    assert Moves(first, [e]) == [if first then ByA(e) else ByB(e)];
  }

  lemma {:induction false} TwoEvents(s: Sys, first: bool, e: Event, e': Event)
    requires Runnable(s)
    ensures var s1 := Step(Wrap, s, if first then ByA(e) else ByB(e));
      After(Wrap, s, Moves(first, [e, e'])) == Step(Wrap, s1, if first then ByA(e') else ByB(e'))
  {
    hide Step;
    assert Moves(first, [e, e']) == Moves(first, [e]) + Moves(first, [e']);
    AfterConcat(Wrap, s, Moves(first, [e]), Moves(first, [e']));
    OneEvent(s, first, e);
    OneEvent(After(Wrap, s, Moves(first, [e])), first, e');
  }

  lemma {:induction false} ThreeEvents(s: Sys, first: bool, e: Event, e': Event, e'': Event)
    requires Runnable(s)
    ensures var s2 := After(Wrap, s, Moves(first, [e, e']));
      After(Wrap, s, Moves(first, [e, e', e''])) == Step(Wrap, s2, if first then ByA(e'') else ByB(e''))
  {
    hide Step, After;
    assert Moves(first, [e, e', e'']) == Moves(first, [e, e']) + Moves(first, [e'']);
    AfterConcat(Wrap, s, Moves(first, [e, e']), Moves(first, [e'']));
    OneEvent(After(Wrap, s, Moves(first, [e, e'])), first, e'');
  }

  /** kcp_send of one frame. */
  lemma {:induction false} SendCallStep(w: World, conv: u32, n: nat, t: u32, f: bytes)
    requires Quiet(w, conv, n, t) && n < MOD && |f| <= 1376
    ensures var w' := CallStep(w, ByClient(SendCall(f, t, NoDatagram)));
      && Waiting(w'.s.a.kcb, conv, n, t, f) && w'.s.a.out == w.s.a.out + [[Data(n, t, f)]]
      && |w'.s.a.hist| == |w.s.a.hist| + 1 && w'.s.b == w.s.b
      && w'.handed == w.handed + [f] && w'.replies == w.replies + [|f|] && w'.arrivals == w.arrivals
  {
    hide Idling, Waiting, Endpoint.Send, PeerSend, PeerUpdate, After;
    IdlingCfg(w.s.a.kcb, conv, n, 0, t);
    ClientTransmits(w.s.a, conv, n, t, f);
    assert U32(t) == t;
    assert CallEvents(w.s.a.kcb, SendCall(f, t, NoDatagram)) == [EvSend(f), EvUpdate(t)];
    TwoEvents(w.s, true, EvSend(f), EvUpdate(t));
  }

  lemma {:induction false} IdlingCfg(k: Kcb, conv: u32, snd: nat, rcv: nat, t: u32)
    requires Idling(k, conv, snd, rcv, t)
    ensures k.cfg == KcpImplCfg(conv) && k.cfg.mss == 1376 && k.cfg.rcvWnd == 128 && k.rcv.queue == []
  {
  }

  /** The server's kcp_recv that finds the frame. */
  lemma {:induction false} RecvCallStep(w: World, conv: u32, n: nat, t: u32, f: bytes, len: nat, i: nat)
    requires Idling(w.s.b.kcb, conv, 0, n, t) && n < MOD && 0 < |f| <= 1376 && |f| <= len && Runnable(w.s)
    requires i < |w.s.a.out| && w.s.a.out[i] == [Data(n, t, f)]
    ensures var w' := CallStep(w, ByServer(RecvCall(len, t, Nth(i))));
      && Owing(w'.s.b.kcb, conv, n, t) && w'.s.b.out == w.s.b.out && w'.s.a == w.s.a
      && w'.handed == w.handed && w'.replies == w.replies && w'.arrivals == w.arrivals + [Arrival(|f|, f)]
  {
    hide Idling, Owing, PeerUpdate, PeerInput, PeerRecv, After, Recv;
    IdlingCfg(w.s.b.kcb, conv, 0, n, t);
    assert U32(t) == t;
    assert LoopEvents(t, Nth(i)) == [EvUpdate(t), EvDeliver(i)];
    TwoEvents(w.s, false, EvUpdate(t), EvDeliver(i));
    ServerReads(w.s.b, conv, n, t, f);
    var p2 := PeerInput(Wrap, PeerUpdate(Wrap, w.s.b, t), conv, [Data(n, t, f)]);
    ServerTakes(p2, conv, n, t, f, len);
    var s2 := After(Wrap, w.s, Moves(false, LoopEvents(t, Nth(i))));
    assert s2.b == p2;
    OneEvent(s2, false, EvRecv(len));
    assert Moves(false, [EvRecv(len)]) == [ByB(EvRecv(len))];
  }

  /** The server's kcp_recv that finds nothing and acknowledges. */
  lemma {:induction false} ReplyCallStep(w: World, conv: u32, n: nat, t: u32, len: nat)
    requires Owing(w.s.b.kcb, conv, n, t) && n < MOD && Runnable(w.s)
    ensures var w' := CallStep(w, ByServer(RecvCall(len, U32(t + 10), NoDatagram)));
      && Idling(w'.s.b.kcb, conv, 0, Next(n), U32(U32(t + 10) + 10)) && w'.s.b.out == w.s.b.out + [[Reply(n, t)]]
      && w'.s.b.hist == w.s.b.hist && w'.s.a == w.s.a
      && w'.handed == w.handed && w'.replies == w.replies && w'.arrivals == w.arrivals + [Arrival(0, [])]
  {
    hide Idling, Owing, PeerUpdate, PeerRecv, After;
    var t1: int := U32(t + 10);
    assert U32(t1) == t1;
    assert LoopEvents(t1, NoDatagram) == [EvUpdate(t1)];
    OneEvent(w.s, false, EvUpdate(t1));
    ServerReplies(w.s.b, conv, n, t);
    var s1 := After(Wrap, w.s, Moves(false, LoopEvents(t1, NoDatagram)));
    IdlingCfg(s1.b.kcb, conv, 0, Next(n), U32(t1 + 10));
    NothingToTake(s1.b, len);
    OneEvent(s1, false, EvRecv(len));
    assert Moves(false, [EvRecv(len)]) == [ByB(EvRecv(len))];
    NoAnswer(s1.b.kcb, len);
  }

  lemma {:induction false} NoAnswer(k: Kcb, len: nat)
    requires k.rcv.queue == []
    ensures RecvAnswer(k, len) == Arrival(0, [])
  {
  }

  lemma {:induction false} WaitingCfg(k: Kcb, conv: u32, n: nat, t: u32, f: bytes)
    requires Waiting(k, conv, n, t, f)
    ensures k.cfg == KcpImplCfg(conv) && k.cfg.mss == 1376
  {
  }

  lemma {:induction false} AnswerEvents(s: Sys, conv: u32, n: nat, t: u32, f: bytes, i: nat)
    requires Waiting(s.a.kcb, conv, n, t, f) && n < MOD && Runnable(s)
    requires i < |s.b.out| && s.b.out[i] == [Reply(n, t)]
    ensures var s2 := After(Wrap, s, Moves(true, [EvUpdate(U32(t + 10)), EvDeliver(i)]));
      && Idling(s2.a.kcb, conv, Next(n), 0, U32(U32(t + 10) + 10)) && s2.a.out == s.a.out && s2.b == s.b
  {
    hide Idling, Waiting, PeerUpdate, PeerInput, After, U32;
    WaitingCfg(s.a.kcb, conv, n, t, f);
    TwoEvents(s, true, EvUpdate(U32(t + 10)), EvDeliver(i));
    ClientIsAnswered(s.a, conv, n, t, f);
  }

  /** The client's kcp_recv that reads the acknowledgement. */
  lemma {:induction false} AnswerCallStep(w: World, conv: u32, n: nat, t: u32, f: bytes, len: nat)
    requires Waiting(w.s.a.kcb, conv, n, t, f) && n < MOD && Runnable(w.s)
    requires w.s.b.out != [] && w.s.b.out[|w.s.b.out| - 1] == [Reply(n, t)]
    ensures var w' := CallStep(w, ByClient(RecvCall(len, U32(t + 10), Nth(|w.s.b.out| - 1))));
      && Idling(w'.s.a.kcb, conv, Next(n), 0, U32(U32(t + 10) + 10)) && w'.s.a.out == w.s.a.out && w'.s.b == w.s.b
      && w'.handed == w.handed && w'.replies == w.replies && w'.arrivals == w.arrivals
  {
    WaitingCfg(w.s.a.kcb, conv, n, t, f);
    var t1: int := U32(t + 10);
    var i := |w.s.b.out| - 1;
    assert U32(t1) == t1;
    hide Idling, Waiting, PeerRecv, After, U32;
    var c := RecvCall(len, t1, Nth(i));
    assert CallEvents(w.s.a.kcb, c) == [EvUpdate(t1), EvDeliver(i), EvRecv(len)];
    AnswerEvents(w.s, conv, n, t, f, i);
    ThreeEvents(w.s, true, EvUpdate(t1), EvDeliver(i), EvRecv(len));
    var s2 := After(Wrap, w.s, Moves(true, [EvUpdate(t1), EvDeliver(i)]));
    IdlingCfg(s2.a.kcb, conv, Next(n), 0, U32(t1 + 10));
    NothingToTake(s2.a, len);
  }

  // ----- one frame after the other

  /** The time of the k-th frame. */
  function TimeOf(k: nat): u32 {
    U32(20 * k)
  }

  lemma {:induction false} NextTime(k: nat)
    ensures TimeOf(k + 1) == U32(U32(TimeOf(k) + 10) + 10) && U32(k + 1) == Next(U32(k))
  {
    assert 20 * k == MOD * (20 * k / MOD) + TimeOf(k);
    assert k == MOD * (k / MOD) + U32(k);
    ModShift(TimeOf(k) + 20, 20 * k / MOD);
    ModShift(U32(k) + 1, k / MOD);
    var x := TimeOf(k) + 10;
    assert x == MOD * (x / MOD) + U32(x);
    ModShift(U32(x) + 10, x / MOD);
  }

  /** The calls that carry one frame over and its acknowledgement back. */
  function FrameCalls(w: World, t: u32, f: bytes): seq<Caller> {
    [ByClient(SendCall(f, t, NoDatagram)),
     ByServer(RecvCall(SERVER_FRAME_BUF_SIZE, t, Nth(|w.s.a.out|))),
     ByServer(RecvCall(SERVER_FRAME_BUF_SIZE, U32(t + 10), NoDatagram)),
     ByClient(RecvCall(SERVER_FRAME_BUF_SIZE, U32(t + 10), Nth(|w.s.b.out|)))]
  }

  lemma {:induction false} FourCalls(w: World, a: Caller, b: Caller, c: Caller, d: Caller)
    requires Runnable(w.s)
    ensures PlayOn(w, [a, b, c, d]) == CallStep(CallStep(CallStep(CallStep(w, a), b), c), d)
  {
    hide CallStep;
    var w1 := CallStep(w, a);
    var w2 := CallStep(w1, b);
    var w3 := CallStep(w2, c);
    assert [a, b, c, d][1..] == [b, c, d] && [b, c, d][1..] == [c, d] && [c, d][1..] == [d] && [d][1..] == [];
    assert PlayOn(w3, [d]) == CallStep(w3, d);
    assert PlayOn(w2, [c, d]) == PlayOn(w3, [d]);
    assert PlayOn(w1, [b, c, d]) == PlayOn(w2, [c, d]);
  }

  /** One frame of one fragment. */
  lemma {:induction false} OneFrame(w: World, conv: u32, n: nat, t: u32, f: bytes)
    requires Quiet(w, conv, n, t) && n < MOD && 0 < |f| <= 1376
    ensures var w' := PlayOn(w, FrameCalls(w, t, f));
      && Quiet(w', conv, Next(n), U32(U32(t + 10) + 10)) && w'.s.a.out == w.s.a.out + [[Data(n, t, f)]]
      && w'.handed == w.handed + [f] && w'.replies == w.replies + [|f|]
      && w'.arrivals == w.arrivals + [Arrival(|f|, f)] + [Arrival(0, [])]
  {
    hide Idling, Waiting, Owing, CallStep;
    var len := SERVER_FRAME_BUF_SIZE;
    var t1: int := U32(t + 10);
    var c1, c2 := ByClient(SendCall(f, t, NoDatagram)), ByServer(RecvCall(len, t, Nth(|w.s.a.out|)));
    var c3, c4 := ByServer(RecvCall(len, t1, NoDatagram)), ByClient(RecvCall(len, t1, Nth(|w.s.b.out|)));
    FourCalls(w, c1, c2, c3, c4);
    var w1 := CallStep(w, c1);
    SendCallStep(w, conv, n, t, f);
    var w2 := CallStep(w1, c2);
    RecvCallStep(w1, conv, n, t, f, len, |w.s.a.out|);
    var w3 := CallStep(w2, c3);
    ReplyCallStep(w2, conv, n, t, len);
    AnswerCallStep(w3, conv, n, t, f, len);
  }

  /** k frames f were sent, received and acknowledged. */
  predicate Exchanged(w: World, conv: u32, f: bytes, k: nat) {
    && Quiet(w, conv, U32(k), TimeOf(k)) && w.handed == seq(k, _ => f) && w.replies == seq(k, _ => |f|)
    && |Positive(w.arrivals)| == k && |w.s.a.out| == k && (k > 0 ==> w.s.a.out[0] == [Data(0, 0, f)])
  }

  lemma {:induction false} NextFrame(w: World, conv: u32, f: bytes, k: nat)
    requires Exchanged(w, conv, f, k) && 0 < |f| <= 1376 && Runnable(w.s)
    ensures Exchanged(PlayOn(w, FrameCalls(w, TimeOf(k), f)), conv, f, k + 1)
  {
    hide Quiet, PlayOn, FrameCalls, Positive;
    OneFrame(w, conv, U32(k), TimeOf(k), f);
    NextTime(k);
    PositiveSnoc(w.arrivals, Arrival(|f|, f));
    PositiveSnoc(w.arrivals + [Arrival(|f|, f)], Arrival(0, []));
    assert seq(k, _ => f) + [f] == seq(k + 1, _ => f) && seq(k, _ => |f|) + [|f|] == seq(k + 1, _ => |f|);
  }

  lemma {:induction false} AllFrames(cfg: Cfg, conv: u32, f: bytes, k: nat) returns (calls: seq<Caller>)
    requires CfgOk(cfg) && cfg == KcpImplCfg(conv) && 0 < |f| <= 1376
    ensures Exchanged(Play(cfg, cfg, calls), conv, f, k)
  {
    if k == 0 {
      calls := [];
    } else {
      hide Exchanged, Play, PlayOn, FrameCalls, CfgOk, KcpImplCfg;
      calls := AllFrames(cfg, conv, f, k - 1);
      var w := Play(cfg, cfg, calls);
      NextFrame(w, conv, f, k - 1);
      PlayConcat(cfg, cfg, calls, FrameCalls(w, TimeOf(k - 1), f));
      calls := calls + FrameCalls(w, TimeOf(k - 1), f);
    }
  }

  // ----- the stale datagram

  lemma {:induction false} ManyVisible(ms: seq<bytes>)
    ensures |Visible(ms)| <= |ms|
  {
    if ms != [] { ManyVisible(ms[..|ms| - 1]); }
  }

  lemma {:induction false} FewAccepted(handed: seq<bytes>, replies: seq<int>)
    requires |handed| == |replies|
    ensures |AcceptedOf(handed, replies)| <= |handed|
  {
    if handed != [] { FewAccepted(handed[..|handed| - 1], replies[..|handed| - 1]); }
  }

  lemma {:induction false} OneMoreArrives(w: World, conv: u32, f: bytes)
    requires Exchanged(w, conv, f, MOD) && 0 < |f| <= 1376 && Runnable(w.s)
    ensures var w' := CallStep(w, ByServer(RecvCall(SERVER_FRAME_BUF_SIZE, 0, Nth(0))));
      |Positive(w'.arrivals)| == MOD + 1 && |w'.handed| == MOD && |w'.replies| == MOD
  {
    hide CallStep, Positive, Idling;
    assert TimeOf(MOD) == 0 && U32(MOD) == 0;
    RecvCallStep(w, conv, 0, 0, f, SERVER_FRAME_BUF_SIZE, 0);
    PositiveSnoc(w.arrivals, Arrival(|f|, f));
  }

  /** Freshness is needed: there is a run of the two programs, without loss and with every datagram delivered once save
      one, in which the first datagram comes again after 2^32 fragments, and the server receives more than was sent. */
  lemma {:induction false} StaleRun(cfg: Cfg, conv: u32, f: bytes) returns (calls: seq<Caller>)
    requires CfgOk(cfg) && cfg == KcpImplCfg(conv) && !cfg.stream && 0 < |f| <= 1376
    ensures var s := Play(cfg, cfg, calls).s;
      s == Run(Wrap, cfg, cfg, Play(cfg, cfg, calls).moves) && |s.b.got| > |s.a.accepted| && !InOrder(s.a, s.b)
  {
    hide Exchanged, Play, CfgOk, KcpImplCfg, CallStep, Run, Visible, Positive, AcceptedOf;
    var most := AllFrames(cfg, conv, f, MOD);
    var c := ByServer(RecvCall(SERVER_FRAME_BUF_SIZE, 0, Nth(0)));
    calls := most + [c];
    OneMoreArrives(Play(cfg, cfg, most), conv, f);
    OneMoreCall(cfg, most, c);
    PlayBooks(cfg, cfg, calls);
    var w := Play(cfg, cfg, calls);
    ManyVisible(w.s.b.got);
    FewAccepted(w.handed, w.replies);
  }

  lemma {:induction false} OneMoreCall(cfg: Cfg, calls: seq<Caller>, c: Caller)
    requires ValidPair(cfg, cfg)
    ensures Play(cfg, cfg, calls + [c]) == CallStep(Play(cfg, cfg, calls), c)
  {
    hide CallStep;
    assert (calls + [c])[..|calls|] == calls;
  }
}
