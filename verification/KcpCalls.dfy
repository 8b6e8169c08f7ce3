/** Two programs that use KCP through kcp_send and kcp_recv, over the network of module System. */
module KcpCalls {
  import opened Serial
  import opened Types
  import opened Headers
  import opened Wire
  import opened Receive
  import opened Endpoint
  import opened System
  import opened Safety
  import opened Image
  import opened Refinement
  import opened KcpLink

  /** The datagram recvfrom returns: any the other side ever sent, or none. */
  datatype Take = NoDatagram | Nth(n: nat)

  datatype Call = SendCall(msg: bytes, now: u64, take: Take) | RecvCall(len: nat, now: u64, take: Take)

  datatype Caller = ByClient(call: Call) | ByServer(call: Call)

  function LoopEvents(now: u64, take: Take): seq<Event> {
    [EvUpdate(U32(now))] + if take.Nth? then [EvDeliver(take.n)] else []
  }

  /** The step order of kcp_send and kcp_recv. */
  function CallEvents(k: Kcb, c: Call): seq<Event>
    requires k.cfg.mss > 0
  {
    match c
    case SendCall(msg, now, take) => [EvSend(msg)] + if Endpoint.Send(k, msg).1 < 0 then [] else LoopEvents(now, take)
    case RecvCall(len, now, take) => LoopEvents(now, take) + [EvRecv(len)]
  }

  function Moves(first: bool, es: seq<Event>): (ms: seq<Move>)
    ensures |ms| == |es| && forall i :: 0 <= i < |es| ==> ms[i] == if first then ByA(es[i]) else ByB(es[i])
  {
    seq(|es|, i requires 0 <= i < |es| => if first then ByA(es[i]) else ByB(es[i]))
  }

  /** The system, the events so far, what the client passed to kcp_send and was answered, and what kcp_recv of the
      server returned. */
  datatype World = World(s: Sys, moves: seq<Move>, handed: seq<bytes>, replies: seq<int>, arrivals: seq<Arrival>)

  function Apply(w: World, ms: seq<Move>): (w': World)
    requires Runnable(w.s)
    ensures Runnable(w'.s)
  {
    w.(s := After(Wrap, w.s, ms), moves := w.moves + ms)
  }

  /** The answer of kcp_send. */
  function SendAnswer(k: Kcb, msg: bytes): int
    requires k.cfg.mss > 0
  {
    if Endpoint.Send(k, msg).1 < 0 then ERR_IO else |msg|
  }

  /** The answer of kcp_recv, given what stands in the queue when ikcp_recv is called. */
  function RecvAnswer(k: Kcb, len: nat): Arrival {
    var r := Recv(Wrap, k.cfg.rcvWnd, k.rcv, len);
    Arrival(Max(r.code, 0), r.data)
  }

  function CallStep(w: World, x: Caller): (w': World)
    requires Runnable(w.s)
    ensures Runnable(w'.s)
  {
    match x
    case ByClient(c) =>
      var w1 := Apply(w, Moves(true, CallEvents(w.s.a.kcb, c)));
      if c.SendCall? then w1.(handed := w.handed + [c.msg], replies := w.replies + [SendAnswer(w.s.a.kcb, c.msg)])
      else w1
    case ByServer(SendCall(_, _, _)) => Apply(w, Moves(false, CallEvents(w.s.b.kcb, x.call)))
    case ByServer(RecvCall(len, now, take)) =>
      var w1 := Apply(w, Moves(false, LoopEvents(now, take)));
      Apply(w1, [ByB(EvRecv(len))]).(arrivals := w.arrivals + [RecvAnswer(w1.s.b.kcb, len)])
  }

  function Play(ca: Cfg, cb: Cfg, calls: seq<Caller>): (w: World)
    requires ValidPair(ca, cb)
    ensures Runnable(w.s)
  {
    if calls == [] then World(Start(ca, cb), [], [], [], [])
    else CallStep(Play(ca, cb, calls[..|calls| - 1]), calls[|calls| - 1])
  }

  /** Further calls. */
  function PlayOn(w: World, calls: seq<Caller>): (w': World)
    requires Runnable(w.s)
    ensures Runnable(w'.s)
    decreases |calls|
  {
    if calls == [] then w else PlayOn(CallStep(w, calls[0]), calls[1..])
  }

  lemma {:induction false} PlayConcat(ca: Cfg, cb: Cfg, calls: seq<Caller>, more: seq<Caller>)
    requires ValidPair(ca, cb)
    ensures Play(ca, cb, calls + more) == PlayOn(Play(ca, cb, calls), more)
    decreases |more|
  {
    hide CallStep;
    if more == [] {
      assert calls + more == calls;
    } else {
      assert (calls + [more[0]])[..|calls|] == calls;
      assert calls + more == (calls + [more[0]]) + more[1..];
      PlayConcat(ca, cb, calls + [more[0]], more[1..]);
    }
  }

  // ----- the books

  /** The messages kcp_send accepted. */
  function AcceptedOf(handed: seq<bytes>, replies: seq<int>): seq<bytes>
    requires |handed| == |replies|
  {
    if handed == [] then []
    else
      var n := |handed| - 1;
      AcceptedOf(handed[..n], replies[..n]) + if replies[n] < 0 then [] else [handed[n]]
  }

  /** The messages that are not empty; kcp_recv answers 0 both for an empty one and for none. */
  function Visible(ms: seq<bytes>): seq<bytes> {
    if ms == [] then [] else Visible(ms[..|ms| - 1]) + if ms[|ms| - 1] == [] then [] else [ms[|ms| - 1]]
  }

  function Positive(arrivals: seq<Arrival>): seq<bytes> {
    if arrivals == [] then []
    else
      var x := arrivals[|arrivals| - 1];
      Positive(arrivals[..|arrivals| - 1]) + if x.code > 0 then [x.data] else []
  }

  ghost predicate Books(ca: Cfg, cb: Cfg, w: World)
    requires ValidPair(ca, cb)
  {
    && w.s == Run(Wrap, ca, cb, w.moves)
    && w.s.a.kcb.cfg == ca && w.s.b.kcb.cfg == cb
    && |w.handed| == |w.replies| && w.s.a.accepted == AcceptedOf(w.handed, w.replies)
    && Visible(w.s.b.got) == Positive(w.arrivals)
  }

  lemma {:induction false} VisibleSnoc(ms: seq<bytes>, m: bytes)
    ensures Visible(ms + [m]) == Visible(ms) + if m == [] then [] else [m]
  {
    assert (ms + [m])[..|ms|] == ms;
  }

  lemma {:induction false} PositiveSnoc(xs: seq<Arrival>, x: Arrival)
    ensures Positive(xs + [x]) == Positive(xs) + if x.code > 0 then [x.data] else []
  {
    assert (xs + [x])[..|xs|] == xs;
  }

  lemma {:induction false} AcceptedSnoc(handed: seq<bytes>, replies: seq<int>, m: bytes, r: int)
    requires |handed| == |replies|
    ensures AcceptedOf(handed + [m], replies + [r]) == AcceptedOf(handed, replies) + if r < 0 then [] else [m]
  {
    assert (handed + [m])[..|handed|] == handed && (replies + [r])[..|replies|] == replies;
  }

  /** What an event writes into the histories, and that it leaves the configurations alone. */
  lemma {:induction false} EventBooks(m: Arith, s: Sys, e: Event)
    requires Runnable(s)
    ensures var s' := Act(m, s, e);
      && s'.a.kcb.cfg == s.a.kcb.cfg && s'.b == s.b
      && (!e.EvSend? ==> s'.a.accepted == s.a.accepted)
      && (!e.EvRecv? ==> s'.a.got == s.a.got)
  {
    if e.EvDeliver? && e.n < |s.b.out| {
      var p := Carried(m, s.a.kcb.cfg.conv, s.b.out[e.n]);
      ProcessAllCfg(m, Inner(s.a.kcb, NO_ACK), p.segs);
    }
  }

  predicate QuietA(v: Move) {
    match v
    case ByA(e) => !e.EvSend?
    case ByB(e) => !e.EvRecv?
  }

  lemma {:induction false} QuietMoves(m: Arith, s: Sys, ms: seq<Move>)
    requires Runnable(s) && forall i :: 0 <= i < |ms| ==> QuietA(ms[i])
    ensures var s' := After(m, s, ms);
      && s'.a.kcb.cfg == s.a.kcb.cfg && s'.b.kcb.cfg == s.b.kcb.cfg
      && s'.a.accepted == s.a.accepted && s'.b.got == s.b.got
    decreases |ms|
  {
    hide Act;
    if ms != [] {
      assert QuietA(ms[0]);
      match ms[0] {
        case ByA(e) => EventBooks(m, s, e);
        case ByB(e) => EventBooks(m, Swap(s), e);
      }
      QuietMoves(m, Step(m, s, ms[0]), ms[1..]);
    }
  }

  lemma {:induction false} ApplyRun(ca: Cfg, cb: Cfg, w: World, ms: seq<Move>)
    requires ValidPair(ca, cb) && Books(ca, cb, w)
    ensures Apply(w, ms).s == Run(Wrap, ca, cb, w.moves + ms)
    ensures (forall i :: 0 <= i < |ms| ==> QuietA(ms[i])) ==> Books(ca, cb, Apply(w, ms))
  {
    hide After, Run;
    RunConcat(Wrap, ca, cb, w.moves, ms);
    if forall i :: 0 <= i < |ms| ==> QuietA(ms[i]) { QuietMoves(Wrap, w.s, ms); }
  }

  lemma {:induction false} LoopIsQuiet(first: bool, now: u64, take: Take)
    ensures forall i :: 0 <= i < |LoopEvents(now, take)| ==> QuietA(Moves(first, LoopEvents(now, take))[i])
  {
  }

  lemma {:induction false} ApplyTwice(w: World, a: seq<Move>, b: seq<Move>)
    requires Runnable(w.s)
    ensures Apply(w, a + b) == Apply(Apply(w, a), b)
  {
    hide After, Runnable;
    AfterConcat(Wrap, w.s, a, b);
    assert w.moves + a + b == w.moves + (a + b);
  }

  lemma {:induction false} MovesConcat(first: bool, a: seq<Event>, b: seq<Event>)
    ensures Moves(first, a + b) == Moves(first, a) + Moves(first, b)
  {
  }

  lemma {:induction false} SendWhole(p: Peer, msg: bytes)
    requires p.kcb.cfg.mss > 0 && !p.kcb.cfg.stream
    ensures PeerSend(p, msg).accepted
         == p.accepted + if Endpoint.Send(p.kcb, msg).1 < 0 then [] else [msg]
    ensures SendAnswer(p.kcb, msg) < 0 <==> Endpoint.Send(p.kcb, msg).1 < 0
  {
    assert msg[..|msg|] == msg;
    assert p.accepted + [] == p.accepted;
  }

  lemma {:induction false} ClientSends(ca: Cfg, cb: Cfg, w: World, c: Call)
    requires ValidPair(ca, cb) && Books(ca, cb, w) && !ca.stream && c.SendCall?
    ensures Books(ca, cb, CallStep(w, ByClient(c)))
  {
    hide After, Run, Step, AcceptedOf, Visible, Positive, LoopEvents;
    var first, rest := [EvSend(c.msg)], if Endpoint.Send(w.s.a.kcb, c.msg).1 < 0 then [] else LoopEvents(c.now, c.take);
    MovesConcat(true, first, rest);
    ApplyTwice(w, Moves(true, first), Moves(true, rest));
    ApplyRun(ca, cb, w, Moves(true, first));
    assert Moves(true, first) == [ByA(EvSend(c.msg))];
    OneMove(Wrap, w.s, ByA(EvSend(c.msg)));
    SendStep(w.s, c.msg);
    var r := SendAnswer(w.s.a.kcb, c.msg);
    AcceptedSnoc(w.handed, w.replies, c.msg, r);
    var w1 := Apply(w, Moves(true, first)).(handed := w.handed + [c.msg], replies := w.replies + [r]);
    assert Books(ca, cb, w1);
    LoopIsQuiet(true, c.now, c.take);
    ApplyRun(ca, cb, w1, Moves(true, rest));
  }

  lemma {:induction false} SendStep(s: Sys, msg: bytes)
    requires Runnable(s) && !s.a.kcb.cfg.stream
    ensures var s' := Step(Wrap, s, ByA(EvSend(msg)));
      && s'.b == s.b && s'.a.kcb.cfg == s.a.kcb.cfg
      && s'.a.accepted == s.a.accepted + if SendAnswer(s.a.kcb, msg) < 0 then [] else [msg]
  {
    SendWhole(s.a, msg);
  }

  lemma {:induction false} RecvStep(s: Sys, len: nat)
    requires Runnable(s)
    ensures var s', x := Step(Wrap, s, ByB(EvRecv(len))), RecvAnswer(s.b.kcb, len);
      && s'.a == s.a && s'.b.kcb.cfg == s.b.kcb.cfg
      && Visible(s'.b.got) == Visible(s.b.got) + if x.code > 0 then [x.data] else []
  {
    PeekSizeIsMerged(s.b.kcb.rcv.queue);
    VisibleSnoc(s.b.got, Recv(Wrap, s.b.kcb.cfg.rcvWnd, s.b.kcb.rcv, len).data);
  }

  lemma {:induction false} ServerReceives(ca: Cfg, cb: Cfg, w: World, c: Call)
    requires ValidPair(ca, cb) && Books(ca, cb, w) && c.RecvCall?
    ensures Books(ca, cb, CallStep(w, ByServer(c)))
  {
    hide After, Run, Step, AcceptedOf, Visible, Positive, LoopEvents;
    var w1 := Apply(w, Moves(false, LoopEvents(c.now, c.take)));
    LoopIsQuiet(false, c.now, c.take);
    ApplyRun(ca, cb, w, Moves(false, LoopEvents(c.now, c.take)));
    ApplyRun(ca, cb, w1, [ByB(EvRecv(c.len))]);
    OneMove(Wrap, w1.s, ByB(EvRecv(c.len)));
    RecvStep(w1.s, c.len);
    PositiveSnoc(w.arrivals, RecvAnswer(w1.s.b.kcb, c.len));
  }

  lemma {:induction false} OtherCalls(ca: Cfg, cb: Cfg, w: World, x: Caller)
    requires ValidPair(ca, cb) && Books(ca, cb, w)
    requires match x case ByClient(c) => c.RecvCall? case ByServer(c) => c.SendCall?
    ensures Books(ca, cb, CallStep(w, x))
  {
    hide After, Run, Step, AcceptedOf, Visible, Positive;
    match x
    case ByClient(c) => ApplyRun(ca, cb, w, Moves(true, CallEvents(w.s.a.kcb, c)));
    case ByServer(c) => ApplyRun(ca, cb, w, Moves(false, CallEvents(w.s.b.kcb, c)));
  }

  /** Whatever the two programs call, the books are right: the system is in a state it can reach, the accepted messages
      are those kcp_send answered without an error, and what kcp_recv returned is what the endpoint handed over. */
  lemma {:induction false} PlayBooks(ca: Cfg, cb: Cfg, calls: seq<Caller>)
    requires ValidPair(ca, cb) && !ca.stream
    ensures Books(ca, cb, Play(ca, cb, calls))
  {
    if calls != [] {
      hide CallStep, Books;
      PlayBooks(ca, cb, calls[..|calls| - 1]);
      var w, x := Play(ca, cb, calls[..|calls| - 1]), calls[|calls| - 1];
      match x
      case ByClient(SendCall(_, _, _)) => ClientSends(ca, cb, w, x.call);
      case ByServer(RecvCall(_, _, _)) => ServerReceives(ca, cb, w, x.call);
      case ByClient(RecvCall(_, _, _)) => OtherCalls(ca, cb, w, x);
      case ByServer(SendCall(_, _, _)) => OtherCalls(ca, cb, w, x);
    }
  }

  // ----- the calls are those of kcp_impl.c

  /** The bytes recvfrom puts into the buffer. */
  function TakenBytes(s: Sys, take: Take): bytes {
    if take.Nth? && take.n < |s.b.out| then EncodeAll(s.a.kcb.cfg.conv, s.b.out[take.n]) else []
  }

  /** Every datagram fits the buffer of recvfrom. */
  ghost predicate AllFit(s: Sys) {
    forall i :: 0 <= i < |s.b.out| ==> 0 < |EncodeAll(s.a.kcb.cfg.conv, s.b.out[i])| <= RECV_BUF
  }

  /** kcp_update_loop is what the events say. */
  lemma {:induction false} LoopIsUpdateLoop(s: Sys, now: u64, take: Take)
    requires Runnable(s) && AllFit(s)
    ensures After(Wrap, s, Moves(true, LoopEvents(now, take))).a.kcb == UpdateLoop(s.a.kcb, now, TakenBytes(s, take))
  {
    hide Update, Input, Parse, EncodeAll;
    UpdateCfg(s.a.kcb, U32(now));
    var v := [ByA(EvUpdate(U32(now)))];
    OneMove(Wrap, s, v[0]);
    var s1 := Step(Wrap, s, v[0]);
    UpdateStep(s, now);
    if take.Nth? {
      var d := [ByA(EvDeliver(take.n))];
      assert Moves(true, LoopEvents(now, take)) == v + d;
      AfterConcat(Wrap, s, v, d);
      OneMove(Wrap, s1, d[0]);
      if take.n < |s.b.out| {
        var from := EncodeAll(s.a.kcb.cfg.conv, s.b.out[take.n]);
        assert Truncated(from) == from;
      }
    } else {
      assert Moves(true, LoopEvents(now, take)) == v;
    }
  }

  lemma {:induction false} UpdateStep(s: Sys, now: u64)
    requires Runnable(s)
    ensures var s1 := Step(Wrap, s, ByA(EvUpdate(U32(now)))); s1.b == s.b && s1.a.kcb == Update(Wrap, s.a.kcb, U32(now))
  {
  }

  /** The events of a call leave the client's control block as kcp_send does, and kcp_send answers SendAnswer. */
  lemma {:induction false} SendIsKcpSend(s: Sys, msg: bytes, now: u64, take: Take)
    requires Runnable(s) && AllFit(s)
    ensures var r := KcpSend(s.a.kcb, msg, now, TakenBytes(s, take));
      && After(Wrap, s, Moves(true, CallEvents(s.a.kcb, SendCall(msg, now, take)))).a.kcb == r.kcb
      && SendAnswer(s.a.kcb, msg) == r.code
  {
    hide UpdateLoop, LoopEvents, After, Endpoint.Send, EncodeAll;
    var v := [EvSend(msg)];
    var rest := if Endpoint.Send(s.a.kcb, msg).1 < 0 then [] else LoopEvents(now, take);
    MovesConcat(true, v, rest);
    AfterConcat(Wrap, s, Moves(true, v), Moves(true, rest));
    assert Moves(true, v) == [ByA(EvSend(msg))];
    OneMove(Wrap, s, ByA(EvSend(msg)));
    var s1 := Step(Wrap, s, ByA(EvSend(msg)));
    assert s1.a.kcb == Endpoint.Send(s.a.kcb, msg).0 && s1.b == s.b;
    SendCfg(s.a.kcb, msg);
    LoopIsUpdateLoop(s1, now, take);
    NoMoves(s1);
  }

  /** The calls of the second endpoint are those of the first with the sides exchanged, so the same holds of it. */
  lemma {:induction false} SecondSide(s: Sys, es: seq<Event>)
    requires Runnable(s)
    ensures After(Wrap, s, Moves(false, es)) == Swap(After(Wrap, Swap(s), Moves(true, es)))
  {
    hide After;
    AfterMirror(Wrap, Swap(s), Moves(true, es));
    assert Mirror(Moves(true, es)) == Moves(false, es);
  }

  lemma {:induction false} NoMoves(s: Sys)
    requires Runnable(s)
    ensures After(Wrap, s, Moves(true, [])) == s
  {
  }

  lemma {:induction false} SendCfg(k: Kcb, msg: bytes)
    requires k.cfg.mss > 0
    ensures Endpoint.Send(k, msg).0.cfg == k.cfg
  {
  }

  /** The same of kcp_recv. */
  lemma {:induction false} RecvIsKcpRecv(s: Sys, len: nat, now: u64, take: Take)
    requires Runnable(s) && AllFit(s)
    ensures var r := KcpRecv(s.a.kcb, len, now, TakenBytes(s, take));
      var w := After(Wrap, s, Moves(true, LoopEvents(now, take)));
      && After(Wrap, s, Moves(true, CallEvents(s.a.kcb, RecvCall(len, now, take)))).a.kcb == r.kcb
      && RecvAnswer(w.a.kcb, len) == Arrival(r.code, r.data)
  {
    hide UpdateLoop, LoopEvents, After, Recv, EncodeAll;
    var v := [EvRecv(len)];
    MovesConcat(true, LoopEvents(now, take), v);
    AfterConcat(Wrap, s, Moves(true, LoopEvents(now, take)), Moves(true, v));
    LoopIsUpdateLoop(s, now, take);
    assert Moves(true, v) == [ByA(EvRecv(len))];
    OneMove(Wrap, After(Wrap, s, Moves(true, LoopEvents(now, take))), ByA(EvRecv(len)));
  }

  lemma {:induction false} RunCfg(m: Arith, ca: Cfg, cb: Cfg, moves: seq<Move>)
    requires ValidPair(ca, cb)
    ensures var s := Run(m, ca, cb, moves); s.a.kcb.cfg == ca && s.b.kcb.cfg == cb
  {
    hide Act;
    if moves != [] {
      var s, v := Run(m, ca, cb, moves[..|moves| - 1]), moves[|moves| - 1];
      RunCfg(m, ca, cb, moves[..|moves| - 1]);
      match v
      case ByA(e) => EventBooks(m, s, e);
      case ByB(e) => EventBooks(m, Swap(s), e);
    }
  }

  /** With an mtu of at most 1500 every datagram of every run fits the buffer of recvfrom. */
  lemma {:induction false} RunFits(ca: Cfg, cb: Cfg, moves: seq<Move>)
    requires ValidPair(ca, cb) && FreshRun(ca, cb, moves) && cb.mtu <= RECV_BUF
    ensures AllFit(Run(Wrap, ca, cb, moves))
  {
    hide Link, KcbOk, Run;
    RunInv(ca, cb, moves);
    RunImage(ca, cb, moves);
    RunCfg(Exact, ca, cb, moves);
    var s, w := Run(Exact, ca, cb, moves), Run(Wrap, ca, cb, moves);
    forall i | 0 <= i < |w.b.out| ensures 0 < |EncodeAll(w.a.kcb.cfg.conv, w.b.out[i])| <= RECV_BUF {
      assert w.b.out[i] == ImgSegs(s.b.out[i]) && Fits(s.b.kcb.cfg.mtu, s.b.out[i]);
      SizeImage(s.b.out[i]);
      EncodedLength(w.a.kcb.cfg.conv, w.b.out[i]);
      var d := w.b.out[i];
      assert Size(d) >= SegSize(d[|d| - 1]) > 0;
    }
  }
}
