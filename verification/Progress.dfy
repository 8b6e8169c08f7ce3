/** Progress of the 32-bit program: a round without loss acknowledges something, in every reachable state in which the
    oldest segment is due. */
module Progress {
  import opened Serial
  import opened Types
  import opened Wire
  import opened Receive
  import opened Transmit
  import opened Timers
  import opened Endpoint
  import opened System
  import opened Truth
  import opened Safety
  import opened Refinement
  import opened Liveness
  import opened Delivery

  // ----- the loss-free round as events

  /** One side reads the datagrams of the other from number i up to number end, in order. */
  function Reads(i: nat, end: nat, first: bool): seq<Move>
    decreases end - i
  {
    if i >= end then [] else [if first then ByA(EvDeliver(i)) else ByB(EvDeliver(i))] + Reads(i + 1, end, first)
  }

  /** The first endpoint flushes, the second reads exactly the datagrams of this flush, in order, and flushes, the first
      reads exactly the datagrams of that flush, in order. */
  function RoundMoves(m: Arith, s: Sys): seq<Move>
    requires Runnable(s)
  {
    var s1 := After(m, s, [ByA(EvFlush)]);
    var there := Reads(|s.a.out|, |s1.a.out|, false);
    var s2 := After(m, s1, there);
    var s3 := After(m, s2, [ByB(EvFlush)]);
    [ByA(EvFlush)] + there + [ByB(EvFlush)] + Reads(|s.b.out|, |s3.b.out|, true)
  }

  lemma {:induction false} ReadFromA(m: Arith, s: Sys, i: nat)
    requires Runnable(s)
    ensures ReadFrom(m, s, i) == After(m, s, Reads(i, |s.b.out|, true))
    decreases |s.b.out| - i
  {
    hide Deliver, Runnable;
    if i < |s.b.out| {
      ReadFromA(m, Deliver(m, s, i), i + 1);
      assert Reads(i, |s.b.out|, true)[1..] == Reads(i + 1, |s.b.out|, true);
    }
  }

  lemma {:induction false} ReadsMirror(i: nat, end: nat)
    ensures Mirror(Reads(i, end, true)) == Reads(i, end, false)
    decreases end - i
  {
    if i < end {
      ReadsMirror(i + 1, end);
      assert Reads(i, end, true)[1..] == Reads(i + 1, end, true);
    }
  }

  lemma {:induction false} ReadFromB(m: Arith, s: Sys, i: nat)
    requires Runnable(s)
    ensures ReadFrom(m, Swap(s), i) == Swap(After(m, s, Reads(i, |s.a.out|, false)))
  {
    hide Deliver, ReadFrom, After, Reads;
    ReadFromA(m, Swap(s), i);
    ReadsMirror(i, |s.a.out|);
    AfterMirror(m, Swap(s), Reads(i, |s.a.out|, true));
  }

  /** The parts of the round. */
  lemma {:induction false} RoundParts(m: Arith, s: Sys)
    requires Runnable(s)
    ensures var s1 := After(m, s, [ByA(EvFlush)]);
      var s2 := After(m, s1, Reads(|s.a.out|, |s1.a.out|, false));
      var s3 := After(m, s2, [ByB(EvFlush)]);
      && s1 == FlushFirst(m, s) && s2 == Swap(ReadFrom(m, Swap(s1), |s.a.out|)) && s3 == Swap(FlushFirst(m, Swap(s2)))
      && After(m, s, RoundMoves(m, s)) == After(m, s3, Reads(|s.b.out|, |s3.b.out|, true))
      && After(m, s, RoundMoves(m, s)) == Round(m, s)
  {
    hide FlushFirst, ReadFrom, After, Reads, Runnable;
    var flush, reply := [ByA(EvFlush)], [ByB(EvFlush)];
    var s1 := After(m, s, flush);
    var d1 := Reads(|s.a.out|, |s1.a.out|, false);
    var s2 := After(m, s1, d1);
    var s3 := After(m, s2, reply);
    var d2 := Reads(|s.b.out|, |s3.b.out|, true);
    OneMove(m, s, flush[0]);
    ReadFromB(m, s1, |s.a.out|);
    OneMove(m, s2, reply[0]);
    ReadFromA(m, s3, |s.b.out|);
    AfterConcat(m, s, flush, d1);
    AfterConcat(m, s, flush + d1, reply);
    AfterConcat(m, s, flush + d1 + reply, d2);
  }

  // ----- freshness of further events

  /** Every datagram delivered by the events is fresh when it is delivered. */
  ghost predicate FreshAfter(s: Sys, moves: seq<Move>)
    requires Runnable(s)
    decreases |moves|
  {
    moves == [] || (FreshMove(s, moves[0]) && FreshAfter(Step(Exact, s, moves[0]), moves[1..]))
  }

  lemma {:induction false} FreshAfterConcat(s: Sys, a: seq<Move>, b: seq<Move>)
    requires Runnable(s) && FreshAfter(s, a) && FreshAfter(After(Exact, s, a), b)
    ensures FreshAfter(s, a + b)
    decreases |a|
  {
    hide Step, FreshMove, Runnable;
    if a == [] {
      assert a + b == b;
    } else {
      assert (a + b)[1..] == a[1..] + b;
      FreshAfterConcat(Step(Exact, s, a[0]), a[1..], b);
    }
  }

  lemma {:induction false} FreshRunConcat(ca: Cfg, cb: Cfg, moves: seq<Move>, more: seq<Move>)
    requires ValidPair(ca, cb) && FreshRun(ca, cb, moves) && FreshAfter(Run(Exact, ca, cb, moves), more)
    ensures FreshRun(ca, cb, moves + more)
    decreases |more|
  {
    hide Step, FreshMove;
    if more == [] {
      assert moves + more == moves;
    } else {
      var v := more[0];
      assert (moves + [v])[..|moves|] == moves;
      assert moves + more == (moves + [v]) + more[1..];
      FreshRunConcat(ca, cb, moves + [v], more[1..]);
    }
  }

  lemma {:induction false} FreshAfterMirror(s: Sys, moves: seq<Move>)
    requires Runnable(s) && FreshAfter(s, moves)
    ensures FreshAfter(Swap(s), Mirror(moves))
    decreases |moves|
  {
    hide Act, FreshEvent;
    if moves != [] {
      assert Mirror(moves)[1..] == Mirror(moves[1..]);
      FreshAfterMirror(Step(Exact, s, moves[0]), moves[1..]);
    }
  }

  /** Fresh events keep the invariant, and the program follows them. */
  lemma {:induction false} AfterImage(s: Sys, moves: seq<Move>)
    requires Inv(s) && Runnable(s) && FreshAfter(s, moves)
    ensures Inv(After(Exact, s, moves)) && Runnable(ImgSys(s))
    ensures After(Wrap, ImgSys(s), moves) == ImgSys(After(Exact, s, moves))
    decreases |moves|
  {
    if moves != [] {
      hide Step, Inv, FreshMove;
      StepImage(s, moves[0]);
      StepKeeps(s, moves[0]);
      AfterImage(Step(Exact, s, moves[0]), moves[1..]);
    }
  }

  // ----- the round is fresh

  /** No acknowledgement that waits to be sent is for a number before `oldest`. */
  ghost predicate AcksFrom(acks: seq<AckItem>, oldest: int) {
    forall i :: 0 <= i < |acks| ==> acks[i].sn >= oldest
  }

  /** Nothing in the segment is before its bound: una and acknowledged numbers, and numbers of data. */
  predicate SegFrom(q: Seg, replies: int, pushes: int) {
    q.una >= replies && (q.cmd.Ack? ==> q.sn >= replies) && (q.cmd.Push? ==> q.sn >= pushes)
  }

  ghost predicate AllFrom(d: seq<Seg>, replies: int, pushes: int) {
    forall j :: 0 <= j < |d| ==> SegFrom(d[j], replies, pushes)
  }

  /** The bounds that make a datagram of y fresh for x, however x reads on. */
  lemma {:induction false} FromIsFresh(x: Peer, y: Peer, d: seq<Seg>, pushes: int)
    requires PeerOk(x) && Link(x, y) && Link(y, x) && AllFrom(d, |x.hist| - HALF, pushes) && pushes >= |y.hist| - 65535
    ensures Fresh(x.kcb, d)
  {
    hide AllPush, AllReply, NoLoss, FlightsTrue, Content, Consumed, Shape;
    forall j | 0 <= j < |d| ensures FreshSeg(x.kcb, d[j]) {
      assert SegFrom(d[j], |x.hist| - HALF, pushes);
    }
  }

  /** What is acknowledged next was acknowledged before or just read. */
  lemma {:induction false} ProcessAcksFrom(st: Inner, d: seq<Seg>, replies: int, oldest: int, pushes: int)
    requires AcksFrom(st.kcb.rcv.acks, oldest) && AllFrom(d, replies, pushes) && oldest <= pushes
    ensures AcksFrom(ProcessAll(Exact, st, d).kcb.rcv.acks, oldest)
    decreases |d|
  {
    if d != [] {
      assert SegFrom(d[0], replies, pushes);
      TakePushAcks(st.kcb.cfg.rcvWnd, st.kcb.rcv, d[0]);
      hide TakePush, TakeAck, TakeHeader, BetterAck;
      ProcessRcv(st, d[0]);
      assert AllFrom(d[1..], replies, pushes) by {
        forall j | 0 <= j < |d[1..]| ensures SegFrom(d[1..][j], replies, pushes) { assert d[1..][j] == d[j + 1]; }
      }
      ProcessAcksFrom(Process(Exact, st, d[0]), d[1..], replies, oldest, pushes);
    }
  }

  lemma {:induction false} ProcessRcv(st: Inner, q: Seg)
    ensures Process(Exact, st, q).kcb.rcv ==
      if q.cmd.Push? then TakePush(Exact, st.kcb.cfg.rcvWnd, st.kcb.rcv, q) else st.kcb.rcv
  {
    hide TakePush;
  }

  lemma {:induction false} TakePushAcks(wnd: nat, r: Rcv, q: Seg)
    ensures var acks := TakePush(Exact, wnd, r, q).acks; acks == r.acks || acks == r.acks + [AckItem(q.sn, q.ts)]
  {
    var p := Part(q.sn, q.frg, q.data);
    var r1 := r.(acks := r.acks + [AckItem(q.sn, q.ts)]);
    MoveReadyAcks(Exact, wnd, r1.(buf := Insert(Exact, r1.buf, p)));
  }

  ghost predicate Bounds(s: Sys, i: nat, oldest: int, pushes: int) {
    && oldest <= pushes && pushes >= |s.b.hist| - 65535 && AcksFrom(s.a.kcb.rcv.acks, oldest)
    && forall j :: i <= j < |s.b.out| ==> AllFrom(s.b.out[j], |s.a.hist| - HALF, pushes)
  }

  /** Reading one datagram. */
  lemma {:induction false} ReadFresh(s: Sys, i: nat, oldest: int, pushes: int)
    requires Inv(s) && Runnable(s) && i < |s.b.out| && Bounds(s, i, oldest, pushes)
    ensures FreshMove(s, ByA(EvDeliver(i))) && Step(Exact, s, ByA(EvDeliver(i))) == Deliver(Exact, s, i)
    ensures Inv(Deliver(Exact, s, i)) && Bounds(Deliver(Exact, s, i), i + 1, oldest, pushes)
  {
    InvParts(s);
    FromIsFresh(s.a, s.b, s.b.out[i], pushes);
    ProcessAcksFrom(Inner(s.a.kcb, NO_ACK), s.b.out[i], |s.a.hist| - HALF, oldest, pushes);
    DeliverKeeps(s, i);
    DeliverAcks(s, i);
    hide Inv, Deliver, Fresh, AllFrom, AcksFrom, Runnable;
  }

  /** Reading all of the other side's datagrams from number i on is fresh. */
  lemma {:induction false} ReadsFresh(s: Sys, i: nat, oldest: int, pushes: int)
    requires Inv(s) && Runnable(s) && Bounds(s, i, oldest, pushes)
    ensures FreshAfter(s, Reads(i, |s.b.out|, true))
    decreases |s.b.out| - i
  {
    hide Inv, Deliver, Step, FreshMove, Bounds;
    if i < |s.b.out| {
      ReadFresh(s, i, oldest, pushes);
      ReadsFresh(Deliver(Exact, s, i), i + 1, oldest, pushes);
      assert Reads(i, |s.b.out|, true)[1..] == Reads(i + 1, |s.b.out|, true);
    }
  }

  lemma {:induction false} ReadFromStep(s: Sys, i: nat)
    requires Runnable(s)
    ensures ReadFrom(Exact, s, i) == if i >= |s.b.out| then s else ReadFrom(Exact, Deliver(Exact, s, i), i + 1)
  {
    hide Deliver;
  }

  /** It leaves nothing older to acknowledge. */
  lemma {:induction false} ReadsAcks(s: Sys, i: nat, oldest: int, pushes: int)
    requires Inv(s) && Runnable(s) && Bounds(s, i, oldest, pushes)
    ensures AcksFrom(ReadFrom(Exact, s, i).a.kcb.rcv.acks, oldest)
    decreases |s.b.out| - i
  {
    assert AcksFrom(s.a.kcb.rcv.acks, oldest);
    hide Inv, Deliver, Step, FreshMove, Bounds, AcksFrom, Runnable, ReadFrom;
    ReadFromStep(s, i);
    if i < |s.b.out| {
      ReadFresh(s, i, oldest, pushes);
      ReadsAcks(Deliver(Exact, s, i), i + 1, oldest, pushes);
    }
  }

  lemma {:induction false} InvParts(s: Sys)
    requires Inv(s)
    ensures PeerOk(s.a) && PeerOk(s.b) && Link(s.a, s.b) && Link(s.b, s.a)
  {
  }

  lemma {:induction false} DeliverAcks(s: Sys, i: nat)
    requires Runnable(s) && i < |s.b.out|
    ensures var s1 := Deliver(Exact, s, i);
      && s1.a.hist == s.a.hist && s1.a.out == s.a.out
      && s1.a.kcb.rcv.acks == ProcessAll(Exact, Inner(s.a.kcb, NO_ACK), s.b.out[i]).kcb.rcv.acks
  {
    hide ProcessAll;
    ProcessAllCfg(Exact, Inner(s.a.kcb, NO_ACK), s.b.out[i]);
  }

  /** What a flush says: nothing older than what it acknowledges and than its oldest segment. */
  lemma {:induction false} EmittedFrom(k: Kcb, replies: int)
    requires KcbOk(Exact, k) && k.rcv.nxt >= replies && AcksFrom(k.rcv.acks, replies)
    ensures AllFrom(Emitted(Exact, k), replies, k.snd.una)
    ensures Filled(Exact, k).nxt <= k.snd.una + 65535
  {
    FilledOk(Exact, k);
    FillPrefix(k.snd, Window(k), k.clk.current, k.rtt.rto);
    var s := Filled(Exact, k);
    assert forall i :: 0 <= i < |s.buf| ==> Off(Exact, s.buf[i].sn, s.una) >= 0;
    hide KcbOk, Filled, ProbeTick;
    if k.clk.updated {
      var wnd := Unused(k.cfg.rcvWnd, k.rcv);
      DataSegsFrom(MakeCtx(k), wnd, k.rcv.nxt, s.buf, k.snd.una);
      hide DataSegs;
      var e := Emitted(Exact, k);
      var signals := |AckSegs(wnd, k.rcv.nxt, k.rcv.acks)|;
      forall j | 0 <= j < |e| ensures SegFrom(e[j], replies, k.snd.una) {
        if j < signals {
          assert e[j] == AckSeg(wnd, k.rcv.nxt, k.rcv.acks[j]);
        }
      }
    }
  }

  lemma {:induction false} DataSegsFrom(c: Ctx, wnd: nat, una: nat, buf: seq<Flight>, pushes: int)
    requires forall i :: 0 <= i < |buf| ==> buf[i].sn >= pushes
    ensures AllFrom(DataSegs(c, wnd, una, buf), una, pushes)
    ensures forall j :: 0 <= j < |DataSegs(c, wnd, una, buf)| ==> DataSegs(c, wnd, una, buf)[j].cmd.Push?
  {
    if buf != [] {
      DataSegsFrom(c, wnd, una, buf[..|buf| - 1], pushes);
      TouchKeepsNumber(c, buf[|buf| - 1]);
      hide Touch, Decide;
    }
  }

  lemma {:induction false} PackedFrom(mtu: nat, segs: seq<Seg>, replies: int, pushes: int)
    requires forall i :: 0 <= i < |segs| ==> SegSize(segs[i]) <= mtu
    requires AllFrom(segs, replies, pushes)
    ensures forall i :: 0 <= i < |Pack(mtu, segs)| ==> AllFrom(Pack(mtu, segs)[i], replies, pushes)
  {
    PackOk(mtu, segs);
    var ds := Pack(mtu, segs);
    forall i, j | 0 <= i < |ds| && 0 <= j < |ds[i]| ensures SegFrom(ds[i][j], replies, pushes) {
      var k := FlatMembers(ds, i, j);
    }
  }

  /** No acknowledgement waits at x that will be half the number space old when the peer y has filled its window. */
  ghost predicate RecentAcks(x: Peer, y: Peer) {
    AcksFrom(x.kcb.rcv.acks, y.kcb.snd.una + 65535 - HALF)
  }

  /** A flush behind recent acknowledgements says only what is fresh for the peer. */
  lemma {:induction false} FlushFrom(x: Peer, y: Peer)
    requires PeerOk(x) && PeerOk(y) && Link(x, y) && Link(y, x) && RecentAcks(x, y)
    ensures forall i :: 0 <= i < |Datagrams(Exact, x.kcb)| ==>
      AllFrom(Datagrams(Exact, x.kcb)[i], |y.hist| - HALF, x.kcb.snd.una)
    ensures |PeerFlush(Exact, x).hist| <= x.kcb.snd.una + 65535 && |y.hist| <= y.kcb.snd.una + 65535
  {
    var k, replies := x.kcb, |y.hist| - HALF;
    SenderAhead(y, x);
    FlushKeeps(x, y);
    assert |y.hist| == y.kcb.snd.nxt <= y.kcb.snd.una + 65535;
    hide Link, FlightsTrue, SndOk, Pack, Emitted;
    EmittedFrom(k, replies);
    EmittedSizes(Exact, k);
    PackedFrom(k.cfg.mtu, Emitted(Exact, k), replies, k.snd.una);
  }

  lemma {:induction false} FlushOut(x: Peer)
    ensures PeerFlush(Exact, x).out == x.out + Datagrams(Exact, x.kcb)
    ensures PeerFlush(Exact, x).kcb.snd.una == x.kcb.snd.una
  {
    hide Datagrams, Window;
    FillPrefix(x.kcb.snd, Window(x.kcb), x.kcb.clk.current, x.kcb.rtt.rto);
  }

  /** A flush puts what it says behind what was said before. */
  lemma {:induction false} FlushBounds(s: Sys, oldest: int)
    requires Inv(s) && RecentAcks(s.a, s.b) && oldest <= s.a.kcb.snd.una && AcksFrom(s.b.kcb.rcv.acks, oldest)
    requires Runnable(s)
    ensures Inv(FlushFirst(Exact, s)) && Bounds(Swap(FlushFirst(Exact, s)), |s.a.out|, oldest, s.a.kcb.snd.una)
    ensures FlushFirst(Exact, s).a.kcb.snd.una == s.a.kcb.snd.una && |s.a.out| <= |FlushFirst(Exact, s).a.out|
  {
    hide Inv, Link, PeerOk, AllFrom, AcksFrom, RecentAcks, Datagrams, PeerFlush, Runnable;
    FlushFirstKeeps(s);
    InvParts(s);
    FlushFrom(s.a, s.b);
    FlushOut(s.a);
    var s1, d := FlushFirst(Exact, s), Datagrams(Exact, s.a.kcb);
    forall j | |s.a.out| <= j < |s1.a.out| ensures AllFrom(s1.a.out[j], |s.b.hist| - HALF, s.a.kcb.snd.una) {
      assert s1.a.out[j] == d[j - |s.a.out|];
    }
  }

  /** Every delivery of the round is fresh. */
  lemma {:induction false} RoundFresh(s: Sys)
    requires Inv(s) && Runnable(s) && RecentAcks(s.a, s.b) && RecentAcks(s.b, s.a)
    ensures FreshAfter(s, RoundMoves(Exact, s))
  {
    hide Inv, FlushFirst, ReadFrom, After, Reads, Bounds, FreshAfter, AcksFrom, Runnable;
    RoundParts(Exact, s);
    var oldest := s.a.kcb.snd.una + 65535 - HALF;
    FlushBounds(s, oldest);
    var s1 := FlushFirst(Exact, s);
    InvRunnable(s1);
    SwapKeeps(s1);
    InvRunnable(Swap(s1));
    ReadsFresh(Swap(s1), |s.a.out|, oldest, s.a.kcb.snd.una);
    ReadsAcks(Swap(s1), |s.a.out|, oldest, s.a.kcb.snd.una);
    ReadFromKeeps(Swap(s1), |s.a.out|);
    ReadFromRcv(Swap(s1), |s.a.out|);
    var s2 := ReadFrom(Exact, Swap(s1), |s.a.out|);
    InvRunnable(s2);
    AnyAcks(s2.b.kcb.rcv.acks);
    FlushBounds(s2, 0);
    var s3 := Swap(FlushFirst(Exact, s2));
    SwapKeeps(FlushFirst(Exact, s2));
    InvRunnable(s3);
    ReadsFresh(s3, |s.b.out|, 0, s2.a.kcb.snd.una);
    FreshAfterMirror(Swap(s1), Reads(|s.a.out|, |s1.a.out|, true));
    ReadsMirror(|s.a.out|, |s1.a.out|);
    NoDelivery(s, ByA(EvFlush));
    NoDelivery(Swap(s2), ByB(EvFlush));
    var flush, reply := [ByA(EvFlush)], [ByB(EvFlush)];
    var d1, d2 := Reads(|s.a.out|, |s1.a.out|, false), Reads(|s.b.out|, |s3.b.out|, true);
    FreshAfterConcat(s, flush, d1);
    AfterConcat(Exact, s, flush, d1);
    FreshAfterConcat(s, flush + d1, reply);
    AfterConcat(Exact, s, flush + d1, reply);
    FreshAfterConcat(s, flush + d1 + reply, d2);
  }

  lemma {:induction false} AnyAcks(acks: seq<AckItem>)
    ensures AcksFrom(acks, 0)
  {
  }

  lemma {:induction false} NoDelivery(s: Sys, v: Move)
    requires Runnable(s) && v.ev.EvFlush?
    ensures FreshAfter(s, [v])
  {
    assert [v][1..] == [];
  }

  // ----- progress

  lemma {:induction false} FreshAfterFront(s: Sys, a: seq<Move>, b: seq<Move>)
    requires Runnable(s) && FreshAfter(s, a + b)
    ensures FreshAfter(s, a)
    decreases |a|
  {
    hide Step, FreshMove, Runnable;
    if a != [] {
      assert (a + b)[1..] == a[1..] + b;
      FreshAfterFront(Step(Exact, s, a[0]), a[1..], b);
    }
  }

  /** The program's round is the round over unbounded numbers. */
  lemma {:induction false} RoundMovesImage(s: Sys)
    requires Inv(s) && Runnable(s) && FreshAfter(s, RoundMoves(Exact, s))
    ensures Runnable(ImgSys(s)) && RoundMoves(Wrap, ImgSys(s)) == RoundMoves(Exact, s)
  {
    hide Inv, After, Reads, FreshAfter, Runnable;
    var flush, reply := [ByA(EvFlush)], [ByB(EvFlush)];
    var s1 := After(Exact, s, flush);
    var d1 := Reads(|s.a.out|, |s1.a.out|, false);
    var s2 := After(Exact, s1, d1);
    var s3 := After(Exact, s2, reply);
    var d2 := Reads(|s.b.out|, |s3.b.out|, true);
    var w := ImgSys(s);
    FreshAfterFront(s, flush + d1 + reply, d2);
    FreshAfterFront(s, flush + d1, reply);
    FreshAfterFront(s, flush, d1);
    AfterImage(s, flush);
    AfterImage(s, flush + d1);
    AfterImage(s, flush + d1 + reply);
    AfterConcat(Exact, s, flush, d1);
    AfterConcat(Exact, s, flush + d1, reply);
    AfterConcat(Wrap, w, flush, d1);
    AfterConcat(Wrap, w, flush + d1, reply);
  }

  lemma {:induction false} ReadFromHist(s: Sys, i: nat)
    requires Runnable(s)
    ensures ReadFrom(Exact, s, i).a.hist == s.a.hist
    decreases |s.b.out| - i
  {
    if i < |s.b.out| {
      DeliverAcks(s, i);
      hide Deliver;
      ReadFromHist(Deliver(Exact, s, i), i + 1);
    }
  }

  /** A round moves snd_una no further than the window. */
  lemma {:induction false} RoundBound(s: Sys)
    requires Inv(s) && Runnable(s) && RecentAcks(s.a, s.b) && RecentAcks(s.b, s.a) && Inv(Round(Exact, s))
    ensures Round(Exact, s).a.kcb.snd.una <= s.a.kcb.snd.una + 65535
  {
    InvParts(s);
    FlushFrom(s.a, s.b);
    var s1 := FlushFirst(Exact, s);
    var s2 := ReadFrom(Exact, Swap(s1), |s.a.out|);
    var s3 := FlushFirst(Exact, s2);
    FlushFirstKeeps(s);
    SwapKeeps(s1);
    ReadFromKeeps(Swap(s1), |s.a.out|);
    ReadFromHist(Swap(s3), |s.b.out|);
    UnaBelowHist(Round(Exact, s));
  }

  lemma {:induction false} UnaBelowHist(s: Sys)
    requires Inv(s)
    ensures s.a.kcb.snd.una <= s.a.kcb.snd.nxt == |s.a.hist|
  {
  }

  /** The oldest segment is due and the peer has room and has been updated. */
  predicate Ready(s: Sys) {
    HeadDue(s.a.kcb) && s.b.kcb.clk.updated && |s.b.kcb.rcv.queue| < s.b.kcb.cfg.rcvWnd
  }

  /** From every reachable state of the program that is ready, one round without loss strictly advances snd_una, and all
      its deliveries are fresh, provided that what waits to be acknowledged is. */
  lemma {:induction false} RoundAdvances(ca: Cfg, cb: Cfg, moves: seq<Move>)
    requires ValidPair(ca, cb) && FreshRun(ca, cb, moves) && Ready(Run(Wrap, ca, cb, moves))
    requires var e := Run(Exact, ca, cb, moves); RecentAcks(e.a, e.b) && RecentAcks(e.b, e.a)
    ensures var s := Run(Wrap, ca, cb, moves); var more := moves + RoundMoves(Wrap, s);
      && FreshRun(ca, cb, more)
      && 0 < TimeDiff(Run(Wrap, ca, cb, more).a.kcb.snd.una, s.a.kcb.snd.una)
    ensures var e := Run(Exact, ca, cb, moves).a.kcb.snd.una;
      var e' := Run(Exact, ca, cb, moves + RoundMoves(Wrap, Run(Wrap, ca, cb, moves))).a.kcb.snd.una;
      e < e' <= e + 65535
  {
    hide Inv, Run, After, Round, RoundMoves, FreshAfter, RecentAcks;
    RunInv(ca, cb, moves);
    RunImage(ca, cb, moves);
    var e := Run(Exact, ca, cb, moves);
    var more := RoundMoves(Exact, e);
    RoundFresh(e);
    RoundMovesImage(e);
    RoundProgress(e);
    RoundBound(e);
    RoundParts(Exact, e);
    RunConcat(Exact, ca, cb, moves, more);
    FreshRunConcat(ca, cb, moves, more);
    RunImage(ca, cb, moves + more);
    ImageDiffExact(Round(Exact, e).a.kcb.snd.una, e.a.kcb.snd.una);
  }

  /** Without any assumption on freshness: up to 2^31 - 131070 fragments a side, from every reachable ready state one
      round without loss strictly advances snd_una. */
  lemma {:induction false} Progress(ca: Cfg, cb: Cfg, moves: seq<Move>)
    requires ValidPair(ca, cb) && Ready(Run(Wrap, ca, cb, moves)) && Short(Run(Wrap, ca, cb, moves))
    ensures var s := Run(Wrap, ca, cb, moves);
      Run(Wrap, ca, cb, moves + RoundMoves(Wrap, s)).a.kcb.snd.una > s.a.kcb.snd.una
  {
    hide Inv, Run, RoundMoves, RecentAcks, Ready, Short, FreshRun, CfgOk;
    ShortIsFresh(ca, cb, moves);
    RunInv(ca, cb, moves);
    RunImage(ca, cb, moves);
    ShortAcks(Run(Exact, ca, cb, moves));
    RoundAdvances(ca, cb, moves);
    RunImage(ca, cb, moves + RoundMoves(Wrap, Run(Wrap, ca, cb, moves)));
  }

  lemma {:induction false} ShortAcks(e: Sys)
    requires Inv(e) && Short(ImgSys(e))
    ensures RecentAcks(e.a, e.b) && RecentAcks(e.b, e.a) && e.a.kcb.snd.una <= SHORT
  {
    UnaBelowHist(e);
    SwapKeeps(e);
    UnaBelowHist(Swap(e));
  }
}
