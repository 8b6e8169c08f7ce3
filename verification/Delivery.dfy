/** The guarantees of the 32-bit system, stated on its own runs. */
module Delivery {
  import opened Serial
  import opened Types
  import opened Wire
  import opened Messages
  import opened Receive
  import opened Transmit
  import opened Endpoint
  import Congestion
  import opened System
  import opened Truth
  import opened Safety
  import opened Image
  import opened Refinement
  import opened Liveness

  /** What one side received is a prefix of what the other side got accepted. */
  ghost predicate InOrder(tx: Peer, rx: Peer) {
    if tx.kcb.cfg.stream then Flat(rx.got) <= Flat(tx.accepted) else rx.got <= tx.accepted
  }

  /** In every run of the program whose deliveries are fresh, over a network that loses, duplicates and reorders, each
      side receives a prefix of what the other side sent: whole messages in message mode, bytes in stream mode. */
  lemma {:induction false} DeliveredInOrder(ca: Cfg, cb: Cfg, moves: seq<Move>)
    requires ValidPair(ca, cb) && FreshRun(ca, cb, moves)
    ensures var s := Run(Wrap, ca, cb, moves); InOrder(s.a, s.b) && InOrder(s.b, s.a)
  {
    RunInv(ca, cb, moves);
    RunImage(ca, cb, moves);
    var s := Run(Exact, ca, cb, moves);
    Delivered(s.a, s.b);
    Delivered(s.b, s.a);
  }

  // ----- no data is lost

  ghost predicate InSndBuf(buf: seq<Flight>, sn: nat, f: Frag) {
    exists i :: 0 <= i < |buf| && buf[i].sn == sn && buf[i].Piece() == f
  }

  ghost predicate InParts(ps: seq<Part>, sn: nat, f: Frag) {
    exists i :: 0 <= i < |ps| && ps[i].sn == sn && ps[i].Piece() == f
  }

  /** Every fragment that was ever numbered is with the sender, with the receiver, or was handed to the application:
      the first p of them are whole messages, exactly those the application got, and nothing more. */
  ghost predicate Preserved(tx: Peer, rx: Peer, p: nat) {
    && p <= |tx.hist| && Closed(tx.hist[..p]) && Msgs(tx.hist[..p]) == rx.got
    && forall n: nat :: p <= n < |tx.hist| ==>
         InSndBuf(tx.kcb.snd.buf, Img(n), tx.hist[n]) || InParts(rx.kcb.rcv.queue + rx.kcb.rcv.buf, Img(n), tx.hist[n])
  }

  /** Where fragment n is. */
  lemma {:induction false} WhereIs(s: Snd, r: Rcv, hist: seq<Frag>, n: nat)
    requires |hist| == s.nxt && r.nxt - |r.queue| <= n < |hist|
    requires FlightsTrue(s.buf, hist) && RcvTrue(r, hist) && NoLoss(s, r) && Consecutive(Exact, r.nxt, r.queue)
    ensures InSndBuf(ImgBuf(s.buf), Img(n), hist[n]) ||
            InParts(ImgParts(r.queue) + ImgParts(r.buf), Img(n), hist[n])
  {
    var ps := ImgParts(r.queue) + ImgParts(r.buf);
    if n < r.nxt {
      var i := n - (r.nxt - |r.queue|);
      assert Off(Exact, r.nxt, r.queue[i].sn) == |r.queue| - i;
      assert Known(hist, r.queue[i].sn, r.queue[i].Piece());
      assert ps[i] == ImgPart(r.queue[i]);
    } else if Has(r.buf, n) {
      var i :| 0 <= i < |r.buf| && r.buf[i].sn == n;
      assert Known(hist, r.buf[i].sn, r.buf[i].Piece());
      assert ps[|r.queue| + i] == ImgPart(r.buf[i]);
    } else {
      assert HasFlight(s.buf, n) || Held(r, n);
      var i :| 0 <= i < |s.buf| && s.buf[i].sn == n;
      assert Known(hist, s.buf[i].sn, s.buf[i].Piece());
      assert ImgBuf(s.buf)[i] == ImgFlight(s.buf[i]);
    }
  }

  lemma {:induction false} LinkPreserves(tx: Peer, rx: Peer) returns (p: nat)
    requires PeerOk(rx) && Link(tx, rx)
    ensures Preserved(ImgPeer(tx), ImgPeer(rx), p)
  {
    hide AllPush, AllReply, Content, Msgs, InParts, InSndBuf, FlightsTrue, RcvTrue, NoLoss, Consecutive, Ascending,
         Congestion.CcOk, SndOk, Img, ImgParts, ImgBuf, ImgAcks, Shape, Drained;
    var s, r := tx.kcb.snd, rx.kcb.rcv;
    p := r.nxt - |r.queue|;
    forall n: nat | p <= n < |tx.hist|
      ensures InSndBuf(ImgBuf(s.buf), Img(n), tx.hist[n]) ||
              InParts(ImgParts(r.queue) + ImgParts(r.buf), Img(n), tx.hist[n])
    {
      WhereIs(s, r, tx.hist, n);
    }
  }

  /** No data is ever lost, in any reachable state. */
  lemma {:induction false} NothingLost(ca: Cfg, cb: Cfg, moves: seq<Move>) returns (p: nat, q: nat)
    requires ValidPair(ca, cb) && FreshRun(ca, cb, moves)
    ensures var s := Run(Wrap, ca, cb, moves); Preserved(s.a, s.b, p) && Preserved(s.b, s.a, q)
  {
    hide PeerOk, Link, Preserved, ImgPeer, Run;
    RunInv(ca, cb, moves);
    RunImage(ca, cb, moves);
    var s := Run(Exact, ca, cb, moves);
    p := LinkPreserves(s.a, s.b);
    q := LinkPreserves(s.b, s.a);
  }

  /** ikcp_waitsnd == 0 means that the peer has every byte of every accepted message. */
  lemma {:induction false} WaitSndZero(ca: Cfg, cb: Cfg, moves: seq<Move>) returns (p: nat)
    requires ValidPair(ca, cb) && FreshRun(ca, cb, moves)
    requires WaitSnd(Run(Wrap, ca, cb, moves).a.kcb) == 0
    ensures var s := Run(Wrap, ca, cb, moves);
      && p <= |s.a.hist| && Closed(s.a.hist[..p]) && Msgs(s.a.hist[..p]) == s.b.got
      && (forall n: nat :: p <= n < |s.a.hist| ==> InParts(s.b.kcb.rcv.queue + s.b.kcb.rcv.buf, Img(n), s.a.hist[n]))
      && (if s.a.kcb.cfg.stream then Join(s.a.hist) == Flat(s.a.accepted) else Msgs(s.a.hist) == s.a.accepted)
  {
    var q;
    p, q := NothingLost(ca, cb, moves);
    RunInv(ca, cb, moves);
    RunImage(ca, cb, moves);
    var s := Run(Wrap, ca, cb, moves);
    NothingWaiting(Run(Exact, ca, cb, moves).a, Run(Exact, ca, cb, moves).b);
    forall n: nat | p <= n < |s.a.hist| ensures InParts(s.b.kcb.rcv.queue + s.b.kcb.rcv.buf, Img(n), s.a.hist[n]) {
      assert !InSndBuf(s.a.kcb.snd.buf, Img(n), s.a.hist[n]);
    }
  }

  // ----- everything arrives

  /** A queue that ikcp_recv can take nothing from is not full. */
  lemma {:induction false} StuckHasRoom(tx: Peer, rx: Peer)
    requires PeerOk(rx) && Link(tx, rx) && PeekSize(rx.kcb.rcv.queue) < 0
    ensures |rx.kcb.rcv.queue| < rx.kcb.cfg.rcvWnd
  {
    hide PeerOk, Link, Msgs, PeekSize;
    if |rx.kcb.rcv.queue| >= rx.kcb.cfg.rcvWnd {
      FullQueueIsWhole(tx, rx);
    }
  }

  lemma {:induction false} NextNotBuffered(wnd: nat, r: Rcv)
    requires RcvOk(Exact, wnd, r) && |r.queue| < wnd
    ensures !Has(r.buf, r.nxt)
  {
    assert forall i :: 0 < i < |r.buf| ==> Off(Exact, r.buf[0].sn, r.nxt) < Off(Exact, r.buf[i].sn, r.nxt);
  }

  lemma {:induction false} HeldUpTo(r: Rcv, limit: nat)
    requires (forall n: nat :: n < limit ==> Held(r, n)) && !Has(r.buf, r.nxt)
    ensures r.nxt >= limit
  {
    assert !Held(r, r.nxt);
  }

  /** A queue at the end of the fragments holds whole messages only. */
  lemma {:induction false} TailIsWhole(tx: Peer, rx: Peer)
    requires PeerOk(rx) && Link(tx, rx) && tx.kcb.snd.queue == [] && rx.kcb.rcv.nxt == |tx.hist|
    requires PeekSize(rx.kcb.rcv.queue) < 0
    ensures rx.kcb.rcv.queue == []
  {
    hide AllPush, AllReply, FlightsTrue, Msgs;
    var r := rx.kcb.rcv;
    QueueIsHistory(tx, rx);
    hide PeerOk;
    if r.queue != [] {
      var all := tx.hist + tx.kcb.snd.queue;
      assert all == tx.hist;
      assert Frags(r.queue)[0] == tx.hist[r.nxt - |r.queue|];
      CountedFrom(all, r.nxt - |r.queue|, r.queue[0].frg);
    }
  }

  /** When the sender waits for nothing and nothing can be taken, the receiver has consumed every fragment. */
  lemma {:induction false} AllConsumed(tx: Peer, rx: Peer)
    requires PeerOk(rx) && Link(tx, rx) && WaitSnd(tx.kcb) == 0 && PeekSize(rx.kcb.rcv.queue) < 0
    ensures rx.kcb.rcv.nxt == |tx.hist| && rx.kcb.rcv.queue == []
  {
    hide AllPush, AllReply, FlightsTrue, Msgs, Congestion.CcOk, RcvOk, PeekSize;
    var r := rx.kcb.rcv;
    StuckHasRoom(tx, rx);
    NothingWaiting(tx, rx);
    NextNotBuffered(rx.kcb.cfg.rcvWnd, r);
    HeldUpTo(r, |tx.hist|);
    TailIsWhole(tx, rx);
  }

  /** Everything that was accepted was received: the messages, or in stream mode the bytes. */
  ghost predicate AllGot(tx: Peer, rx: Peer) {
    if tx.kcb.cfg.stream then Flat(rx.got) == Flat(tx.accepted) else rx.got == tx.accepted
  }

  lemma {:induction false} NothingWaitingGot(tx: Peer, rx: Peer)
    requires PeerOk(rx) && Link(tx, rx) && WaitSnd(tx.kcb) == 0 && PeekSize(rx.kcb.rcv.queue) < 0
    ensures AllGot(tx, rx)
  {
    AllConsumed(tx, rx);
    NothingWaiting(tx, rx);
    hide PeerOk, AllPush, AllReply, FlightsTrue, RcvTrue, NoLoss, Msgs, PeekSize, CountsDown, Small;
    assert tx.hist[..|tx.hist|] == tx.hist;
    if tx.kcb.cfg.stream {
      assert tx.hist + tx.kcb.snd.queue == tx.hist;
      ReadAllLast(tx.hist);
    }
  }

  /** When ikcp_waitsnd is zero on one side and ikcp_recv, with room for every message, fails on the other, everything
      that was accepted has been received. */
  lemma {:induction false} WaitSndZeroGot(ca: Cfg, cb: Cfg, moves: seq<Move>, len: nat)
    requires ValidPair(ca, cb) && FreshRun(ca, cb, moves)
    requires var s := Run(Wrap, ca, cb, moves);
      && WaitSnd(s.a.kcb) == 0 && RoomFor(s.a, len)
      && Recv(Wrap, s.b.kcb.cfg.rcvWnd, s.b.kcb.rcv, len).code < 0
    ensures var s := Run(Wrap, ca, cb, moves); AllGot(s.a, s.b)
  {
    hide Link, Run, PeekSize;
    RunInv(ca, cb, moves);
    RunImage(ca, cb, moves);
    var s := Run(Exact, ca, cb, moves);
    RecvImage(s.b.kcb.cfg.rcvWnd, s.b.kcb.rcv, len);
    NeverTooSmall(s.a, s.b, len);
    RecvFails(Exact, s.b.kcb.cfg.rcvWnd, s.b.kcb.rcv, len);
    NothingWaitingGot(s.a, s.b);
  }

  lemma {:induction false} RecvFails(m: Arith, wnd: nat, r: Rcv, len: nat)
    requires PeekSize(r.queue) <= len && Recv(m, wnd, r, len).code < 0
    ensures PeekSize(r.queue) < 0
  {
  }

  // ----- the receive window and the datagrams of every run

  lemma {:induction false} DrainImage(tx: Peer, rx: Peer, len: nat)
    requires PeerOk(rx) && Link(tx, rx)
    ensures Drain(Wrap, ImgPeer(rx), len) == ImgPeer(Drain(Exact, rx, len))
    decreases |rx.kcb.rcv.queue| + |rx.kcb.rcv.buf|
  {
    hide Link, Recv, PeerRecv, MergeCount;
    var r := Recv(Exact, rx.kcb.cfg.rcvWnd, rx.kcb.rcv, len);
    RecvImage(rx.kcb.cfg.rcvWnd, rx.kcb.rcv, len);
    if r.code >= 0 {
      PeerRecvImage(rx, len);
      RecvKeeps(tx, rx, len);
      RecvShrinks(Exact, rx, len);
      DrainImage(tx, PeerRecv(Exact, rx, len), len);
    }
  }

  lemma {:induction false} RecvShrinks(m: Arith, p: Peer, len: nat)
    requires Recv(m, p.kcb.cfg.rcvWnd, p.kcb.rcv, len).code >= 0
    ensures var r' := PeerRecv(m, p, len).kcb.rcv; |r'.queue| + |r'.buf| < |p.kcb.rcv.queue| + |p.kcb.rcv.buf|
  {
    MoveReadyLength(m, p.kcb.cfg.rcvWnd, p.kcb.rcv.(queue := p.kcb.rcv.queue[MergeCount(p.kcb.rcv.queue)..]));
  }

  /** The receive window cannot deadlock: in every state a fresh run reaches, calling ikcp_recv with room for whatever
      was accepted until it fails ends, leaves a window to advertise, and gave up nothing that was received before. */
  lemma {:induction false} WindowOpens(ca: Cfg, cb: Cfg, moves: seq<Move>, len: nat)
    requires ValidPair(ca, cb) && FreshRun(ca, cb, moves)
    requires RoomFor(Run(Wrap, ca, cb, moves).a, len)
    ensures var p, p' := Run(Wrap, ca, cb, moves).b, Drain(Wrap, Run(Wrap, ca, cb, moves).b, len);
      Unused(p'.kcb.cfg.rcvWnd, p'.kcb.rcv) > 0 && p.got <= p'.got
  {
    hide Link, PeerOk, Run, Drain;
    RunInv(ca, cb, moves);
    RunImage(ca, cb, moves);
    var s := Run(Exact, ca, cb, moves);
    DrainImage(s.a, s.b, len);
    DrainOpensWindow(s.a, s.b, len);
  }

  /** In every reachable state the datagrams of the next flush fit the mtu, and decode to exactly what was emitted. */
  lemma {:induction false} FlushDecodes(ca: Cfg, cb: Cfg, moves: seq<Move>)
    requires ValidPair(ca, cb) && FreshRun(ca, cb, moves)
    ensures var k := Run(Wrap, ca, cb, moves).a.kcb; var wire := EncodeEach(k.cfg.conv, Datagrams(Wrap, k));
      && ParseAll(k.cfg.conv, wire) == Emitted(Wrap, k)
      && forall i :: 0 <= i < |wire| ==> 0 < |wire[i]| <= k.cfg.mtu
  {
    hide Run, Emitted, Pack, ParseAll, EncodeEach;
    RunInv(ca, cb, moves);
    RunImage(ca, cb, moves);
    var s := Run(Exact, ca, cb, moves);
    var k, e := s.a.kcb, Emitted(Exact, s.a.kcb);
    EmittedImage(k);
    EmittedSizes(Exact, k);
    EmittedFormed(s.a, s.b);
    hide Link, KcbOk;
    forall i | 0 <= i < |e| ensures SegSize(ImgSegs(e)[i]) <= k.cfg.mtu && Encodable(ImgSegs(e)[i]) {
      assert WellFormed(e[i]) && SegSize(e[i]) <= k.cfg.mtu;
    }
    PackParse(k.cfg.conv, k.cfg.mtu, ImgSegs(e));
  }

  // ----- when freshness needs no thought

  lemma {:induction false} HistoryMono(m: Arith, s: Sys, v: Move)
    requires Runnable(s)
    ensures |Step(m, s, v).a.hist| >= |s.a.hist| && |Step(m, s, v).b.hist| >= |s.b.hist|
  {
  }

  const SHORT := HALF - 131070

  /** A run in which neither side has numbered more than 2^31 - 131070 fragments. */
  predicate Short(s: Sys) {
    |s.a.hist| <= SHORT && |s.b.hist| <= SHORT
  }

  lemma {:induction false} ShortEvent(s: Sys, e: Event)
    requires Inv(s) && Short(s)
    ensures FreshEvent(s, e)
  {
  }

  lemma {:induction false} ShortIsFresh(ca: Cfg, cb: Cfg, moves: seq<Move>)
    requires ValidPair(ca, cb) && Short(Run(Wrap, ca, cb, moves))
    ensures FreshRun(ca, cb, moves)
  {
    if moves != [] {
      var front, v := moves[..|moves| - 1], moves[|moves| - 1];
      HistoryMono(Wrap, Run(Wrap, ca, cb, front), v);
      hide Step, Inv, FreshEvent;
      ShortIsFresh(ca, cb, front);
      RunImage(ca, cb, front);
      RunInv(ca, cb, front);
      var s := Run(Exact, ca, cb, front);
      match v
      case ByA(e) => ShortEvent(s, e);
      case ByB(e) => SwapKeeps(s); ShortEvent(Swap(s), e);
    }
  }

  /** The same of the run over unbounded numbers. */
  lemma {:induction false} ShortExact(ca: Cfg, cb: Cfg, moves: seq<Move>)
    requires ValidPair(ca, cb) && Short(Run(Exact, ca, cb, moves))
    ensures FreshRun(ca, cb, moves)
  {
    if moves != [] {
      var front, v := moves[..|moves| - 1], moves[|moves| - 1];
      HistoryMono(Exact, Run(Exact, ca, cb, front), v);
      hide Step, Inv, FreshEvent;
      ShortExact(ca, cb, front);
      RunInv(ca, cb, front);
      var s := Run(Exact, ca, cb, front);
      match v
      case ByA(e) => ShortEvent(s, e);
      case ByB(e) => SwapKeeps(s); ShortEvent(Swap(s), e);
    }
  }

  /** Without any assumption on the network's memory: up to 2^31 - 131070 fragments a side, delivery is in order and
      exactly once. */
  lemma {:induction false} DeliveredInOrderShort(ca: Cfg, cb: Cfg, moves: seq<Move>)
    requires ValidPair(ca, cb) && Short(Run(Wrap, ca, cb, moves))
    ensures var s := Run(Wrap, ca, cb, moves); InOrder(s.a, s.b) && InOrder(s.b, s.a)
  {
    ShortIsFresh(ca, cb, moves);
    DeliveredInOrder(ca, cb, moves);
  }

  // ----- why freshness is needed

  /** The window test of the program judges a data segment as the true numbers would, exactly unless the segment is
      outside the window by true number and inside it modulo 2^32. */
  lemma {:induction false} WindowVerdict(wnd: nat, r: Rcv, sn: nat)
    requires wnd <= 65535
    ensures (InWindow(Wrap, wnd, ImgRcv(r), Img(sn)) <==> InWindow(Exact, wnd, r, sn))
       <==> (0 <= sn - r.nxt < wnd || (sn - r.nxt) % MOD >= wnd)
  {
    hide S32, Add;
    InWindowOffset(Wrap, wnd, Img(r.nxt), Img(sn));
    InWindowOffset(Exact, wnd, r.nxt, sn);
    assert r.nxt == MOD * (r.nxt / MOD) + Img(r.nxt);
    assert sn == MOD * (sn / MOD) + Img(sn);
    ModShift(Img(sn) - Img(r.nxt), sn / MOD - r.nxt / MOD);
  }

  /** A duplicate that the network kept for 2^32 numbers is taken for new data. */
  lemma {:induction false} StaleDuplicate(data: bytes)
    ensures var r := Rcv(MOD, [], [], []); var q := Seg(Push, 0, 128, 0, 0, 0, data);
      && TakePush(Exact, 128, r, q).queue == []
      && TakePush(Wrap, 128, ImgRcv(r), ImgSeg(q)).queue == [Part(0, 0, data)]
  {
    var p := Part(0, 0, data);
    var r1 := Rcv(0, [], [], [AckItem(0, 0)]);
    assert ImgRcv(Rcv(MOD, [], [], [])) == Rcv(0, [], [], []);
    assert Insert(Wrap, [], p) == [p];
    var r2 := r1.(buf := [p]);
    assert [] + [p] == [p] && [p][1..] == [];
    assert MoveReady(Wrap, 128, r2) == MoveReady(Wrap, 128, Rcv(1, [p], [], [AckItem(0, 0)]));
    assert InWindow(Wrap, 128, r1, 0);
    assert [] + [AckItem(0, 0)] == [AckItem(0, 0)];
    assert ParseData(Wrap, 128, r1, p) == MoveReady(Wrap, 128, r2);
    assert TakePush(Wrap, 128, Rcv(0, [], [], []), Seg(Push, 0, 128, 0, 0, 0, data)) == ParseData(Wrap, 128, r1, p);
  }
}
