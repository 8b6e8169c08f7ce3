/** Progress: a full receive queue can always be drained, and a loss-free round always acknowledges something. */
module Liveness {
  import opened Serial
  import opened Types
  import opened Wire
  import opened Messages
  import opened Receive
  import opened Transmit
  import opened Timers
  import opened Endpoint
  import opened System
  import opened Truth
  import opened Safety

  // ----- the receive window cannot deadlock

  /** The bytes of a message of fewer than 128 fragments. */
  lemma {:induction false} JoinBound(fs: seq<Frag>, mss: nat)
    requires Small(mss, fs)
    ensures |Join(fs)| <= |fs| * mss
  {
    if fs != [] {
      var n := |fs| - 1;
      JoinBound(fs[..n], mss);
      assert |fs| * mss == n * mss + mss;
    }
  }

  /** The first message in the queue has fewer than 128 fragments, each within the sender's mss. */
  lemma {:induction false} MergedParts(tx: Peer, rx: Peer)
    requires PeerOk(rx) && Link(tx, rx) && PeekSize(rx.kcb.rcv.queue) >= 0
    ensures MergeCount(rx.kcb.rcv.queue) <= WND_RCV - 1
    ensures Small(tx.kcb.cfg.mss, Frags(rx.kcb.rcv.queue))
  {
    hide PeerOk, CountsDown, PeekSize, Small, MergeCount, AllPush, AllReply, NoLoss, FlightsTrue, RcvTrue, Consumed;
    QueueInHistory(tx, rx);
    WholeMessage(tx, rx);
    var q, all := rx.kcb.rcv.queue, tx.hist + tx.kcb.snd.queue;
    assert CountsDown(all) && Small(tx.kcb.cfg.mss, all);
    hide Link;
    FewFragments(all, rx.kcb.rcv.nxt - |q|, q);
    SmallPart(tx.kcb.cfg.mss, all, rx.kcb.rcv.nxt - |q|, Frags(q));
  }

  lemma {:induction false} SmallPart(mss: nat, all: seq<Frag>, p: nat, fs: seq<Frag>)
    requires Small(mss, all) && p + |fs| <= |all| && forall i :: 0 <= i < |fs| ==> fs[i] == all[p + i]
    ensures Small(mss, fs)
  {
  }

  lemma {:induction false} FewFragments(all: seq<Frag>, p: nat, q: seq<Part>)
    requires CountsDown(all) && p + |q| <= |all| && q != []
    requires forall i :: 0 <= i < |q| ==> Frags(q)[i] == all[p + i]
    requires q[MergeCount(q) - 1].frg == 0
    ensures MergeCount(q) <= WND_RCV - 1
  {
    var g := q[0].frg;
    assert Frags(q)[0] == all[p];
    CountedFrom(all, p, g);
    if g < |q| {
      assert Frags(q)[g] == all[p + g];
      MergeCountFirst(q, g);
    }
  }

  lemma {:induction false} MergedBound(tx: Peer, rx: Peer)
    requires PeerOk(rx) && Link(tx, rx) && PeekSize(rx.kcb.rcv.queue) >= 0
    ensures |Merged(rx.kcb.rcv.queue)| <= (WND_RCV - 1) * tx.kcb.cfg.mss
  {
    hide PeerOk, Link, Join;
    MergedParts(tx, rx);
    var q := rx.kcb.rcv.queue;
    var f := Frags(q[..MergeCount(q)]);
    assert f == Frags(q)[..MergeCount(q)];
    JoinBound(f, tx.kcb.cfg.mss);
    MulMono(MergeCount(q), WND_RCV - 1, tx.kcb.cfg.mss);
  }

  /** Room for whatever the sender's ikcp_send accepted: every message, or in stream mode one fragment, or as much as
      127 fragments can hold. */
  predicate RoomFor(tx: Peer, len: nat) {
    || len >= (WND_RCV - 1) * tx.kcb.cfg.mss
    || if tx.kcb.cfg.stream then tx.kcb.cfg.mss <= len
       else forall i :: 0 <= i < |tx.accepted| ==> |tx.accepted[i]| <= len
  }

  /** In stream mode every fragment is a message of its own, no longer than mss. */
  lemma {:induction false} StreamPeek(tx: Peer, rx: Peer)
    requires PeerOk(rx) && Link(tx, rx) && tx.kcb.cfg.stream
    ensures PeekSize(rx.kcb.rcv.queue) <= tx.kcb.cfg.mss
  {
    hide AllPush, AllReply, NoLoss, FlightsTrue, RcvTrue, Msgs, CountsDown;
    QueueIsHistory(tx, rx);
    hide PeerOk;
    var r, all := rx.kcb.rcv, tx.hist + tx.kcb.snd.queue;
    if r.queue != [] {
      var p := r.nxt - |r.queue|;
      assert Frags(r.queue)[0] == tx.hist[p] == all[p];
    }
  }

  /** In message mode what ikcp_recv takes next is an accepted message. */
  lemma {:induction false} MessagePeek(tx: Peer, rx: Peer) returns (i: nat)
    requires PeerOk(rx) && Link(tx, rx) && !tx.kcb.cfg.stream && PeekSize(rx.kcb.rcv.queue) >= 0
    ensures i < |tx.accepted| && |tx.accepted[i]| == PeekSize(rx.kcb.rcv.queue)
  {
    hide PeerOk, PeekSize, Merged, Msgs, AllPush, AllReply, FlightsTrue, RcvTrue, NoLoss, CountsDown, Small;
    var q := rx.kcb.rcv.queue;
    PeekSizeIsMerged(q);
    AfterMerge(tx, rx);
    var p, all := rx.kcb.rcv.nxt - |q| + MergeCount(q), tx.hist + tx.kcb.snd.queue;
    WholeMessage(tx, rx);
    assert all[..p] == tx.hist[..p];
    MsgsPrefix(all, p);
    i := |rx.got|;
    assert Merged(q) == tx.accepted[i];
  }

  /** ikcp_recv with room for whatever was accepted never finds the buffer too small. */
  lemma {:induction false} NeverTooSmall(tx: Peer, rx: Peer, len: nat)
    requires PeerOk(rx) && Link(tx, rx) && RoomFor(tx, len)
    ensures PeekSize(rx.kcb.rcv.queue) <= len
  {
    hide PeerOk, PeekSize, Link;
    if PeekSize(rx.kcb.rcv.queue) >= 0 {
      MergedBound(tx, rx);
      PeekSizeIsMerged(rx.kcb.rcv.queue);
      if tx.kcb.cfg.stream {
        StreamPeek(tx, rx);
      } else {
        var i := MessagePeek(tx, rx);
      }
    }
  }

  /** A full queue starts with a complete message. */
  lemma {:induction false} FullQueueIsWhole(tx: Peer, rx: Peer)
    requires PeerOk(rx) && Link(tx, rx) && Unused(rx.kcb.cfg.rcvWnd, rx.kcb.rcv) == 0
    ensures PeekSize(rx.kcb.rcv.queue) >= 0
  {
    var r := rx.kcb.rcv;
    QueueIsHistory(tx, rx);
    assert Frags(r.queue)[0] == (tx.hist + tx.kcb.snd.queue)[r.nxt - |r.queue|];
    PeekSizeIsMerged(r.queue);
  }

  /** So ikcp_recv with room for whatever was accepted succeeds on it. */
  lemma {:induction false} FullQueueDelivers(tx: Peer, rx: Peer, len: nat)
    requires PeerOk(rx) && Link(tx, rx) && Unused(rx.kcb.cfg.rcvWnd, rx.kcb.rcv) == 0 && RoomFor(tx, len)
    ensures Recv(Exact, rx.kcb.cfg.rcvWnd, rx.kcb.rcv, len).code >= 0
  {
    FullQueueIsWhole(tx, rx);
    NeverTooSmall(tx, rx, len);
    hide PeerOk, Link;
  }

  /** Calling ikcp_recv until it fails. */
  function Drain(m: Arith, p: Peer, len: nat): Peer
    decreases |p.kcb.rcv.queue| + |p.kcb.rcv.buf|
  {
    var r := Recv(m, p.kcb.cfg.rcvWnd, p.kcb.rcv, len);
    if r.code < 0 then p
    else
      MoveReadyLength(m, p.kcb.cfg.rcvWnd, p.kcb.rcv.(queue := p.kcb.rcv.queue[MergeCount(p.kcb.rcv.queue)..]));
      Drain(m, PeerRecv(m, p, len), len)
  }

  lemma {:induction false} MoveReadyLength(m: Arith, wnd: nat, r: Rcv)
    ensures var r' := MoveReady(m, wnd, r); |r'.queue| + |r'.buf| == |r.queue| + |r.buf|
    decreases |r.buf|
  {
    if r.buf != [] && r.buf[0].sn == r.nxt && |r.queue| < wnd {
      MoveReadyLength(m, wnd, r.(nxt := Add(m, r.nxt, 1), queue := r.queue + [r.buf[0]], buf := r.buf[1..]));
    }
  }

  /** Draining terminates, keeps the link, and ends with room to advertise. */
  lemma {:induction false} DrainOpensWindow(tx: Peer, rx: Peer, len: nat)
    requires PeerOk(rx) && Link(tx, rx) && RoomFor(tx, len)
    ensures var rx' := Drain(Exact, rx, len);
      PeerOk(rx') && Link(tx, rx') && Unused(rx'.kcb.cfg.rcvWnd, rx'.kcb.rcv) > 0 && rx.got <= rx'.got
    decreases |rx.kcb.rcv.queue| + |rx.kcb.rcv.buf|
  {
    var r := Recv(Exact, rx.kcb.cfg.rcvWnd, rx.kcb.rcv, len);
    if r.code < 0 {
      if Unused(rx.kcb.cfg.rcvWnd, rx.kcb.rcv) == 0 { FullQueueDelivers(tx, rx, len); }
    } else {
      hide PeerOk, Link, Consumed;
      RecvKeeps(tx, rx, len);
      MoveReadyLength(Exact, rx.kcb.cfg.rcvWnd, rx.kcb.rcv.(queue := rx.kcb.rcv.queue[MergeCount(rx.kcb.rcv.queue)..]));
      DrainOpensWindow(tx, PeerRecv(Exact, rx, len), len);
    }
  }

  // ----- a loss-free round

  /** The first endpoint reads the datagrams of the second from the i-th on, in order. */
  function ReadFrom(m: Arith, s: Sys, i: nat): (s': Sys)
    requires Runnable(s)
    ensures Runnable(s')
    decreases |s.b.out| - i
  {
    if i >= |s.b.out| then s else ReadFrom(m, Deliver(m, s, i), i + 1)
  }

  /** The first endpoint flushes, the second reads all of it in order and flushes, the first reads all of that. */
  function Round(m: Arith, s: Sys): Sys
    requires Runnable(s)
  {
    var s1 := FlushFirst(m, s);
    var s2 := ReadFrom(m, Swap(s1), |s.a.out|);
    var s3 := FlushFirst(m, s2);
    ReadFrom(m, Swap(s3), |s.b.out|)
  }

  lemma {:induction false} ReadFromKeeps(s: Sys, i: nat)
    requires Inv(s)
    ensures Inv(ReadFrom(Exact, s, i)) && ReadFrom(Exact, s, i).b == s.b
    decreases |s.b.out| - i
  {
    InvRunnable(s);
    hide Inv, Deliver;
    if i < |s.b.out| {
      DeliverKeeps(s, i);
      ReadFromKeeps(Deliver(Exact, s, i), i + 1);
    }
  }

  /** The receiving half after a list of segments. */
  function RcvAfter(wnd: nat, r: Rcv, segs: seq<Seg>): Rcv
    decreases |segs|
  {
    if segs == [] then r
    else RcvAfter(wnd, if segs[0].cmd.Push? then TakePush(Exact, wnd, r, segs[0]) else r, segs[1..])
  }

  lemma {:induction false} RcvAfterConcat(wnd: nat, r: Rcv, a: seq<Seg>, b: seq<Seg>)
    ensures RcvAfter(wnd, r, a + b) == RcvAfter(wnd, RcvAfter(wnd, r, a), b)
    decreases |a|
  {
    if a == [] {
      assert a + b == b;
    } else {
      assert (a + b)[1..] == a[1..] + b;
      RcvAfterConcat(wnd, if a[0].cmd.Push? then TakePush(Exact, wnd, r, a[0]) else r, a[1..], b);
    }
  }

  lemma {:induction false} ProcessAllRcv(s: Inner, segs: seq<Seg>)
    ensures ProcessAll(Exact, s, segs).kcb.rcv == RcvAfter(s.kcb.cfg.rcvWnd, s.kcb.rcv, segs)
    decreases |segs|
  {
    if segs != [] { ProcessAllRcv(Process(Exact, s, segs[0]), segs[1..]); }
  }

  lemma {:induction false} InputRcv(k: Kcb, d: seq<Seg>)
    requires k.cfg.mss > 0
    ensures Input(Exact, k, Parsed(d, 0)).rcv == RcvAfter(k.cfg.rcvWnd, k.rcv, d)
    ensures Input(Exact, k, Parsed(d, 0)).cfg == k.cfg && Input(Exact, k, Parsed(d, 0)).clk == k.clk
  {
    ProcessAllRcv(Inner(k, NO_ACK), d);
    ProcessAllCfg(Exact, Inner(k, NO_ACK), d);
  }

  /** Reading datagram by datagram is reading the segments one after another. */
  lemma {:induction false} ReadFromRcv(s: Sys, i: nat)
    requires Runnable(s) && i <= |s.b.out|
    ensures var s' := ReadFrom(Exact, s, i);
      && s'.a.kcb.rcv == RcvAfter(s.a.kcb.cfg.rcvWnd, s.a.kcb.rcv, Flat(s.b.out[i..]))
      && s'.a.kcb.cfg == s.a.kcb.cfg && s'.a.kcb.clk == s.a.kcb.clk && s'.b == s.b && s'.a.out == s.a.out
    decreases |s.b.out| - i
  {
    if i < |s.b.out| {
      var d := s.b.out[i];
      InputRcv(s.a.kcb, d);
      var s1 := Deliver(Exact, s, i);
      ReadFromRcv(s1, i + 1);
      FlatCons(s.b.out[i..]);
      RcvAfterConcat(s.a.kcb.cfg.rcvWnd, s.a.kcb.rcv, d, Flat(s.b.out[i + 1..]));
      assert s.b.out[i..][1..] == s.b.out[i + 1..];
    }
  }

  lemma {:induction false} FlatCons<T>(ds: seq<seq<T>>)
    requires ds != []
    ensures Flat(ds) == ds[0] + Flat(ds[1..])
  {
    var n := |ds| - 1;
    if n == 0 {
      assert Flat(ds[..0]) == [] && Flat(ds[1..]) == [];
    } else {
      FlatCons(ds[..n]);
      assert ds[..n][1..] == ds[1..][..n - 1] && ds[..n] + [ds[n]] == ds && ds[1..][..n - 1] + [ds[n]] == ds[1..];
      FlatSnoc(ds[..n], ds[n]);
      FlatSnoc(ds[1..][..n - 1], ds[n]);
      hide Flat;
      assert ds[0] + (Flat(ds[1..][..n - 1]) + ds[n]) == ds[0] + Flat(ds[1..][..n - 1]) + ds[n];
    }
  }

  /** Reading never lowers snd_una, and una of the first segment read counts at once. */
  lemma {:induction false} ProcessAllUna(s: Inner, segs: seq<Seg>)
    requires KcbOk(Exact, s.kcb) && forall i :: 0 <= i < |segs| ==> Readable(Exact, segs[i])
    ensures ProcessAll(Exact, s, segs).kcb.snd.una >= s.kcb.snd.una
    ensures KcbOk(Exact, ProcessAll(Exact, s, segs).kcb)
    decreases |segs|
  {
    hide KcbOk;
    if segs != [] {
      TakeHeaderOk(Exact, s.kcb, segs[0]);
      if segs[0].cmd.Ack? { TakeAckOk(Exact, TakeHeader(Exact, s.kcb, segs[0]), segs[0]); }
      ProcessOk(Exact, s, segs[0]);
      ProcessAllUna(Process(Exact, s, segs[0]), segs[1..]);
    }
  }

  lemma {:induction false} HeadAcked(s: Inner, segs: seq<Seg>)
    requires KcbOk(Exact, s.kcb) && forall i :: 0 <= i < |segs| ==> Readable(Exact, segs[i])
    requires segs != [] && s.kcb.snd.buf != [] && segs[0].una > s.kcb.snd.una
    ensures ProcessAll(Exact, s, segs).kcb.snd.una > s.kcb.snd.una
  {
    var k := s.kcb;
    var n := ParseUnaSuffix(Exact, k.snd.buf, segs[0].una);
    var k1 := TakeHeader(Exact, k, segs[0]);
    assert Off(Exact, k.snd.buf[0].sn, k.snd.una) < Off(Exact, k.snd.nxt, k.snd.una);
    assert n > 0;
    if n < |k.snd.buf| { assert Off(Exact, k.snd.buf[0].sn, k.snd.una) < Off(Exact, k.snd.buf[n].sn, k.snd.una); }
    assert k1.snd.una > k.snd.una;
    ProcessOk(Exact, s, segs[0]);
    TakeHeaderOk(Exact, k, segs[0]);
    if segs[0].cmd.Ack? { TakeAckOk(Exact, k1, segs[0]); }
    ProcessAllUna(Process(Exact, s, segs[0]), segs[1..]);
  }

  lemma {:induction false} InputUna(k: Kcb, d: seq<Seg>)
    requires KcbOk(Exact, k) && forall i :: 0 <= i < |d| ==> Readable(Exact, d[i])
    ensures Input(Exact, k, Parsed(d, 0)).snd.una >= k.snd.una
    ensures d != [] && k.snd.buf != [] && d[0].una > k.snd.una ==> Input(Exact, k, Parsed(d, 0)).snd.una > k.snd.una
  {
    ProcessAllUna(Inner(k, NO_ACK), d);
    if d != [] && k.snd.buf != [] && d[0].una > k.snd.una { HeadAcked(Inner(k, NO_ACK), d); }
  }

  lemma {:induction false} DeliverUna(s: Sys, i: nat)
    requires Inv(s) && i < |s.b.out|
    ensures Deliver(Exact, s, i).a.kcb.snd.una >= s.a.kcb.snd.una
    ensures s.a.kcb.snd.buf != [] && s.b.out[i] != [] && s.b.out[i][0].una > s.a.kcb.snd.una ==>
      Deliver(Exact, s, i).a.kcb.snd.una > s.a.kcb.snd.una
  {
    InputUna(s.a.kcb, s.b.out[i]);
  }

  lemma {:induction false} ReadFromUna(s: Sys, i: nat)
    requires Inv(s)
    ensures ReadFrom(Exact, s, i).a.kcb.snd.una >= s.a.kcb.snd.una
    decreases |s.b.out| - i
  {
    InvRunnable(s);
    if i < |s.b.out| {
      DeliverUna(s, i);
      hide Inv, Deliver;
      DeliverKeeps(s, i);
      ReadFromUna(Deliver(Exact, s, i), i + 1);
    }
  }

  lemma {:induction false} ReadFromAdvances(s: Sys, i: nat)
    requires Inv(s) && i < |s.b.out| && s.a.kcb.snd.buf != []
    requires s.b.out[i] != [] && s.b.out[i][0].una > s.a.kcb.snd.una
    ensures ReadFrom(Exact, s, i).a.kcb.snd.una > s.a.kcb.snd.una
  {
    hide Inv, Deliver, Runnable;
    InvRunnable(s);
    DeliverUna(s, i);
    DeliverKeeps(s, i);
    ReadFromUna(Deliver(Exact, s, i), i + 1);
  }

  // ----- the first flush

  lemma {:induction false} DataSegsFront(c: Ctx, wnd: nat, una: nat, buf: seq<Flight>)
    requires buf != []
    ensures DataSegs(c, wnd, una, buf)
         == (if Sent(c, buf[0]) then [DataSeg(wnd, una, Touch(c, buf[0]))] else []) + DataSegs(c, wnd, una, buf[1..])
  {
    hide Sent, Touch;
    var n := |buf| - 1;
    if n == 0 {
      assert DataSegs(c, wnd, una, buf[..0]) == [] && DataSegs(c, wnd, una, buf[1..]) == [];
    } else {
      DataSegsFront(c, wnd, una, buf[..n]);
      assert buf[..n][1..] == buf[1..][..n - 1] && buf[1..][n - 1] == buf[n];
    }
  }

  /** A receiver with room takes the segment at the sender's snd_una, or has it: either way it will acknowledge
      beyond it. */
  lemma {:induction false} HeadArrives(tx: Peer, rx: Peer, q: Seg)
    requires PeerOk(tx) && PeerOk(rx) && Link(tx, rx)
    requires |rx.kcb.rcv.queue| < rx.kcb.cfg.rcvWnd
    requires q.sn == tx.kcb.snd.una < tx.kcb.snd.nxt
    ensures var r' := TakePush(Exact, rx.kcb.cfg.rcvWnd, rx.kcb.rcv, q);
      r'.nxt > tx.kcb.snd.una && r'.acks != []
  {
    var r, wnd := rx.kcb.rcv, rx.kcb.cfg.rcvWnd;
    UnaNotAhead(tx, rx);
    var r1 := r.(acks := r.acks + [AckItem(q.sn, q.ts)]);
    if q.sn == r.nxt {
      var p := Part(q.sn, q.frg, q.data);
      var r2 := r1.(buf := Insert(Exact, r1.buf, p));
      InsertAscending(Exact, r.nxt, wnd, r.buf, p);
      InsertMembers(Exact, r.buf, p);
      AscendingHead(r.nxt, wnd, r2.buf);
      MoveReadyAcks(Exact, wnd, r2);
      MoveReadyAdvances(wnd, r2);
    }
  }

  lemma {:induction false} AscendingHead(base: nat, lim: int, buf: seq<Part>)
    requires Ascending(Exact, base, lim, buf) && Has(buf, base)
    ensures buf[0].sn == base
  {
    var i :| 0 <= i < |buf| && buf[i].sn == base;
    assert Off(Exact, buf[i].sn, base) == 0 <= Off(Exact, buf[0].sn, base);
  }

  lemma {:induction false} MoveReadyAdvances(wnd: nat, r: Rcv)
    ensures MoveReady(Exact, wnd, r).nxt >= r.nxt
    ensures r.buf != [] && r.buf[0].sn == r.nxt && |r.queue| < wnd ==> MoveReady(Exact, wnd, r).nxt > r.nxt
    decreases |r.buf|
  {
    if r.buf != [] && r.buf[0].sn == r.nxt && |r.queue| < wnd {
      MoveReadyAdvances(wnd, r.(nxt := r.nxt + 1, queue := r.queue + [r.buf[0]], buf := r.buf[1..]));
    }
  }

  /** With room in its queue, the receiver's next number is not behind the sender's oldest. */
  lemma {:induction false} UnaNotAhead(tx: Peer, rx: Peer)
    requires PeerOk(tx) && PeerOk(rx) && Link(tx, rx)
    requires |rx.kcb.rcv.queue| < rx.kcb.cfg.rcvWnd
    ensures tx.kcb.snd.una <= rx.kcb.rcv.nxt
  {
    var s, r := tx.kcb.snd, rx.kcb.rcv;
    if r.nxt < s.una {
      assert !HasFlight(s.buf, r.nxt);
      assert Held(r, r.nxt);
      AscendingHead(r.nxt, rx.kcb.cfg.rcvWnd, r.buf);
      assert false;
    }
  }

  /** Further segments never take anything back. */
  lemma {:induction false} RcvAfterGrows(wnd: nat, r: Rcv, segs: seq<Seg>)
    ensures RcvAfter(wnd, r, segs).nxt >= r.nxt && |RcvAfter(wnd, r, segs).acks| >= |r.acks|
    decreases |segs|
  {
    if segs != [] {
      if segs[0].cmd.Push? { TakePushAdvances(wnd, r, segs[0]); }
      RcvAfterGrows(wnd, if segs[0].cmd.Push? then TakePush(Exact, wnd, r, segs[0]) else r, segs[1..]);
    }
  }

  lemma {:induction false} TakePushAdvances(wnd: nat, r: Rcv, q: Seg)
    ensures TakePush(Exact, wnd, r, q).nxt >= r.nxt && |TakePush(Exact, wnd, r, q).acks| >= |r.acks|
  {
    var r2 := r.(acks := r.acks + [AckItem(q.sn, q.ts)], buf := Insert(Exact, r.buf, Part(q.sn, q.frg, q.data)));
    MoveReadyAdvances(wnd, r2);
    MoveReadyAcks(Exact, wnd, r2);
  }

  lemma {:induction false} RcvAfterSignals(wnd: nat, r: Rcv, segs: seq<Seg>)
    requires forall i :: 0 <= i < |segs| ==> !segs[i].cmd.Push?
    ensures RcvAfter(wnd, r, segs) == r
    decreases |segs|
  {
    if segs != [] { RcvAfterSignals(wnd, r, segs[1..]); }
  }

  /** The oldest segment is in the window and its timer has expired, or it was never sent. */
  predicate HeadDue(k: Kcb) {
    && k.clk.updated && k.snd.buf != []
    && (k.snd.buf[0].xmit == 0 || TimeDiff(k.clk.current, k.snd.buf[0].resendts) >= 0)
  }

  lemma {:induction false} FillPrefix(s: Snd, cwnd: nat, current: u32, rto: u32)
    ensures s.buf <= Fill(Exact, s, cwnd, current, rto).buf && Fill(Exact, s, cwnd, current, rto).una == s.una
    decreases |s.queue|
  {
    if Diff(Exact, s.nxt, Add(Exact, s.una, cwnd)) < 0 && s.queue != [] {
      FillPrefix(Numbered(Exact, s, current, rto), cwnd, current, rto);
    }
  }

  /** The first data segment of the flush is the oldest one. */
  lemma {:induction false} FlushStartsWithHead(k: Kcb) returns (pre: seq<Seg>, q: Seg, post: seq<Seg>)
    requires HeadDue(k)
    ensures Emitted(Exact, k) == pre + [q] + post
    ensures q.cmd.Push? && q.sn == k.snd.buf[0].sn && forall i :: 0 <= i < |pre| ==> !pre[i].cmd.Push?
    ensures Flush(Exact, k).snd.una == k.snd.una && Flush(Exact, k).snd.buf != []
  {
    hide Touch, ProbeTick, Fill;
    var c, wnd := MakeCtx(k), Unused(k.cfg.rcvWnd, k.rcv);
    FillPrefix(k.snd, Window(k), k.clk.current, k.rtt.rto);
    var buf := Filled(Exact, k).buf;
    pre := AckSegs(wnd, k.rcv.nxt, k.rcv.acks)
           + ProbeSegs(ProbeTick(k.prb, k.clk.current), wnd, k.rcv.nxt, Leftover(k.rcv.acks));
    DataSegsFront(c, wnd, k.rcv.nxt, buf);
    TouchKeepsNumber(c, buf[0]);
    q := DataSeg(wnd, k.rcv.nxt, Touch(c, buf[0]));
    post := DataSegs(c, wnd, k.rcv.nxt, buf[1..]);
    assert pre + ([q] + post) == pre + [q] + post;
  }

  lemma {:induction false} TouchKeepsNumber(c: Ctx, f: Flight)
    ensures Touch(c, f).sn == f.sn && Touch(c, f).Piece() == f.Piece()
  {
  }

  /** The second endpoint after reading the first flush. */
  lemma {:induction false} RoundReaches(s: Sys)
    requires Inv(s) && HeadDue(s.a.kcb) && |s.b.kcb.rcv.queue| < s.b.kcb.cfg.rcvWnd
    ensures var s1 := FlushFirst(Exact, s); var s2 := ReadFrom(Exact, Swap(s1), |s.a.out|);
      s2.a.kcb.rcv.nxt > s.a.kcb.snd.una && s2.a.kcb.rcv.acks != []
  {
    var s1 := FlushFirst(Exact, s);
    var pre, q, post := FlushStartsWithHead(s.a.kcb);
    EmittedSizes(Exact, s.a.kcb);
    PackOk(s.a.kcb.cfg.mtu, Emitted(Exact, s.a.kcb));
    ReadFromRcv(Swap(s1), |s.a.out|);
    assert s1.a.out[|s.a.out|..] == Datagrams(Exact, s.a.kcb);
    var wnd, r := s.b.kcb.cfg.rcvWnd, s.b.kcb.rcv;
    RcvAfterConcat(wnd, r, pre + [q], post);
    RcvAfterConcat(wnd, r, pre, [q]);
    RcvAfterSignals(wnd, r, pre);
    assert Off(Exact, s.a.kcb.snd.buf[0].sn, s.a.kcb.snd.una) < Off(Exact, s.a.kcb.snd.nxt, s.a.kcb.snd.una);
    HeadArrives(s.a, s.b, q);
    assert RcvAfter(wnd, r, [q]) == RcvAfter(wnd, TakePush(Exact, wnd, r, q), []);
    RcvAfterGrows(wnd, TakePush(Exact, wnd, r, q), post);
  }

  /** The flush of an endpoint with pending acknowledgements starts with rcv_nxt. */
  lemma {:induction false} FlushStartsWithAck(k: Kcb)
    requires KcbOk(Exact, k) && k.clk.updated && k.rcv.acks != []
    ensures Datagrams(Exact, k) != [] && Datagrams(Exact, k)[0] != [] && Datagrams(Exact, k)[0][0].una == k.rcv.nxt
  {
    hide ProbeTick, DataSegs, Filled;
    EmittedSizes(Exact, k);
    var e := Emitted(Exact, k);
    assert e[0] == AckSeg(Unused(k.cfg.rcvWnd, k.rcv), k.rcv.nxt, k.rcv.acks[0]);
    PackOk(k.cfg.mtu, e);
    FlatCons(Datagrams(Exact, k));
  }

  /** From every reachable state with an oldest segment that is due and a peer whose queue is not full, one
      loss-free round strictly advances snd_una, whatever else is queued, pending or in flight on either side. */
  lemma {:induction false} RoundProgress(s: Sys)
    requires Inv(s) && HeadDue(s.a.kcb)
    requires s.b.kcb.clk.updated && |s.b.kcb.rcv.queue| < s.b.kcb.cfg.rcvWnd
    ensures Inv(Round(Exact, s))
    ensures Round(Exact, s).a.kcb.snd.una > s.a.kcb.snd.una
  {
    InvRunnable(s);
    hide Inv, HeadDue, PeerFlush, ReadFrom;
    var s1 := FlushFirst(Exact, s);
    FlushFirstKeeps(s);
    SwapKeeps(s1);
    var s2 := ReadFrom(Exact, Swap(s1), |s.a.out|);
    ReadFromKeeps(Swap(s1), |s.a.out|);
    FlushFirstKeeps(s2);
    var s3 := FlushFirst(Exact, s2);
    SwapKeeps(s3);
    ReadFromKeeps(Swap(s3), |s.b.out|);
    RoundReaches(s);
    InvOk(s2);
    RoundAnswer(s, s1, s2);
    ReadFromAdvances(Swap(s3), |s.b.out|);
  }

  /** The answer to the round: its first segment acknowledges beyond the first endpoint's snd_una. */
  lemma {:induction false} RoundAnswer(s: Sys, s1: Sys, s2: Sys)
    requires Runnable(s) && HeadDue(s.a.kcb) && s1 == FlushFirst(Exact, s)
    requires s2 == ReadFrom(Exact, Swap(s1), |s.a.out|) && s.b.kcb.clk.updated && KcbOk(Exact, s2.a.kcb)
    requires s2.a.kcb.rcv.acks != []
    ensures s2.b == s1.a && s1.a.kcb.snd.una == s.a.kcb.snd.una && s1.a.kcb.snd.buf != []
    ensures var out := FlushFirst(Exact, s2).a.out;
      |s.b.out| < |out| && out[|s.b.out|] != [] && out[|s.b.out|][0].una == s2.a.kcb.rcv.nxt
  {
    hide Datagrams, Emitted, Flush;
    ReadFromRcv(Swap(s1), |s.a.out|);
    var pre, q, post := FlushStartsWithHead(s.a.kcb);
    FlushStartsWithAck(s2.a.kcb);
    assert FlushFirst(Exact, s2).a.out[|s.b.out|] == Datagrams(Exact, s2.a.kcb)[0];
  }

  lemma {:induction false} InvOk(s: Sys)
    requires Inv(s)
    ensures KcbOk(Exact, s.a.kcb)
  {
  }
}
