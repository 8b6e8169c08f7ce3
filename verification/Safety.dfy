/** The invariant of every run over unbounded sequence numbers, and what follows from it: delivery in order and
    exactly once, and no data ever lost. */
module Safety {
  import opened Serial
  import opened Types
  import opened Wire
  import opened Messages
  import opened Receive
  import Timers
  import opened Endpoint
  import opened System
  import opened Truth

  /** What the sender's application handed over is exactly what the fragments say. */
  ghost predicate Content(tx: Peer) {
    var all := tx.hist + tx.kcb.snd.queue;
    && CountsDown(all) && Small(tx.kcb.cfg.mss, all)
    && if tx.kcb.cfg.stream then AllLast(all) && Join(all) == Flat(tx.accepted)
       else Msgs(all) == tx.accepted
  }

  /** The fragments ikcp_recv has consumed are whole messages, and exactly those the application got. */
  ghost predicate Consumed(tx: Peer, rx: Peer) {
    var r := rx.kcb.rcv;
    && |r.queue| <= r.nxt <= |tx.hist|
    && Closed(tx.hist[..r.nxt - |r.queue|])
    && Msgs(tx.hist[..r.nxt - |r.queue|]) == rx.got
  }

  ghost predicate AllPush(out: seq<seq<Seg>>, hist: seq<Frag>) {
    forall i :: 0 <= i < |out| ==> AllPushTrue(out[i], hist)
  }

  ghost predicate AllReply(out: seq<seq<Seg>>, r: Rcv, limit: nat) {
    forall i :: 0 <= i < |out| ==> AllReplyTrue(out[i], r, limit)
  }

  /** One direction of the conversation. */
  ghost predicate Link(tx: Peer, rx: Peer) {
    && |tx.hist| == tx.kcb.snd.nxt
    && FlightsTrue(tx.kcb.snd.buf, tx.hist)
    && RcvTrue(rx.kcb.rcv, tx.hist)
    && NoLoss(tx.kcb.snd, rx.kcb.rcv)
    && AllPush(tx.out, tx.hist)
    && AllReply(rx.out, rx.kcb.rcv, |tx.hist|)
    && Content(tx)
    && Consumed(tx, rx)
  }

  /** Header members that fit their place on the wire. */
  predicate WellFormed(q: Seg) {
    q.frg < 128 && q.wnd <= 65535
  }

  ghost predicate Shape(mtu: nat, out: seq<seq<Seg>>) {
    forall i :: 0 <= i < |out| ==> Fits(mtu, out[i]) && forall j :: 0 <= j < |out[i]| ==> WellFormed(out[i][j])
  }

  ghost predicate PeerOk(p: Peer) {
    KcbOk(Exact, p.kcb) && Shape(p.kcb.cfg.mtu, p.out)
  }

  ghost predicate Inv(s: Sys) {
    && s.a.kcb.cfg.conv == s.b.kcb.cfg.conv
    && PeerOk(s.a) && PeerOk(s.b) && Link(s.a, s.b) && Link(s.b, s.a)
  }

  // ----- ikcp_send

  lemma {:induction false} SmallAppend(tx: Peer, msg: bytes)
    requires tx.kcb.cfg.mss > 0 && Small(tx.kcb.cfg.mss, tx.hist + tx.kcb.snd.queue)
    ensures Small(tx.kcb.cfg.mss, tx.hist + Messages.Send(tx.kcb.cfg, tx.kcb.snd.queue, msg).queue)
  {
    var q := tx.kcb.snd.queue;
    assert forall i :: 0 <= i < |q| ==> (tx.hist + q)[|tx.hist| + i] == q[i];
    assert forall i :: 0 <= i < |tx.hist| ==> (tx.hist + q)[i] == tx.hist[i];
    SendSmall(tx.kcb.cfg, q, msg);
  }

  lemma {:induction false} SendContentStream(tx: Peer, msg: bytes)
    requires tx.kcb.cfg.mss > 0 && tx.kcb.cfg.stream && Content(tx)
    ensures Content(PeerSend(tx, msg))
  {
    hide Join, Flat, Messages.Send, Small, CountsDown, AllLast;
    var q := tx.kcb.snd.queue;
    var r := Messages.Send(tx.kcb.cfg, q, msg);
    SmallAppend(tx, msg);
    AllLastSplit(tx.hist, q);
    AllLastSplit(tx.hist, r.queue);
    SendStream(tx.kcb.cfg, q, msg);
    JoinConcat(tx.hist, q);
    JoinConcat(tx.hist, r.queue);
    AllLastCounts(tx.hist + r.queue);
    if r.code >= 0 {
      FlatSnoc(tx.accepted, msg[..r.code]);
      assert Join(tx.hist) + (Join(q) + msg[..r.code]) == Join(tx.hist) + Join(q) + msg[..r.code];
    }
  }

  lemma {:induction false} SendContentMessage(tx: Peer, msg: bytes)
    requires tx.kcb.cfg.mss > 0 && !tx.kcb.cfg.stream && Content(tx)
    ensures Content(PeerSend(tx, msg))
  {
    SmallAppend(tx, msg);
    SendMessage(tx.kcb.cfg, tx.hist, tx.kcb.snd.queue, msg);
    assert msg[..|msg|] == msg;
  }

  lemma {:induction false} SendKeeps(tx: Peer, rx: Peer, msg: bytes)
    requires PeerOk(tx) && Link(tx, rx)
    ensures PeerOk(PeerSend(tx, msg)) && Link(PeerSend(tx, msg), rx)
  {
    hide Content;
    SendOk(Exact, tx.kcb, msg);
    if tx.kcb.cfg.stream { SendContentStream(tx, msg); } else { SendContentMessage(tx, msg); }
  }

  lemma {:induction false} AllLastSplit(a: seq<Frag>, b: seq<Frag>)
    ensures AllLast(a + b) <==> AllLast(a) && AllLast(b)
  {
    assert forall i :: 0 <= i < |b| ==> (a + b)[|a| + i] == b[i];
    assert forall i :: 0 <= i < |a| ==> (a + b)[i] == a[i];
  }

  lemma {:induction false} AllLastCounts(fs: seq<Frag>)
    requires AllLast(fs)
    ensures CountsDown(fs)
  {
  }

  // ----- ikcp_recv

  /** The merge loop stops behind the first fragment with frg 0. */
  lemma {:induction false} MergeCountFirst(queue: seq<Part>, z: nat)
    requires z < |queue| && queue[z].frg == 0
    ensures MergeCount(queue) <= z + 1
    ensures queue[MergeCount(queue) - 1].frg == 0
    ensures forall i :: 0 <= i < MergeCount(queue) - 1 ==> queue[i].frg > 0
  {
    if queue[0].frg != 0 {
      MergeCountFirst(queue[1..], z - 1);
    }
  }

  /** The receive queue is a window on the sender's fragments. */
  lemma {:induction false} QueueIsHistory(tx: Peer, rx: Peer)
    requires PeerOk(rx) && Link(tx, rx)
    ensures var r := rx.kcb.rcv; Frags(r.queue) == tx.hist[r.nxt - |r.queue|..r.nxt]
  {
    var r := rx.kcb.rcv;
    forall i | 0 <= i < |r.queue| ensures Frags(r.queue)[i] == tx.hist[r.nxt - |r.queue| + i] {
      assert Off(Exact, r.nxt, r.queue[i].sn) == |r.queue| - i;
      assert Known(tx.hist, r.queue[i].sn, r.queue[i].Piece());
    }
  }

  /** A non-negative ikcp_peeksize means that the whole first message is in the queue. */
  lemma {:induction false} WholeMessage(tx: Peer, rx: Peer)
    requires PeerOk(rx) && Link(tx, rx) && PeekSize(rx.kcb.rcv.queue) >= 0
    ensures var q := rx.kcb.rcv.queue; var c := MergeCount(q);
      1 <= c <= |q| && q[c - 1].frg == 0 && forall i :: 0 <= i < c - 1 ==> q[i].frg > 0
  {
    QueueInHistory(tx, rx);
    var r, all := rx.kcb.rcv, tx.hist + tx.kcb.snd.queue;
    assert CountsDown(all);
    hide PeerOk, Link, CountsDown;
    WholeFront(all, r.nxt - |r.queue|, r.queue);
  }

  lemma {:induction false} QueueInHistory(tx: Peer, rx: Peer)
    requires PeerOk(rx) && Link(tx, rx)
    ensures var q, all, p := rx.kcb.rcv.queue, tx.hist + tx.kcb.snd.queue, rx.kcb.rcv.nxt - |rx.kcb.rcv.queue|;
      0 <= p && p + |q| <= |all| && forall i :: 0 <= i < |q| ==> Frags(q)[i] == all[p + i]
  {
    QueueIsHistory(tx, rx);
    var q, p := rx.kcb.rcv.queue, rx.kcb.rcv.nxt - |rx.kcb.rcv.queue|;
    forall i | 0 <= i < |q| ensures Frags(q)[i] == (tx.hist + tx.kcb.snd.queue)[p + i] {
      assert tx.hist[p..p + |q|][i] == tx.hist[p + i];
    }
  }

  lemma {:induction false} WholeFront(all: seq<Frag>, p: nat, q: seq<Part>)
    requires CountsDown(all) && p + |q| <= |all| && PeekSize(q) >= 0
    requires forall i :: 0 <= i < |q| ==> Frags(q)[i] == all[p + i]
    ensures var c := MergeCount(q);
      1 <= c <= |q| && q[c - 1].frg == 0 && forall i :: 0 <= i < c - 1 ==> q[i].frg > 0
  {
    var g := q[0].frg;
    assert Frags(q)[0] == all[p];
    if g > 0 {
      CountedFrom(all, p, g);
      assert Frags(q)[g] == all[p + g];
    }
    MergeCountFirst(q, g);
  }

  lemma {:induction false} CountedFrom(fs: seq<Frag>, p: nat, g: nat)
    requires CountsDown(fs) && p < |fs| && fs[p].frg == g
    ensures p + g < |fs| && fs[p + g].frg == 0
    decreases g
  {
    if g > 0 { CountedFrom(fs, p + 1, g - 1); }
  }

  /** What ikcp_recv leaves behind is true, nothing held is given up, and only whole fragments leave the queue. */
  lemma {:induction false} RecvTrue(wnd: nat, r: Rcv, len: int, hist: seq<Frag>)
    requires r.nxt <= |hist| && PartsTrue(r.queue, hist) && PartsTrue(r.buf, hist)
    ensures var r' := Recv(Exact, wnd, r, len).rcv;
      && r'.nxt <= |hist| && PartsTrue(r'.queue, hist) && PartsTrue(r'.buf, hist)
      && Grows(r, r') && r'.acks == r.acks
      && r'.nxt - |r'.queue| == r.nxt - |r.queue|
           + if Recv(Exact, wnd, r, len).code >= 0 && len >= 0 then MergeCount(r.queue) else 0
  {
    hide MergeCount, Merged, PeekSize, MoveReady, Known;
    if Recv(Exact, wnd, r, len).code >= 0 {
      var r1 := if len < 0 then r else r.(queue := r.queue[MergeCount(r.queue)..]);
      assert forall n: nat :: Held(r, n) <==> Held(r1, n);
      MoveReadyTrue(wnd, r1, hist);
      MoveReadyAcks(Exact, wnd, r1);
    }
  }

  /** ikcp_recv consumes a message exactly when it returns one. */
  lemma {:induction false} RecvConsumes(tx: Peer, rx: Peer, len: int)
    requires PeerOk(rx) && Link(tx, rx)
    ensures Consumed(tx, PeerRecv(Exact, rx, len))
  {
    hide PeerOk, AllPush, AllReply, NoLoss, FlightsTrue, Content, MergeCount, Merged, PeekSize, Msgs, Closed, MoveReady,
         AcksTrue, PartsTrue;
    var r, res := rx.kcb.rcv, Recv(Exact, rx.kcb.cfg.rcvWnd, rx.kcb.rcv, len);
    RecvTrue(rx.kcb.cfg.rcvWnd, r, len, tx.hist);
    if res.code >= 0 && len >= 0 { AfterMerge(tx, rx); }
  }

  lemma {:induction false} RecvKeeps(tx: Peer, rx: Peer, len: int)
    requires PeerOk(rx) && Link(tx, rx)
    ensures var rx' := PeerRecv(Exact, rx, len);
      PeerOk(rx') && Link(tx, rx')
  {
    hide KcbOk, AllPush, AllReply, NoLoss, FlightsTrue, Content, Consumed, Recv, AcksTrue, PartsTrue, Grows, Shape;
    ReceivedOk(Exact, rx.kcb, len);
    RecvTrue(rx.kcb.cfg.rcvWnd, rx.kcb.rcv, len, tx.hist);
    RecvConsumes(tx, rx, len);
    ReceiverMoved(tx, rx, PeerRecv(Exact, rx, len));
  }

  /** What ikcp_recv hands over is the next message. */
  lemma {:induction false} AfterMerge(tx: Peer, rx: Peer)
    requires PeerOk(rx) && Link(tx, rx) && PeekSize(rx.kcb.rcv.queue) >= 0
    ensures var r := rx.kcb.rcv; var c := MergeCount(r.queue); var p := r.nxt - |r.queue| + c;
      Closed(tx.hist[..p]) && Msgs(tx.hist[..p]) == rx.got + [Merged(r.queue)]
  {
    hide AllPush, AllReply, NoLoss, FlightsTrue, RcvTrue, Content, PeerOk, Msgs, Join, Read, PeekSize, MergeCount;
    WholeMessage(tx, rx);
    QueueIsHistory(tx, rx);
    var r := rx.kcb.rcv;
    MergeInto(tx.hist, r.queue, r.nxt - |r.queue|, MergeCount(r.queue));
  }

  lemma {:induction false} MergeInto(hist: seq<Frag>, q: seq<Part>, p: nat, c: nat)
    requires p + |q| <= |hist| && Frags(q) == hist[p..p + |q|] && Closed(hist[..p])
    requires 1 <= c <= |q| && q[c - 1].frg == 0 && forall i :: 0 <= i < c - 1 ==> q[i].frg > 0
    ensures Closed(hist[..p + c]) && Msgs(hist[..p + c]) == Msgs(hist[..p]) + [Join(Frags(q[..c]))]
  {
    hide Join, Read;
    var g := Frags(q[..c]);
    assert g == Frags(q)[..c];
    assert hist[..p + c] == hist[..p] + g;
    ReadMessage(hist[..p], g);
  }

  /** A receiver that only gained keeps its link. */
  lemma {:induction false} ReceiverMoved(tx: Peer, rx: Peer, rx': Peer)
    requires Link(tx, rx) && rx'.out == rx.out
    requires Grows(rx.kcb.rcv, rx'.kcb.rcv)
    requires rx'.kcb.rcv.nxt <= |tx.hist|
    requires PartsTrue(rx'.kcb.rcv.queue, tx.hist) && PartsTrue(rx'.kcb.rcv.buf, tx.hist)
    requires AcksTrue(rx'.kcb.rcv.acks, rx'.kcb.rcv, |tx.hist|) || rx'.kcb.rcv.acks == rx.kcb.rcv.acks
    requires Consumed(tx, rx')
    ensures Link(tx, rx')
  {
    var r, r' := rx.kcb.rcv, rx'.kcb.rcv;
    if r'.acks == r.acks { AcksGrow(r.acks, r, r', |tx.hist|); }
    NoLossGrows(tx.kcb.snd, r, r');
    forall i | 0 <= i < |rx.out| ensures AllReplyTrue(rx.out[i], r', |tx.hist|) {
      ReplyGrows(rx.out[i], r, r', |tx.hist|, |tx.hist|);
    }
  }

  // ----- ikcp_flush and ikcp_update

  lemma {:induction false} FilledHistory(tx: Peer, rx: Peer)
    requires PeerOk(tx) && Link(tx, rx)
    ensures var s := Filled(Exact, tx.kcb); var h := tx.hist + Taken(tx.kcb.snd.queue, s.queue);
      && |h| == s.nxt && FlightsTrue(s.buf, h) && NoLoss(s, rx.kcb.rcv)
      && h + s.queue == tx.hist + tx.kcb.snd.queue
  {
    var k := tx.kcb;
    hide KcbOk, Shape, AllPush, AllReply, Content, Consumed, Window, RcvTrue, FlightsTrue, NoLoss;
    FillTrue(k.snd, rx.kcb.rcv, tx.hist, Window(k), k.clk.current, k.rtt.rto);
    var s := Filled(Exact, k);
    var n := |k.snd.queue| - |s.queue|;
    assert k.snd.queue[..n] + k.snd.queue[n..] == k.snd.queue;
    assert tx.hist + k.snd.queue[..n] + k.snd.queue[n..] == tx.hist + (k.snd.queue[..n] + k.snd.queue[n..]);
  }

  lemma {:induction false} EmittedSizes(m: Arith, k: Kcb)
    requires KcbOk(m, k)
    ensures forall i :: 0 <= i < |Emitted(m, k)| ==> SegSize(Emitted(m, k)[i]) <= k.cfg.mtu
  {
    if k.clk.updated {
      FilledOk(m, k);
      DataSegsSmall(Timers.MakeCtx(k), Unused(k.cfg.rcvWnd, k.rcv), k.rcv.nxt, Filled(m, k).buf, k.cfg.mss);
    }
  }

  lemma {:induction false} DataSegsSmall(c: Timers.Ctx, wnd: nat, una: nat, buf: seq<Flight>, mss: nat)
    requires SmallFlights(mss, buf)
    ensures forall j :: 0 <= j < |DataSegs(c, wnd, una, buf)| ==> |DataSegs(c, wnd, una, buf)[j].data| <= mss
  {
    if buf != [] { DataSegsSmall(c, wnd, una, buf[..|buf| - 1], mss); }
  }

  lemma {:induction false} DataSegsFormed(c: Timers.Ctx, wnd: nat, una: nat, buf: seq<Flight>)
    requires wnd <= 65535 && forall i :: 0 <= i < |buf| ==> buf[i].frg < 128
    ensures forall j :: 0 <= j < |DataSegs(c, wnd, una, buf)| ==> WellFormed(DataSegs(c, wnd, una, buf)[j])
  {
    if buf != [] { DataSegsFormed(c, wnd, una, buf[..|buf| - 1]); }
  }

  lemma {:induction false} EmittedFormed(tx: Peer, rx: Peer)
    requires PeerOk(tx) && Link(tx, rx)
    ensures forall i :: 0 <= i < |Emitted(Exact, tx.kcb)| ==> WellFormed(Emitted(Exact, tx.kcb)[i])
  {
    var k := tx.kcb;
    if k.clk.updated {
      FilledHistory(tx, rx);
      hide PeerOk, AllPush, AllReply, Consumed, RcvTrue, NoLoss, Msgs, Small, Filled;
      var s := Filled(Exact, k);
      var h := tx.hist + Taken(k.snd.queue, s.queue);
      forall i | 0 <= i < |s.buf| ensures s.buf[i].frg < 128 {
        assert Known(h, s.buf[i].sn, s.buf[i].Piece());
        assert (h + s.queue)[s.buf[i].sn].frg < WND_RCV - 1;
      }
      DataSegsFormed(Timers.MakeCtx(k), Unused(k.cfg.rcvWnd, k.rcv), k.rcv.nxt, s.buf);
    }
  }

  lemma {:induction false} PackShape(mtu: nat, segs: seq<Seg>)
    requires forall i :: 0 <= i < |segs| ==> SegSize(segs[i]) <= mtu && WellFormed(segs[i])
    ensures Shape(mtu, Pack(mtu, segs))
  {
    PackOk(mtu, segs);
    var ds := Pack(mtu, segs);
    forall i, j | 0 <= i < |ds| && 0 <= j < |ds[i]| ensures WellFormed(ds[i][j]) {
      var k := FlatMembers(ds, i, j);
    }
  }

  /** A flush, seen from the direction it sends in. */
  lemma {:induction false} FlushSends(tx: Peer, rx: Peer)
    requires PeerOk(tx) && Link(tx, rx) && AcksTrue(tx.kcb.rcv.acks, tx.kcb.rcv, |rx.hist|)
    ensures Link(PeerFlush(Exact, tx), rx)
  {
    var tx' := PeerFlush(Exact, tx);
    if tx.kcb.clk.updated {
      var k := tx.kcb;
      var s := Filled(Exact, k);
      FilledHistory(tx, rx);
      TouchTrue(Timers.MakeCtx(k), s, rx.kcb.rcv, tx'.hist);
      EmittedTrue(k, tx'.hist, |rx.hist|);
      EmittedSizes(Exact, k);
      PackedTrue(k.cfg.mtu, Emitted(Exact, k), tx'.hist, k.rcv, |rx.hist|);
      HistoryGrew(tx, rx, tx', Taken(k.snd.queue, s.queue));
    } else {
      assert tx.hist + Taken(tx.kcb.snd.queue, tx.kcb.snd.queue) == tx.hist;
      assert tx.out + Datagrams(Exact, tx.kcb) == tx.out;
    }
  }

  lemma {:induction false} HistoryGrew(tx: Peer, rx: Peer, tx': Peer, more: seq<Frag>)
    requires Link(tx, rx) && tx'.hist == tx.hist + more && tx'.kcb.cfg == tx.kcb.cfg && tx'.accepted == tx.accepted
    requires |tx'.hist| == tx'.kcb.snd.nxt && FlightsTrue(tx'.kcb.snd.buf, tx'.hist) && NoLoss(tx'.kcb.snd, rx.kcb.rcv)
    requires tx'.hist + tx'.kcb.snd.queue == tx.hist + tx.kcb.snd.queue
    requires |tx.out| <= |tx'.out| && tx'.out[..|tx.out|] == tx.out
    requires forall i :: |tx.out| <= i < |tx'.out| ==> AllPushTrue(tx'.out[i], tx'.hist)
    ensures Link(tx', rx)
  {
    RcvTrueMono(rx.kcb.rcv, tx.hist, more);
    forall i | 0 <= i < |tx'.out| ensures AllPushTrue(tx'.out[i], tx'.hist) {
      if i < |tx.out| { assert tx'.out[i] == tx.out[i]; PushMono(tx.out[i], tx.hist, more); }
    }
    forall i | 0 <= i < |rx.out| ensures AllReplyTrue(rx.out[i], rx.kcb.rcv, |tx'.hist|) {
      ReplyGrows(rx.out[i], rx.kcb.rcv, rx.kcb.rcv, |tx.hist|, |tx'.hist|);
    }
    var p := rx.kcb.rcv.nxt - |rx.kcb.rcv.queue|;
    assert tx'.hist[..p] == tx.hist[..p];
  }

  /** A flush, seen from the direction it acknowledges. */
  lemma {:induction false} FlushReplies(tx: Peer, rx: Peer)
    requires PeerOk(rx) && Link(tx, rx) && Link(rx, tx)
    ensures Link(tx, PeerFlush(Exact, rx))
  {
    var rx' := PeerFlush(Exact, rx);
    if rx.kcb.clk.updated {
      FilledHistory(rx, tx);
      EmittedTrue(rx.kcb, rx'.hist, |tx.hist|);
      EmittedSizes(Exact, rx.kcb);
      PackedTrue(rx.kcb.cfg.mtu, Emitted(Exact, rx.kcb), rx'.hist, rx.kcb.rcv, |tx.hist|);
      var r, r' := rx.kcb.rcv, rx'.kcb.rcv;
      assert Grows(r, r') && Grows(r', r);
      NoLossGrows(tx.kcb.snd, r, r');
      forall i | 0 <= i < |rx'.out| ensures AllReplyTrue(rx'.out[i], r', |tx.hist|) {
        ReplyGrows(rx'.out[i], r, r', |tx.hist|, |tx.hist|);
      }
    } else {
      assert rx.out + Datagrams(Exact, rx.kcb) == rx.out;
      assert rx.hist + Taken(rx.kcb.snd.queue, rx.kcb.snd.queue) == rx.hist;
    }
  }

  lemma {:induction false} FlushShape(tx: Peer, rx: Peer)
    requires PeerOk(tx) && Link(tx, rx)
    ensures PeerOk(PeerFlush(Exact, tx))
  {
    FlushOk(Exact, tx.kcb);
    EmittedSizes(Exact, tx.kcb);
    EmittedFormed(tx, rx);
    PackShape(tx.kcb.cfg.mtu, Emitted(Exact, tx.kcb));
  }

  lemma {:induction false} FlushKeeps(x: Peer, y: Peer)
    requires PeerOk(x) && Link(x, y) && Link(y, x)
    ensures PeerOk(PeerFlush(Exact, x)) && Link(PeerFlush(Exact, x), y) && Link(y, PeerFlush(Exact, x))
  {
    FlushShape(x, y);
    FlushSends(x, y);
    FlushReplies(y, x);
  }

  lemma {:induction false} ClockKeeps(x: Peer, y: Peer, clk: Clock)
    requires PeerOk(x) && Link(x, y) && Link(y, x)
    ensures var x' := x.(kcb := x.kcb.(clk := clk)); PeerOk(x') && Link(x', y) && Link(y, x')
  {
  }

  // ----- ikcp_input

  /** The endpoint that reads (x) and the one that wrote (y): one segment keeps both directions. */
  ghost predicate ReadLink(s: Snd, r: Rcv, x: Peer, y: Peer) {
    && s.nxt == x.kcb.snd.nxt && s.queue == x.kcb.snd.queue
    && FlightsTrue(s.buf, x.hist) && NoLoss(s, y.kcb.rcv)
    && RcvTrue(r, y.hist) && Grows(x.kcb.rcv, r)
    && r.nxt - |r.queue| == x.kcb.rcv.nxt - |x.kcb.rcv.queue|
  }

  lemma {:induction false} ProcessKeeps(st: Inner, q: Seg, x: Peer, y: Peer)
    requires ReadLink(st.kcb.snd, st.kcb.rcv, x, y)
    requires PushTrue(q, y.hist) && ReplyTrue(q, y.kcb.rcv, |x.hist|)
    ensures var st' := Process(Exact, st, q); ReadLink(st'.kcb.snd, st'.kcb.rcv, x, y)
  {
    var k := st.kcb;
    UnaTrue(k.snd, y.kcb.rcv, x.hist, q.una);
    var k1 := TakeHeader(Exact, k, q);
    assert NoLoss(k1.snd, y.kcb.rcv) && FlightsTrue(k1.snd.buf, x.hist);
    match q.cmd
    case Ack => AckTrue(k1.snd, y.kcb.rcv, x.hist, q.sn);
    case Push =>
      TakePushTrue(k1.cfg.rcvWnd, k1.rcv, q, y.hist);
      GrowsTrans(x.kcb.rcv, k1.rcv, TakePush(Exact, k1.cfg.rcvWnd, k1.rcv, q));
    case Wask =>
    case Wins =>
  }

  lemma {:induction false} GrowsTrans(a: Rcv, b: Rcv, c: Rcv)
    requires Grows(a, b) && Grows(b, c)
    ensures Grows(a, c)
  {
  }

  lemma {:induction false} ProcessAllKeeps(st: Inner, d: seq<Seg>, x: Peer, y: Peer)
    requires ReadLink(st.kcb.snd, st.kcb.rcv, x, y)
    requires AllPushTrue(d, y.hist) && AllReplyTrue(d, y.kcb.rcv, |x.hist|)
    ensures var st' := ProcessAll(Exact, st, d); ReadLink(st'.kcb.snd, st'.kcb.rcv, x, y)
    decreases |d|
  {
    if d != [] {
      assert PushTrue(d[0], y.hist) && ReplyTrue(d[0], y.kcb.rcv, |x.hist|);
      ProcessKeeps(st, d[0], x, y);
      ProcessAllKeeps(Process(Exact, st, d[0]), d[1..], x, y);
    }
  }

  lemma {:induction false} InputLink(x: Peer, y: Peer, d: seq<Seg>)
    requires PeerOk(x) && Link(x, y) && Link(y, x)
    requires AllPushTrue(d, y.hist) && AllReplyTrue(d, y.kcb.rcv, |x.hist|)
    ensures var k := Input(Exact, x.kcb, Parsed(d, 0)); ReadLink(k.snd, k.rcv, x, y)
  {
    var st := Inner(x.kcb, NO_ACK);
    ProcessAllKeeps(st, d, x, y);
    var st' := ProcessAll(Exact, st, d);
    ProcessAllCfg(Exact, st, d);
    SkipTrue(st'.kcb.snd, y.kcb.rcv, x.hist, st'.best.maxack, st'.best.ts);
  }

  lemma {:induction false} InputKeeps(x: Peer, y: Peer, conv: u32, n: nat)
    requires PeerOk(x) && PeerOk(y) && Link(x, y) && Link(y, x) && n < |y.out|
    ensures var x' := PeerInput(Exact, x, conv, y.out[n]); PeerOk(x') && Link(x', y) && Link(y, x')
  {
    var d := y.out[n];
    var x' := PeerInput(Exact, x, conv, d);
    InputOk(Exact, x.kcb, Parsed(d, 0));
    ProcessAllCfg(Exact, Inner(x.kcb, NO_ACK), d);
    InputLink(x, y, d);
    var r := x.kcb.rcv;
    assert Consumed(y, x') by {
      assert x'.kcb.rcv.nxt - |x'.kcb.rcv.queue| == r.nxt - |r.queue|;
    }
    ReceiverMoved(y, x, x');
  }

  // ----- every run

  lemma {:induction false} InvRunnable(s: Sys)
    requires Inv(s)
    ensures Runnable(s)
  {
  }

  lemma {:induction false} DeliverKeeps(s: Sys, n: nat)
    requires Inv(s) && n < |s.b.out|
    ensures Inv(Deliver(Exact, s, n))
  {
    InputKeeps(s.a, s.b, s.a.kcb.cfg.conv, n);
    ProcessAllCfg(Exact, Inner(s.a.kcb, NO_ACK), s.b.out[n]);
  }

  lemma {:induction false} FlushFirstKeeps(s: Sys)
    requires Inv(s)
    ensures Inv(FlushFirst(Exact, s))
  {
    FlushKeeps(s.a, s.b);
  }

  lemma {:induction false} SwapKeeps(s: Sys)
    requires Inv(s)
    ensures Inv(Swap(s))
  {
  }

  /** ikcp_send touches nothing of the receiving half of an endpoint, ikcp_recv nothing of the sending half. */
  lemma {:induction false} OtherHalf(s: Sys, e: Event)
    requires Inv(s) && (e.EvSend? || e.EvRecv?)
    ensures e.EvSend? ==> Link(s.b, Act(Exact, s, e).a)
    ensures e.EvRecv? ==> Link(Act(Exact, s, e).a, s.b)
  {
    hide PeerOk, Receive.Recv, Messages.Send, FlightsTrue, RcvTrue, NoLoss, AllPush, AllReply, Msgs, Closed;
  }

  lemma {:induction false} ActKeeps(s: Sys, e: Event)
    requires Inv(s)
    ensures Inv(Act(Exact, s, e))
  {
    hide PeerOk, Link, Endpoint.Send, Received, Flush, Datagrams, Deliver, FlushFirst;
    match e
    case EvSend(msg) => SendKeeps(s.a, s.b, msg); OtherHalf(s, e);
    case EvRecv(len) => RecvKeeps(s.b, s.a, len); OtherHalf(s, e);
    case EvUpdate(t) =>
      var clk := Tick(s.a.kcb.clk, s.a.kcb.cfg.interval, t).0;
      ClockKeeps(s.a, s.b, clk);
      FlushKeeps(s.a.(kcb := s.a.kcb.(clk := clk)), s.b);
    case EvFlush => FlushFirstKeeps(s);
    case EvDeliver(n) => if n < |s.b.out| { DeliverKeeps(s, n); }
  }

  lemma {:induction false} StepKeeps(s: Sys, v: Move)
    requires Inv(s)
    ensures Inv(Step(Exact, s, v))
  {
    match v
    case ByA(e) => ActKeeps(s, e);
    case ByB(e) => ActKeeps(Swap(s), e);
  }

  /** Two endpoints that have not said anything yet. */
  lemma {:induction false} StartLink(ca: Cfg, cb: Cfg)
    ensures Link(Peer(Create(ca), [], [], [], []), Peer(Create(cb), [], [], [], []))
  {
  }

  lemma {:induction false} StartInv(ca: Cfg, cb: Cfg)
    requires CfgOk(ca) && CfgOk(cb) && ca.conv == cb.conv
    ensures Inv(Start(ca, cb))
  {
    hide KcbOk, Link, CfgOk;
    CreateOk(Exact, ca);
    CreateOk(Exact, cb);
    StartLink(ca, cb);
    StartLink(cb, ca);
  }

  /** The invariant holds in every reachable state, for any configuration of the two sides and any events. */
  lemma {:induction false} RunInv(ca: Cfg, cb: Cfg, moves: seq<Move>)
    requires CfgOk(ca) && CfgOk(cb) && ca.conv == cb.conv
    ensures Inv(Run(Exact, ca, cb, moves))
  {
    if moves == [] {
      StartInv(ca, cb);
    } else {
      RunInv(ca, cb, moves[..|moves| - 1]);
      StepKeeps(Run(Exact, ca, cb, moves[..|moves| - 1]), moves[|moves| - 1]);
    }
  }

  // ----- what the invariant says

  /** In message mode the received messages are a prefix of the accepted ones, boundaries and bytes; in stream mode
      the received bytes are a prefix of the accepted bytes. */
  lemma {:induction false} Delivered(tx: Peer, rx: Peer)
    requires Link(tx, rx)
    ensures !tx.kcb.cfg.stream ==> rx.got <= tx.accepted
    ensures tx.kcb.cfg.stream ==> Flat(rx.got) <= Flat(tx.accepted)
  {
    var p := rx.kcb.rcv.nxt - |rx.kcb.rcv.queue|;
    var all := tx.hist + tx.kcb.snd.queue;
    assert all[..p] == tx.hist[..p];
    MsgsPrefix(all, p);
    if tx.kcb.cfg.stream {
      ReadAllLast(all[..p]);
      JoinConcat(all[..p], all[p..]);
      assert all[..p] + all[p..] == all;
    }
  }

  /** When ikcp_waitsnd is zero the receiver holds every fragment of everything that was accepted. */
  lemma {:induction false} NothingWaiting(tx: Peer, rx: Peer)
    requires PeerOk(rx) && Link(tx, rx) && WaitSnd(tx.kcb) == 0
    ensures forall n: nat :: n < |tx.hist| ==> Held(rx.kcb.rcv, n)
    ensures !tx.kcb.cfg.stream ==> Msgs(tx.hist) == tx.accepted
    ensures tx.kcb.cfg.stream ==> Join(tx.hist) == Flat(tx.accepted)
  {
    assert tx.hist + tx.kcb.snd.queue == tx.hist;
    forall n: nat | n < |tx.hist| ensures Held(rx.kcb.rcv, n) {
      assert HasFlight(tx.kcb.snd.buf, n) || Held(rx.kcb.rcv, n);
    }
  }
}
