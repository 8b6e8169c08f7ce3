/** No reachable state is stuck: kcp_recv, called often enough on both sides at suitable times, gets every accepted
    message across, whatever was lost before.

    A poll is one kcp_recv: an ikcp_update, at most one datagram, an ikcp_recv. */
module Polls {
  import opened Serial
  import opened Types
  import opened Wire
  import opened Receive
  import opened Transmit
  import opened Timers
  import opened Endpoint
  import opened System
  import opened Safety
  import opened Truth
  import opened Liveness
  import opened Delivery
  import opened Schedule
  import opened KcpCalls
  import Congestion

  // ----- one poll

  datatype Poll = Poll(first: bool, now: u32, take: Take)

  /** The first endpoint polls, with room for len bytes. */
  function PollFirst(s: Sys, len: nat, now: u32, take: Take): (s': Sys)
    requires Runnable(s)
    ensures Runnable(s')
  {
    var s1 := Act(Exact, s, EvUpdate(now));
    var s2 := if take.Nth? then Act(Exact, s1, EvDeliver(take.n)) else s1;
    Act(Exact, s2, EvRecv(len))
  }

  function PollStep(s: Sys, len: nat, p: Poll): (s': Sys)
    requires Runnable(s)
    ensures Runnable(s')
  {
    if p.first then PollFirst(s, len, p.now, p.take) else Swap(PollFirst(Swap(s), len, p.now, p.take))
  }

  function PollAll(s: Sys, len: nat, ps: seq<Poll>): (s': Sys)
    requires Runnable(s)
    ensures Runnable(s')
    decreases |ps|
  {
    if ps == [] then s else PollAll(PollStep(s, len, ps[0]), len, ps[1..])
  }

  lemma {:induction false} QuietPoll(s: Sys, len: nat, now: u32)
    requires Runnable(s)
    ensures PollFirst(s, len, now, NoDatagram) == s.(a := PeerRecv(Exact, PeerUpdate(Exact, s.a, now), len))
  {
    hide PeerRecv, PeerUpdate;
  }

  // ----- what every poll keeps

  /** All fragments an endpoint has made, numbered or still queued. */
  function Made(p: Peer): nat {
    |p.hist| + |p.kcb.snd.queue|
  }

  /** The fragments the peer has not acknowledged. */
  function Left(p: Peer): int {
    Made(p) - p.kcb.snd.una
  }

  /** Nothing is taken back. */
  predicate Forward(p: Peer, p': Peer) {
    && Made(p') == Made(p) && p'.accepted == p.accepted && p'.kcb.cfg == p.kcb.cfg && p.out <= p'.out
    && p.kcb.snd.una <= p'.kcb.snd.una && p.kcb.rcv.nxt <= p'.kcb.rcv.nxt
  }

  lemma {:induction false} ForwardTrans(p: Peer, q: Peer, r: Peer)
    requires Forward(p, q) && Forward(q, r)
    ensures Forward(p, r)
  {
  }

  lemma {:induction false} FillQueue(m: Arith, s: Snd, cwnd: nat, current: u32, rto: u32)
    ensures |Fill(m, s, cwnd, current, rto).queue| <= |s.queue|
    decreases |s.queue|
  {
    if Diff(m, s.nxt, Add(m, s.una, cwnd)) < 0 && s.queue != [] {
      FillQueue(m, Numbered(m, s, current, rto), cwnd, current, rto);
    }
  }

  /** ikcp_update makes no fragments. */
  lemma {:induction false} UpdateMade(m: Arith, p: Peer, now: u32)
    ensures Made(PeerUpdate(m, p, now)) == Made(p)
  {
    hide Tick, Window, Datagrams;
    var k := p.kcb.(clk := Tick(p.kcb.clk, p.kcb.cfg.interval, now).0);
    FillQueue(m, k.snd, Window(k), k.clk.current, k.rtt.rto);
  }

  lemma {:induction false} FlushForward(p: Peer)
    ensures Forward(p, PeerFlush(Exact, p))
  {
    hide Window, Datagrams;
    FillQueue(Exact, p.kcb.snd, Window(p.kcb), p.kcb.clk.current, p.kcb.rtt.rto);
    FillPrefix(p.kcb.snd, Window(p.kcb), p.kcb.clk.current, p.kcb.rtt.rto);
  }

  lemma {:induction false} DeliverForward(s: Sys, n: nat)
    requires Inv(s) && n < |s.b.out|
    ensures Forward(s.a, Deliver(Exact, s, n).a)
  {
    var d := s.b.out[n];
    InputUna(s.a.kcb, d);
    InputRcv(s.a.kcb, d);
    RcvAfterGrows(s.a.kcb.cfg.rcvWnd, s.a.kcb.rcv, d);
    InputQueue(s.a.kcb, d);
  }

  lemma {:induction false} ProcessAllQueue(st: Inner, d: seq<Seg>)
    ensures ProcessAll(Exact, st, d).kcb.snd.queue == st.kcb.snd.queue
    decreases |d|
  {
    if d != [] { ProcessAllQueue(Process(Exact, st, d[0]), d[1..]); }
  }

  lemma {:induction false} InputQueue(k: Kcb, d: seq<Seg>)
    requires k.cfg.mss > 0
    ensures Input(Exact, k, Parsed(d, 0)).snd.queue == k.snd.queue
  {
    ProcessAllQueue(Inner(k, NO_ACK), d);
    ProcessAllCfg(Exact, Inner(k, NO_ACK), d);
  }

  lemma {:induction false} RecvForward(p: Peer, len: int)
    ensures Forward(p, PeerRecv(Exact, p, len))
  {
    var r := p.kcb.rcv;
    var r1 := if len < 0 then r else r.(queue := r.queue[MergeCount(r.queue)..]);
    MoveReadyAdvances(p.kcb.cfg.rcvWnd, r1);
    hide MoveReady, MergeCount, Merged, PeekSize;
  }

  lemma {:induction false} UpdateForward(p: Peer, now: u32)
    ensures Forward(p, PeerUpdate(Exact, p, now))
  {
    hide PeerFlush, Tick;
    var (clk, due) := Tick(p.kcb.clk, p.kcb.cfg.interval, now);
    FlushForward(p.(kcb := p.kcb.(clk := clk)));
  }

  lemma {:induction false} ForwardSame(p: Peer)
    ensures Forward(p, p)
  {
  }

  /** Every event but ikcp_send. */
  lemma {:induction false} ActForward(s: Sys, e: Event)
    requires Inv(s) && Runnable(s) && !e.EvSend?
    ensures Forward(s.a, Act(Exact, s, e).a) && Inv(Act(Exact, s, e)) && Act(Exact, s, e).b == s.b
  {
    hide Inv, PeerFlush, PeerRecv, Deliver, Runnable, Forward;
    ActKeeps(s, e);
    ForwardSame(s.a);
    match e
    case EvRecv(len) => RecvForward(s.a, len);
    case EvUpdate(t) =>
      UpdateForward(s.a, t);
    case EvFlush => FlushForward(s.a);
    case EvDeliver(n) => if n < |s.b.out| { DeliverForward(s, n); }
  }

  lemma {:induction false} PollFirstForward(s: Sys, len: nat, now: u32, take: Take)
    requires Inv(s) && Runnable(s)
    ensures var s' := PollFirst(s, len, now, take); Inv(s') && Forward(s.a, s'.a) && s'.b == s.b
  {
    hide Inv, Act, Forward, Runnable;
    var s1 := Act(Exact, s, EvUpdate(now));
    ActForward(s, EvUpdate(now));
    var s2 := if take.Nth? then Act(Exact, s1, EvDeliver(take.n)) else s1;
    if take.Nth? {
      ActForward(s1, EvDeliver(take.n));
      ForwardTrans(s.a, s1.a, s2.a);
    }
    ActForward(s2, EvRecv(len));
    ForwardTrans(s.a, s2.a, Act(Exact, s2, EvRecv(len)).a);
  }

  predicate BothForward(s: Sys, s': Sys) {
    Forward(s.a, s'.a) && Forward(s.b, s'.b)
  }

  lemma {:induction false} PollAllForward(s: Sys, len: nat, ps: seq<Poll>)
    requires Inv(s) && Runnable(s)
    ensures Inv(PollAll(s, len, ps)) && BothForward(s, PollAll(s, len, ps))
    decreases |ps|
  {
    hide Inv, PollFirst, Runnable;
    if ps != [] {
      var p := ps[0];
      var s1 := PollStep(s, len, p);
      if p.first {
        PollFirstForward(s, len, p.now, p.take);
      } else {
        SwapKeeps(s);
        InvRunnable(Swap(s));
        PollFirstForward(Swap(s), len, p.now, p.take);
        SwapKeeps(PollFirst(Swap(s), len, p.now, p.take));
      }
      PollAllForward(s1, len, ps[1..]);
    }
  }

  lemma {:induction false} PollAllConcat(s: Sys, len: nat, a: seq<Poll>, b: seq<Poll>)
    requires Runnable(s)
    ensures PollAll(s, len, a + b) == PollAll(PollAll(s, len, a), len, b)
    decreases |a|
  {
    hide PollStep, Runnable;
    if a == [] {
      assert a + b == b;
    } else {
      assert (a + b)[1..] == a[1..] + b;
      PollAllConcat(PollStep(s, len, a[0]), len, a[1..], b);
    }
  }

  // ----- times

  /** For every moment there is a time behind it at which ikcp_update flushes. */
  lemma {:induction false} DueTime(clk: Clock, interval: nat, x: u32) returns (t: u32)
    requires 10 <= interval <= 5000
    ensures TimeDiff(t, x) >= 0 && Tick(clk, interval, t).1
  {
    if !clk.updated {
      t := x;
    } else {
      var d := TimeDiff(x, clk.tsFlush);
      t := if d >= 0 || d < -10000 then x else clk.tsFlush;
    }
  }

  // ----- finding a segment in a flush

  /** A datagram whose first data segment has number sn. */
  predicate HeadIn(d: seq<Seg>, sn: nat) {
    exists j :: 0 <= j < |d| && d[j].cmd.Push? && d[j].sn == sn && forall k :: 0 <= k < j ==> !d[k].cmd.Push?
  }

  lemma {:induction false} HeadDatagram(ds: seq<seq<Seg>>, pre: seq<Seg>, q: Seg, post: seq<Seg>) returns (i: nat)
    requires Flat(ds) == pre + [q] + post && q.cmd.Push? && forall k :: 0 <= k < |pre| ==> !pre[k].cmd.Push?
    ensures i < |ds| && HeadIn(ds[i], q.sn)
    decreases |ds|
  {
    FlatCons(ds);
    var d, f := ds[0], Flat(ds);
    if |pre| < |d| {
      i := 0;
      assert d[|pre|] == f[|pre|] == q;
      forall k | 0 <= k < |pre| ensures !d[k].cmd.Push? { assert d[k] == f[k] == pre[k]; }
    } else {
      assert f[..|d|] == d && pre[..|d|] == d by {
        assert forall k :: 0 <= k < |d| ==> pre[k] == f[k] == d[k];
      }
      assert Flat(ds[1..]) == f[|d|..] == pre[|d|..] + [q] + post;
      i := HeadDatagram(ds[1..], pre[|d|..], q, post);
      i := i + 1;
    }
  }

  predicate AskIn(d: seq<Seg>) {
    exists j :: 0 <= j < |d| && d[j].cmd.Wask?
  }

  /** Some datagram holds a given segment. */
  lemma {:induction false} DatagramOf(ds: seq<seq<Seg>>, p: nat) returns (i: nat, j: nat)
    requires p < |Flat(ds)|
    ensures i < |ds| && j < |ds[i]| && ds[i][j] == Flat(ds)[p]
    decreases |ds|
  {
    FlatCons(ds);
    if p < |ds[0]| {
      i, j := 0, p;
    } else {
      i, j := DatagramOf(ds[1..], p - |ds[0]|);
      i := i + 1;
    }
  }

  // ----- the oldest segment gets across

  /** The first endpoint as it enters the flush of ikcp_update. */
  function Ticked(p: Peer, now: u32): Kcb {
    p.kcb.(clk := Tick(p.kcb.clk, p.kcb.cfg.interval, now).0)
  }

  lemma {:induction false} UpdateFlushes(p: Peer, now: u32)
    requires Tick(p.kcb.clk, p.kcb.cfg.interval, now).1
    ensures PeerUpdate(Exact, p, now) == PeerFlush(Exact, p.(kcb := Ticked(p, now)))
    ensures Ticked(p, now).clk.updated && Ticked(p, now).clk.current == now
    ensures PeerUpdate(Exact, p, now).out == p.out + Datagrams(Exact, Ticked(p, now))
  {
    hide Flush, Datagrams;
  }

  lemma {:induction false} TickedOk(p: Peer, now: u32)
    requires KcbOk(Exact, p.kcb)
    ensures KcbOk(Exact, Ticked(p, now)) && Ticked(p, now).snd == p.kcb.snd && Ticked(p, now).rcv == p.kcb.rcv
    ensures Ticked(p, now).prb == p.kcb.prb && Ticked(p, now).cfg == p.kcb.cfg && Ticked(p, now).cc == p.kcb.cc
  {
    hide Tick;
  }

  /** With the oldest segment due, ikcp_update sends it. */
  lemma {:induction false} EmitsHead(p: Peer, now: u32) returns (i: nat)
    requires KcbOk(Exact, p.kcb) && p.kcb.snd.buf != [] && Tick(p.kcb.clk, p.kcb.cfg.interval, now).1
    requires TimeDiff(now, p.kcb.snd.buf[0].resendts) >= 0
    ensures var p' := PeerUpdate(Exact, p, now);
      && |p.out| <= i < |p'.out| && HeadIn(p'.out[i], p.kcb.snd.una)
      && p'.kcb.snd.una == p.kcb.snd.una && p'.kcb.snd.buf != []
  {
    hide Tick, KcbOk, Flush, Datagrams, HeadIn, PeerUpdate, Ticked;
    var k := Ticked(p, now);
    TickedOk(p, now);
    UpdateFlushes(p, now);
    i := FlushedHead(k);
    i := i + |p.out|;
  }

  lemma {:induction false} FlushedHead(k: Kcb) returns (i: nat)
    requires KcbOk(Exact, k) && k.snd.buf != [] && TimeDiff(k.clk.current, k.snd.buf[0].resendts) >= 0 && k.clk.updated
    ensures i < |Datagrams(Exact, k)| && HeadIn(Datagrams(Exact, k)[i], k.snd.una)
    ensures var k' := Flush(Exact, k); k'.snd.una == k.snd.una && k'.snd.buf != []
  {
    hide HeadIn, Emitted;
    assert k.snd.buf[0].sn == k.snd.una;
    var pre, q, post := FlushStartsWithHead(k);
    EmittedSizes(Exact, k);
    PackOk(k.cfg.mtu, Emitted(Exact, k));
    i := HeadDatagram(Datagrams(Exact, k), pre, q, post);
  }

  lemma {:induction false} UpdateKeepsRcv(p: Peer, now: u32)
    ensures var p' := PeerUpdate(Exact, p, now);
      && p'.kcb.rcv.queue == p.kcb.rcv.queue && p'.kcb.rcv.buf == p.kcb.rcv.buf && p'.kcb.rcv.nxt == p.kcb.rcv.nxt
      && p'.kcb.cfg == p.kcb.cfg
      && (!Tick(p.kcb.clk, p.kcb.cfg.interval, now).1 ==> p'.kcb.rcv == p.kcb.rcv)
  {
    hide Tick, Filled, Emitted, Pack;
  }

  lemma {:induction false} UpdateKeepsSnd(p: Peer, now: u32)
    ensures var s, s' := p.kcb.snd, PeerUpdate(Exact, p, now).kcb.snd;
      s'.una == s.una && (s.buf != [] ==> s'.buf != [])
  {
    hide Tick, Window, Emitted, Pack, Touch;
    var k := Ticked(p, now);
    FillPrefix(k.snd, Window(k), k.clk.current, k.rtt.rto);
  }

  lemma {:induction false} RecvKeepsSnd(p: Peer, len: int)
    ensures var p' := PeerRecv(Exact, p, len);
      p'.kcb.snd == p.kcb.snd && p'.out == p.out && p'.kcb.rcv.acks == p.kcb.rcv.acks && p'.kcb.clk == p.kcb.clk
      && p'.kcb.prb.rmtWnd == p.kcb.prb.rmtWnd && (p.kcb.prb.askTell ==> p'.kcb.prb.askTell) && p'.kcb.cfg == p.kcb.cfg
      && p'.kcb.cc == p.kcb.cc && p'.kcb.prb.ts == p.kcb.prb.ts && p'.kcb.prb.wait == p.kcb.prb.wait
  {
    var r := p.kcb.rcv;
    var r1 := if len < 0 then r else r.(queue := r.queue[MergeCount(r.queue)..]);
    MoveReadyAcks(Exact, p.kcb.cfg.rcvWnd, r1);
    hide MoveReady, MergeCount, Merged, PeekSize;
  }

  /** A datagram read up to a segment q and beyond. */
  lemma {:induction false} RcvBeyond(wnd: nat, r: Rcv, d: seq<Seg>, j: nat)
    requires j < |d| && d[j].cmd.Push? && forall k :: 0 <= k < j ==> !d[k].cmd.Push?
    ensures var r1 := TakePush(Exact, wnd, r, d[j]);
      RcvAfter(wnd, r, d).nxt >= r1.nxt && |RcvAfter(wnd, r, d).acks| >= |r1.acks|
  {
    hide TakePush;
    var pre, q, post := d[..j], d[j], d[j + 1..];
    assert d == pre + ([q] + post) && ([q] + post)[1..] == post;
    RcvAfterConcat(wnd, r, pre, [q] + post);
    RcvAfterSignals(wnd, r, pre);
    RcvAfterGrows(wnd, TakePush(Exact, wnd, r, q), post);
  }

  /** The peer with room that reads the oldest segment owes an acknowledgement beyond it. */
  lemma {:induction false} ReadsHead(s: Sys, i: nat)
    requires Inv(s) && Runnable(s) && i < |s.b.out| && HeadIn(s.b.out[i], s.b.kcb.snd.una)
    requires s.b.kcb.snd.una < s.b.kcb.snd.nxt && |s.a.kcb.rcv.queue| < s.a.kcb.cfg.rcvWnd
    ensures var r := Deliver(Exact, s, i).a.kcb.rcv; r.nxt > s.b.kcb.snd.una && r.acks != []
  {
    hide TakePush, RcvAfter, Input, PeerOk, Link;
    var d := s.b.out[i];
    var j :| 0 <= j < |d| && d[j].cmd.Push? && d[j].sn == s.b.kcb.snd.una && forall k :: 0 <= k < j ==> !d[k].cmd.Push?;
    InputRcv(s.a.kcb, d);
    HeadArrives(s.b, s.a, d[j]);
    RcvBeyond(s.a.kcb.cfg.rcvWnd, s.a.kcb.rcv, d, j);
  }

  lemma {:induction false} PollReadsHead(s: Sys, len: nat, now: u32, i: nat)
    requires Inv(s) && Runnable(s) && i < |s.b.out| && HeadIn(s.b.out[i], s.b.kcb.snd.una)
    requires s.b.kcb.snd.una < s.b.kcb.snd.nxt && |s.a.kcb.rcv.queue| < s.a.kcb.cfg.rcvWnd
    ensures var r := PollFirst(s, len, now, Nth(i)).a.kcb.rcv; r.nxt > s.b.kcb.snd.una && r.acks != []
  {
    hide Inv, PeerUpdate, PeerRecv, Deliver, HeadIn;
    var s1 := Act(Exact, s, EvUpdate(now));
    ActForward(s, EvUpdate(now));
    UpdateKeepsRcv(s.a, now);
    ReadsHead(s1, i);
    var s2 := Deliver(Exact, s1, i);
    RecvForward(s2.a, len);
    RecvKeepsSnd(s2.a, len);
  }

  lemma {:induction false} EmitsAck(p: Peer, now: u32)
    requires KcbOk(Exact, p.kcb) && p.kcb.rcv.acks != [] && Tick(p.kcb.clk, p.kcb.cfg.interval, now).1
    ensures var out, i := PeerUpdate(Exact, p, now).out, |p.out|;
      i < |out| && out[i] != [] && out[i][0].una == p.kcb.rcv.nxt
  {
    hide PeerUpdate, Tick, Datagrams, KcbOk;
    TickedOk(p, now);
    UpdateFlushes(p, now);
    FlushStartsWithAck(Ticked(p, now));
  }

  /** The acknowledgement is emitted. */
  lemma {:induction false} PollEmitsAck(s: Sys, len: nat, now: u32)
    requires Inv(s) && Runnable(s) && s.a.kcb.rcv.acks != [] && Tick(s.a.kcb.clk, s.a.kcb.cfg.interval, now).1
    ensures var out, i := PollFirst(s, len, now, NoDatagram).a.out, |s.a.out|;
      i < |out| && out[i] != [] && out[i][0].una == s.a.kcb.rcv.nxt
  {
    hide Inv, PeerUpdate, PeerRecv, PollFirst, Tick, KcbOk, Runnable;
    InvOk(s);
    QuietPoll(s, len, now);
    EmitsAck(s.a, now);
    RecvKeepsSnd(PeerUpdate(Exact, s.a, now), len);
  }

  /** The acknowledgement is read. */
  lemma {:induction false} PollReadsAck(s: Sys, len: nat, now: u32, i: nat)
    requires Inv(s) && Runnable(s) && i < |s.b.out| && s.b.out[i] != [] && s.b.out[i][0].una > s.a.kcb.snd.una
    requires s.a.kcb.snd.buf != []
    ensures PollFirst(s, len, now, Nth(i)).a.kcb.snd.una > s.a.kcb.snd.una
  {
    hide Inv, PeerUpdate, PeerRecv, Deliver;
    var s1 := Act(Exact, s, EvUpdate(now));
    ActForward(s, EvUpdate(now));
    UpdateKeepsSnd(s.a, now);
    DeliverUna(s1, i);
    RecvKeepsSnd(Deliver(Exact, s1, i).a, len);
  }

  // ----- draining

  predicate Stuck(p: Peer) {
    PeekSize(p.kcb.rcv.queue) < 0
  }

  /** Polls without datagrams drain the first endpoint. */
  lemma {:induction false} DrainFirst(s: Sys, len: nat) returns (ps: seq<Poll>)
    requires Inv(s) && Runnable(s) && RoomFor(s.b, len)
    ensures Stuck(PollAll(s, len, ps).a) && PollAll(s, len, ps).b == s.b
    decreases |s.a.kcb.rcv.queue| + |s.a.kcb.rcv.buf|
  {
    hide Inv, PollFirst, RoomFor, Runnable, Stuck;
    var p := Poll(true, 0, NoDatagram);
    var s' := PollFirst(s, len, 0, NoDatagram);
    PollFirstForward(s, len, 0, NoDatagram);
    DrainPoll(s, len);
    if Stuck(s'.a) {
      ps := [p];
      assert [p][1..] == [];
    } else {
      ps := DrainFirst(s', len);
      assert ([p] + ps)[1..] == ps;
      ps := [p] + ps;
    }
  }

  lemma {:induction false} DrainPoll(s: Sys, len: nat)
    requires Inv(s) && Runnable(s) && RoomFor(s.b, len)
    ensures var p' := PollFirst(s, len, 0, NoDatagram).a;
      Stuck(p') || |p'.kcb.rcv.queue| + |p'.kcb.rcv.buf| < |s.a.kcb.rcv.queue| + |s.a.kcb.rcv.buf|
  {
    hide Inv, RoomFor, Runnable, Stuck, PeerUpdate, PeerRecv, Recv;
    ActForward(s, EvUpdate(0));
    UpdateKeepsRcv(s.a, 0);
    DrainStep(Act(Exact, s, EvUpdate(0)), len);
  }

  lemma {:induction false} DrainStep(s: Sys, len: nat)
    requires Inv(s) && RoomFor(s.b, len)
    ensures var r, p' := Recv(Exact, s.a.kcb.cfg.rcvWnd, s.a.kcb.rcv, len), PeerRecv(Exact, s.a, len);
      if r.code < 0 then Stuck(p')
      else |p'.kcb.rcv.queue| + |p'.kcb.rcv.buf| < |s.a.kcb.rcv.queue| + |s.a.kcb.rcv.buf|
  {
    NeverTooSmall(s.b, s.a, len);
    hide Inv;
    if Recv(Exact, s.a.kcb.cfg.rcvWnd, s.a.kcb.rcv, len).code >= 0 { RecvShrinks(Exact, s.a, len); }
  }

  function MirrorPolls(ps: seq<Poll>): (r: seq<Poll>)
    ensures |r| == |ps| && forall i :: 0 <= i < |ps| ==> r[i] == ps[i].(first := !ps[i].first)
  {
    seq(|ps|, i requires 0 <= i < |ps| => ps[i].(first := !ps[i].first))
  }

  lemma {:induction false} PollMirror(s: Sys, len: nat, ps: seq<Poll>)
    requires Runnable(s)
    ensures PollAll(Swap(s), len, MirrorPolls(ps)) == Swap(PollAll(s, len, ps))
    decreases |ps|
  {
    hide PollFirst;
    if ps != [] {
      assert MirrorPolls(ps)[1..] == MirrorPolls(ps[1..]);
      PollMirror(PollStep(s, len, ps[0]), len, ps[1..]);
    }
  }

  lemma {:induction false} DrainSecond(s: Sys, len: nat) returns (ps: seq<Poll>)
    requires Inv(s) && Runnable(s) && RoomFor(s.a, len)
    ensures Stuck(PollAll(s, len, ps).b) && PollAll(s, len, ps).a == s.a
  {
    hide PollAll, Stuck, RoomFor, Inv;
    SwapKeeps(s);
    InvRunnable(Swap(s));
    ps := DrainFirst(Swap(s), len);
    PollMirror(Swap(s), len, ps);
    ps := MirrorPolls(ps);
  }

  // ----- one round

  lemma {:induction false} PollOne(s: Sys, len: nat, ps: seq<Poll>, p: Poll)
    requires Runnable(s)
    ensures PollAll(s, len, ps + [p]) == PollStep(PollAll(s, len, ps), len, p)
  {
    hide PollStep;
    PollAllConcat(s, len, ps, [p]);
    assert [p][1..] == [];
  }

  /** The polls of one side leave the other alone. */
  lemma {:induction false} PollKeeps(s: Sys, len: nat, p: Poll)
    requires Inv(s) && Runnable(s)
    ensures var s' := PollStep(s, len, p);
      && Inv(s') && (if p.first then s'.b == s.b && Forward(s.a, s'.a) else s'.a == s.a && Forward(s.b, s'.b))
  {
    hide Inv, PollFirst, Forward;
    if p.first {
      PollFirstForward(s, len, p.now, p.take);
    } else {
      SwapKeeps(s);
      InvRunnable(Swap(s));
      PollFirstForward(Swap(s), len, p.now, p.take);
      SwapKeeps(PollFirst(Swap(s), len, p.now, p.take));
    }
  }

  lemma {:induction false} HeadInFlight(s: Sys)
    requires Inv(s) && s.a.kcb.snd.buf != []
    ensures s.a.kcb.snd.una < s.a.kcb.snd.nxt && KcbOk(Exact, s.a.kcb)
  {
    assert Off(Exact, s.a.kcb.snd.buf[0].sn, s.a.kcb.snd.una) < Off(Exact, s.a.kcb.snd.nxt, s.a.kcb.snd.una);
  }

  lemma {:induction false} IntervalOk(s: Sys)
    requires Inv(s)
    ensures 10 <= s.a.kcb.cfg.interval <= 5000 && 10 <= s.b.kcb.cfg.interval <= 5000
  {
  }

  /** The first endpoint sends its oldest segment. */
  lemma {:induction false} SendHead(s: Sys, len: nat) returns (p: Poll, i: nat)
    requires Inv(s) && Runnable(s) && s.a.kcb.snd.buf != []
    ensures p.first && var s' := PollStep(s, len, p);
      && i < |s'.a.out| && HeadIn(s'.a.out[i], s.a.kcb.snd.una) && s'.a.kcb.snd.una == s.a.kcb.snd.una
      && s'.a.kcb.snd.buf != []
  {
    HeadInFlight(s);
    IntervalOk(s);
    hide Inv, KcbOk, Runnable, HeadIn, PeerUpdate, PeerRecv, PollFirst, Tick;
    var t := DueTime(s.a.kcb.clk, s.a.kcb.cfg.interval, s.a.kcb.snd.buf[0].resendts);
    p := Poll(true, t, NoDatagram);
    i := EmitsHead(s.a, t);
    QuietPoll(s, len, t);
    RecvKeepsSnd(PeerUpdate(Exact, s.a, t), len);
  }

  /** The second endpoint reads it, and acknowledges; both with polls of its own. */
  lemma {:induction false} AnswerHead(s: Sys, len: nat, i: nat) returns (ps: seq<Poll>, j: nat)
    requires Inv(s) && Runnable(s) && i < |s.a.out| && HeadIn(s.a.out[i], s.a.kcb.snd.una)
    requires s.a.kcb.snd.una < s.a.kcb.snd.nxt && |s.b.kcb.rcv.queue| < s.b.kcb.cfg.rcvWnd
    ensures var s' := PollAll(s, len, ps);
      && Inv(s') && s'.a == s.a && j < |s'.b.out| && s'.b.out[j] != [] && s'.b.out[j][0].una > s.a.kcb.snd.una
  {
    hide Inv, Runnable, HeadIn, PollFirst, Tick;
    var p2 := Poll(false, 0, Nth(i));
    SwapKeeps(s);
    InvRunnable(Swap(s));
    PollReadsHead(Swap(s), len, 0, i);
    PollKeeps(s, len, p2);
    var s2 := PollStep(s, len, p2);
    IntervalOk(s2);
    var u := DueTime(s2.b.kcb.clk, s2.b.kcb.cfg.interval, 0);
    var p3 := Poll(false, u, NoDatagram);
    SwapKeeps(s2);
    InvRunnable(Swap(s2));
    PollEmitsAck(Swap(s2), len, u);
    PollKeeps(s2, len, p3);
    ps, j := [p2, p3], |s2.b.out|;
    hide PollStep;
    PollOne(s, len, [], p2);
    PollOne(s, len, [p2], p3);
    assert [] + [p2] == [p2] && [p2] + [p3] == ps;
  }

  /** With a segment in flight, some polls get the oldest one acknowledged. */
  lemma {:induction false} HeadRound(s: Sys, len: nat) returns (ps: seq<Poll>)
    requires Inv(s) && Runnable(s) && s.a.kcb.snd.buf != [] && RoomFor(s.a, len)
    ensures PollAll(s, len, ps).a.kcb.snd.una > s.a.kcb.snd.una
  {
    hide Inv, Runnable, HeadIn, PollAll, PollStep, RoomFor, Stuck;
    var drain := DrainSecond(s, len);
    var s0 := PollAll(s, len, drain);
    PollAllForward(s, len, drain);
    HasRoom(s0);
    var p1, i := SendHead(s0, len);
    var s1 := PollStep(s0, len, p1);
    PollKeeps(s0, len, p1);
    HeadInFlight(s1);
    var answer, j := AnswerHead(s1, len, i);
    var s3 := PollAll(s1, len, answer);
    var p4 := Poll(true, 0, Nth(j));
    PollReadsAck(s3, len, 0, j);
    PollOne(s, len, drain, p1);
    PollAllConcat(s, len, drain + [p1], answer);
    PollOne(s, len, drain + [p1] + answer, p4);
    ps := drain + [p1] + answer + [p4];
    assert PollStep(s3, len, p4) == PollFirst(s3, len, 0, Nth(j)) by { PollStepFirst(s3, len, p4); }
  }

  lemma {:induction false} PollStepFirst(s: Sys, len: nat, p: Poll)
    requires Runnable(s) && p.first
    ensures PollStep(s, len, p) == PollFirst(s, len, p.now, p.take)
  {
  }

  lemma {:induction false} HasRoom(s: Sys)
    requires Inv(s) && Stuck(s.b)
    ensures |s.b.kcb.rcv.queue| < s.b.kcb.cfg.rcvWnd
  {
    hide Link, PeerOk;
    StuckHasRoom(s.a, s.b);
  }

  // ----- a closed window opens

  predicate NoPush(d: seq<Seg>) {
    forall j :: 0 <= j < |d| ==> !d[j].cmd.Push?
  }

  /** The control block waits in front of a closed window. */
  predicate Shut(k: Kcb) {
    k.snd.buf == [] && k.prb.rmtWnd == 0
  }

  /** Its flush sends no data; it starts the probe timer, and asks when that has expired. */
  lemma {:induction false} ShutFlush(k: Kcb)
    requires KcbOk(Exact, k) && k.clk.updated && Shut(k)
    ensures var k' := Flush(Exact, k);
      k'.snd == k.snd && k'.prb.rmtWnd == 0 && k'.prb.wait != 0
    ensures NoPush(Emitted(Exact, k))
    ensures k.prb.wait != 0 && TimeDiff(k.clk.current, k.prb.ts) >= 0 ==> AskIn(Emitted(Exact, k))
  {
    var wnd, p := Unused(k.cfg.rcvWnd, k.rcv), ProbeTick(k.prb, k.clk.current);
    assert Window(k) == 0;
    assert Filled(Exact, k) == k.snd;
    hide KcbOk, Fill, Filled, Window, TimeDiff;
    assert DataSegs(MakeCtx(k), wnd, k.rcv.nxt, []) == [] && TouchAll(MakeCtx(k), []) == [];
    var n := |AckSegs(wnd, k.rcv.nxt, k.rcv.acks)|;
    if k.prb.wait != 0 && TimeDiff(k.clk.current, k.prb.ts) >= 0 {
      assert Emitted(Exact, k)[n].cmd.Wask?;
    }
  }

  lemma {:induction false} ShutUpdate(p: Peer, now: u32) returns (i: nat)
    requires KcbOk(Exact, p.kcb) && Shut(p.kcb) && Tick(p.kcb.clk, p.kcb.cfg.interval, now).1
    ensures var p' := PeerUpdate(Exact, p, now);
      && p'.kcb.snd == p.kcb.snd && p'.kcb.prb.rmtWnd == 0 && p'.kcb.prb.wait != 0
      && (p.kcb.prb.wait != 0 && TimeDiff(now, p.kcb.prb.ts) >= 0 ==>
            |p.out| <= i < |p'.out| && AskIn(p'.out[i]) && NoPush(p'.out[i]))
  {
    var k := Ticked(p, now);
    hide KcbOk, Tick, TimeDiff, Flush, Emitted, ProbeTick;
    TickedOk(p, now);
    UpdateFlushes(p, now);
    ShutFlush(k);
    i := 0;
    var e: seq<Seg>, ds: seq<seq<Seg>> := Emitted(Exact, k), Datagrams(Exact, k);
    EmittedSizes(Exact, k);
    PackOk(k.cfg.mtu, e);
    if k.prb.wait != 0 && TimeDiff(now, k.prb.ts) >= 0 {
      var n :| 0 <= n < |e| && e[n].cmd.Wask?;
      var d, j := DatagramOf(ds, n);
      assert ds[d][j].cmd.Wask?;
      QuietDatagram(ds, d);
      i := |p.out| + d;
    }
  }

  lemma {:induction false} QuietDatagram(ds: seq<seq<Seg>>, i: nat)
    requires i < |ds| && NoPush(Flat(ds))
    ensures NoPush(ds[i])
  {
    forall j | 0 <= j < |ds[i]| ensures !ds[i][j].cmd.Push? {
      var k := FlatMembers(ds, i, j);
    }
  }

  lemma {:induction false} ProcessAllTell(st: Inner, d: seq<Seg>)
    requires st.kcb.prb.askTell || AskIn(d)
    ensures ProcessAll(Exact, st, d).kcb.prb.askTell
    decreases |d|
  {
    if d != [] {
      if !Process(Exact, st, d[0]).kcb.prb.askTell {
        var j :| 0 <= j < |d| && d[j].cmd.Wask?;
        assert d[1..][j - 1].cmd.Wask?;
      }
      ProcessAllTell(Process(Exact, st, d[0]), d[1..]);
    }
  }

  /** Reading a probe: nothing is received, and the window is to be told. */
  lemma {:induction false} InputAsk(k: Kcb, d: seq<Seg>)
    requires k.cfg.mss > 0 && AskIn(d) && NoPush(d)
    ensures var k' := Input(Exact, k, Parsed(d, 0)); k'.rcv == k.rcv && k'.prb.askTell && k'.cfg == k.cfg
  {
    InputRcv(k, d);
    RcvAfterSignals(k.cfg.rcvWnd, k.rcv, d);
    ProcessAllTell(Inner(k, NO_ACK), d);
    ProcessAllCfg(Exact, Inner(k, NO_ACK), d);
  }

  lemma {:induction false} StuckRecv(p: Peer, len: nat)
    requires Stuck(p)
    ensures PeerRecv(Exact, p, len) == p
  {
  }

  /** A drained endpoint that reads a probe. */
  lemma {:induction false} PollReadsAsk(s: Sys, len: nat, now: u32, i: nat)
    requires Inv(s) && Runnable(s) && i < |s.b.out| && AskIn(s.b.out[i]) && NoPush(s.b.out[i]) && Stuck(s.a)
    ensures var p := PollFirst(s, len, now, Nth(i)).a; Stuck(p) && p.kcb.prb.askTell
  {
    hide Inv, PeerUpdate, AskIn, NoPush, Input;
    var s1 := Act(Exact, s, EvUpdate(now));
    ActForward(s, EvUpdate(now));
    UpdateKeepsRcv(s.a, now);
    InputAsk(s1.a.kcb, s.b.out[i]);
    StuckRecv(Deliver(Exact, s1, i).a, len);
  }

  /** Every segment of a flush carries the window. */
  lemma {:induction false} EmittedWindow(k: Kcb)
    ensures forall i :: 0 <= i < |Emitted(Exact, k)| ==> Emitted(Exact, k)[i].wnd == Unused(k.cfg.rcvWnd, k.rcv)
    ensures k.clk.updated && k.prb.askTell ==> Emitted(Exact, k) != []
  {
    hide Filled, Touch, Decide;
    if k.clk.updated {
      DataSegsWindow(MakeCtx(k), Unused(k.cfg.rcvWnd, k.rcv), k.rcv.nxt, Filled(Exact, k).buf);
    }
  }

  lemma {:induction false} DataSegsWindow(c: Ctx, wnd: nat, una: nat, buf: seq<Flight>)
    ensures forall i :: 0 <= i < |DataSegs(c, wnd, una, buf)| ==> DataSegs(c, wnd, una, buf)[i].wnd == wnd
  {
    hide Touch, Decide;
    if buf != [] { DataSegsWindow(c, wnd, una, buf[..|buf| - 1]); }
  }

  predicate Tells(d: seq<Seg>, wnd: nat) {
    d != [] && forall j :: 0 <= j < |d| ==> d[j].wnd == wnd
  }

  lemma {:induction false} TellsWindow(p: Peer, now: u32)
    requires KcbOk(Exact, p.kcb) && p.kcb.prb.askTell && Tick(p.kcb.clk, p.kcb.cfg.interval, now).1
    ensures var out, i := PeerUpdate(Exact, p, now).out, |p.out|;
      i < |out| && Tells(out[i], Unused(p.kcb.cfg.rcvWnd, p.kcb.rcv))
  {
    var k := Ticked(p, now);
    hide KcbOk, Tick, Flush, Emitted, PeerUpdate;
    TickedOk(p, now);
    UpdateFlushes(p, now);
    EmittedWindow(k);
    EmittedSizes(Exact, k);
    var e: seq<Seg>, ds: seq<seq<Seg>> := Emitted(Exact, k), Datagrams(Exact, k);
    PackOk(k.cfg.mtu, e);
    assert ds != [];
    forall j | 0 <= j < |ds[0]| ensures ds[0][j].wnd == Unused(k.cfg.rcvWnd, k.rcv) {
      var n := FlatMembers(ds, 0, j);
    }
  }

  lemma {:induction false} PollTells(s: Sys, len: nat, now: u32)
    requires Inv(s) && Runnable(s) && s.a.kcb.prb.askTell && Tick(s.a.kcb.clk, s.a.kcb.cfg.interval, now).1
    ensures var out, i := PollFirst(s, len, now, NoDatagram).a.out, |s.a.out|;
      i < |out| && Tells(out[i], Unused(s.a.kcb.cfg.rcvWnd, s.a.kcb.rcv))
  {
    hide Inv, PeerUpdate, PeerRecv, PollFirst, Tick, KcbOk, Runnable, Tells;
    InvOk(s);
    QuietPoll(s, len, now);
    TellsWindow(s.a, now);
    RecvKeepsSnd(PeerUpdate(Exact, s.a, now), len);
  }

  lemma {:induction false} ProcessAllWindow(st: Inner, d: seq<Seg>, wnd: nat)
    requires Tells(d, wnd)
    ensures ProcessAll(Exact, st, d).kcb.prb.rmtWnd == wnd
    decreases |d|
  {
    var st' := Process(Exact, st, d[0]);
    assert st'.kcb.prb.rmtWnd == wnd;
    hide Process;
    if |d| > 1 { ProcessAllWindow(st', d[1..], wnd); }
  }

  /** Reading the window opens it. */
  lemma {:induction false} PollReadsWindow(s: Sys, len: nat, now: u32, i: nat, wnd: nat)
    requires Inv(s) && Runnable(s) && i < |s.b.out| && Tells(s.b.out[i], wnd)
    ensures PollFirst(s, len, now, Nth(i)).a.kcb.prb.rmtWnd == wnd
  {
    hide Inv, PeerUpdate, PeerRecv, Tells, ProcessAll;
    var s1 := Act(Exact, s, EvUpdate(now));
    ActForward(s, EvUpdate(now));
    ProcessAllWindow(Inner(s1.a.kcb, NO_ACK), s.b.out[i], wnd);
    ProcessAllCfg(Exact, Inner(s1.a.kcb, NO_ACK), s.b.out[i]);
    RecvKeepsSnd(Deliver(Exact, s1, i).a, len);
  }

  /** Polls behind polls. */
  lemma {:induction false} Chain(s: Sys, len: nat, ps: seq<Poll>, p: Poll)
    requires Inv(s) && Runnable(s) && Inv(PollAll(s, len, ps))
    ensures var s1, s2 := PollAll(s, len, ps), PollAll(s, len, ps + [p]);
      && s2 == PollStep(s1, len, p) && Inv(s2)
      && (if p.first then s2.b == s1.b && Forward(s1.a, s2.a) else s2.a == s1.a && Forward(s1.b, s2.b))
  {
    hide Inv, PollStep, PollAll, Forward, Runnable;
    PollOne(s, len, ps, p);
    PollKeeps(PollAll(s, len, ps), len, p);
  }

  /** The first endpoint, shut, starts its probe timer and asks. */
  lemma {:induction false} Asks(s: Sys, len: nat) returns (ps: seq<Poll>, i: nat)
    requires Inv(s) && Runnable(s) && Shut(s.a.kcb)
    ensures var s' := PollAll(s, len, ps);
      && Inv(s') && s'.b == s.b && s'.a.kcb.snd == s.a.kcb.snd && s'.a.kcb.prb.rmtWnd == 0
      && i < |s'.a.out| && AskIn(s'.a.out[i]) && NoPush(s'.a.out[i])
  {
    hide Inv, KcbOk, Runnable, PeerUpdate, PeerRecv, PollFirst, PollStep, PollAll, Tick, AskIn, NoPush, Forward;
    InvOk(s);
    IntervalOk(s);
    var t := DueTime(s.a.kcb.clk, s.a.kcb.cfg.interval, 0);
    var p1 := Poll(true, t, NoDatagram);
    var _ := ShutUpdate(s.a, t);
    QuietPoll(s, len, t);
    RecvKeepsSnd(PeerUpdate(Exact, s.a, t), len);
    PollStepFirst(s, len, p1);
    NoPolls(s, len);
    Chain(s, len, [], p1);
    assert [] + [p1] == [p1];
    var s1 := PollAll(s, len, [p1]);
    InvOk(s1);
    IntervalOk(s1);
    var u := DueTime(s1.a.kcb.clk, s1.a.kcb.cfg.interval, s1.a.kcb.prb.ts);
    var p2 := Poll(true, u, NoDatagram);
    i := ShutUpdate(s1.a, u);
    QuietPoll(s1, len, u);
    RecvKeepsSnd(PeerUpdate(Exact, s1.a, u), len);
    PollStepFirst(s1, len, p2);
    Chain(s, len, [p1], p2);
    ps := [p1] + [p2];
  }

  lemma {:induction false} NoPolls(s: Sys, len: nat)
    requires Runnable(s)
    ensures PollAll(s, len, []) == s
  {
  }

  /** The drained second endpoint is asked and tells its window. */
  lemma {:induction false} Answers(s: Sys, len: nat, i: nat) returns (ps: seq<Poll>, j: nat, wnd: nat)
    requires Inv(s) && Runnable(s) && i < |s.a.out| && AskIn(s.a.out[i]) && NoPush(s.a.out[i]) && Stuck(s.b)
    ensures var s' := PollAll(s, len, ps);
      Inv(s') && s'.a == s.a && j < |s'.b.out| && Tells(s'.b.out[j], wnd) && wnd > 0
  {
    hide Inv, Runnable, AskIn, NoPush, PollFirst, Tick, Tells, Stuck, PollAll, Forward;
    var p3 := Poll(false, 0, Nth(i));
    SwapKeeps(s);
    InvRunnable(Swap(s));
    PollReadsAsk(Swap(s), len, 0, i);
    NoPolls(s, len);
    Chain(s, len, [], p3);
    assert [] + [p3] == [p3];
    var s1 := PollAll(s, len, [p3]);
    IntervalOk(s1);
    HasRoom(s1);
    wnd := Unused(s1.b.kcb.cfg.rcvWnd, s1.b.kcb.rcv);
    var u := DueTime(s1.b.kcb.clk, s1.b.kcb.cfg.interval, 0);
    var p4 := Poll(false, u, NoDatagram);
    SwapKeeps(s1);
    InvRunnable(Swap(s1));
    PollTells(Swap(s1), len, u);
    Chain(s, len, [p3], p4);
    ps, j := [p3] + [p4], |s1.b.out|;
  }

  /** A closed window opens: drain the peer, ask, be told. */
  lemma {:induction false} OpensWindow(s: Sys, len: nat) returns (ps: seq<Poll>)
    requires Inv(s) && Runnable(s) && Shut(s.a.kcb) && RoomFor(s.a, len)
    ensures PollAll(s, len, ps).a.kcb.prb.rmtWnd > 0
  {
    hide Inv, Runnable, PollAll, PollStep, PollFirst, RoomFor, Stuck, AskIn, NoPush, Tells;
    var drain := DrainSecond(s, len);
    var s0 := PollAll(s, len, drain);
    PollAllForward(s, len, drain);
    var ask, i := Asks(s0, len);
    var s1 := PollAll(s0, len, ask);
    var answer, j, wnd := Answers(s1, len, i);
    var s2 := PollAll(s1, len, answer);
    var p := Poll(true, 0, Nth(j));
    PollReadsWindow(s2, len, 0, j, wnd);
    PollStepFirst(s2, len, p);
    PollAllConcat(s, len, drain, ask);
    PollAllConcat(s, len, drain + ask, answer);
    PollOne(s, len, drain + ask + answer, p);
    ps := drain + ask + answer + [p];
  }

  // ----- the window fills

  lemma {:induction false} OpenFlush(k: Kcb)
    requires KcbOk(Exact, k) && k.clk.updated && k.snd.buf == [] && k.snd.queue != [] && k.prb.rmtWnd > 0
    ensures var k' := Flush(Exact, k);
      && k'.prb.rmtWnd == k.prb.rmtWnd && k'.cc.cwnd >= 1 && k'.cfg == k.cfg
      && (k'.snd.buf != [] || (k'.snd == k.snd && !k.cfg.nocwnd && k.cc.cwnd == 0))
  {
    FlushedCwnd(Exact, k);
    if Window(k) > 0 {
      var s1 := Numbered(Exact, k.snd, k.clk.current, k.rtt.rto);
      FillPrefix(s1, Window(k), k.clk.current, k.rtt.rto);
      assert Filled(Exact, k).buf != [];
    } else {
      assert Filled(Exact, k) == k.snd;
    }
    hide KcbOk, Fill, Filled, Touch, Congestion.AfterFlush;
  }

  lemma {:induction false} OpenUpdate(p: Peer, now: u32)
    requires KcbOk(Exact, p.kcb) && Tick(p.kcb.clk, p.kcb.cfg.interval, now).1
    requires p.kcb.snd.buf == [] && p.kcb.snd.queue != [] && p.kcb.prb.rmtWnd > 0
    ensures var k' := PeerUpdate(Exact, p, now).kcb;
      && k'.prb.rmtWnd == p.kcb.prb.rmtWnd && k'.cc.cwnd >= 1 && k'.cfg == p.kcb.cfg
      && (k'.snd.buf != [] || (k'.snd == p.kcb.snd && !p.kcb.cfg.nocwnd && p.kcb.cc.cwnd == 0))
  {
    hide KcbOk, Tick, Flush;
    TickedOk(p, now);
    UpdateFlushes(p, now);
    OpenFlush(Ticked(p, now));
  }

  /** With an open window the first endpoint gets a segment in flight, the second time at the latest. */
  lemma {:induction false} FillsWindow(s: Sys, len: nat) returns (ps: seq<Poll>)
    requires Inv(s) && Runnable(s) && s.a.kcb.snd.buf == [] && s.a.kcb.snd.queue != [] && s.a.kcb.prb.rmtWnd > 0
    ensures PollAll(s, len, ps).a.kcb.snd.buf != []
  {
    hide Inv, KcbOk, Runnable, PeerUpdate, PeerRecv, PollFirst, PollStep, PollAll, Tick, Forward;
    InvOk(s);
    IntervalOk(s);
    var t := DueTime(s.a.kcb.clk, s.a.kcb.cfg.interval, 0);
    var p1 := Poll(true, t, NoDatagram);
    OpenUpdate(s.a, t);
    QuietPoll(s, len, t);
    RecvKeepsSnd(PeerUpdate(Exact, s.a, t), len);
    PollStepFirst(s, len, p1);
    NoPolls(s, len);
    Chain(s, len, [], p1);
    assert [] + [p1] == [p1];
    var s1 := PollAll(s, len, [p1]);
    if s1.a.kcb.snd.buf != [] {
      ps := [p1];
    } else {
      InvOk(s1);
      IntervalOk(s1);
      var u := DueTime(s1.a.kcb.clk, s1.a.kcb.cfg.interval, 0);
      var p2 := Poll(true, u, NoDatagram);
      OpenUpdate(s1.a, u);
      QuietPoll(s1, len, u);
      RecvKeepsSnd(PeerUpdate(Exact, s1.a, u), len);
      PollStepFirst(s1, len, p2);
      Chain(s, len, [p1], p2);
      ps := [p1] + [p2];
    }
  }

  // ----- never stuck

  lemma {:induction false} LeftMeans(s: Sys)
    requires Inv(s)
    ensures Left(s.a) >= 0 && (Left(s.a) == 0 <==> s.a.kcb.snd.buf == [] && s.a.kcb.snd.queue == [])
  {
    if s.a.kcb.snd.buf != [] { HeadInFlight(s); }
  }

  lemma {:induction false} RoomStays(p: Peer, p': Peer, len: nat)
    requires RoomFor(p, len) && Forward(p, p')
    ensures RoomFor(p', len)
  {
  }

  /** From every state with something unacknowledged, some polls get more of it acknowledged. */
  lemma {:induction false} Advance(s: Sys, len: nat) returns (ps: seq<Poll>)
    requires Inv(s) && Runnable(s) && Left(s.a) > 0 && RoomFor(s.a, len)
    ensures PollAll(s, len, ps).a.kcb.snd.una > s.a.kcb.snd.una
  {
    hide Inv, Runnable, PollAll, RoomFor;
    var open, fill, round := [], [], [];
    if Shut(s.a.kcb) { open := OpensWindow(s, len); } else { NoPolls(s, len); }
    PollAllForward(s, len, open);
    var s1 := PollAll(s, len, open);
    LeftMeans(s1);
    if s1.a.kcb.snd.una > s.a.kcb.snd.una { return open; }
    if s1.a.kcb.snd.buf == [] {
      fill := FillsWindow(s1, len);
    } else {
      NoPolls(s1, len);
    }
    PollAllForward(s1, len, fill);
    var s2 := PollAll(s1, len, fill);
    RoomStays(s.a, s1.a, len);
    RoomStays(s1.a, s2.a, len);
    round := HeadRound(s2, len);
    PollAllConcat(s, len, open, fill);
    PollAllConcat(s, len, open + fill, round);
    ps := open + fill + round;
  }

  /** From every state, some polls get everything across: nothing waits at the first endpoint, and nothing more can be
      taken at the second. */
  lemma {:induction false} GetsAcross(s: Sys, len: nat) returns (ps: seq<Poll>)
    requires Inv(s) && Runnable(s) && RoomFor(s.a, len)
    ensures var s' := PollAll(s, len, ps); WaitSnd(s'.a.kcb) == 0 && Stuck(s'.b)
    decreases Left(s.a)
  {
    hide Inv, Runnable, PollAll, RoomFor, Stuck;
    LeftMeans(s);
    if Left(s.a) == 0 {
      ps := DrainSecond(s, len);
    } else {
      var more := Advance(s, len);
      PollAllForward(s, len, more);
      var s1 := PollAll(s, len, more);
      RoomStays(s.a, s1.a, len);
      LeftMeans(s1);
      var rest := GetsAcross(s1, len);
      PollAllConcat(s, len, more, rest);
      ps := more + rest;
    }
  }
}
