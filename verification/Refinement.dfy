/** The 32-bit system refines the unbounded one: as long as every delivered datagram is fresh, a run of the program
    is the 32-bit image of the run over unbounded numbers, across any number of wrap-arounds. */
module Refinement {
  import opened Serial
  import opened Types
  import opened Wire
  import opened Messages
  import opened Receive
  import opened Transmit
  import opened Endpoint
  import opened System
  import opened Truth
  import opened Safety
  import opened Image

  function ImgPeer(p: Peer): Peer {
    p.(kcb := ImgKcb(p.kcb), out := ImgOut(p.out))
  }

  function ImgSys(s: Sys): Sys {
    Sys(ImgPeer(s.a), ImgPeer(s.b))
  }

  /** A segment not older than half the number space: una and acknowledged numbers against snd_nxt of the reader,
      data against the far edge of the window the reader can reach without consuming anything. */
  predicate FreshSeg(k: Kcb, q: Seg) {
    && k.snd.nxt - q.una <= HALF
    && (q.cmd.Ack? ==> k.snd.nxt - q.sn <= HALF)
    && (q.cmd.Push? ==> k.rcv.nxt - |k.rcv.queue| + 2 * k.cfg.rcvWnd - q.sn <= HALF)
  }

  ghost predicate Fresh(k: Kcb, d: seq<Seg>) {
    forall j :: 0 <= j < |d| ==> FreshSeg(k, d[j])
  }

  ghost predicate FreshEvent(s: Sys, e: Event) {
    e.EvDeliver? && e.n < |s.b.out| ==> Fresh(s.a.kcb, s.b.out[e.n])
  }

  ghost predicate FreshMove(s: Sys, v: Move) {
    match v
    case ByA(e) => FreshEvent(s, e)
    case ByB(e) => FreshEvent(Swap(s), e)
  }

  /** The sender is never further ahead of the receiver than one window on each side. */
  lemma {:induction false} SenderAhead(tx: Peer, rx: Peer)
    requires PeerOk(tx) && PeerOk(rx) && Link(tx, rx)
    ensures tx.kcb.snd.nxt <= rx.kcb.rcv.nxt + rx.kcb.cfg.rcvWnd + 65535
  {
    var s, r := tx.kcb.snd, rx.kcb.rcv;
    if s.una > 0 {
      var n: nat := s.una - 1;
      assert !HasFlight(s.buf, n);
      if Has(r.buf, n) {
        var i :| 0 <= i < |r.buf| && r.buf[i].sn == n;
        assert Off(Exact, r.buf[i].sn, r.nxt) < rx.kcb.cfg.rcvWnd;
      }
    }
  }

  // ----- one datagram

  /** The reader in the middle of a datagram. */
  ghost predicate Reading(st: Inner, x: Peer, y: Peer) {
    && KcbOk(Exact, st.kcb) && ReadLink(st.kcb.snd, st.kcb.rcv, x, y)
    && st.kcb.cfg == x.kcb.cfg && x.kcb.snd.una <= st.kcb.snd.una
    && (st.best.flag ==> x.kcb.snd.nxt - HALF <= st.best.maxack < x.kcb.snd.nxt)
  }

  lemma {:induction false} NearFlights(s: Snd, sn: nat)
    requires SndOk(Exact, s) && s.nxt - HALF <= sn <= s.nxt
    ensures NearAll(sn, s.buf) && Near(sn, s.una) && Near(sn, s.nxt)
  {
    forall i | 0 <= i < |s.buf| ensures Near(sn, s.buf[i].sn) {
      assert 0 <= Off(Exact, s.buf[i].sn, s.una) < Off(Exact, s.nxt, s.una);
    }
  }

  lemma {:induction false} FreshIsNear(st: Inner, q: Seg, x: Peer, y: Peer)
    requires Reading(st, x, y) && PeerOk(x) && PeerOk(y) && Link(y, x) && Link(x, y)
    requires PushTrue(q, y.hist) && ReplyTrue(q, y.kcb.rcv, |x.hist|) && Readable(Exact, q) && FreshSeg(x.kcb, q)
    ensures NearState(st.kcb, st.best, q)
  {
    var k := st.kcb;
    NearFlights(k.snd, q.una);
    TakeHeaderOk(Exact, k, q);
    if q.cmd.Ack? {
      NearFlights(k.snd, q.sn);
      NearFlights(TakeHeader(Exact, k, q).snd, q.sn);
    }
    if q.cmd.Push? {
      SenderAhead(y, x);
      assert k.rcv.nxt <= x.kcb.rcv.nxt - |x.kcb.rcv.queue| + k.cfg.rcvWnd;
    }
  }

  lemma {:induction false} ReadOne(st: Inner, q: Seg, x: Peer, y: Peer)
    requires Reading(st, x, y) && PeerOk(x) && PeerOk(y) && Link(y, x) && Link(x, y)
    requires PushTrue(q, y.hist) && ReplyTrue(q, y.kcb.rcv, |x.hist|) && Readable(Exact, q) && FreshSeg(x.kcb, q)
    ensures Reading(Process(Exact, st, q), x, y)
    ensures Process(Wrap, ImgInner(st), ImgSeg(q)) == ImgInner(Process(Exact, st, q))
  {
    assert |x.hist| == x.kcb.snd.nxt;
    hide KcbOk, ReadLink, NearState, Link, PeerOk, PushTrue, ReplyTrue;
    assert RcvOk(Exact, st.kcb.cfg.rcvWnd, st.kcb.rcv) by { OkRcv(st.kcb); }
    FreshIsNear(st, q, x, y);
    ProcessImage(st, q);
    ProcessOk(Exact, st, q);
    ProcessKeeps(st, q, x, y);
    ReadAdvance(st, q, x, y);
  }

  lemma {:induction false} OkRcv(k: Kcb)
    requires KcbOk(Exact, k)
    ensures RcvOk(Exact, k.cfg.rcvWnd, k.rcv)
  {
  }

  lemma {:induction false} ReadAdvance(st: Inner, q: Seg, x: Peer, y: Peer)
    requires Reading(st, x, y) && |x.hist| == x.kcb.snd.nxt
    requires ReplyTrue(q, y.kcb.rcv, |x.hist|) && Readable(Exact, q) && FreshSeg(x.kcb, q)
    ensures var st' := Process(Exact, st, q);
      && st'.kcb.cfg == x.kcb.cfg && x.kcb.snd.una <= st'.kcb.snd.una
      && (st'.best.flag ==> x.kcb.snd.nxt - HALF <= st'.best.maxack < x.kcb.snd.nxt)
  {
    TakeHeaderOk(Exact, st.kcb, q);
    var k := TakeHeader(Exact, st.kcb, q);
    if q.cmd.Ack? { TakeAckOk(Exact, k, q); }
  }

  lemma {:induction false} ReadAll(st: Inner, d: seq<Seg>, x: Peer, y: Peer)
    requires Reading(st, x, y) && PeerOk(x) && PeerOk(y) && Link(y, x) && Link(x, y)
    requires AllPushTrue(d, y.hist) && AllReplyTrue(d, y.kcb.rcv, |x.hist|) && Fresh(x.kcb, d)
    requires forall j :: 0 <= j < |d| ==> WellFormed(d[j])
    ensures Reading(ProcessAll(Exact, st, d), x, y)
    ensures ProcessAll(Wrap, ImgInner(st), ImgSegs(d)) == ImgInner(ProcessAll(Exact, st, d))
    decreases |d|
  {
    hide Reading, Process, PeerOk, Link, FreshSeg, PushTrue, ReplyTrue;
    if d != [] {
      assert PushTrue(d[0], y.hist) && ReplyTrue(d[0], y.kcb.rcv, |x.hist|) && FreshSeg(x.kcb, d[0]);
      ReadOne(st, d[0], x, y);
      ReadAll(Process(Exact, st, d[0]), d[1..], x, y);
      assert ImgSegs(d)[1..] == ImgSegs(d[1..]);
    }
  }

  /** The bytes of an emitted datagram, read on the other side, are the image of the datagram. */
  lemma {:induction false} CarriedImage(conv: u32, mtu: nat, d: seq<Seg>)
    requires Fits(mtu, d) && mtu <= 65535 && forall j :: 0 <= j < |d| ==> WellFormed(d[j])
    ensures Carried(Wrap, conv, ImgSegs(d)) == Parsed(ImgSegs(d), 0)
  {
    SizeImage(d);
    forall j | 0 <= j < |d| ensures Encodable(ImgSegs(d)[j]) {
      SizeBounds(d, j);
    }
    ParseDatagram(conv, mtu, ImgSegs(d));
  }

  lemma {:induction false} InputImage(x: Peer, y: Peer, d: seq<Seg>)
    requires PeerOk(x) && PeerOk(y) && Link(y, x) && Link(x, y)
    requires AllPushTrue(d, y.hist) && AllReplyTrue(d, y.kcb.rcv, |x.hist|) && Fresh(x.kcb, d)
    requires forall j :: 0 <= j < |d| ==> WellFormed(d[j])
    ensures Input(Wrap, ImgKcb(x.kcb), Parsed(ImgSegs(d), 0)) == ImgKcb(Input(Exact, x.kcb, Parsed(d, 0)))
  {
    var st := Inner(x.kcb, NO_ACK);
    ReadAll(st, d, x, y);
    var st' := ProcessAll(Exact, st, d);
    if st'.best.flag { NearFlights(st'.kcb.snd, st'.best.maxack); }
    FinishImage(st', x.kcb.snd.una);
  }

  // ----- one event

  lemma {:induction false} PeerFlushImage(p: Peer)
    requires KcbOk(Exact, p.kcb)
    ensures PeerFlush(Wrap, ImgPeer(p)) == ImgPeer(PeerFlush(Exact, p))
  {
    hide Flush, Datagrams, KcbOk;
    FlushImage(p.kcb);
    DatagramsImage(p.kcb);
    assert ImgOut(p.out) + ImgOut(Datagrams(Exact, p.kcb)) == ImgOut(p.out + Datagrams(Exact, p.kcb));
  }

  lemma {:induction false} PeerUpdateImage(p: Peer, t: u32)
    requires KcbOk(Exact, p.kcb)
    ensures PeerUpdate(Wrap, ImgPeer(p), t) == ImgPeer(PeerUpdate(Exact, p, t))
  {
    PeerFlushImage(p.(kcb := p.kcb.(clk := Tick(p.kcb.clk, p.kcb.cfg.interval, t).0)));
  }

  lemma {:induction false} DeliverImage(s: Sys, n: nat)
    requires Inv(s) && n < |s.b.out| && Fresh(s.a.kcb, s.b.out[n])
    ensures PeerInput(Wrap, ImgPeer(s.a), s.a.kcb.cfg.conv, ImgSegs(s.b.out[n]))
         == ImgPeer(PeerInput(Exact, s.a, s.a.kcb.cfg.conv, s.b.out[n]))
  {
    CarriedImage(s.a.kcb.cfg.conv, s.b.kcb.cfg.mtu, s.b.out[n]);
    InputImage(s.a, s.b, s.b.out[n]);
  }

  lemma {:induction false} PeerSendImage(p: Peer, msg: bytes)
    requires p.kcb.cfg.mss > 0
    ensures PeerSend(ImgPeer(p), msg) == ImgPeer(PeerSend(p, msg))
  {
    hide Messages.Send;
  }

  lemma {:induction false} PeerRecvImage(p: Peer, len: int)
    requires RcvOk(Exact, p.kcb.cfg.rcvWnd, p.kcb.rcv)
    ensures PeerRecv(Wrap, ImgPeer(p), len) == ImgPeer(PeerRecv(Exact, p, len))
  {
    hide Recv;
    RecvImage(p.kcb.cfg.rcvWnd, p.kcb.rcv, len);
  }

  lemma {:induction false} InvRcv(s: Sys)
    requires Inv(s)
    ensures KcbOk(Exact, s.a.kcb) && RcvOk(Exact, s.a.kcb.cfg.rcvWnd, s.a.kcb.rcv)
  {
  }

  lemma {:induction false} ActImage(s: Sys, e: Event)
    requires Inv(s) && FreshEvent(s, e)
    ensures Act(Wrap, ImgSys(s), e) == ImgSys(Act(Exact, s, e))
  {
    InvRunnable(s);
    InvRcv(s);
    hide PeerSend, PeerRecv, PeerFlush, PeerUpdate, PeerInput, Inv, Fresh, KcbOk, RcvOk;
    match e
    case EvSend(msg) => PeerSendImage(s.a, msg);
    case EvRecv(len) => PeerRecvImage(s.a, len);
    case EvUpdate(t) => PeerUpdateImage(s.a, t);
    case EvFlush => PeerFlushImage(s.a);
    case EvDeliver(n) => if n < |s.b.out| { DeliverImage(s, n); }
  }

  lemma {:induction false} StepImage(s: Sys, v: Move)
    requires Inv(s) && FreshMove(s, v)
    ensures Step(Wrap, ImgSys(s), v) == ImgSys(Step(Exact, s, v))
  {
    hide Act, Inv, FreshEvent;
    match v
    case ByA(e) => ActImage(s, e);
    case ByB(e) => SwapKeeps(s); ActImage(Swap(s), e);
  }

  // ----- every run

  /** Every datagram delivered in the run was fresh when it was delivered. */
  ghost predicate FreshRun(ca: Cfg, cb: Cfg, moves: seq<Move>)
    requires CfgOk(ca) && CfgOk(cb) && ca.conv == cb.conv
  {
    moves == [] ||
    (FreshRun(ca, cb, moves[..|moves| - 1])
     && FreshMove(Run(Exact, ca, cb, moves[..|moves| - 1]), moves[|moves| - 1]))
  }

  /** Freshness does not depend on which side is called the first. */
  lemma {:induction false} FreshMirror(ca: Cfg, cb: Cfg, moves: seq<Move>)
    requires ValidPair(ca, cb) && FreshRun(ca, cb, moves)
    ensures FreshRun(cb, ca, Mirror(moves))
  {
    hide Step, FreshEvent;
    if moves != [] {
      var front := moves[..|moves| - 1];
      FreshMirror(ca, cb, front);
      RunMirror(Exact, ca, cb, front);
      assert Mirror(moves)[..|moves| - 1] == Mirror(front);
    }
  }

  lemma {:induction false} RunImage(ca: Cfg, cb: Cfg, moves: seq<Move>)
    requires CfgOk(ca) && CfgOk(cb) && ca.conv == cb.conv && FreshRun(ca, cb, moves)
    ensures Run(Wrap, ca, cb, moves) == ImgSys(Run(Exact, ca, cb, moves))
  {
    if moves == [] {
      StartImage(ca, cb);
    } else {
      hide Step, Inv, FreshMove;
      var front := moves[..|moves| - 1];
      RunImage(ca, cb, front);
      RunInv(ca, cb, front);
      StepImage(Run(Exact, ca, cb, front), moves[|moves| - 1]);
    }
  }

  lemma {:induction false} StartImage(ca: Cfg, cb: Cfg)
    ensures ImgSys(Start(ca, cb)) == Start(ca, cb)
  {
    assert ImgBuf([]) == [] && ImgParts([]) == [] && ImgAcks([]) == [] && ImgOut([]) == [];
  }
}
