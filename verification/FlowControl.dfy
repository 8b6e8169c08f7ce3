/** Flow control over whole runs: what two endpoints promise each other with the windows they advertise. */
module FlowControl {
  import opened Serial
  import opened Types
  import opened Wire
  import opened Receive
  import opened Endpoint
  import Messages
  import Transmit
  import Congestion
  import opened FlushLaws
  import opened InputLaws
  import opened System
  import opened Truth
  import opened Safety
  import opened Refinement
  import opened Liveness

  /** No segment ever sent advertises more than the receive window. */
  ghost predicate Modest(out: seq<seq<Seg>>, wnd: nat) {
    forall i, j :: 0 <= i < |out| && 0 <= j < |out[i]| ==> out[i][j].wnd <= wnd
  }

  /** One direction: neither the own window nor the receiver's is exceeded. */
  ghost predicate Paced(tx: Peer, rx: Peer) {
    && tx.kcb.snd.nxt - tx.kcb.snd.una <= Min(tx.kcb.cfg.sndWnd, rx.kcb.cfg.rcvWnd)
    && tx.kcb.prb.rmtWnd <= rx.kcb.cfg.rcvWnd
    && Modest(rx.out, rx.kcb.cfg.rcvWnd)
  }

  /** The sending half of that. */
  predicate Held(k: Kcb, wnd: nat) {
    k.snd.nxt - k.snd.una <= Min(k.cfg.sndWnd, wnd) && k.prb.rmtWnd <= wnd
  }

  lemma {:induction false} FlushHeld(k: Kcb, wnd: nat)
    requires KcbOk(Exact, k) && Held(k, wnd)
    ensures Held(Flush(Exact, k), wnd)
  {
    hide KcbOk, Flush;
    if k.clk.updated {
      FlushWindow(Exact, k);
      var p := FlushProbe(Exact, k);
      FlushSame(Exact, k);
    } else {
      NoFlush(Exact, k);
    }
  }

  lemma {:induction false} FlushModest(k: Kcb)
    requires KcbOk(Exact, k)
    ensures Modest(Datagrams(Exact, k), k.cfg.rcvWnd)
  {
    var segs: seq<Seg>, ds: seq<seq<Seg>> := Emitted(Exact, k), Datagrams(Exact, k);
    EmittedSizes(Exact, k);
    PackOk(k.cfg.mtu, segs);
    if k.clk.updated { FlushSignals(Exact, k); }
    hide KcbOk, Emitted, Pack;
    forall i, j | 0 <= i < |ds| && 0 <= j < |ds[i]| ensures ds[i][j].wnd <= k.cfg.rcvWnd {
      var l := FlatMembers(ds, i, j);
      assert Advertises(k, segs[l]);
    }
  }

  lemma {:induction false} InputHeld(k: Kcb, d: seq<Seg>, wnd: nat)
    requires KcbOk(Exact, k) && Held(k, wnd) && wnd <= 65535 && forall j :: 0 <= j < |d| ==> d[j].wnd <= wnd
    ensures k.cfg.mss > 0 && Held(Input(Exact, k, Parsed(d, 0)), wnd)
  {
    var p := Parsed(d, 0);
    CfgMss(Exact, k);
    ProcessAllMoves(Exact, Inner(k, NO_ACK), d);
    InputWindow(Exact, k, p);
    InputClock(Exact, k, p);
    InputNumbers(k, p);
    hide KcbOk, ProcessAll, Finish, Input;
  }

  lemma {:induction false} InputNumbers(k: Kcb, p: Parsed)
    requires k.cfg.mss > 0
    ensures var s, s' := ProcessAll(Exact, Inner(k, NO_ACK), p.segs).kcb.snd, Input(Exact, k, p).snd;
      s'.nxt == s.nxt && s'.una == s.una
  {
    hide ProcessAll, Transmit.Skip, Transmit.InFlight, Diff, Congestion.OnAck;
  }

  /** What the first endpoint does keeps both directions. */
  lemma {:induction false} ActPaced(s: Sys, e: Event)
    requires Inv(s) && Paced(s.a, s.b) && Paced(s.b, s.a)
    ensures Runnable(s) && Paced(Act(Exact, s, e).a, s.b) && Paced(s.b, Act(Exact, s, e).a)
  {
    InvRunnable(s);
    InvOk(s);
    var k, wnd := s.a.kcb, s.b.kcb.cfg.rcvWnd;
    assert Held(k, wnd);
    hide Inv, KcbOk, Flush, Datagrams, Input, Modest, Receive.Recv, Messages.Send, Tick;
    match e
    case EvSend(_) =>
    case EvRecv(_) =>
    case EvFlush => FlushPaced(s.a, s.b);
    case EvUpdate(t) =>
      var p := s.a.(kcb := k.(clk := Tick(k.clk, k.cfg.interval, t).0));
      AnyClockOk(Exact, k, p.kcb.clk);
      FlushPaced(p, s.b);
    case EvDeliver(n) =>
      if n < |s.b.out| {
        ModestOne(s.b.out, wnd, n);
        RcvWndSmall(s);
        InputHeld(k, s.b.out[n], wnd);
        InputClock(Exact, k, Parsed(s.b.out[n], 0));
      }
  }

  lemma {:induction false} RcvWndSmall(s: Sys)
    requires Runnable(s)
    ensures s.b.kcb.cfg.rcvWnd <= 65535
  {
  }

  lemma {:induction false} ModestOne(out: seq<seq<Seg>>, wnd: nat, n: nat)
    requires Modest(out, wnd) && n < |out|
    ensures forall j :: 0 <= j < |out[n]| ==> out[n][j].wnd <= wnd
  {
  }

  lemma {:induction false} FlushPaced(p: Peer, q: Peer)
    requires KcbOk(Exact, p.kcb) && Paced(p, q) && Paced(q, p)
    ensures var p' := PeerFlush(Exact, p); Paced(p', q) && Paced(q, p')
  {
    hide KcbOk, Flush, Datagrams;
    FlushHeld(p.kcb, q.kcb.cfg.rcvWnd);
    FlushModest(p.kcb);
    FlushSame(Exact, p.kcb);
  }

  lemma {:induction false} StepPaced(s: Sys, v: Move)
    requires Inv(s) && Paced(s.a, s.b) && Paced(s.b, s.a)
    ensures Runnable(s) && var s' := Step(Exact, s, v); Paced(s'.a, s'.b) && Paced(s'.b, s'.a)
  {
    InvRunnable(s);
    hide Inv, Act, Paced;
    match v
    case ByA(e) => ActPaced(s, e); ActOther(s, e);
    case ByB(e) =>
      SwapKeeps(s);
      InvRunnable(Swap(s));
      ActPaced(Swap(s), e);
      ActOther(Swap(s), e);
  }

  lemma {:induction false} ActOther(s: Sys, e: Event)
    requires Runnable(s)
    ensures Act(Exact, s, e).b == s.b
  {
  }

  lemma {:induction false} RunPaced(ca: Cfg, cb: Cfg, moves: seq<Move>)
    requires ValidPair(ca, cb)
    ensures var s := Run(Exact, ca, cb, moves); Paced(s.a, s.b) && Paced(s.b, s.a)
  {
    if moves != [] {
      var front := moves[..|moves| - 1];
      RunPaced(ca, cb, front);
      RunInv(ca, cb, front);
      hide Paced, Inv, Step;
      StepPaced(Run(Exact, ca, cb, front), moves[|moves| - 1]);
    }
  }

  lemma {:induction false} InReach(tx: Peer, rx: Peer)
    requires PeerOk(tx) && PeerOk(rx) && Link(tx, rx) && Paced(tx, rx) && |rx.kcb.rcv.queue| < rx.kcb.cfg.rcvWnd
    ensures rx.kcb.rcv.nxt <= tx.kcb.snd.nxt <= rx.kcb.rcv.nxt + rx.kcb.cfg.rcvWnd
    ensures forall i, j :: 0 <= i < |tx.out| && 0 <= j < |tx.out[i]| && tx.out[i][j].cmd.Push? ==>
      tx.out[i][j].sn < rx.kcb.rcv.nxt + rx.kcb.cfg.rcvWnd
  {
    UnaNotAhead(tx, rx);
    SentBelow(tx, rx);
    hide PeerOk, Link;
  }

  /** Over unbounded numbers: in every run a receiver with room in its queue refuses nothing that was ever sent to it
      for being too far ahead. */
  lemma {:induction false} NothingRefused(ca: Cfg, cb: Cfg, moves: seq<Move>, i: nat, j: nat)
    requires ValidPair(ca, cb)
    requires var tx := Run(Exact, ca, cb, moves).a; i < |tx.out| && j < |tx.out[i]| && tx.out[i][j].cmd.Push?
    requires |Run(Exact, ca, cb, moves).b.kcb.rcv.queue| < cb.rcvWnd
    ensures var s := Run(Exact, ca, cb, moves); s.a.out[i][j].sn < s.b.kcb.rcv.nxt + cb.rcvWnd
  {
    hide Paced, Run, PeerOk, Link;
    RunPaced(ca, cb, moves);
    RunInv(ca, cb, moves);
    RunCfg(ca, cb, moves);
    InReach(Run(Exact, ca, cb, moves).a, Run(Exact, ca, cb, moves).b);
  }

  lemma {:induction false} SentBelow(tx: Peer, rx: Peer)
    requires Link(tx, rx)
    ensures rx.kcb.rcv.nxt <= tx.kcb.snd.nxt
    ensures forall i, j :: 0 <= i < |tx.out| && 0 <= j < |tx.out[i]| && tx.out[i][j].cmd.Push? ==>
      tx.out[i][j].sn < tx.kcb.snd.nxt
  {
    hide NoLoss, FlightsTrue, AllReply, Content, Consumed;
    forall i, j | 0 <= i < |tx.out| && 0 <= j < |tx.out[i]| && tx.out[i][j].cmd.Push?
      ensures tx.out[i][j].sn < tx.kcb.snd.nxt
    {
      assert AllPushTrue(tx.out[i], tx.hist);
      assert PushTrue(tx.out[i][j], tx.hist);
    }
  }

  /** In every state a fresh run of the program reaches, the first endpoint has no more in flight than its own window
      and the receive window of the second; and while that has room in its queue, the numbers that were given out reach
      at most one receive window beyond the next one it expects. */
  lemma {:induction false} FlowControl(ca: Cfg, cb: Cfg, moves: seq<Move>)
    requires ValidPair(ca, cb) && FreshRun(ca, cb, moves)
    ensures var s := Run(Wrap, ca, cb, moves); var tx, rx := s.a.kcb, s.b.kcb;
      && U32(tx.snd.nxt - tx.snd.una) <= Min(ca.sndWnd, cb.rcvWnd)
      && (|rx.rcv.queue| < cb.rcvWnd ==> 0 <= TimeDiff(tx.snd.nxt, rx.rcv.nxt) <= cb.rcvWnd)
  {
    hide Paced, Inv, Run;
    RunPaced(ca, cb, moves);
    RunInv(ca, cb, moves);
    RunImage(ca, cb, moves);
    RunCfg(ca, cb, moves);
    var e := Run(Exact, ca, cb, moves);
    PacedImage(e);
  }

  lemma {:induction false} RunCfg(ca: Cfg, cb: Cfg, moves: seq<Move>)
    requires ValidPair(ca, cb)
    ensures var s := Run(Exact, ca, cb, moves); s.a.kcb.cfg == ca && s.b.kcb.cfg == cb
  {
    if moves != [] {
      RunCfg(ca, cb, moves[..|moves| - 1]);
      var s := Run(Exact, ca, cb, moves[..|moves| - 1]);
      ActCfg(s, moves[|moves| - 1].ev);
      ActCfg(Swap(s), moves[|moves| - 1].ev);
      hide Act;
    }
  }

  lemma {:induction false} ActCfg(s: Sys, e: Event)
    requires Runnable(s)
    ensures Act(Exact, s, e).a.kcb.cfg == s.a.kcb.cfg && Act(Exact, s, e).b == s.b
  {
    if e.EvDeliver? && e.n < |s.b.out| {
      ProcessAllCfg(Exact, Inner(s.a.kcb, NO_ACK), s.b.out[e.n]);
    }
  }

  lemma {:induction false} PacedImage(e: Sys)
    requires Inv(e) && Paced(e.a, e.b)
    ensures var s := ImgSys(e); var tx, rx := s.a.kcb, s.b.kcb;
      && U32(tx.snd.nxt - tx.snd.una) <= Min(e.a.kcb.cfg.sndWnd, e.b.kcb.cfg.rcvWnd)
      && (|rx.rcv.queue| < e.b.kcb.cfg.rcvWnd ==> 0 <= TimeDiff(tx.snd.nxt, rx.rcv.nxt) <= e.b.kcb.cfg.rcvWnd)
  {
    var tx, rx := e.a.kcb, e.b.kcb;
    WindowImage(e);
    ImageDistance(tx.snd.nxt, tx.snd.una);
    if |rx.rcv.queue| < rx.cfg.rcvWnd {
      InReach(e.a, e.b);
      ImageDistance(tx.snd.nxt, rx.rcv.nxt);
    }
    hide Inv, Paced;
  }

  lemma {:induction false} ImageDistance(a: nat, b: nat)
    requires 0 <= a - b <= 65535
    ensures U32(Img(a) - Img(b)) == a - b == TimeDiff(Img(a), Img(b))
  {
    assert a == MOD * (a / MOD) + Img(a);
    assert b == MOD * (b / MOD) + Img(b);
    ModShift(a - b, b / MOD - a / MOD);
  }

  lemma {:induction false} WindowImage(e: Sys)
    requires Inv(e)
    ensures var s := ImgSys(e); var tx, rx := s.a.kcb, s.b.kcb;
      && tx.snd.nxt == Img(e.a.kcb.snd.nxt) && tx.snd.una == Img(e.a.kcb.snd.una)
      && rx.rcv.nxt == Img(e.b.kcb.rcv.nxt) && |rx.rcv.queue| == |e.b.kcb.rcv.queue|
    ensures 0 <= e.a.kcb.snd.nxt - e.a.kcb.snd.una <= 65535 && e.b.kcb.cfg.rcvWnd <= 65535
  {
  }
}
