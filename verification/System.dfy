/** Two endpoints and the network between them.

    The network is the list of all datagrams an endpoint ever emitted.  A run is a list of events; a delivery names
    any datagram of the list, so loss is never naming one, duplication is naming it twice, and reordering is naming
    them in any order.  There is no corruption. */
module System {
  import opened Serial
  import opened Types
  import opened Wire
  import Endpoint
  import Receive

  /** An endpoint with its history: the datagrams it emitted, its fragments by sequence number, the messages its
      application got accepted, and the messages its application received. */
  datatype Peer = Peer(kcb: Kcb, out: seq<seq<Seg>>, hist: seq<Frag>, accepted: seq<bytes>, got: seq<bytes>)

  datatype Sys = Sys(a: Peer, b: Peer)

  datatype Event = EvSend(msg: bytes) | EvRecv(len: int) | EvUpdate(current: u32) | EvFlush | EvDeliver(n: nat)

  /** Who acts: the first endpoint or the second. */
  datatype Move = ByA(ev: Event) | ByB(ev: Event)

  function Swap(s: Sys): Sys {
    Sys(s.b, s.a)
  }

  /** A segment list as its reader sees it: bytes on the wire under 32-bit arithmetic. */
  function Carried(m: Arith, conv: u32, d: seq<Seg>): Parsed {
    if m.Wrap? then Parse(conv, EncodeAll(conv, d)) else Parsed(d, 0)
  }

  function PeerSend(p: Peer, msg: bytes): Peer
    requires p.kcb.cfg.mss > 0
  {
    var (k, code) := Endpoint.Send(p.kcb, msg);
    p.(kcb := k, accepted := if code < 0 then p.accepted else p.accepted + [msg[..code]])
  }

  function PeerRecv(m: Arith, p: Peer, len: int): Peer {
    var r := Receive.Recv(m, p.kcb.cfg.rcvWnd, p.kcb.rcv, len);
    p.(kcb := Endpoint.Received(m, p.kcb, len),
       got := if r.code >= 0 && len >= 0 then p.got + [r.data] else p.got)
  }

  /** What a flush took from the queue. */
  function Taken(before: seq<Frag>, after: seq<Frag>): seq<Frag> {
    if |after| <= |before| then before[..|before| - |after|] else []
  }

  function PeerFlush(m: Arith, p: Peer): Peer {
    var k := Endpoint.Flush(m, p.kcb);
    Peer(k, p.out + Endpoint.Datagrams(m, p.kcb), p.hist + Taken(p.kcb.snd.queue, k.snd.queue), p.accepted, p.got)
  }

  function PeerUpdate(m: Arith, p: Peer, current: u32): Peer {
    var (clk, due) := Endpoint.Tick(p.kcb.clk, p.kcb.cfg.interval, current);
    var p1 := p.(kcb := p.kcb.(clk := clk));
    if due then PeerFlush(m, p1) else p1
  }

  function PeerInput(m: Arith, p: Peer, conv: u32, d: seq<Seg>): Peer
    requires p.kcb.cfg.mss > 0
  {
    p.(kcb := Endpoint.Input(m, p.kcb, Carried(m, conv, d)))
  }

  predicate Runnable(s: Sys) {
    CfgOk(s.a.kcb.cfg) && CfgOk(s.b.kcb.cfg) && s.a.kcb.cfg.conv == s.b.kcb.cfg.conv
  }

  /** The first endpoint reads the n-th datagram of the second. */
  function Deliver(m: Arith, s: Sys, n: nat): (s': Sys)
    requires Runnable(s) && n < |s.b.out|
    ensures Runnable(s') && s'.b == s.b
  {
    var conv := s.a.kcb.cfg.conv;
    Endpoint.ProcessAllCfg(m, Endpoint.Inner(s.a.kcb, Endpoint.NO_ACK), Carried(m, conv, s.b.out[n]).segs);
    s.(a := PeerInput(m, s.a, conv, s.b.out[n]))
  }

  /** The first endpoint flushes. */
  function FlushFirst(m: Arith, s: Sys): (s': Sys)
    requires Runnable(s)
    ensures Runnable(s') && s'.b == s.b
  {
    s.(a := PeerFlush(m, s.a))
  }

  /** The first endpoint acts. */
  function Act(m: Arith, s: Sys, e: Event): (s': Sys)
    requires Runnable(s)
    ensures Runnable(s')
  {
    match e
    case EvSend(msg) => s.(a := PeerSend(s.a, msg))
    case EvRecv(len) => s.(a := PeerRecv(m, s.a, len))
    case EvUpdate(t) => s.(a := PeerUpdate(m, s.a, t))
    case EvFlush => FlushFirst(m, s)
    case EvDeliver(n) => if n >= |s.b.out| then s else Deliver(m, s, n)
  }

  function Step(m: Arith, s: Sys, v: Move): (s': Sys)
    requires Runnable(s)
    ensures Runnable(s')
  {
    match v
    case ByA(e) => Act(m, s, e)
    case ByB(e) => Swap(Act(m, Swap(s), e))
  }

  function Start(ca: Cfg, cb: Cfg): Sys {
    Sys(Peer(Create(ca), [], [], [], []), Peer(Create(cb), [], [], [], []))
  }

  function Run(m: Arith, ca: Cfg, cb: Cfg, moves: seq<Move>): (s: Sys)
    requires CfgOk(ca) && CfgOk(cb) && ca.conv == cb.conv
    ensures Runnable(s)
  {
    if moves == [] then Start(ca, cb)
    else Step(m, Run(m, ca, cb, moves[..|moves| - 1]), moves[|moves| - 1])
  }

  predicate ValidPair(ca: Cfg, cb: Cfg) {
    CfgOk(ca) && CfgOk(cb) && ca.conv == cb.conv
  }

  // ----- runs behind runs

  /** Further events from a state. */
  function After(m: Arith, s: Sys, moves: seq<Move>): (s': Sys)
    requires Runnable(s)
    ensures Runnable(s')
    decreases |moves|
  {
    if moves == [] then s else After(m, Step(m, s, moves[0]), moves[1..])
  }

  lemma {:induction false} OneMove(m: Arith, s: Sys, v: Move)
    requires Runnable(s)
    ensures After(m, s, [v]) == Step(m, s, v)
  {
    assert [v][1..] == [];
  }

  lemma {:induction false} AfterSnoc(m: Arith, s: Sys, moves: seq<Move>, v: Move)
    requires Runnable(s)
    ensures After(m, s, moves + [v]) == Step(m, After(m, s, moves), v)
    decreases |moves|
  {
    hide Step, Runnable;
    if moves == [] {
      assert [] + [v] == [v];
    } else {
      assert (moves + [v])[1..] == moves[1..] + [v];
      AfterSnoc(m, Step(m, s, moves[0]), moves[1..], v);
    }
  }

  lemma {:induction false} RunConcat(m: Arith, ca: Cfg, cb: Cfg, moves: seq<Move>, more: seq<Move>)
    requires ValidPair(ca, cb)
    ensures Run(m, ca, cb, moves + more) == After(m, Run(m, ca, cb, moves), more)
    decreases |more|
  {
    hide Step;
    if more == [] {
      assert moves + more == moves;
    } else {
      var n := |more| - 1;
      RunConcat(m, ca, cb, moves, more[..n]);
      assert (moves + more)[..|moves + more| - 1] == moves + more[..n];
      AfterSnoc(m, Run(m, ca, cb, moves), more[..n], more[n]);
      assert more[..n] + [more[n]] == more;
    }
  }

  lemma {:induction false} AfterConcat(m: Arith, s: Sys, a: seq<Move>, b: seq<Move>)
    requires Runnable(s)
    ensures After(m, s, a + b) == After(m, After(m, s, a), b)
    decreases |a|
  {
    hide Step, Runnable;
    if a == [] {
      assert a + b == b;
    } else {
      assert (a + b)[1..] == a[1..] + b;
      AfterConcat(m, Step(m, s, a[0]), a[1..], b);
    }
  }

  // ----- the two sides

  function Mirror(moves: seq<Move>): (r: seq<Move>)
    ensures |r| == |moves|
    ensures forall i :: 0 <= i < |moves| ==> r[i] == if moves[i].ByA? then ByB(moves[i].ev) else ByA(moves[i].ev)
  {
    seq(|moves|, i requires 0 <= i < |moves| => if moves[i].ByA? then ByB(moves[i].ev) else ByA(moves[i].ev))
  }

  lemma {:induction false} AfterMirror(m: Arith, s: Sys, moves: seq<Move>)
    requires Runnable(s)
    ensures After(m, Swap(s), Mirror(moves)) == Swap(After(m, s, moves))
    decreases |moves|
  {
    hide Act;
    if moves != [] {
      assert Mirror(moves)[1..] == Mirror(moves[1..]);
      AfterMirror(m, Step(m, s, moves[0]), moves[1..]);
    }
  }

  /** The sides can be exchanged: what is proved of the first endpoint of every run holds of the second. */
  lemma {:induction false} RunMirror(m: Arith, ca: Cfg, cb: Cfg, moves: seq<Move>)
    requires ValidPair(ca, cb)
    ensures Run(m, cb, ca, Mirror(moves)) == Swap(Run(m, ca, cb, moves))
  {
    hide Act;
    if moves != [] {
      assert Mirror(moves)[..|moves| - 1] == Mirror(moves[..|moves| - 1]);
      RunMirror(m, ca, cb, moves[..|moves| - 1]);
    }
  }
}
