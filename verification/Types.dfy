/** The data an endpoint works on: IKCPSEG and IKCPCB of ikcp.h, as values.

    IKCPSEG is split by the role it plays.  A queue keeps only the members that are set and read there:
    a fragment waiting to be numbered, a segment in flight, a segment received, a segment on the wire. */
module Types {
  import opened Serial

  newtype byte = x: int | 0 <= x < 256
  type bytes = seq<byte>

  /** Constants of ikcp.c. */
  const RTO_NDL := 30
  const RTO_MIN := 100
  const RTO_DEF := 200
  const RTO_MAX := 60000
  const WND_SND := 32
  const WND_RCV := 128
  const MTU_DEF := 1400
  const INTERVAL := 100
  const OVERHEAD := 24
  const DEADLINK := 20
  const THRESH_INIT := 2
  const THRESH_MIN := 2
  const PROBE_INIT := 7000
  const PROBE_LIMIT := 120000
  const FASTACK_LIMIT := 5

  datatype Cmd = Push | Ack | Wask | Wins

  /** A segment as it travels: the header of ikcp_encode_seg without conv and len, and the payload. */
  datatype Seg = Seg(cmd: Cmd, frg: nat, wnd: nat, ts: u32, sn: nat, una: nat, data: bytes)

  /** A fragment of a message, as it waits in snd_queue. */
  datatype Frag = Frag(frg: nat, data: bytes)

  /** A segment of snd_buf. */
  datatype Flight = Flight(sn: nat, frg: nat, data: bytes, ts: u32, resendts: u32, rto: u32,
                           fastack: u32, xmit: u32)
  {
    function Piece(): Frag {
      Frag(frg, data)
    }
  }

  /** A segment of rcv_buf or rcv_queue. */
  datatype Part = Part(sn: nat, frg: nat, data: bytes) {
    function Piece(): Frag {
      Frag(frg, data)
    }
  }

  /** One entry of acklist. */
  datatype AckItem = AckItem(sn: nat, ts: u32)

  /** What is set before traffic starts. */
  datatype Cfg = Cfg(conv: u32, mtu: nat, mss: nat, sndWnd: nat, rcvWnd: nat, interval: nat,
                     nodelay: nat, minrto: nat, fastresend: int, fastlimit: int, nocwnd: bool,
                     stream: bool, deadLink: nat)

  /** The ranges in which ikcp_create, ikcp_nodelay, ikcp_wndsize and ikcp_setmtu leave these members.  A window
      above 65535 cannot be advertised, and no UDP datagram holds more than 65535 bytes. */
  predicate CfgOk(c: Cfg) {
    && 50 <= c.mtu <= 65535 && c.mss == c.mtu - OVERHEAD
    && 1 <= c.sndWnd < HALF && WND_RCV <= c.rcvWnd <= 65535
    && 10 <= c.interval <= 5000
    && (c.minrto == RTO_NDL || c.minrto == RTO_MIN)
    && c.fastresend < HALF
  }

  /** A fast-resend threshold for which the congestion arithmetic of a flush does not overflow. */
  predicate SmallResend(c: Cfg) {
    c.fastresend <= 32767
  }

  datatype Snd = Snd(una: nat, nxt: nat, queue: seq<Frag>, buf: seq<Flight>)
  datatype Rcv = Rcv(nxt: nat, queue: seq<Part>, buf: seq<Part>, acks: seq<AckItem>)
  datatype Cc = Cc(cwnd: u32, incr: u32, ssthresh: u32)
  datatype Rtt = Rtt(srtt: int, rttval: int, rto: u32)
  datatype Probe = Probe(rmtWnd: nat, askSend: bool, askTell: bool, ts: u32, wait: u32)
  datatype Clock = Clock(current: u32, tsFlush: u32, updated: bool)

  /** IKCPCB. `xmit` counts timeouts, `dead` is state == -1. */
  datatype Kcb = Kcb(cfg: Cfg, snd: Snd, rcv: Rcv, cc: Cc, rtt: Rtt, prb: Probe, clk: Clock,
                     xmit: u32, dead: bool)

  /** ikcp_create. */
  function DefaultCfg(conv: u32): Cfg {
    Cfg(conv, MTU_DEF, MTU_DEF - OVERHEAD, WND_SND, WND_RCV, INTERVAL, 0, RTO_MIN, 0, FASTACK_LIMIT,
        false, false, DEADLINK)
  }

  function Create(cfg: Cfg): Kcb {
    Kcb(cfg, Snd(0, 0, [], []), Rcv(0, [], [], []), Cc(0, 0, THRESH_INIT), Rtt(0, 0, RTO_DEF),
        Probe(WND_RCV, false, false, 0, 0), Clock(0, INTERVAL, false), 0, false)
  }

  function ClampInterval(interval: int): nat {
    if interval > 5000 then 5000 else if interval < 10 then 10 else interval
  }

  /** ikcp_nodelay: a negative argument leaves the member alone. */
  function NoDelay(c: Cfg, nodelay: int, interval: int, resend: int, nc: int): Cfg {
    c.(nodelay := if nodelay < 0 then c.nodelay else nodelay,
       minrto := if nodelay < 0 then c.minrto else if nodelay != 0 then RTO_NDL else RTO_MIN,
       interval := if interval < 0 then c.interval else ClampInterval(interval),
       fastresend := if resend < 0 then c.fastresend else resend,
       nocwnd := if nc < 0 then c.nocwnd else nc != 0)
  }

  /** ikcp_wndsize. */
  function WndSize(c: Cfg, sndwnd: int, rcvwnd: int): Cfg {
    c.(sndWnd := if sndwnd > 0 then sndwnd else c.sndWnd,
       rcvWnd := if rcvwnd > 0 then Max(rcvwnd, WND_RCV) else c.rcvWnd)
  }

  /** kcp_init. */
  function KcpImplCfg(conv: u32): Cfg {
    WndSize(NoDelay(DefaultCfg(conv), 1, 10, 2, 1), 128, 128)
  }

  /** The configuration calls keep the configuration valid; what kcp_init sets up is valid, and is what it asked for. */
  lemma {:induction false} ConfigCallsOk(c: Cfg, a: int, b: int, d: int, e: int)
    requires CfgOk(c)
    ensures d < HALF ==> CfgOk(NoDelay(c, a, b, d, e))
    ensures a < HALF && b <= 65535 ==> CfgOk(WndSize(c, a, b))
    ensures CfgOk(DefaultCfg(c.conv)) && CfgOk(KcpImplCfg(c.conv)) && SmallResend(KcpImplCfg(c.conv))
    ensures var k := KcpImplCfg(c.conv);
      k.nodelay == 1 && k.interval == 10 && k.fastresend == 2 && k.nocwnd && !k.stream && k.minrto == RTO_NDL
      && k.sndWnd == 128 && k.rcvWnd == 128 && k.mtu == 1400 && k.mss == 1376 && k.fastlimit == 5 && k.deadLink == 20
  {
  }

  function Min(a: int, b: int): int {
    if a <= b then a else b
  }

  function Max(a: int, b: int): int {
    if a >= b then a else b
  }

  lemma {:induction false} MulMono(a: int, b: int, k: nat)
    requires a <= b
    ensures a * k <= b * k
  {
  }

  /** The bytes of a list of fragments. */
  function Join(fs: seq<Frag>): bytes {
    if fs == [] then [] else Join(fs[..|fs| - 1]) + fs[|fs| - 1].data
  }

  function Frags(ps: seq<Part>): (fs: seq<Frag>)
    ensures |fs| == |ps| && forall i :: 0 <= i < |fs| ==> fs[i] == ps[i].Piece()
  {
    seq(|ps|, i requires 0 <= i < |ps| => ps[i].Piece())
  }

  lemma {:induction false} JoinConcat(a: seq<Frag>, b: seq<Frag>)
    ensures Join(a + b) == Join(a) + Join(b)
  {
    if b == [] {
      assert a + b == a;
    } else {
      var n := |b| - 1;
      assert (a + b)[..|a + b| - 1] == a + b[..n];
      JoinConcat(a, b[..n]);
    }
  }
}
