/** One fragment sent, received and acknowledged, member by member, at any sequence number. */
module Exchange {
  import opened Serial
  import opened Types
  import opened Wire
  import Messages
  import opened Transmit
  import opened Receive
  import opened Timers
  import opened Endpoint
  import opened System
  import Congestion
  import opened Schedule

  /** No data waits, nothing is to be acknowledged or asked, and the next flush is at time t. */
  predicate Idling(k: Kcb, conv: u32, snd: nat, rcv: nat, t: u32) {
    && k.cfg == KcpImplCfg(conv) && k.snd == Snd(snd, snd, [], []) && k.rcv == Rcv(rcv, [], [], [])
    && k.prb.rmtWnd == 128 && !k.prb.askSend && !k.prb.askTell
    && (k.clk.updated ==> k.clk.tsFlush == t) && RttOk(k.rtt, RTO_NDL)
  }

  /** The number after n, around 2^32. */
  function Next(n: nat): nat {
    Add(Wrap, n, 1)
  }

  /** The data segment of the exchange and its acknowledgement. */
  function Data(n: nat, t: u32, f: bytes): Seg {
    Seg(Push, 0, 128, t, n, 0, f)
  }

  function Reply(n: nat, t: u32): Seg {
    Seg(Types.Ack, 0, 128, t, n, Next(n), [])
  }

  function InFlightNow(n: nat, t: u32, rto: u32, f: bytes): Flight {
    Flight(n, 0, f, t, U32(t + rto), rto, 0, 1)
  }

  lemma {:induction false} TickNow(clk: Clock, t: u32)
    requires clk.updated ==> clk.tsFlush == t
    ensures Tick(clk, 10, t) == (Clock(t, U32(t + 10), true), true)
  {
  }

  // ----- the client sends

  lemma {:induction false} SendOne(k: Kcb, f: bytes)
    requires k.cfg.mss == 1376 && !k.cfg.stream && k.snd.queue == [] && |f| <= 1376
    ensures Endpoint.Send(k, f) == (k.(snd := k.snd.(queue := [Frag(0, f)])), |f|)
  {
    assert f[0..] == f && f[..|f|] == f && f[|f|..] == [];
    assert Messages.Cut(k.cfg.mss, f[|f|..], 0, false) == [];
    assert Messages.Cut(k.cfg.mss, f, 1, false) == [Frag(0, f)];
    assert [] + [Frag(0, f)] == [Frag(0, f)];
  }

  lemma {:induction false} FillOne(n: nat, f: bytes, current: u32, rto: u32)
    requires n < MOD
    ensures Fill(Wrap, Snd(n, n, [Frag(0, f)], []), 128, current, rto)
         == Snd(n, Next(n), [], [Flight(n, 0, f, current, current, rto, 0, 0)])
  {
    assert TimeDiff(n, Add(Wrap, n, 128)) == -128;
    var s1 := Numbered(Wrap, Snd(n, n, [Frag(0, f)], []), current, rto);
    assert s1 == Snd(n, Next(n), [], [Flight(n, 0, f, current, current, rto, 0, 0)]);
  }

  lemma {:induction false} PackOne(q: Seg)
    requires SegSize(q) <= 1400
    ensures Pack(1400, []) == [] && Pack(1400, [q]) == [[q]]
  {
    assert [q][..0] == [] && [] + [q] == [q];
  }

  /** The first transmission. */
  lemma {:induction false} FlushData(k: Kcb, conv: u32, n: nat, f: bytes, t: u32)
    requires Idling(k.(snd := Snd(n, n, [], [])), conv, n, 0, U32(t + 10)) && k.snd == Snd(n, n, [Frag(0, f)], [])
    requires n < MOD && |f| <= 1376 && k.clk.updated && k.clk.current == t
    ensures Emitted(Wrap, k) == [Data(n, t, f)]
    ensures var k' := Flush(Wrap, k);
      && k' == k.(snd := Snd(n, Next(n), [], [InFlightNow(n, t, k.rtt.rto, f)]), prb := k'.prb, cc := k'.cc)
      && k'.prb.rmtWnd == 128 && !k'.prb.askSend && !k'.prb.askTell
  {
    FillOne(n, f, t, k.rtt.rto);
    var c, g := MakeCtx(k), Flight(n, 0, f, t, t, k.rtt.rto, 0, 0);
    assert Filled(Wrap, k).buf == [g] && [g][..0] == [];
    assert Decide(c, g) == First && Touch(c, g) == InFlightNow(n, t, k.rtt.rto, f);
    hide Fill, Touch, Decide;
    assert DataSegs(c, 128, 0, [g]) == [Data(n, t, f)];
    assert TouchAll(c, [g]) == [InFlightNow(n, t, k.rtt.rto, f)];
    assert Count(c, Timeout, [g]) == 0;
    assert !Died(c, 20, [g]);
    assert AckSegs(128, 0, []) == [];
  }

  // ----- the server receives

  lemma {:induction false} FlushNothing(k: Kcb, conv: u32, n: nat, t: u32)
    requires Idling(k, conv, 0, n, U32(t + 10)) && k.clk.updated && k.clk.current == t
    ensures Emitted(Wrap, k) == []
    ensures var k' := Flush(Wrap, k); k' == k.(prb := k'.prb, cc := k'.cc) && Idling(k', conv, 0, n, U32(t + 10))
  {
    assert Filled(Wrap, k) == k.snd;
    hide Fill, Filled;
    var c := MakeCtx(k);
    assert DataSegs(c, 128, n, []) == [] && TouchAll(c, []) == [] && Count(c, Timeout, []) == 0;
    assert !Died(c, 20, []) && AckSegs(128, n, []) == [];
  }

  lemma {:induction false} TakeOne(r: Rcv, n: nat, t: u32, f: bytes)
    requires r == Rcv(n, [], [], []) && n < MOD
    ensures TakePush(Wrap, 128, r, Data(n, t, f)) == Rcv(Next(n), [Part(n, 0, f)], [], [AckItem(n, t)])
  {
    var p, r1 := Part(n, 0, f), Rcv(n, [], [], [AckItem(n, t)]);
    assert [] + [AckItem(n, t)] == [AckItem(n, t)];
    assert TimeDiff(n, Add(Wrap, n, 128)) == -128 && TimeDiff(n, n) == 0;
    assert Insert(Wrap, [], p) == [p] && [p][1..] == [] && [] + [p] == [p];
    var r2 := r1.(buf := [p]);
    assert MoveReady(Wrap, 128, r2) == MoveReady(Wrap, 128, Rcv(Next(n), [p], [], [AckItem(n, t)]));
  }

  /** Reading the data segment. */
  lemma {:induction false} InputData(k: Kcb, conv: u32, n: nat, t: u32, f: bytes)
    requires Idling(k, conv, 0, n, U32(t + 10)) && n < MOD
    ensures var k' := Input(Wrap, k, Parsed([Data(n, t, f)], 0));
      && k'.rcv == Rcv(Next(n), [Part(n, 0, f)], [], [AckItem(n, t)])
      && k' == k.(rcv := k'.rcv, prb := k'.prb) && k'.prb.rmtWnd == 128 && !k'.prb.askSend && !k'.prb.askTell
  {
    var q, st := Data(n, t, f), Inner(k, NO_ACK);
    TakeOne(k.rcv, n, t, f);
    assert Transmit.ParseUna(Wrap, [], 0) == [];
    assert TakeHeader(Wrap, k, q).snd == k.snd;
    hide TakePush, Transmit.ParseUna;
    assert [q][1..] == [];
    assert ProcessAll(Wrap, st, [q]) == Process(Wrap, st, q);
  }

  lemma {:induction false} RecvOne(k: Kcb, n: nat, t: u32, f: bytes, len: nat)
    requires k.rcv == Rcv(Next(n), [Part(n, 0, f)], [], [AckItem(n, t)]) && k.cfg.rcvWnd == 128 && |f| <= len
    ensures Recv(Wrap, 128, k.rcv, len) == RecvResult(Rcv(Next(n), [], [], [AckItem(n, t)]), |f|, f, false)
  {
    var q := k.rcv.queue;
    assert MergeCount(q) == 1 && q[..1] == q && q[1..] == [];
    assert Frags(q)[..0] == [];
    assert Join(Frags(q)) == f;
  }

  // ----- the acknowledgement

  lemma {:induction false} FlushReply(k: Kcb, conv: u32, n: nat, t: u32)
    requires Idling(k.(rcv := Rcv(Next(n), [], [], [])), conv, 0, Next(n), U32(U32(t + 10) + 10))
    requires k.rcv == Rcv(Next(n), [], [], [AckItem(n, t)]) && k.clk.updated
    ensures Emitted(Wrap, k) == [Reply(n, t)]
    ensures var k' := Flush(Wrap, k);
      && k'.snd == k.snd && k'.cfg == k.cfg && k'.clk == k.clk && k'.rtt == k.rtt && k'.rcv == Rcv(Next(n), [], [], [])
      && k'.prb.rmtWnd == 128 && !k'.prb.askSend && !k'.prb.askTell
  {
    assert Filled(Wrap, k) == k.snd;
    hide Fill, Filled;
    var c := MakeCtx(k);
    assert DataSegs(c, 128, Next(n), []) == [] && TouchAll(c, []) == [];
    assert AckSegs(128, Next(n), [AckItem(n, t)]) == [Reply(n, t)];
  }

  lemma {:induction false} NotDueYet(c: Ctx, t: u32, rto: u32, g: Flight)
    requires c.current == U32(t + 10) && 30 <= rto <= RTO_MAX && g.resendts == U32(t + rto) && g.xmit == 1
    requires g.fastack < c.resent
    ensures Decide(c, g) == Idle && Touch(c, g) == g
  {
  }

  /** The client's flush while the segment is in flight. */
  lemma {:induction false} FlushWaiting(k: Kcb, conv: u32, n: nat, t: u32, rto: u32, f: bytes)
    requires Idling(k.(snd := Snd(n, n, [], [])), conv, n, 0, U32(U32(t + 10) + 10)) && n < MOD
    requires k.clk.updated && k.clk.current == U32(t + 10)
    requires 30 <= rto <= RTO_MAX && k.snd == Snd(n, Next(n), [], [InFlightNow(n, t, rto, f)])
    ensures Emitted(Wrap, k) == [] && Flush(Wrap, k).snd == k.snd
    ensures var k' := Flush(Wrap, k);
      && k'.cfg == k.cfg && k'.clk == k.clk && k'.rtt == k.rtt && k'.rcv == k.rcv
      && k'.prb.rmtWnd == 128 && !k'.prb.askSend && !k'.prb.askTell
  {
    var c, g := MakeCtx(k), InFlightNow(n, t, rto, f);
    NotDueYet(c, t, rto, g);
    assert c.resent == 2;
    assert Filled(Wrap, k) == k.snd && [g][..0] == [];
    hide Fill, Filled, Touch, Decide;
    SettledTouch(c, 128, 0, [g]);
    assert AckSegs(128, 0, []) == [];
  }

  /** Reading the acknowledgement. */
  lemma {:induction false} InputReply(k: Kcb, n: nat, t: u32, g: Flight)
    requires k.cfg.mss > 0 && n < MOD && k.snd == Snd(n, Next(n), [], [g]) && g.sn == n
    requires RttOk(k.rtt, k.cfg.minrto) && k.cfg.minrto <= RTO_MAX
    ensures var k' := Input(Wrap, k, Parsed([Reply(n, t)], 0));
      && k'.snd == Snd(Next(n), Next(n), [], []) && k'.rcv == k.rcv && k'.cfg == k.cfg && k'.clk == k.clk
      && k'.prb == k.prb.(rmtWnd := 128) && RttOk(k'.rtt, k.cfg.minrto)
  {
    var q, st := Reply(n, t), Inner(k, NO_ACK);
    assert [g][1..] == [] && Transmit.ParseUna(Wrap, [g], Next(n)) == [];
    var k1 := TakeHeader(Wrap, k, q);
    assert k1.snd == Snd(Next(n), Next(n), [], []);
    assert TimeDiff(n, Next(n)) == -1;
    var d := TimeDiff(k.clk.current, t);
    if d >= 0 { UpdateAckOk(k.rtt, k.cfg.interval, k.cfg.minrto, d); }
    hide UpdateAck, RttOk, Congestion.OnAck;
    assert [q][1..] == [];
    assert ProcessAll(Wrap, st, [q]) == Process(Wrap, st, q);
  }

  // ----- the two programs

  /** The client with its segment in flight. */
  ghost predicate Waiting(k: Kcb, conv: u32, n: nat, t: u32, f: bytes) {
    && Idling(k.(snd := Snd(n, n, [], [])), conv, n, 0, U32(t + 10)) && k.clk == Clock(t, U32(t + 10), true)
    && exists rto: u32 {:trigger InFlightNow(n, t, rto, f)} ::
         30 <= rto <= RTO_MAX && k.snd == Snd(n, Next(n), [], [InFlightNow(n, t, rto, f)])
  }

  /** The server that has delivered the segment and not acknowledged it yet. */
  predicate Owing(k: Kcb, conv: u32, n: nat, t: u32) {
    && Idling(k.(rcv := Rcv(Next(n), [], [], [])), conv, 0, Next(n), U32(t + 10))
    && k.clk == Clock(t, U32(t + 10), true)
    && k.rcv == Rcv(Next(n), [], [], [AckItem(n, t)])
  }

  lemma {:induction false} ClientTransmits(p: Peer, conv: u32, n: nat, t: u32, f: bytes)
    requires Idling(p.kcb, conv, n, 0, t) && n < MOD && |f| <= 1376
    ensures Endpoint.Send(p.kcb, f).1 == |f|
    ensures var p' := PeerUpdate(Wrap, PeerSend(p, f), t);
      Waiting(p'.kcb, conv, n, t, f) && p'.out == p.out + [[Data(n, t, f)]] && |p'.hist| == |p.hist| + 1
  {
    SendOne(p.kcb, f);
    TickNow(p.kcb.clk, t);
    var k := p.kcb.(snd := Snd(n, n, [Frag(0, f)], []), clk := Clock(t, U32(t + 10), true));
    FlushData(k, conv, n, f, t);
    PackOne(Data(n, t, f));
    hide Flush, Emitted, Pack, Tick, Endpoint.Send;
    assert PeerSend(p, f).kcb.(clk := k.clk) == k;
    assert InFlightNow(n, t, k.rtt.rto, f) == InFlightNow(n, t, k.rtt.rto, f);
  }

  /** The conversation about one datagram. */
  lemma {:induction false} CarriedOne(conv: u32, q: Seg)
    requires SegSize(q) <= 1400 && Encodable(q)
    ensures Carried(Wrap, conv, [q]) == Parsed([q], 0)
  {
    assert [q][..0] == [] && Size([]) == 0 && Size([q]) == SegSize(q);
    ParseDatagram(conv, 1400, [q]);
  }

  lemma {:induction false} ServerReads(p: Peer, conv: u32, n: nat, t: u32, f: bytes)
    requires Idling(p.kcb, conv, 0, n, t) && n < MOD && |f| <= 1376
    ensures var p' := PeerUpdate(Wrap, p, t);
      && p'.out == p.out && p'.hist == p.hist && p'.kcb.cfg == p.kcb.cfg
      && var p2 := PeerInput(Wrap, p', conv, [Data(n, t, f)]);
         && p2.kcb.rcv == Rcv(Next(n), [Part(n, 0, f)], [], [AckItem(n, t)]) && p2.kcb.cfg == p.kcb.cfg
         && p2.out == p.out && p2.hist == p.hist && Owing(p2.kcb.(rcv := p2.kcb.rcv.(queue := [])), conv, n, t)
  {
    TickNow(p.kcb.clk, t);
    var k := p.kcb.(clk := Clock(t, U32(t + 10), true));
    FlushNothing(k, conv, n, t);
    PackOne(Data(n, t, f));
    CarriedOne(conv, Data(n, t, f));
    hide Flush, Emitted, Pack, Tick, Input, Carried;
    assert p.out + [] == p.out && p.hist + [] == p.hist;
    InputData(Flush(Wrap, k), conv, n, t, f);
  }

  lemma {:induction false} ServerTakes(p: Peer, conv: u32, n: nat, t: u32, f: bytes, len: nat)
    requires p.kcb.rcv == Rcv(Next(n), [Part(n, 0, f)], [], [AckItem(n, t)]) && |f| <= len
    requires Owing(p.kcb.(rcv := p.kcb.rcv.(queue := [])), conv, n, t)
    ensures var p' := PeerRecv(Wrap, p, len);
      Owing(p'.kcb, conv, n, t) && p'.out == p.out && p'.hist == p.hist
    ensures Recv(Wrap, p.kcb.cfg.rcvWnd, p.kcb.rcv, len).code == |f|
    ensures Recv(Wrap, p.kcb.cfg.rcvWnd, p.kcb.rcv, len).data == f
  {
    RecvOne(p.kcb, n, t, f, len);
  }

  lemma {:induction false} ServerReplies(p: Peer, conv: u32, n: nat, t: u32)
    requires Owing(p.kcb, conv, n, t) && n < MOD
    ensures var p' := PeerUpdate(Wrap, p, U32(t + 10));
      && Idling(p'.kcb, conv, 0, Next(n), U32(U32(t + 10) + 10)) && p'.kcb.clk.updated
      && p'.out == p.out + [[Reply(n, t)]] && p'.hist == p.hist
  {
    var t1: int := U32(t + 10);
    TickNow(p.kcb.clk, t1);
    var k := p.kcb.(clk := Clock(t1, U32(t1 + 10), true));
    FlushReply(k, conv, n, t);
    PackOne(Reply(n, t));
    hide Flush, Emitted, Pack, Tick;
    assert p.hist + [] == p.hist;
  }

  lemma {:induction false} NothingToTake(p: Peer, len: nat)
    requires p.kcb.rcv.queue == []
    ensures Recv(Wrap, p.kcb.cfg.rcvWnd, p.kcb.rcv, len).code == -1
    ensures PeerRecv(Wrap, p, len) == p
  {
  }

  lemma {:induction false} ClientIsAnswered(p: Peer, conv: u32, n: nat, t: u32, f: bytes)
    requires Waiting(p.kcb, conv, n, t, f) && n < MOD
    ensures var p' := PeerUpdate(Wrap, p, U32(t + 10));
      && p'.out == p.out && p'.hist == p.hist && p'.kcb.cfg == p.kcb.cfg
      && var p2 := PeerInput(Wrap, p', conv, [Reply(n, t)]);
         p2.out == p.out && p2.hist == p.hist && Idling(p2.kcb, conv, Next(n), 0, U32(U32(t + 10) + 10))
  {
    var t1: int := U32(t + 10);
    TickNow(p.kcb.clk, t1);
    var k := p.kcb.(clk := Clock(t1, U32(t1 + 10), true));
    var rto: u32 :| 30 <= rto <= RTO_MAX && k.snd == Snd(n, Next(n), [], [InFlightNow(n, t, rto, f)]);
    FlushWaiting(k, conv, n, t, rto, f);
    PackOne(Reply(n, t));
    CarriedOne(conv, Reply(n, t));
    hide Flush, Emitted, Pack, Tick, Input, Carried;
    assert p.out + [] == p.out && p.hist + [] == p.hist;
    InputReply(Flush(Wrap, k), n, t, k.snd.buf[0]);
  }
}
