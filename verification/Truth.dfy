/** What is true of everything the two endpoints hold or ever said, over unbounded sequence numbers: a number always
    stands for the same fragment, and acknowledgements only speak of what the receiver holds. */
module Truth {
  import opened Serial
  import opened Types
  import opened Wire
  import opened Receive
  import opened Transmit
  import opened Endpoint
  import Timers

  /** Number sn stands for fragment f. */
  predicate Known(hist: seq<Frag>, sn: nat, f: Frag) {
    sn < |hist| && hist[sn] == f
  }

  ghost predicate FlightsTrue(buf: seq<Flight>, hist: seq<Frag>) {
    forall i :: 0 <= i < |buf| ==> Known(hist, buf[i].sn, buf[i].Piece())
  }

  ghost predicate PartsTrue(ps: seq<Part>, hist: seq<Frag>) {
    forall i :: 0 <= i < |ps| ==> Known(hist, ps[i].sn, ps[i].Piece())
  }

  predicate PushTrue(q: Seg, hist: seq<Frag>) {
    q.cmd.Push? ==> Known(hist, q.sn, Frag(q.frg, q.data))
  }

  ghost predicate AllPushTrue(d: seq<Seg>, hist: seq<Frag>) {
    forall j :: 0 <= j < |d| ==> PushTrue(d[j], hist)
  }

  /** The receiver has number n: delivered to rcv_queue or kept in rcv_buf. */
  ghost predicate Held(r: Rcv, n: nat) {
    n < r.nxt || Has(r.buf, n)
  }

  ghost predicate HasFlight(buf: seq<Flight>, n: nat) {
    exists i :: 0 <= i < |buf| && buf[i].sn == n
  }

  /** Every number given out is still with the sender or already with the receiver. */
  ghost predicate NoLoss(s: Snd, r: Rcv) {
    forall n: nat :: n < s.nxt ==> HasFlight(s.buf, n) || Held(r, n)
  }

  /** What a segment says about the receiver that sent it. */
  ghost predicate ReplyTrue(q: Seg, r: Rcv, limit: nat) {
    q.una <= r.nxt && (q.cmd.Ack? ==> q.sn < limit && Held(r, q.sn))
  }

  ghost predicate AllReplyTrue(d: seq<Seg>, r: Rcv, limit: nat) {
    forall j :: 0 <= j < |d| ==> ReplyTrue(d[j], r, limit)
  }

  ghost predicate AcksTrue(acks: seq<AckItem>, r: Rcv, limit: nat) {
    forall i :: 0 <= i < |acks| ==> acks[i].sn < limit && Held(r, acks[i].sn)
  }

  /** r' holds everything r holds. */
  ghost predicate Grows(r: Rcv, r': Rcv) {
    r.nxt <= r'.nxt && forall n: nat :: Held(r, n) ==> Held(r', n)
  }

  ghost predicate RcvTrue(r: Rcv, hist: seq<Frag>) {
    && r.nxt <= |hist| && PartsTrue(r.queue, hist) && PartsTrue(r.buf, hist) && AcksTrue(r.acks, r, |hist|)
  }

  lemma {:induction false} ReplyGrows(d: seq<Seg>, r: Rcv, r': Rcv, limit: nat, limit': nat)
    requires AllReplyTrue(d, r, limit) && Grows(r, r') && limit <= limit'
    ensures AllReplyTrue(d, r', limit')
  {
    forall j | 0 <= j < |d| ensures ReplyTrue(d[j], r', limit') {
      assert ReplyTrue(d[j], r, limit);
    }
  }

  lemma {:induction false} NoLossGrows(s: Snd, r: Rcv, r': Rcv)
    requires NoLoss(s, r) && Grows(r, r')
    ensures NoLoss(s, r')
  {
  }

  lemma {:induction false} PushMono(d: seq<Seg>, hist: seq<Frag>, more: seq<Frag>)
    requires AllPushTrue(d, hist)
    ensures AllPushTrue(d, hist + more)
  {
    forall j | 0 <= j < |d| ensures PushTrue(d[j], hist + more) {
      assert PushTrue(d[j], hist);
    }
  }

  lemma {:induction false} RcvTrueMono(r: Rcv, hist: seq<Frag>, more: seq<Frag>)
    requires RcvTrue(r, hist)
    ensures RcvTrue(r, hist + more)
  {
  }

  // ----- the receiver

  lemma {:induction false} MoveReadyTrue(wnd: nat, r: Rcv, hist: seq<Frag>)
    requires r.nxt <= |hist| && PartsTrue(r.queue, hist) && PartsTrue(r.buf, hist)
    ensures var r' := MoveReady(Exact, wnd, r);
      && r'.nxt <= |hist| && PartsTrue(r'.queue, hist) && PartsTrue(r'.buf, hist)
      && Grows(r, r') && r'.nxt - |r'.queue| == r.nxt - |r.queue|
    decreases |r.buf|
  {
    if r.buf != [] && r.buf[0].sn == r.nxt && |r.queue| < wnd {
      var r1 := r.(nxt := r.nxt + 1, queue := r.queue + [r.buf[0]], buf := r.buf[1..]);
      assert Known(hist, r.buf[0].sn, r.buf[0].Piece());
      forall n: nat | Held(r, n) ensures Held(r1, n) {
        if n >= r1.nxt {
          var i :| 0 <= i < |r.buf| && r.buf[i].sn == n;
          assert r1.buf[i - 1].sn == n;
        }
      }
      MoveReadyTrue(wnd, r1, hist);
    }
  }

  lemma {:induction false} InsertGrows(m: Arith, r: Rcv, p: Part)
    ensures Grows(r, r.(buf := Insert(m, r.buf, p)))
    ensures Held(r.(buf := Insert(m, r.buf, p)), p.sn)
  {
    InsertMembers(m, r.buf, p);
    var ins := Insert(m, r.buf, p);
    forall n: nat | Held(r, n) ensures Held(r.(buf := ins), n) {
      if n >= r.nxt {
        var i :| 0 <= i < |r.buf| && r.buf[i].sn == n;
        assert r.buf[i] in ins;
      }
    }
  }

  lemma {:induction false} InsertTrue(m: Arith, buf: seq<Part>, p: Part, hist: seq<Frag>)
    requires PartsTrue(buf, hist) && Known(hist, p.sn, p.Piece())
    ensures PartsTrue(Insert(m, buf, p), hist)
  {
    InsertMembers(m, buf, p);
    var ins := Insert(m, buf, p);
    forall i | 0 <= i < |ins| ensures Known(hist, ins[i].sn, ins[i].Piece()) {
      assert ins[i] in ins;
    }
  }

  lemma {:induction false} AcksGrow(acks: seq<AckItem>, r: Rcv, r': Rcv, limit: nat)
    requires AcksTrue(acks, r, limit) && Grows(r, r')
    ensures AcksTrue(acks, r', limit)
  {
  }

  /** A true data segment leaves the receiver true: it is acknowledged only if it is held afterwards. */
  lemma {:induction false} TakePushTrue(wnd: nat, r: Rcv, q: Seg, hist: seq<Frag>)
    requires RcvTrue(r, hist) && Known(hist, q.sn, Frag(q.frg, q.data))
    ensures var r' := TakePush(Exact, wnd, r, q);
      RcvTrue(r', hist) && Grows(r, r') && r'.nxt - |r'.queue| == r.nxt - |r.queue|
  {
    var p := Part(q.sn, q.frg, q.data);
    var r' := TakePush(Exact, wnd, r, q);
    if q.sn < r.nxt + wnd && q.sn >= r.nxt {
      var r1 := r.(acks := r.acks + [AckItem(q.sn, q.ts)]);
      var r2 := r1.(buf := Insert(Exact, r1.buf, p));
      assert r' == MoveReady(Exact, wnd, r2);
      InsertGrows(Exact, r1, p);
      InsertTrue(Exact, r.buf, p, hist);
      MoveReadyTrue(wnd, r2, hist);
      MoveReadyAcks(Exact, wnd, r2);
      assert Held(r2, q.sn);
      AcksGrow(r.acks, r, r', |hist|);
    }
  }

  lemma {:induction false} MoveReadyAcks(m: Arith, wnd: nat, r: Rcv)
    ensures MoveReady(m, wnd, r).acks == r.acks
    decreases |r.buf|
  {
    if r.buf != [] && r.buf[0].sn == r.nxt && |r.queue| < wnd {
      MoveReadyAcks(m, wnd, r.(nxt := Add(m, r.nxt, 1), queue := r.queue + [r.buf[0]], buf := r.buf[1..]));
    }
  }

  // ----- the sender

  lemma {:induction false} SubFlights(s: Snd, r: Rcv, hist: seq<Frag>, buf: seq<Flight>)
    requires FlightsTrue(s.buf, hist) && NoLoss(s, r)
    requires forall i :: 0 <= i < |buf| ==> buf[i] in s.buf
    requires forall i :: 0 <= i < |s.buf| ==> s.buf[i] in buf || Held(r, s.buf[i].sn)
    ensures FlightsTrue(buf, hist) && NoLoss(s.(buf := buf), r)
  {
    forall n: nat | n < s.nxt ensures HasFlight(buf, n) || Held(r, n) {
      if HasFlight(s.buf, n) {
        var i :| 0 <= i < |s.buf| && s.buf[i].sn == n;
        if s.buf[i] in buf { var k :| 0 <= k < |buf| && buf[k] == s.buf[i]; }
      }
    }
  }

  /** A truthful una removes only what the receiver has delivered. */
  lemma {:induction false} UnaTrue(s: Snd, r: Rcv, hist: seq<Frag>, una: nat)
    requires FlightsTrue(s.buf, hist) && NoLoss(s, r) && una <= r.nxt
    ensures FlightsTrue(ParseUna(Exact, s.buf, una), hist)
    ensures NoLoss(s.(buf := ParseUna(Exact, s.buf, una)), r)
  {
    var k := ParseUnaSuffix(Exact, s.buf, una);
    var buf := s.buf[k..];
    forall i | 0 <= i < |s.buf| ensures s.buf[i] in buf || Held(r, s.buf[i].sn) {
      if i >= k { assert s.buf[i] == buf[i - k]; }
    }
    SubFlights(s, r, hist, buf);
  }

  /** A truthful acknowledgement removes only what the receiver holds. */
  lemma {:induction false} AckTrue(s: Snd, r: Rcv, hist: seq<Frag>, sn: nat)
    requires FlightsTrue(s.buf, hist) && NoLoss(s, r) && Held(r, sn)
    ensures FlightsTrue(ParseAck(Exact, s, sn).buf, hist)
    ensures NoLoss(ParseAck(Exact, s, sn), r)
  {
    var k := RemoveSnOne(Exact, s.buf, sn);
    if InFlight(Exact, s, sn) && k < |s.buf| {
      var buf := Without(s.buf, k);
      forall i | 0 <= i < |s.buf| ensures s.buf[i] in buf || Held(r, s.buf[i].sn) {
        if i < k { assert s.buf[i] == buf[i]; } else if i > k { assert s.buf[i] == buf[i - 1]; }
      }
      SubFlights(s, r, hist, buf);
      assert ParseAck(Exact, s, sn) == s.(buf := buf);
    }
  }

  lemma {:induction false} SameNumbers(s: Snd, r: Rcv, hist: seq<Frag>, buf: seq<Flight>)
    requires FlightsTrue(s.buf, hist) && NoLoss(s, r) && |buf| == |s.buf|
    requires forall i :: 0 <= i < |buf| ==> buf[i].sn == s.buf[i].sn && buf[i].Piece() == s.buf[i].Piece()
    ensures FlightsTrue(buf, hist) && NoLoss(s.(buf := buf), r)
  {
    forall n: nat | n < s.nxt ensures HasFlight(buf, n) || Held(r, n) {
      if HasFlight(s.buf, n) {
        var i :| 0 <= i < |s.buf| && s.buf[i].sn == n;
        assert buf[i].sn == n;
      }
    }
  }

  /** Numbering takes fragments off the queue in order: the history grows by exactly those. */
  lemma {:induction false} FillTrue(s: Snd, r: Rcv, hist: seq<Frag>, cwnd: nat, current: u32, rto: u32)
    requires |hist| == s.nxt && FlightsTrue(s.buf, hist) && NoLoss(s, r)
    ensures var s' := Fill(Exact, s, cwnd, current, rto);
      && |s'.queue| <= |s.queue| && s'.queue == s.queue[|s.queue| - |s'.queue|..]
      && var h := hist + s.queue[..|s.queue| - |s'.queue|];
         |h| == s'.nxt && FlightsTrue(s'.buf, h) && NoLoss(s', r)
    decreases |s.queue|
  {
    if Diff(Exact, s.nxt, Add(Exact, s.una, cwnd)) < 0 && s.queue != [] {
      var s1 := Numbered(Exact, s, current, rto);
      var h1 := hist + [s.queue[0]];
      NumberedTrue(s, r, hist, current, rto);
      FillTrue(s1, r, h1, cwnd, current, rto);
      var n := |s.queue| - |Fill(Exact, s, cwnd, current, rto).queue|;
      assert h1 + s1.queue[..n - 1] == hist + s.queue[..n];
    } else {
      assert hist + s.queue[..0] == hist;
    }
  }

  lemma {:induction false} NumberedTrue(s: Snd, r: Rcv, hist: seq<Frag>, current: u32, rto: u32)
    requires |hist| == s.nxt && FlightsTrue(s.buf, hist) && NoLoss(s, r) && s.queue != []
    ensures var s1 := Numbered(Exact, s, current, rto);
      FlightsTrue(s1.buf, hist + [s.queue[0]]) && NoLoss(s1, r)
  {
    var s1 := Numbered(Exact, s, current, rto);
    var h1 := hist + [s.queue[0]];
    forall i | 0 <= i < |s1.buf| ensures Known(h1, s1.buf[i].sn, s1.buf[i].Piece()) {
      if i < |s.buf| { assert Known(hist, s.buf[i].sn, s.buf[i].Piece()); }
    }
    forall n: nat | n < s1.nxt ensures HasFlight(s1.buf, n) || Held(r, n) {
      if n == s.nxt {
        assert s1.buf[|s.buf|].sn == n;
      } else if HasFlight(s.buf, n) {
        var i :| 0 <= i < |s.buf| && s.buf[i].sn == n;
        assert s1.buf[i].sn == n;
      }
    }
  }

  lemma {:induction false} TouchTrue(c: Timers.Ctx, s: Snd, r: Rcv, hist: seq<Frag>)
    requires FlightsTrue(s.buf, hist) && NoLoss(s, r)
    ensures FlightsTrue(TouchAll(c, s.buf), hist) && NoLoss(s.(buf := TouchAll(c, s.buf)), r)
  {
    SameNumbers(s, r, hist, TouchAll(c, s.buf));
  }

  lemma {:induction false} SkipTrue(s: Snd, r: Rcv, hist: seq<Frag>, sn: nat, ts: u32)
    requires FlightsTrue(s.buf, hist) && NoLoss(s, r)
    ensures FlightsTrue(ParseFastack(Exact, s, sn, ts).buf, hist) && NoLoss(ParseFastack(Exact, s, sn, ts), r)
  {
    SkipSame(Exact, s.buf, sn, ts);
    SameNumbers(s, r, hist, ParseFastack(Exact, s, sn, ts).buf);
  }

  // ----- what a flush says

  lemma {:induction false} DataSegsTrue(c: Timers.Ctx, wnd: nat, una: nat, buf: seq<Flight>, hist: seq<Frag>)
    requires FlightsTrue(buf, hist)
    ensures AllPushTrue(DataSegs(c, wnd, una, buf), hist)
    ensures forall j :: 0 <= j < |DataSegs(c, wnd, una, buf)| ==>
      var q := DataSegs(c, wnd, una, buf)[j]; q.cmd.Push? && q.una == una && q.wnd == wnd
  {
    if buf != [] {
      var n := |buf| - 1;
      DataSegsTrue(c, wnd, una, buf[..n], hist);
      assert Known(hist, buf[n].sn, buf[n].Piece());
    }
  }

  /** Everything one flush emits is true of the sender's history and of its receiving half. */
  lemma {:induction false} EmittedTrue(k: Kcb, hist: seq<Frag>, limit: nat)
    requires FlightsTrue(Filled(Exact, k).buf, hist) && AcksTrue(k.rcv.acks, k.rcv, limit)
    ensures AllPushTrue(Emitted(Exact, k), hist) && AllReplyTrue(Emitted(Exact, k), k.rcv, limit)
  {
    if k.clk.updated {
      var wnd := Unused(k.cfg.rcvWnd, k.rcv);
      var a := AckSegs(wnd, k.rcv.nxt, k.rcv.acks);
      var p := ProbeSegs(ProbeTick(k.prb, k.clk.current), wnd, k.rcv.nxt, Leftover(k.rcv.acks));
      var d := DataSegs(Timers.MakeCtx(k), wnd, k.rcv.nxt, Filled(Exact, k).buf);
      DataSegsTrue(Timers.MakeCtx(k), wnd, k.rcv.nxt, Filled(Exact, k).buf, hist);
      assert AllPushTrue(a, hist) && AllReplyTrue(a, k.rcv, limit);
      assert AllPushTrue(p, hist) && AllReplyTrue(p, k.rcv, limit);
      assert AllReplyTrue(d, k.rcv, limit);
    }
  }

  /** Packing keeps what is true of every segment. */
  lemma {:induction false} PackedTrue(mtu: nat, segs: seq<Seg>, hist: seq<Frag>, r: Rcv, limit: nat)
    requires forall i :: 0 <= i < |segs| ==> SegSize(segs[i]) <= mtu
    requires AllPushTrue(segs, hist) && AllReplyTrue(segs, r, limit)
    ensures forall i :: 0 <= i < |Pack(mtu, segs)| ==>
      AllPushTrue(Pack(mtu, segs)[i], hist) && AllReplyTrue(Pack(mtu, segs)[i], r, limit)
  {
    PackOk(mtu, segs);
    var ds := Pack(mtu, segs);
    forall i | 0 <= i < |ds| ensures AllPushTrue(ds[i], hist) && AllReplyTrue(ds[i], r, limit) {
      forall j | 0 <= j < |ds[i]| ensures PushTrue(ds[i][j], hist) && ReplyTrue(ds[i][j], r, limit) {
        var k := FlatMembers(ds, i, j);
      }
    }
  }
}
