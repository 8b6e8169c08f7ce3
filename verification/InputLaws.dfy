/** Exactly what one ikcp_input does to the sending side: which segments stay in flight, which of them it counts as
    skipped and for which acknowledgement, what window it reads, and when the congestion window opens.  Together with
    FlushLaws: fast retransmission from end to end. */
module InputLaws {
  import opened Serial
  import opened Types
  import opened Wire
  import opened Transmit
  import opened Receive
  import opened Endpoint
  import opened FlushLaws
  import Congestion

  // ----- the acknowledgement that counts

  /** A later number with a later time. */
  predicate Beats(m: Arith, q: Seg, p: Seg) {
    Diff(m, q.sn, p.sn) > 0 && TimeDiff(q.ts, p.ts) > 0
  }

  /** The acknowledgement of a datagram that skips: no later one beats it, and it is the first or beats the one that
      skips among those before it. */
  ghost predicate Chosen(m: Arith, segs: seq<Seg>, j: nat)
    decreases j
  {
    && j < |segs| && segs[j].cmd.Ack?
    && (forall i :: j < i < |segs| && segs[i].cmd.Ack? ==> !Beats(m, segs[i], segs[j]))
    && ((forall i :: 0 <= i < j ==> !segs[i].cmd.Ack?)
        || exists i: nat :: i < j && Chosen(m, segs[..j], i) && Beats(m, segs[j], segs[i]))
  }

  ghost predicate NoAcks(segs: seq<Seg>) {
    forall i :: 0 <= i < |segs| ==> !segs[i].cmd.Ack?
  }

  /** With one time for all it is the first; if each is later than those before it, it is the last. */
  lemma {:induction false} ChosenEnds(m: Arith, segs: seq<Seg>, j: nat, i: nat)
    requires Chosen(m, segs, j) && i < |segs| && segs[i].cmd.Ack?
    ensures (forall a, b :: 0 <= a < |segs| && 0 <= b < |segs| ==> segs[a].ts == segs[b].ts) ==> j <= i
    ensures (forall a, b :: 0 <= a < b < |segs| && segs[a].cmd.Ack? && segs[b].cmd.Ack? ==>
              Beats(m, segs[b], segs[a])) ==> i <= j
  {
  }

  /** The locals of ikcp_input behind the segments so far. */
  ghost predicate BestOf(m: Arith, segs: seq<Seg>, b: Best) {
    if b.flag then exists j: nat :: Chosen(m, segs, j) && b.maxack == segs[j].sn && b.ts == segs[j].ts
    else NoAcks(segs)
  }

  lemma {:induction false} ChosenSnoc(m: Arith, segs: seq<Seg>, j: nat, q: Seg)
    requires Chosen(m, segs, j)
    ensures !(q.cmd.Ack? && Beats(m, q, segs[j])) ==> Chosen(m, segs + [q], j)
    ensures q.cmd.Ack? && Beats(m, q, segs[j]) ==> Chosen(m, segs + [q], |segs|)
  {
    hide Beats;
    assert (segs + [q])[..j] == segs[..j] && (segs + [q])[..|segs|] == segs;
    assert forall i :: 0 <= i < |segs| ==> (segs + [q])[i] == segs[i];
  }

  lemma {:induction false} BestSnoc(m: Arith, segs: seq<Seg>, b: Best, q: Seg)
    requires BestOf(m, segs, b)
    ensures BestOf(m, segs + [q], if q.cmd.Ack? then BetterAck(m, b, q) else b)
  {
    if b.flag {
      var j: nat :| Chosen(m, segs, j) && b.maxack == segs[j].sn && b.ts == segs[j].ts;
      ChosenSnoc(m, segs, j, q);
      hide Chosen;
      assert (segs + [q])[j] == segs[j] && (segs + [q])[|segs|] == q;
      if q.cmd.Ack? && Beats(m, q, segs[j]) {
        assert Chosen(m, segs + [q], |segs|);
      } else {
        assert Chosen(m, segs + [q], j);
      }
    } else if q.cmd.Ack? {
      assert (segs + [q])[..|segs|] == segs;
      assert Chosen(m, segs + [q], |segs|);
    }
  }

  lemma {:induction false} ProcessBest(m: Arith, s: Inner, q: Seg)
    ensures Process(m, s, q).best == if q.cmd.Ack? then BetterAck(m, s.best, q) else s.best
  {
    hide TakeHeader, BetterAck, TakeAck, TakePush;
  }

  lemma {:induction false} ProcessAllBest(m: Arith, s: Inner, before: seq<Seg>, segs: seq<Seg>)
    requires BestOf(m, before, s.best)
    ensures BestOf(m, before + segs, ProcessAll(m, s, segs).best)
    decreases |segs|
  {
    hide BestOf, Process, BetterAck;
    if segs == [] {
      assert before + [] == before;
    } else {
      BestSnoc(m, before, s.best, segs[0]);
      ProcessBest(m, s, segs[0]);
      ProcessAllBest(m, Process(m, s, segs[0]), before + [segs[0]], segs[1..]);
      assert (before + [segs[0]]) + segs[1..] == before + segs;
    }
  }

  // ----- what stays in flight

  ghost predicate Within(buf: seq<Flight>, all: seq<Flight>) {
    forall i :: 0 <= i < |buf| ==> buf[i] in all
  }

  lemma {:induction false} ProcessWithin(m: Arith, s: Inner, q: Seg)
    ensures Within(Process(m, s, q).kcb.snd.buf, s.kcb.snd.buf) && Process(m, s, q).kcb.snd.nxt == s.kcb.snd.nxt
  {
    var n := ParseUnaSuffix(m, s.kcb.snd.buf, q.una);
    var k1 := TakeHeader(m, s.kcb, q);
    assert k1.snd.buf == s.kcb.snd.buf[n..] && k1.snd.nxt == s.kcb.snd.nxt;
    if q.cmd.Ack? {
      var l := RemoveSnOne(m, k1.snd.buf, q.sn);
      AckWithin(m, k1, q, l);
    }
    hide TakeHeader, TakeAck, BetterAck, TakePush;
  }

  lemma {:induction false} AckWithin(m: Arith, k: Kcb, q: Seg, l: nat)
    requires l <= |k.snd.buf| && RemoveSn(m, k.snd.buf, q.sn) == Without(k.snd.buf, l)
    ensures Within(TakeAck(m, k, q).snd.buf, k.snd.buf) && TakeAck(m, k, q).snd.nxt == k.snd.nxt
  {
    hide SampleRtt, InFlight;
  }

  lemma {:induction false} ProcessAllWithin(m: Arith, s: Inner, segs: seq<Seg>)
    ensures Within(ProcessAll(m, s, segs).kcb.snd.buf, s.kcb.snd.buf)
    ensures ProcessAll(m, s, segs).kcb.snd.nxt == s.kcb.snd.nxt
    decreases |segs|
  {
    if segs != [] {
      ProcessWithin(m, s, segs[0]);
      ProcessAllWithin(m, Process(m, s, segs[0]), segs[1..]);
      hide Process;
    }
  }

  /** The segment acknowledges the number: by its una, or as an acknowledgement of that very number. */
  predicate Acked(m: Arith, q: Seg, sn: nat) {
    Diff(m, q.una, sn) > 0 || (q.cmd.Ack? && q.sn == sn)
  }

  /** Its una is not half the number space behind. */
  predicate NearUna(m: Arith, q: Seg, base: nat) {
    Diff(m, q.una, base) >= 65535 - HALF
  }

  lemma {:induction false} UnaSurvivors(m: Arith, base: nat, lim: int, buf: seq<Flight>, q: Seg)
    requires Ordered(m, base, lim, buf) && lim <= 65535 && NearUna(m, q, base)
    ensures forall f :: f in ParseUna(m, buf, q.una) <==> f in buf && Diff(m, q.una, f.sn) <= 0
    ensures Ordered(m, base, lim, ParseUna(m, buf, q.una))
  {
    var n := ParseUnaSuffix(m, buf, q.una);
    forall i | 0 <= i < |buf| ensures Diff(m, q.una, buf[i].sn) > 0 <==> i < n {
      DiffSplit(m, q.una, buf[i].sn, base);
      if n < |buf| {
        DiffSplit(m, q.una, buf[n].sn, base);
        assert i > n ==> Off(m, buf[n].sn, base) < Off(m, buf[i].sn, base);
      }
    }
    if n < |buf| { OrderedSub(m, base, lim, buf, n); }
    hide ParseUna, Off, Diff;
  }

  lemma {:induction false} AckSurvivors(m: Arith, base: nat, lim: int, s: Snd, sn: nat)
    requires SndOk(m, s) && Num(m, sn) && Ordered(m, base, lim, s.buf)
    ensures forall f :: f in ParseAck(m, s, sn).buf <==> f in s.buf && f.sn != sn
    ensures Ordered(m, base, lim, ParseAck(m, s, sn).buf)
  {
    ParseAckExact(m, s, sn);
    var k := RemoveSnOne(m, s.buf, sn);
    if k < |s.buf| { OrderedSub(m, base, lim, s.buf, k); }
    hide RemoveSn, Off, Diff;
  }

  lemma {:induction false} ProcessSurvivors(m: Arith, s: Inner, q: Seg, base: nat, lim: int)
    requires KcbOk(m, s.kcb) && Readable(m, q) && Ordered(m, base, lim, s.kcb.snd.buf) && lim <= 65535
    requires NearUna(m, q, base)
    ensures var buf, buf' := s.kcb.snd.buf, Process(m, s, q).kcb.snd.buf;
      Ordered(m, base, lim, buf') && forall f :: f in buf' <==> f in buf && !Acked(m, q, f.sn)
  {
    UnaSurvivors(m, base, lim, s.kcb.snd.buf, q);
    TakeHeaderOk(m, s.kcb, q);
    var k := TakeHeader(m, s.kcb, q);
    if q.cmd.Ack? { AckSurvivors(m, base, lim, k.snd, q.sn); }
    hide Ordered, ParseUna, ParseAck, Off, Diff, SampleRtt, TakePush, BetterAck;
  }

  /** After the segments of a datagram exactly those numbers are in flight that none of them acknowledged. */
  lemma {:induction false} Survivors(m: Arith, s: Inner, segs: seq<Seg>, base: nat, lim: int)
    requires KcbOk(m, s.kcb) && Ordered(m, base, lim, s.kcb.snd.buf) && lim <= 65535
    requires forall i :: 0 <= i < |segs| ==> Readable(m, segs[i]) && NearUna(m, segs[i], base)
    ensures var buf, buf' := s.kcb.snd.buf, ProcessAll(m, s, segs).kcb.snd.buf;
      forall f :: f in buf' <==> f in buf && forall i :: 0 <= i < |segs| ==> !Acked(m, segs[i], f.sn)
    decreases |segs|
  {
    if segs != [] {
      ProcessSurvivors(m, s, segs[0], base, lim);
      ProcessOk(m, s, segs[0]);
      hide KcbOk, Ordered, Acked, Readable, NearUna, Process;
      Survivors(m, Process(m, s, segs[0]), segs[1..], base, lim);
      forall f | f in s.kcb.snd.buf
        ensures (forall i :: 0 <= i < |segs| ==> !Acked(m, segs[i], f.sn))
          <==> !Acked(m, segs[0], f.sn) && forall i :: 0 <= i < |segs[1..]| ==> !Acked(m, segs[1..][i], f.sn)
      {
        assert forall i :: 1 <= i < |segs| ==> segs[i] == segs[1..][i - 1];
      }
    }
  }

  // ----- what it counts

  /** There is only one acknowledgement that skips. */
  lemma {:induction false} ChosenUnique(m: Arith, segs: seq<Seg>, i: nat, j: nat)
    requires Chosen(m, segs, i) && Chosen(m, segs, j) && i <= j
    ensures i == j
    decreases j
  {
    hide Beats;
    if i < j {
      assert segs[..j][..i] == segs[..i];
      assert Chosen(m, segs[..j], i);
      var l: nat :| l < j && Chosen(m, segs[..j], l) && Beats(m, segs[j], segs[l]);
      hide Chosen;
      if l <= i { ChosenUnique(m, segs[..j], l, i); } else { ChosenUnique(m, segs[..j], i, l); }
    }
  }

  /** The acknowledgement that skips in this datagram is of a number that is in flight, or was, behind it. */
  ghost predicate Counts(m: Arith, k: Kcb, p: Parsed, j: nat)
    requires k.cfg.mss > 0
  {
    && p.code == 0 && Chosen(m, p.segs, j)
    && var s := Input(m, k, p).snd; 0 <= Off(m, p.segs[j].sn, s.una) < Off(m, s.nxt, s.una)
  }

  /** And it skips f: its number is later than that of f, and its time not earlier. */
  ghost predicate SkipsOver(m: Arith, k: Kcb, p: Parsed, f: Flight)
    requires k.cfg.mss > 0
  {
    exists j: nat :: Counts(m, k, p, j) && Counted(m, Input(m, k, p).snd.una, f, p.segs[j].sn, p.segs[j].ts)
  }

  /** One more skip. */
  function Skipped(f: Flight): Flight {
    f.(fastack := U32(f.fastack + 1))
  }

  lemma {:induction false} FinishSnd(m: Arith, s: Inner, prevUna: nat)
    requires KcbOk(m, s.kcb) && (s.best.flag ==> Num(m, s.best.maxack))
    ensures var s', o := Finish(m, s, prevUna).snd, s.kcb.snd;
      && s'.una == o.una && s'.nxt == o.nxt && |s'.buf| == |o.buf|
      && forall i :: 0 <= i < |o.buf| ==>
           s'.buf[i] == if s.best.flag && 0 <= Off(m, s.best.maxack, o.una) < Off(m, o.nxt, o.una)
                           && Counted(m, o.una, o.buf[i], s.best.maxack, s.best.ts)
                        then Skipped(o.buf[i]) else o.buf[i]
  {
    var o := s.kcb.snd;
    if s.best.flag {
      InFlightOffset(m, o, s.best.maxack);
      if InFlight(m, o, s.best.maxack) {
        SkipExact(m, o.una, Off(m, o.nxt, o.una), o.buf, s.best.maxack, s.best.ts);
      }
    }
    hide KcbOk, Skip, Counted, Congestion.OnAck, Off, Diff, InFlight;
  }

  lemma {:induction false} ChosenReadable(m: Arith, segs: seq<Seg>, b: Best)
    requires BestOf(m, segs, b) && b.flag && forall i :: 0 <= i < |segs| ==> Readable(m, segs[i])
    ensures Num(m, b.maxack)
  {
  }

  lemma {:induction false} SkipsIs(m: Arith, k: Kcb, p: Parsed, b: Best, f: Flight)
    requires k.cfg.mss > 0 && p.code == 0 && BestOf(m, p.segs, b)
    ensures var s := Input(m, k, p).snd;
      SkipsOver(m, k, p, f) <==>
        b.flag && 0 <= Off(m, b.maxack, s.una) < Off(m, s.nxt, s.una) && Counted(m, s.una, f, b.maxack, b.ts)
  {
    hide Input, Off, Counted;
    if b.flag {
      var j: nat :| Chosen(m, p.segs, j) && b.maxack == p.segs[j].sn && b.ts == p.segs[j].ts;
      forall i: nat | Chosen(m, p.segs, i) ensures i == j {
        if i <= j { ChosenUnique(m, p.segs, i, j); } else { ChosenUnique(m, p.segs, j, i); }
      }
      hide Chosen;
      assert Counts(m, k, p, j) <==> 0 <= Off(m, b.maxack, Input(m, k, p).snd.una)
                                     < Off(m, Input(m, k, p).snd.nxt, Input(m, k, p).snd.una);
    }
  }

  /** The segments no segment of the datagram acknowledged. */
  ghost predicate Unacked(m: Arith, k: Kcb, segs: seq<Seg>, kept: seq<Flight>) {
    && Within(kept, k.snd.buf)
    && ((forall i :: 0 <= i < |segs| ==> NearUna(m, segs[i], k.snd.una)) ==>
          forall f :: f in kept <==> f in k.snd.buf && forall i :: 0 <= i < |segs| ==> !Acked(m, segs[i], f.sn))
  }

  lemma {:induction false} KeptIs(m: Arith, k: Kcb, segs: seq<Seg>)
    requires KcbOk(m, k) && forall i :: 0 <= i < |segs| ==> Readable(m, segs[i])
    ensures var s := ProcessAll(m, Inner(k, NO_ACK), segs); KcbOk(m, s.kcb) && Unacked(m, k, segs, s.kcb.snd.buf)
  {
    var st := Inner(k, NO_ACK);
    ProcessAllWithin(m, st, segs);
    ProcessAllOk(m, st, segs);
    if forall i :: 0 <= i < |segs| ==> NearUna(m, segs[i], k.snd.una) {
      Survivors(m, st, segs, k.snd.una, Off(m, k.snd.nxt, k.snd.una));
    }
    hide KcbOk, ProcessAll, Within, NearUna, Readable, Acked;
  }

  lemma {:induction false} CountsOnce(m: Arith, k: Kcb, p: Parsed, s: Inner)
    requires k.cfg.mss > 0 && s == ProcessAll(m, Inner(k, NO_ACK), p.segs) && KcbOk(m, s.kcb)
    requires forall i :: 0 <= i < |p.segs| ==> Readable(m, p.segs[i])
    ensures var buf, buf' := s.kcb.snd.buf, Input(m, k, p).snd.buf;
      |buf'| == |buf| && forall i :: 0 <= i < |buf| ==>
        buf'[i] == if SkipsOver(m, k, p, buf[i]) then Skipped(buf[i]) else buf[i]
  {
    hide KcbOk, ProcessAll, Counted, Off, Skipped, Finish, BestOf;
    var buf := s.kcb.snd.buf;
    if p.code == 0 {
      BestIs(m, k, p.segs);
      if s.best.flag { ChosenReadable(m, p.segs, s.best); }
      FinishSnd(m, s, k.snd.una);
      hide SkipsOver;
      forall i | 0 <= i < |buf|
        ensures Input(m, k, p).snd.buf[i] == if SkipsOver(m, k, p, buf[i]) then Skipped(buf[i]) else buf[i]
      {
        SkipsIs(m, k, p, s.best, buf[i]);
      }
    }
  }

  /** What ikcp_input does to snd_buf: it keeps the segments that no segment of the datagram acknowledged, and counts
      each of these once if and only if the chosen acknowledgement skips it. */
  lemma {:induction false} InputSegments(m: Arith, k: Kcb, p: Parsed) returns (kept: seq<Flight>)
    requires KcbOk(m, k) && forall i :: 0 <= i < |p.segs| ==> Readable(m, p.segs[i])
    ensures k.cfg.mss > 0 && Unacked(m, k, p.segs, kept)
    ensures var buf' := Input(m, k, p).snd.buf;
      |buf'| == |kept| && forall i :: 0 <= i < |kept| ==>
        buf'[i] == if SkipsOver(m, k, p, kept[i]) then Skipped(kept[i]) else kept[i]
  {
    var s := ProcessAll(m, Inner(k, NO_ACK), p.segs);
    kept := s.kcb.snd.buf;
    KeptIs(m, k, p.segs);
    hide ProcessAll, Unacked, Readable, SkipsOver, Skipped, Input, SndOk, RcvOk, Congestion.CcOk;
    CountsOnce(m, k, p, s);
  }

  lemma {:induction false} BestIs(m: Arith, k: Kcb, segs: seq<Seg>)
    ensures BestOf(m, segs, ProcessAll(m, Inner(k, NO_ACK), segs).best)
  {
    assert BestOf(m, [], NO_ACK);
    ProcessAllBest(m, Inner(k, NO_ACK), [], segs);
    assert [] + segs == segs;
  }

  // ----- fast retransmission

  ghost predicate Readables(m: Arith, p: Parsed) {
    forall i :: 0 <= i < |p.segs| ==> Readable(m, p.segs[i])
  }

  lemma {:induction false} OneNumber(m: Arith, s: Snd, f: Flight, g: Flight)
    requires SndOk(m, s) && f in s.buf && g in s.buf && f.sn == g.sn
    ensures f == g
  {
    hide Off, Num;
  }

  /** A segment that stays in flight over one datagram. */
  lemma {:induction false} StaysOnce(m: Arith, k: Kcb, p: Parsed, f: Flight, f': Flight)
    requires KcbOk(m, k) && Readables(m, p) && f in k.snd.buf && f.sn == f'.sn
    requires k.cfg.mss > 0 && f' in Input(m, k, p).snd.buf
    ensures f' == if SkipsOver(m, k, p, f) then Skipped(f) else f
  {
    var kept := InputSegments(m, k, p);
    hide SkipsOver, Input, Unacked;
    var i :| 0 <= i < |kept| && Input(m, k, p).snd.buf[i] == f';
    assert kept[i] in k.snd.buf by { KeptWithin(m, k, p.segs, kept, i); }
    OneNumber(m, k.snd, kept[i], f);
  }

  lemma {:induction false} KeptWithin(m: Arith, k: Kcb, segs: seq<Seg>, kept: seq<Flight>, i: nat)
    requires Unacked(m, k, segs, kept) && i < |kept|
    ensures kept[i] in k.snd.buf
  {
  }

  /** ikcp_input of these datagrams. */
  function Inputs(m: Arith, k: Kcb, ps: seq<Parsed>): (k': Kcb)
    requires k.cfg.mss > 0
    ensures k'.cfg == k.cfg && k'.clk == k.clk
  {
    if ps == [] then k
    else
      var k1 := Inputs(m, k, ps[..|ps| - 1]);
      ProcessAllCfg(m, Inner(k1, NO_ACK), ps[|ps| - 1].segs);
      Input(m, k1, ps[|ps| - 1])
  }

  /** The segment, as far as it was skipped, when the n-th datagram comes. */
  ghost predicate SkippedEach(m: Arith, k: Kcb, ps: seq<Parsed>, f: Flight)
    requires k.cfg.mss > 0
  {
    forall n :: 0 <= n < |ps| ==> Readables(m, ps[n]) && SkipsOver(m, Inputs(m, k, ps[..n]), ps[n], Times(f, n))
  }

  function Times(f: Flight, n: nat): Flight {
    f.(fastack := U32(f.fastack + n))
  }

  lemma {:induction false} SkippedAgain(f: Flight, n: nat)
    ensures Skipped(Times(f, n)) == Times(f, n + 1) && Times(f, 0) == f
  {
    assert f.fastack + n == MOD * ((f.fastack + n) / MOD) + U32(f.fastack + n);
    ModShift(U32(f.fastack + n) + 1, (f.fastack + n) / MOD);
  }

  lemma {:induction false} StaysBefore(m: Arith, k: Kcb, p: Parsed, f': Flight) returns (f: Flight)
    requires KcbOk(m, k) && Readables(m, p) && k.cfg.mss > 0 && f' in Input(m, k, p).snd.buf
    ensures f in k.snd.buf && f.sn == f'.sn
  {
    var kept := InputSegments(m, k, p);
    hide SkipsOver, Input, Unacked;
    var i :| 0 <= i < |kept| && Input(m, k, p).snd.buf[i] == f';
    KeptWithin(m, k, p.segs, kept, i);
    f := kept[i];
  }

  /** A segment in flight that n datagrams skip, and that is still in flight then, has been counted n times. */
  lemma {:induction false} SkipsAddUp(m: Arith, k: Kcb, ps: seq<Parsed>, f: Flight, f': Flight)
    requires KcbOk(m, k) && k.cfg.mss > 0 && f in k.snd.buf && SkippedEach(m, k, ps, f)
    requires f' in Inputs(m, k, ps).snd.buf && f'.sn == f.sn
    ensures KcbOk(m, Inputs(m, k, ps)) && f' == Times(f, |ps|)
  {
    hide KcbOk, SkipsOver, Input, Readables;
    if ps == [] {
      SkippedAgain(f, 0);
      SameNumber(m, k, f, f');
    } else {
      var n := |ps| - 1;
      var k1, p := Inputs(m, k, ps[..n]), ps[n];
      assert forall j :: 0 <= j < n ==> ps[..n][..j] == ps[..j];
      AllOk(m, k, ps[..n]);
      assert Readables(m, p) && SkipsOver(m, k1, p, Times(f, n));
      var g := StaysBefore(m, k1, p, f');
      SkipsAddUp(m, k, ps[..n], f, g);
      StaysOnce(m, k1, p, g, f');
      SkippedAgain(f, n);
      StepOk(m, k1, p);
    }
  }

  lemma {:induction false} SameNumber(m: Arith, k: Kcb, f: Flight, f': Flight)
    requires KcbOk(m, k) && f in k.snd.buf && f' in k.snd.buf && f.sn == f'.sn
    ensures f == f'
  {
    OneNumber(m, k.snd, f, f');
  }

  lemma {:induction false} StepOk(m: Arith, k: Kcb, p: Parsed)
    requires KcbOk(m, k) && Readables(m, p) && k.cfg.mss > 0
    ensures KcbOk(m, Input(m, k, p))
  {
    InputOk(m, k, p);
  }

  lemma {:induction false} AllOk(m: Arith, k: Kcb, ps: seq<Parsed>)
    requires KcbOk(m, k) && k.cfg.mss > 0 && forall n :: 0 <= n < |ps| ==> Readables(m, ps[n])
    ensures KcbOk(m, Inputs(m, k, ps))
  {
    hide KcbOk, Input, Readables;
    if ps != [] {
      AllOk(m, k, ps[..|ps| - 1]);
      StepOk(m, Inputs(m, k, ps[..|ps| - 1]), ps[|ps| - 1]);
    }
  }

  /** Fast retransmission: a segment that was sent, but not too often, and that as many datagrams have skipped as fast
      resend asks for, is sent by the next flush if it is still in flight; if it is not due that clears its count. */
  lemma {:induction false} FastRetransmit(m: Arith, k: Kcb, ps: seq<Parsed>, f: Flight, f': Flight)
    requires KcbOk(m, k) && k.cfg.mss > 0 && k.clk.updated && f in k.snd.buf && SkippedEach(m, k, ps, f)
    requires f' in Inputs(m, k, ps).snd.buf && f'.sn == f.sn
    requires 0 < k.cfg.fastresend <= f.fastack + |ps| < MOD
    requires 0 < f.xmit < HALF && (k.cfg.fastlimit <= 0 || f.xmit <= k.cfg.fastlimit)
    ensures var k1 := Inputs(m, k, ps);
      && (exists q :: q in Emitted(m, k1) && q.cmd.Push? && q.sn == f.sn && q.data == f.data)
      && (TimedOut(k1, f') || exists g :: g in Flush(m, k1).snd.buf && g.sn == f.sn && g.fastack == 0 && g.rto == f.rto
                                          && g.xmit == f.xmit + 1)
  {
    hide KcbOk, SkippedEach, Inputs, Flush, Emitted, Treated, Unsent;
    SkipsAddUp(m, k, ps, f, f');
    var k1 := Inputs(m, k, ps);
    assert f'.fastack == f.fastack + |ps|;
    var i :| 0 <= i < |k1.snd.buf| && k1.snd.buf[i] == f';
    assert TimedOut(k1, f') || SkippedOften(k1, f');
    FlushData(m, k1);
    var buf := FlushSegments(m, k1);
    var g := Flush(m, k1).snd.buf[i];
    assert ToSend(k1, i);
    hide SkippedOften, TimedOut, ToSend;
    FastSent(k1, f', g);
    assert Carried(Emitted(m, k1), g);
  }

  lemma {:induction false} FastSent(k: Kcb, f: Flight, g: Flight)
    requires Treated(k, f, g) && 0 < f.xmit < HALF
    ensures g.sn == f.sn && g.data == f.data
    ensures !TimedOut(k, f) && SkippedOften(k, f) ==> g.fastack == 0 && g.rto == f.rto && g.xmit == f.xmit + 1
  {
  }

  // ----- the window it reads, and what it asks for

  /** The window read last counts. */
  lemma {:induction false} InputWindow(m: Arith, k: Kcb, p: Parsed)
    requires k.cfg.mss > 0
    ensures Input(m, k, p).prb.rmtWnd == if p.segs == [] then k.prb.rmtWnd else p.segs[|p.segs| - 1].wnd
    ensures Input(m, k, p).prb.askTell <==> k.prb.askTell || HasCmd(p.segs, Wask)
  {
    ProcessAllProbe(m, Inner(k, NO_ACK), p.segs);
    hide ProcessAll;
  }

  lemma {:induction false} ProcessAllProbe(m: Arith, s: Inner, segs: seq<Seg>)
    ensures var p := ProcessAll(m, s, segs).kcb.prb;
      && p.rmtWnd == (if segs == [] then s.kcb.prb.rmtWnd else segs[|segs| - 1].wnd)
      && (p.askTell <==> s.kcb.prb.askTell || HasCmd(segs, Wask))
    decreases |segs|
  {
    if segs != [] {
      ProcessProbe(m, s, segs[0]);
      hide Process;
      ProcessAllProbe(m, Process(m, s, segs[0]), segs[1..]);
      assert HasCmd(segs, Wask) <==> segs[0].cmd == Wask || HasCmd(segs[1..], Wask) by {
        assert forall i :: 1 <= i < |segs| ==> segs[i] == segs[1..][i - 1];
        if HasCmd(segs[1..], Wask) {
          var i :| 0 <= i < |segs[1..]| && segs[1..][i].cmd == Wask;
          assert segs[i + 1].cmd == Wask;
        }
      }
    }
  }

  lemma {:induction false} ProcessProbe(m: Arith, s: Inner, q: Seg)
    ensures var p := Process(m, s, q).kcb.prb;
      p.rmtWnd == q.wnd && (p.askTell <==> s.kcb.prb.askTell || q.cmd == Wask)
  {
    hide ParseUna, ParseAck, SampleRtt, TakePush, BetterAck;
  }

  /** A probe is answered by the next flush, with the room there is. */
  lemma {:induction false} ProbeAnswered(m: Arith, k: Kcb, p: Parsed)
    requires k.cfg.mss > 0 && k.clk.updated && HasCmd(p.segs, Wask)
    ensures var k' := Input(m, k, p); var out := Emitted(m, k');
      HasCmd(out, Wins) && forall j :: 0 <= j < |out| ==> Advertises(k', out[j])
  {
    InputWindow(m, k, p);
    InputClock(m, k, p);
    hide Emitted, Input, Advertises, HasCmd, Acknowledges;
    FlushSignals(m, Input(m, k, p));
  }

  lemma {:induction false} InputClock(m: Arith, k: Kcb, p: Parsed)
    requires k.cfg.mss > 0
    ensures Input(m, k, p).clk == k.clk && Input(m, k, p).cfg == k.cfg
  {
    ProcessAllCfg(m, Inner(k, NO_ACK), p.segs);
    hide ProcessAll;
  }

  // ----- data

  /** The segment as it is kept. */
  function PartOf(q: Seg): Part {
    Part(q.sn, q.frg, q.data)
  }

  /** A data segment below the end of the receive window is acknowledged with its own number and time, new or not; it is
      kept if and only if it is in the window and its number is not there yet, and nothing kept is lost. */
  lemma {:induction false} PushLaw(m: Arith, wnd: nat, r: Rcv, q: Seg)
    requires RcvOk(m, wnd, r) && Num(m, q.sn)
    ensures var r' := TakePush(m, wnd, r, q);
      && r'.acks == (if Diff(m, q.sn, Add(m, r.nxt, wnd)) < 0 then r.acks + [AckItem(q.sn, q.ts)] else r.acks)
      && forall p :: p in r'.queue + r'.buf <==>
           p in r.queue + r.buf || (p == PartOf(q) && 0 <= Off(m, q.sn, r.nxt) < wnd && !Has(r.buf, q.sn))
  {
    var p, r1 := PartOf(q), r.(acks := r.acks + [AckItem(q.sn, q.ts)]);
    InWindowOffset(m, wnd, r.nxt, q.sn);
    if InWindow(m, wnd, r, q.sn) {
      InsertExact(m, wnd, r, p);
      InsertAscending(m, r.nxt, wnd, r.buf, p);
      var r2 := r1.(buf := Insert(m, r.buf, p));
      MoveReadyOk(m, wnd, r2);
      hide Insert, MoveReady, Off, Diff, Add, Ascending, Consecutive, Has;
      forall x ensures x in MoveReady(m, wnd, r2).queue + MoveReady(m, wnd, r2).buf <==> x in r2.queue + r2.buf { }
    }
  }

  lemma {:induction false} InsertExact(m: Arith, wnd: nat, r: Rcv, p: Part)
    requires RcvOk(m, wnd, r)
    ensures forall x :: x in Insert(m, r.buf, p) <==> x in r.buf || (x == p && !Has(r.buf, p.sn))
  {
    InsertMembers(m, r.buf, p);
    if Has(r.buf, p.sn) {
      var i :| 0 <= i < |r.buf| && r.buf[i].sn == p.sn;
      InsertRepeat(m, r.nxt, wnd, r.buf, p, i);
      assert forall x :: x in Insert(m, r.buf, p) <==> x in r.buf;
    } else {
      var ins := Insert(m, r.buf, p);
      var i :| 0 <= i < |ins| && ins[i].sn == p.sn;
      assert ins[i] in ins;
    }
  }

  // ----- the congestion window

  /** snd_una moves on inside the window, if at all. */
  predicate MovesOn(m: Arith, s: Snd, s': Snd) {
    s'.nxt == s.nxt && Num(m, s'.una) && 0 <= Off(m, s'.una, s.una) <= Off(m, s.nxt, s.una) <= 65535
  }

  lemma {:induction false} MovesOnTrans(m: Arith, a: Snd, b: Snd, c: Snd)
    requires MovesOn(m, a, b) && MovesOn(m, b, c)
    ensures MovesOn(m, a, c)
  {
    Rebase(m, a.nxt, a.una, b.una);
    OffSum(m, a.una, b.una, c.una);
  }

  lemma {:induction false} ProcessMoves(m: Arith, s: Inner, q: Seg)
    requires KcbOk(m, s.kcb) && Readable(m, q)
    ensures MovesOn(m, s.kcb.snd, Process(m, s, q).kcb.snd) && Process(m, s, q).kcb.cc == s.kcb.cc
  {
    TakeHeaderOk(m, s.kcb, q);
    ProcessWithin(m, s, q);
    ProcessOk(m, s, q);
    var k := TakeHeader(m, s.kcb, q);
    hide ParseUna, Ordered, TakePush, BetterAck;
    assert MovesOn(m, s.kcb.snd, k.snd);
    if q.cmd.Ack? {
      TakeAckOk(m, k, q);
      hide MovesOn, Off;
      AckMoves(m, k, q);
      MovesOnTrans(m, s.kcb.snd, k.snd, TakeAck(m, k, q).snd);
    }
  }

  lemma {:induction false} AckMoves(m: Arith, k: Kcb, q: Seg)
    requires KcbOk(m, k)
    ensures MovesOn(m, k.snd, TakeAck(m, k, q).snd)
  {
    TakeAckOk(m, k, q);
    hide SampleRtt, Ordered, RemoveSn;
  }

  lemma {:induction false} ProcessAllMoves(m: Arith, s: Inner, segs: seq<Seg>)
    requires KcbOk(m, s.kcb) && forall i :: 0 <= i < |segs| ==> Readable(m, segs[i])
    ensures MovesOn(m, s.kcb.snd, ProcessAll(m, s, segs).kcb.snd) && ProcessAll(m, s, segs).kcb.cc == s.kcb.cc
    decreases |segs|
  {
    if segs == [] {
      hide Ordered;
      MovesNot(m, s.kcb);
    } else {
      hide KcbOk, MovesOn, Process, Readable;
      ProcessMoves(m, s, segs[0]);
      ProcessOk(m, s, segs[0]);
      ProcessAllMoves(m, Process(m, s, segs[0]), segs[1..]);
      MovesOnTrans(m, s.kcb.snd, Process(m, s, segs[0]).kcb.snd, ProcessAll(m, s, segs).kcb.snd);
    }
  }

  lemma {:induction false} MovesNot(m: Arith, k: Kcb)
    requires KcbOk(m, k)
    ensures MovesOn(m, k.snd, k.snd)
  {
    OffOfAdd(m, k.snd.una, 0);
    hide Ordered;
  }

  lemma {:induction false} UnaMoved(m: Arith, k: Kcb, una: nat)
    requires KcbOk(m, k) && Num(m, una) && 0 <= Off(m, una, k.snd.una) <= 65535
    ensures Diff(m, una, k.snd.una) > 0 <==> una != k.snd.una
  {
    hide Ordered;
  }

  /** The congestion window behind an acknowledgement that moved snd_una. */
  ghost predicate Opened(cc: Cc, cc': Cc, rmtWnd: nat, mss: nat) {
    if cc.cwnd >= rmtWnd then cc' == cc
    else if cc.cwnd < cc.ssthresh then Congestion.CcIs(cc', cc.cwnd + 1, cc.incr + mss, cc.ssthresh)
    else exists c: Cc :: Congestion.Avoided(cc, c, mss) && Congestion.Limited(cc', c, rmtWnd, mss)
  }

  lemma {:induction false} FinishCc(m: Arith, s: Inner, prevUna: nat)
    requires s.kcb.cfg.mss > 0
    ensures var k, k' := s.kcb, Finish(m, s, prevUna);
      && k'.snd.una == k.snd.una && k'.prb == k.prb
      && k'.cc == if Diff(m, k.snd.una, prevUna) > 0 then Congestion.OnAck(k.cc, k.prb.rmtWnd, k.cfg.mss) else k.cc
  {
    hide Skip, Diff, InFlight, Congestion.OnAck;
  }

  lemma {:induction false} OnAckOpens(m: Arith, k: Kcb)
    requires KcbOk(m, k) && SmallResend(k.cfg)
    ensures Opened(k.cc, Congestion.OnAck(k.cc, k.prb.rmtWnd, k.cfg.mss), k.prb.rmtWnd, k.cfg.mss)
  {
    Congestion.OnAckLaw(k.cc, k.prb.rmtWnd, k.cfg.mss);
  }

  lemma {:induction false} BehindLoop(m: Arith, k: Kcb, segs: seq<Seg>)
    requires KcbOk(m, k) && forall i :: 0 <= i < |segs| ==> Readable(m, segs[i])
    ensures var k' := ProcessAll(m, Inner(k, NO_ACK), segs).kcb;
      && KcbOk(m, k') && k'.cfg == k.cfg && k'.cc == k.cc
      && (Diff(m, k'.snd.una, k.snd.una) > 0 <==> k'.snd.una != k.snd.una)
  {
    var st := Inner(k, NO_ACK);
    ProcessAllOk(m, st, segs);
    ProcessAllMoves(m, st, segs);
    ProcessAllCfg(m, st, segs);
    UnaMoved(m, k, ProcessAll(m, st, segs).kcb.snd.una);
    hide ProcessAll, KcbOk, Diff, Off;
  }

  /** The congestion window opens exactly when snd_una moved: by one segment in slow start, by congestion avoidance
      behind it, up to the peer's window. */
  lemma {:induction false} InputCongestion(m: Arith, k: Kcb, p: Parsed)
    requires KcbOk(m, k) && Readables(m, p) && SmallResend(k.cfg)
    ensures var k' := Input(m, k, p);
      if p.code != 0 || k'.snd.una == k.snd.una then k'.cc == k.cc
      else Opened(k.cc, k'.cc, k'.prb.rmtWnd, k.cfg.mss)
  {
    var s := ProcessAll(m, Inner(k, NO_ACK), p.segs);
    BehindLoop(m, k, p.segs);
    OnAckOpens(m, s.kcb);
    FinishCc(m, s, k.snd.una);
    hide ProcessAll, KcbOk, Finish, Opened, Diff, Congestion.OnAck;
  }
}
