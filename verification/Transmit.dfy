/** The sending window of an endpoint: ikcp_shrink_buf, ikcp_parse_una, ikcp_parse_ack, ikcp_parse_fastack and the
    part of ikcp_flush that numbers queued fragments, as functions on `Snd`. */
module Transmit {
  import opened Serial
  import opened Types

  /** Numbers of snd_buf: strictly increasing, inside [base, base + lim). */
  ghost predicate Ordered(m: Arith, base: nat, lim: int, buf: seq<Flight>) {
    && (forall i :: 0 <= i < |buf| ==> Num(m, buf[i].sn) && 0 <= Off(m, buf[i].sn, base) < lim)
    && (forall i, j :: 0 <= i < j < |buf| ==> Off(m, buf[i].sn, base) < Off(m, buf[j].sn, base))
  }

  ghost predicate SndBase(m: Arith, s: Snd) {
    && Num(m, s.una) && Num(m, s.nxt) && 0 <= Off(m, s.nxt, s.una) <= 65535
    && Ordered(m, s.una, Off(m, s.nxt, s.una), s.buf)
  }

  /** snd_buf lies in [snd_una, snd_nxt), starts at snd_una, and is empty only if the window is. */
  ghost predicate SndOk(m: Arith, s: Snd) {
    && SndBase(m, s)
    && s.una == (if s.buf == [] then s.nxt else s.buf[0].sn)
  }

  /** ikcp_shrink_buf. */
  function Shrink(s: Snd): Snd {
    s.(una := if s.buf == [] then s.nxt else s.buf[0].sn)
  }

  /** ikcp_parse_una. */
  function ParseUna(m: Arith, buf: seq<Flight>, una: nat): seq<Flight> {
    if buf != [] && Diff(m, una, buf[0].sn) > 0 then ParseUna(m, buf[1..], una) else buf
  }

  /** The search loop of ikcp_parse_ack. */
  function RemoveSn(m: Arith, buf: seq<Flight>, sn: nat): seq<Flight> {
    if buf == [] then []
    else if sn == buf[0].sn then buf[1..]
    else if Diff(m, sn, buf[0].sn) < 0 then buf
    else [buf[0]] + RemoveSn(m, buf[1..], sn)
  }

  predicate InFlight(m: Arith, s: Snd, sn: nat) {
    Diff(m, sn, s.una) >= 0 && Diff(m, sn, s.nxt) < 0
  }

  /** ikcp_parse_ack. */
  function ParseAck(m: Arith, s: Snd, sn: nat): Snd {
    if InFlight(m, s, sn) then s.(buf := RemoveSn(m, s.buf, sn)) else s
  }

  /** The counting loop of ikcp_parse_fastack (IKCP_FASTACK_CONSERVE). */
  function Skip(m: Arith, buf: seq<Flight>, sn: nat, ts: u32): seq<Flight> {
    if buf == [] || Diff(m, sn, buf[0].sn) < 0 then buf
    else
      var f := buf[0];
      [if sn != f.sn && TimeDiff(ts, f.ts) >= 0 then f.(fastack := U32(f.fastack + 1)) else f]
      + Skip(m, buf[1..], sn, ts)
  }

  /** ikcp_parse_fastack. */
  function ParseFastack(m: Arith, s: Snd, sn: nat, ts: u32): Snd {
    if InFlight(m, s, sn) then s.(buf := Skip(m, s.buf, sn, ts)) else s
  }

  /** "move data from snd_queue to snd_buf": number fragments while the window is open. */
  function Fill(m: Arith, s: Snd, cwnd: nat, current: u32, rto: u32): Snd
    decreases |s.queue|
  {
    if Diff(m, s.nxt, Add(m, s.una, cwnd)) < 0 && s.queue != [] then
      Fill(m, Numbered(m, s, current, rto), cwnd, current, rto)
    else s
  }

  function Numbered(m: Arith, s: Snd, current: u32, rto: u32): Snd
    requires s.queue != []
  {
    var q := s.queue[0];
    Snd(s.una, Add(m, s.nxt, 1), s.queue[1..],
        s.buf + [Flight(s.nxt, q.frg, q.data, current, current, rto, 0, 0)])
  }

  // ----- what the operations keep

  /** Dropping a prefix, or one element, keeps the order. */
  lemma {:induction false} OrderedSub(m: Arith, base: nat, lim: int, buf: seq<Flight>, k: nat)
    requires Ordered(m, base, lim, buf) && k < |buf|
    ensures Ordered(m, base, lim, buf[k..]) && Ordered(m, base, lim, Without(buf, k))
  {
    hide Off, Num;
  }

  /** ikcp_shrink_buf puts snd_una back on the head. */
  lemma {:induction false} ShrinkOk(m: Arith, s: Snd)
    requires SndBase(m, s)
    ensures SndOk(m, Shrink(s))
    ensures 0 <= Off(m, Shrink(s).una, s.una) <= Off(m, s.nxt, s.una)
  {
    var s' := Shrink(s);
    Rebase(m, s.nxt, s.una, s'.una);
    forall i | 0 <= i < |s.buf|
      ensures Off(m, s.buf[i].sn, s'.una) == Off(m, s.buf[i].sn, s.una) - Off(m, s'.una, s.una)
    {
      if i > 0 { assert Off(m, s.buf[0].sn, s.una) < Off(m, s.buf[i].sn, s.una); }
      Rebase(m, s.buf[i].sn, s.una, s'.una);
    }
  }

  /** ikcp_parse_una drops a prefix, for any una whatever. */
  lemma {:induction false} ParseUnaSuffix(m: Arith, buf: seq<Flight>, una: nat) returns (k: nat)
    ensures k <= |buf| && ParseUna(m, buf, una) == buf[k..]
    ensures forall i :: 0 <= i < k ==> Diff(m, una, buf[i].sn) > 0
    ensures k < |buf| ==> Diff(m, una, buf[k].sn) <= 0
  {
    if buf != [] && Diff(m, una, buf[0].sn) > 0 {
      var k0 := ParseUnaSuffix(m, buf[1..], una);
      k := k0 + 1;
      assert buf[1..][k0..] == buf[k..];
      forall i | 0 <= i < k ensures Diff(m, una, buf[i].sn) > 0 {
        if i > 0 { assert buf[i] == buf[1..][i - 1]; }
      }
    } else {
      k := 0;
    }
  }

  function Without<T>(s: seq<T>, k: nat): seq<T> {
    if k < |s| then s[..k] + s[k + 1..] else s
  }

  lemma {:induction false} WithoutCons<T>(s: seq<T>, k: nat)
    requires s != []
    ensures [s[0]] + Without(s[1..], k) == Without(s, k + 1)
  {
  }

  /** ikcp_parse_ack's loop removes at most one segment, and only the one with that number. */
  lemma {:induction false} RemoveSnOne(m: Arith, buf: seq<Flight>, sn: nat) returns (k: nat)
    ensures k <= |buf| && RemoveSn(m, buf, sn) == Without(buf, k)
    ensures k < |buf| ==> buf[k].sn == sn
  {
    if buf == [] || sn == buf[0].sn {
      k := 0;
    } else if Diff(m, sn, buf[0].sn) < 0 {
      k := |buf|;
    } else {
      var k0 := RemoveSnOne(m, buf[1..], sn);
      k := k0 + 1;
      WithoutCons(buf, k0);
    }
  }

  lemma {:induction false} AckUnaOk(m: Arith, s: Snd, una: nat)
    requires SndBase(m, s)
    ensures SndOk(m, Shrink(s.(buf := ParseUna(m, s.buf, una))))
    ensures 0 <= Off(m, Shrink(s.(buf := ParseUna(m, s.buf, una))).una, s.una) <= Off(m, s.nxt, s.una)
  {
    var k := ParseUnaSuffix(m, s.buf, una);
    if k < |s.buf| { OrderedSub(m, s.una, Off(m, s.nxt, s.una), s.buf, k); }
    ShrinkOk(m, s.(buf := s.buf[k..]));
  }

  lemma {:induction false} AckOneOk(m: Arith, s: Snd, sn: nat)
    requires SndOk(m, s)
    ensures SndOk(m, Shrink(ParseAck(m, s, sn)))
    ensures 0 <= Off(m, Shrink(ParseAck(m, s, sn)).una, s.una) <= Off(m, s.nxt, s.una)
  {
    var k := RemoveSnOne(m, s.buf, sn);
    if k < |s.buf| { OrderedSub(m, s.una, Off(m, s.nxt, s.una), s.buf, k); }
    ShrinkOk(m, ParseAck(m, s, sn));
  }

  /** ikcp_parse_fastack touches nothing but fastack counters. */
  lemma {:induction false} SkipSame(m: Arith, buf: seq<Flight>, sn: nat, ts: u32)
    ensures |Skip(m, buf, sn, ts)| == |buf|
    ensures forall i :: 0 <= i < |buf| ==>
      Skip(m, buf, sn, ts)[i] == buf[i] || Skip(m, buf, sn, ts)[i] == buf[i].(fastack := U32(buf[i].fastack + 1))
  {
    if buf == [] || Diff(m, sn, buf[0].sn) < 0 {
    } else {
      SkipSame(m, buf[1..], sn, ts);
    }
  }

  lemma {:induction false} FastackOk(m: Arith, s: Snd, sn: nat, ts: u32)
    requires SndOk(m, s)
    ensures SndOk(m, ParseFastack(m, s, sn, ts))
  {
    SkipSame(m, s.buf, sn, ts);
  }

  /** One fragment entering the window: the window test keeps the in-flight count within cwnd. */
  lemma {:induction false} NumberedOk(m: Arith, s: Snd, cwnd: nat, current: u32, rto: u32)
    requires SndOk(m, s) && cwnd <= 65535 && s.queue != []
    requires Diff(m, s.nxt, Add(m, s.una, cwnd)) < 0
    ensures Off(m, s.nxt, s.una) < cwnd
    ensures SndOk(m, Numbered(m, s, current, rto))
  {
    OffOfAdd(m, s.una, cwnd);
    DiffIsOffset(m, s.nxt, Add(m, s.una, cwnd), s.una);
    var s' := Numbered(m, s, current, rto);
    OffOfAdd(m, s.nxt, 1);
    NextOff(m, s.nxt, s.una);
    assert forall i :: 0 <= i < |s.buf| ==> s'.buf[i] == s.buf[i];
  }

  lemma {:induction false} NextOff(m: Arith, a: nat, base: nat)
    requires Num(m, a) && 0 <= Off(m, a, base) <= 65535
    ensures Off(m, Add(m, a, 1), base) == Off(m, a, base) + 1
    ensures Num(m, Add(m, a, 1))
  {
    if m.Wrap? {
      assert a - base == MOD * ((a - base) / MOD) + Off(m, a, base);
      if a + 1 == MOD {
        ModShift(Off(m, a, base) + 1, (a - base) / MOD - 1);
      } else {
        ModShift(Off(m, a, base) + 1, (a - base) / MOD);
      }
    }
  }

  /** Numbering keeps the window invariant, and takes fragments from the queue in order. */
  lemma {:induction false} FillOk(m: Arith, s: Snd, cwnd: nat, current: u32, rto: u32)
    requires SndOk(m, s) && cwnd <= 65535
    ensures var s' := Fill(m, s, cwnd, current, rto);
      && SndOk(m, s') && s'.una == s.una && |s'.queue| <= |s.queue| && s'.queue == s.queue[|s.queue| - |s'.queue|..]
      && s.buf <= s'.buf && |s'.buf| - |s.buf| == |s.queue| - |s'.queue|
    decreases |s.queue|
  {
    if Diff(m, s.nxt, Add(m, s.una, cwnd)) < 0 && s.queue != [] {
      NumberedOk(m, s, cwnd, current, rto);
      FillOk(m, Numbered(m, s, current, rto), cwnd, current, rto);
    }
  }

  /** Strictly increasing numbers in a window of lim are at most lim many. */
  lemma {:induction false} OrderedFits(m: Arith, base: nat, lim: int, buf: seq<Flight>)
    requires Ordered(m, base, lim, buf) && 0 <= lim
    ensures |buf| <= lim
  {
    if buf != [] {
      var n := |buf| - 1;
      OrderedFits(m, base, Off(m, buf[n].sn, base), buf[..n]);
    }
  }

  // ----- exactly what the operations do

  /** Numbering goes on exactly until the queue is empty or cwnd numbers are in flight, and never past that. */
  lemma {:induction false} FillExtent(m: Arith, s: Snd, cwnd: nat, current: u32, rto: u32)
    requires SndOk(m, s) && cwnd <= 65535
    ensures var s' := Fill(m, s, cwnd, current, rto);
      && (|s'.queue| < |s.queue| ==> Off(m, s'.nxt, s.una) <= cwnd)
      && (s'.queue != [] ==> Off(m, s'.nxt, s.una) >= cwnd)
      && |s'.queue| <= |s.queue| && Off(m, s'.nxt, s.una) == Off(m, s.nxt, s.una) + |s.queue| - |s'.queue|
    decreases |s.queue|
  {
    OffOfAdd(m, s.una, cwnd);
    DiffIsOffset(m, s.nxt, Add(m, s.una, cwnd), s.una);
    if Diff(m, s.nxt, Add(m, s.una, cwnd)) < 0 && s.queue != [] {
      NumberedOk(m, s, cwnd, current, rto);
      NextOff(m, s.nxt, s.una);
      hide SndOk, Off, Diff, Add;
      FillExtent(m, Numbered(m, s, current, rto), cwnd, current, rto);
    }
  }

  /** The segment a queued fragment becomes. */
  predicate Unsent(f: Flight, q: Frag) {
    f.frg == q.frg && f.data == q.data && f.xmit == 0 && f.fastack == 0
  }

  lemma {:induction false} FillUnsent(m: Arith, s: Snd, cwnd: nat, current: u32, rto: u32)
    ensures var s' := Fill(m, s, cwnd, current, rto);
      && s.buf <= s'.buf && |s'.buf| - |s.buf| <= |s.queue|
      && forall i :: |s.buf| <= i < |s'.buf| ==> Unsent(s'.buf[i], s.queue[i - |s.buf|])
    decreases |s.queue|
  {
    if Diff(m, s.nxt, Add(m, s.una, cwnd)) < 0 && s.queue != [] {
      FillUnsent(m, Numbered(m, s, current, rto), cwnd, current, rto);
    }
  }

  /** The two comparisons of ikcp_parse_ack and ikcp_parse_fastack accept exactly the numbers in [snd_una, snd_nxt). */
  lemma {:induction false} InFlightOffset(m: Arith, s: Snd, sn: nat)
    requires SndOk(m, s) && Num(m, sn)
    ensures InFlight(m, s, sn) <==> 0 <= Off(m, sn, s.una) < Off(m, s.nxt, s.una)
  {
    var d := Off(m, sn, s.una);
    if 0 <= d < HALF {
      OffOfAdd(m, s.una, 0);
      DiffIsOffset(m, sn, s.nxt, s.una);
      DiffIsOffset(m, sn, s.una, s.una);
    }
  }

  /** One acknowledgement of a number in flight removes the segment with that number. */
  lemma {:induction false} RemoveSnAll(m: Arith, base: nat, lim: int, buf: seq<Flight>, sn: nat)
    requires Ordered(m, base, lim, buf) && lim <= 65535 && Num(m, sn) && 0 <= Off(m, sn, base) < lim
    ensures forall i :: 0 <= i < |RemoveSn(m, buf, sn)| ==> RemoveSn(m, buf, sn)[i].sn != sn
  {
    if buf != [] {
      Compare(m, sn, buf[0].sn, base);
      forall i | 1 <= i < |buf| ensures Off(m, buf[i].sn, base) > Off(m, buf[0].sn, base) { }
      hide Off, Diff, Num;
      if Diff(m, sn, buf[0].sn) > 0 {
        OrderedTail(m, base, lim, buf);
        RemoveSnAll(m, base, lim, buf[1..], sn);
      }
    }
  }

  lemma {:induction false} OrderedTail(m: Arith, base: nat, lim: int, buf: seq<Flight>)
    requires Ordered(m, base, lim, buf) && buf != []
    ensures Ordered(m, base, lim, buf[1..])
  {
    hide Off, Num;
  }

  /** What ikcp_parse_fastack does to a segment of snd_buf: it counts the acknowledgement if its number is later and its
      time is not earlier. */
  predicate Counted(m: Arith, base: nat, f: Flight, sn: nat, ts: u32) {
    Off(m, f.sn, base) < Off(m, sn, base) && TimeDiff(ts, f.ts) >= 0
  }

  function AfterSkip(m: Arith, base: nat, f: Flight, sn: nat, ts: u32): Flight {
    if Counted(m, base, f, sn, ts) then f.(fastack := U32(f.fastack + 1)) else f
  }

  ghost predicate AllCounted(m: Arith, base: nat, buf: seq<Flight>, sn: nat, ts: u32, r: seq<Flight>) {
    |r| == |buf| && forall i :: 0 <= i < |buf| ==> r[i] == AfterSkip(m, base, buf[i], sn, ts)
  }

  lemma {:induction false} CountedCons(m: Arith, base: nat, buf: seq<Flight>, sn: nat, ts: u32, r: seq<Flight>)
    requires buf != [] && AllCounted(m, base, buf[1..], sn, ts, r)
    ensures AllCounted(m, base, buf, sn, ts, [AfterSkip(m, base, buf[0], sn, ts)] + r)
  {
    hide AfterSkip;
    forall i | 1 <= i < |buf| ensures r[i - 1] == AfterSkip(m, base, buf[i], sn, ts) {
      assert buf[1..][i - 1] == buf[i];
    }
  }

  lemma {:induction false} NoneCounted(m: Arith, base: nat, lim: int, buf: seq<Flight>, sn: nat, ts: u32)
    requires Ordered(m, base, lim, buf) && (buf != [] ==> Off(m, sn, base) <= Off(m, buf[0].sn, base))
    ensures AllCounted(m, base, buf, sn, ts, buf)
  {
    hide Off, TimeDiff;
    forall i | 0 <= i < |buf| ensures Off(m, buf[i].sn, base) >= Off(m, sn, base) {
      if i > 0 { assert Off(m, buf[0].sn, base) < Off(m, buf[i].sn, base); }
    }
  }

  lemma {:induction false} SkipExact(m: Arith, base: nat, lim: int, buf: seq<Flight>, sn: nat, ts: u32)
    requires Ordered(m, base, lim, buf) && lim <= 65535 && Num(m, sn) && 0 <= Off(m, sn, base) < lim
    ensures AllCounted(m, base, buf, sn, ts, Skip(m, buf, sn, ts))
  {
    if buf != [] {
      Compare(m, sn, buf[0].sn, base);
      OrderedTail(m, base, lim, buf);
      hide Off, Diff, Num, TimeDiff, U32, Ordered;
      if Diff(m, sn, buf[0].sn) < 0 {
        NoneCounted(m, base, lim, buf, sn, ts);
      } else {
        SkipExact(m, base, lim, buf[1..], sn, ts);
        hide AllCounted;
        CountedCons(m, base, buf, sn, ts, Skip(m, buf[1..], sn, ts));
      }
    }
  }

  /** ikcp_parse_ack takes out the segment with the number acknowledged, if that is in flight, and no other. */
  lemma {:induction false} ParseAckExact(m: Arith, s: Snd, sn: nat)
    requires SndOk(m, s) && Num(m, sn)
    ensures var r := ParseAck(m, s, sn);
      if 0 <= Off(m, sn, s.una) < Off(m, s.nxt, s.una) then
        r == s.(buf := r.buf) && forall f :: f in r.buf <==> f in s.buf && f.sn != sn
      else r == s
  {
    InFlightOffset(m, s, sn);
    if InFlight(m, s, sn) {
      RemoveSnAll(m, s.una, Off(m, s.nxt, s.una), s.buf, sn);
      var k := RemoveSnOne(m, s.buf, sn);
      hide RemoveSn, Off, Diff, SndOk;
      forall f | f in s.buf && f.sn != sn ensures f in RemoveSn(m, s.buf, sn) {
        var i :| 0 <= i < |s.buf| && s.buf[i] == f;
        if i < k { assert Without(s.buf, k)[i] == f; } else if k < |s.buf| { assert Without(s.buf, k)[i - 1] == f; }
      }
    }
  }
}
