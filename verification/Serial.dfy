/** Serial-number arithmetic of ikcp.c.

    A sequence number is a natural number under one of two arithmetics: `Wrap` is the arithmetic of the
    program (IUINT32, compared by the sign of a 32-bit difference), `Exact` is the unbounded arithmetic that
    the protocol argument is about.  Everything else in the model takes the arithmetic as a parameter, so the
    endpoint is written once and the two readings of it can be compared. */
module Serial {
  const MOD := 0x1_0000_0000
  const HALF := 0x8000_0000

  type u32 = x: int | 0 <= x < 0x1_0000_0000

  /** Conversion to IUINT32. */
  function U32(x: int): u32 {
    x % 0x1_0000_0000
  }

  /** Conversion to IINT32 (two's complement). */
  function S32(x: int): int {
    var d := x % 0x1_0000_0000;
    if d < 0x8000_0000 then d else d - 0x1_0000_0000
  }

  /** _itimediff. */
  function TimeDiff(later: int, earlier: int): int {
    S32(later - earlier)
  }

  datatype Arith = Wrap | Exact

  /** An addition on sequence numbers. */
  function Add(m: Arith, a: nat, k: nat): nat {
    if m.Wrap? then U32(a + k) else a + k
  }

  /** The comparison of sequence numbers. */
  function Diff(m: Arith, a: nat, b: nat): int {
    if m.Wrap? then S32(a - b) else a - b
  }

  /** How far a lies ahead of base. */
  function Off(m: Arith, a: nat, base: nat): int {
    if m.Wrap? then U32(a - base) else a - base
  }

  /** A number the arithmetic can represent. */
  predicate Num(m: Arith, a: nat) {
    m.Wrap? ==> a < MOD
  }

  /** The 32-bit image of an unbounded number. */
  function Img(a: nat): nat {
    U32(a)
  }

  /** Inside half the number space the sign comparison is a comparison of distances. */
  lemma {:induction false} DiffIsOffset(m: Arith, a: nat, b: nat, base: nat)
    requires 0 <= Off(m, a, base) < HALF && 0 <= Off(m, b, base) < HALF
    ensures Diff(m, a, b) == Off(m, a, base) - Off(m, b, base)
  {
    if m.Wrap? {
      var x, y := Off(m, a, base), Off(m, b, base);
      assert (a - b) % MOD == (x - y) % MOD by {
        assert a - base == MOD * ((a - base) / MOD) + x;
        assert b - base == MOD * ((b - base) / MOD) + y;
        ModShift(x - y, (a - base) / MOD - (b - base) / MOD);
      }
    }
  }

  /** Order and equality of numbers that lie close ahead of a common base. */
  lemma {:induction false} Compare(m: Arith, a: nat, b: nat, base: nat)
    requires Num(m, a) && Num(m, b)
    requires 0 <= Off(m, a, base) < HALF && 0 <= Off(m, b, base) < HALF
    ensures Diff(m, a, b) > 0 <==> Off(m, a, base) > Off(m, b, base)
    ensures Diff(m, a, b) < 0 <==> Off(m, a, base) < Off(m, b, base)
    ensures a == b <==> Off(m, a, base) == Off(m, b, base)
  {
    DiffIsOffset(m, a, b, base);
    if Off(m, a, base) == Off(m, b, base) { OffInjective(m, a, b, base); }
  }

  lemma {:induction false} ModShift(r: int, k: int)
    ensures (r + MOD * k) % MOD == r % MOD
  {
  }

  /** Distances from a base that itself moved forward. */
  lemma {:induction false} Rebase(m: Arith, a: nat, base: nat, base': nat)
    requires 0 <= Off(m, base', base) <= Off(m, a, base)
    ensures Off(m, a, base') == Off(m, a, base) - Off(m, base', base)
  {
    if m.Wrap? {
      var x, y := Off(m, a, base), Off(m, base', base);
      assert a - base == MOD * ((a - base) / MOD) + x;
      assert base' - base == MOD * ((base' - base) / MOD) + y;
      ModShift(x - y, (a - base) / MOD - (base' - base) / MOD);
    }
  }

  lemma {:induction false} OffOfAdd(m: Arith, base: nat, k: nat)
    requires k < MOD
    ensures Off(m, Add(m, base, k), base) == k
    ensures Num(m, Add(m, base, k))
  {
    if m.Wrap? {
      assert base + k == MOD * ((base + k) / MOD) + U32(base + k);
      ModShift(k, -((base + k) / MOD));
    }
  }

  /** Numbers at the same distance are the same number. */
  lemma {:induction false} OffInjective(m: Arith, a: nat, b: nat, base: nat)
    requires Num(m, a) && Num(m, b)
    requires Off(m, a, base) == Off(m, b, base)
    ensures a == b
  {
  }

  /** A comparison with a number close ahead of a base, for a number not too far from the base. */
  lemma {:induction false} DiffSplit(m: Arith, a: nat, b: nat, base: nat)
    requires 0 <= Off(m, b, base) <= 65535 && Diff(m, a, base) >= 65535 - HALF
    ensures Diff(m, a, b) == Diff(m, a, base) - Off(m, b, base)
  {
    if m.Wrap? {
      var x, y := Diff(m, a, base), Off(m, b, base);
      assert (a - base) % MOD == x % MOD;
      assert a - base == MOD * ((a - base) / MOD) + (a - base) % MOD;
      assert b - base == MOD * ((b - base) / MOD) + y;
      ModShift((a - base) % MOD - y, (a - base) / MOD - (b - base) / MOD);
    }
  }

  /** The 32-bit comparison of two images agrees with the true numbers exactly while these are within half the
      number space of each other: the condition under which the protocol's comparisons can be trusted. */
  lemma {:induction false} ImageDiffExact(a: nat, b: nat)
    ensures Diff(Wrap, Img(a), Img(b)) == Diff(Exact, a, b) <==> -HALF <= a - b < HALF
  {
    assert a == MOD * (a / MOD) + Img(a);
    assert b == MOD * (b / MOD) + Img(b);
    ModShift(a - b, b / MOD - a / MOD);
  }

  /** The same for equality. */
  lemma {:induction false} ImageEqual(a: nat, b: nat)
    requires -MOD < a - b < MOD
    ensures Img(a) == Img(b) <==> a == b
  {
  }

  lemma {:induction false} ImageAdd(a: nat, k: nat)
    ensures Img(Add(Exact, a, k)) == Add(Wrap, Img(a), k)
  {
    assert a == MOD * (a / MOD) + Img(a);
    ModShift(Img(a) + k, a / MOD);
  }
}
