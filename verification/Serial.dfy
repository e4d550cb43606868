/** 32-bit sequence numbers and clocks, and the signed distance `_itimediff` between them. */
module Serial {
  type u8 = x: int | 0 <= x < 0x100
  type u16 = x: int | 0 <= x < 0x1_0000
  type u32 = x: int | 0 <= x < 0x1_0000_0000
  type i32 = x: int | -0x8000_0000 <= x < 0x8000_0000

  /** The number system a transition runs in: `W32` is the code's own; `Exact` is the same protocol
      over unbounded sequence numbers, against which the 32-bit one is compared. */
  datatype Width = W32 | Exact

  function U32(x: int): u32 {
    x % 0x1_0000_0000
  }

  /** Conversion to a signed 32-bit integer (two's complement). */
  function I32(x: int): i32 {
    var y := x % 0x1_0000_0000;
    if y < 0x8000_0000 then y else y - 0x1_0000_0000
  }

  /** Integer division of C, which truncates toward zero. */
  function TruncDiv(x: int, d: int): int
    requires d > 0
  {
    if x >= 0 then x / d else -((-x) / d)
  }

  lemma MulMono(a: nat, b: nat, m: nat)
    requires a <= b
    ensures a * m <= b * m
  {
  }

  function Add(w: Width, x: nat, k: nat): nat {
    match w
    case W32 => U32(x + k)
    case Exact => x + k
  }

  /** The signed distance from `earlier` to `later`. */
  function Diff(w: Width, later: nat, earlier: nat): int {
    match w
    case W32 => I32(later - earlier)
    case Exact => later - earlier
  }

  /** The distance of two 32-bit clock readings. */
  function Since(later: int, earlier: int): i32 {
    I32(later - earlier)
  }

  /** How far `x` lies ahead of `base`, going round. */
  function Offset(x: int, base: int): u32 {
    U32(x - base)
  }

  /** "Less than" of section 3.2 of RFC 1982 with SERIAL_BITS = 32. */
  predicate SerialLess(i1: u32, i2: u32) {
    (i1 < i2 && i2 - i1 < 0x8000_0000) || (i1 > i2 && i1 - i2 > 0x8000_0000)
  }

  /** Congruent numbers have the same low 32 bits. */
  lemma Congruent(x: int, y: int, q: int)
    requires x == y + q * 0x1_0000_0000
    ensures x % 0x1_0000_0000 == y % 0x1_0000_0000
  {
    var k := y / 0x1_0000_0000;
    assert x == (k + q) * 0x1_0000_0000 + y % 0x1_0000_0000;
  }

  /** `_itimediff(a, b) < 0` is RFC 1982 "less than", except that the pair at distance 2^31, which the RFC
      leaves undefined, counts as less in both directions. */
  lemma DiffIsSerialOrder(a: u32, b: u32)
    ensures Diff(W32, a, b) < 0 <==> SerialLess(a, b) || Offset(a, b) == 0x8000_0000
    ensures Diff(W32, a, b) == 0 <==> a == b
    ensures Diff(W32, a, b) > 0 <==> SerialLess(b, a)
  {
    assert a - b >= 0 ==> (a - b) % 0x1_0000_0000 == a - b;
    assert a - b < 0 ==> (a - b) % 0x1_0000_0000 == a - b + 0x1_0000_0000;
  }

  /** Wrapping both numbers first changes no distance that fits in 32 bits. */
  lemma DiffExact(a: nat, b: nat)
    requires -0x8000_0000 <= a - b < 0x8000_0000
    ensures Diff(W32, U32(a), U32(b)) == a - b
  {
    Congruent(U32(a) - U32(b), a - b, b / 0x1_0000_0000 - a / 0x1_0000_0000);
  }

  /** ... and the range in `DiffExact` is all there is: any other distance is reported wrongly. */
  lemma DiffExactOnlyThen(a: nat, b: nat)
    ensures Diff(W32, U32(a), U32(b)) == a - b <==> -0x8000_0000 <= a - b < 0x8000_0000
  {
    if -0x8000_0000 <= a - b < 0x8000_0000 {
      DiffExact(a, b);
    }
  }

  lemma WrapInjective(a: nat, b: nat)
    requires -0x1_0000_0000 < a - b < 0x1_0000_0000
    ensures U32(a) == U32(b) <==> a == b
  {
  }

  lemma WrapAdd(a: nat, k: nat)
    ensures Add(W32, U32(a), k) == U32(Add(Exact, a, k))
  {
    Congruent(U32(a) + k, a + k, -(a / 0x1_0000_0000));
  }

  lemma AddAdd(w: Width, a: nat, i: nat, j: nat)
    ensures Add(w, Add(w, a, i), j) == Add(w, a, i + j)
  {
    if w == W32 {
      Congruent(Add(w, a, i) + j, a + i + j, -((a + i) / 0x1_0000_0000));
    }
  }

  /** How far `x` lies ahead of `base`: going round in 32 bits, plainly (and possibly negatively) otherwise. */
  function Ahead(w: Width, x: nat, base: nat): int {
    match w
    case W32 => Offset(x, base)
    case Exact => x - base
  }

  predicate Numeral(w: Width, x: nat) {
    w.W32? ==> x < 0x1_0000_0000
  }

  /** Moving the base forward, not past `x`, shortens the way to `x` by the distance moved. */
  lemma AheadRebase(w: Width, x: nat, base: nat, base': nat)
    requires 0 <= Ahead(w, base', base) <= Ahead(w, x, base)
    ensures Ahead(w, x, base') == Ahead(w, x, base) - Ahead(w, base', base)
  {
    if w == W32 {
      Congruent(x - base', Offset(x, base) as int - Offset(base', base),
                (x - base) / 0x1_0000_0000 - (base' - base) / 0x1_0000_0000);
    }
  }

  lemma AheadInjective(w: Width, x: nat, y: nat, base: nat)
    requires Numeral(w, x) && Numeral(w, y)
    ensures Ahead(w, x, base) == Ahead(w, y, base) <==> x == y
  {
  }

  lemma AheadOfNext(w: Width, base: nat, k: nat)
    requires k < 0x1_0000_0000
    ensures Ahead(w, Add(w, base, k), base) == k
    ensures Numeral(w, Add(w, base, k))
  {
    if w == W32 {
      Congruent(Add(w, base, k) - base, k, -((base + k) / 0x1_0000_0000));
    }
  }

  /** The signed comparison is exact between numbers less than 2^31 apart ahead of a common base. */
  lemma DiffIsAhead(w: Width, x: nat, y: nat, base: nat)
    requires w.W32? ==> -0x8000_0000 <= Ahead(w, x, base) - Ahead(w, y, base) < 0x8000_0000
    ensures Diff(w, x, y) == Ahead(w, x, base) - Ahead(w, y, base)
  {
    if w == W32 {
      Congruent(x - y, Offset(x, base) as int - Offset(y, base),
                (x - base) / 0x1_0000_0000 - (y - base) / 0x1_0000_0000);
    }
  }

  lemma DiffFromBase(w: Width, x: nat, base: nat)
    ensures Diff(w, x, base) >= 0 <==> 0 <= Ahead(w, x, base) && (w.W32? ==> Ahead(w, x, base) < 0x8000_0000)
  {
  }

  /** The window test: two signed comparisons decide membership in [base, base + width). */
  lemma WindowTest(w: Width, x: nat, base: nat, width: nat)
    requires width < 0x8000_0000
    ensures Diff(w, x, Add(w, base, width)) < 0 && Diff(w, x, base) >= 0 <==> 0 <= Ahead(w, x, base) < width
  {
    if w == W32 {
      Congruent(x - Add(w, base, width), Offset(x, base) - width,
                (x - base) / 0x1_0000_0000 + (base + width) / 0x1_0000_0000);
    }
  }

  /** The first of these alone: one half of all numbers is behind the end of the window. */
  lemma BehindWindow(x: nat, base: nat, width: nat)
    requires width < 0x8000_0000
    ensures Diff(W32, x, Add(W32, base, width)) < 0 <==>
            Offset(x, base) < width || Offset(x, base) >= 0x8000_0000 + width
  {
    Congruent(x - Add(W32, base, width), Offset(x, base) - width,
              (x - base) / 0x1_0000_0000 + (base + width) / 0x1_0000_0000);
  }
}
