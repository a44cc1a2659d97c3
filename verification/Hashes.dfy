// The 32-bit hashes and the generator of src/domain/auditReceipts.ts and src/analytics/vectorMath.ts.
// Texts are sequences of UTF-16 code units.
module Hashes {
  import opened Radix

  type Unit = u: int | 0 <= u < 0x1_0000
  type Text = seq<Unit>

  const TWO32: int := 0x1_0000_0000

  type Word = w: int | 0 <= w < 0x1_0000_0000

  // ---------------------------------------------------------------------
  // The operators of the language on numbers
  // ---------------------------------------------------------------------

  /** ToUint32, what x >>> 0 gives on an integer. */
  function ToUint32(x: int): Word {
    x % TWO32
  }

  /** ToInt32, the operand conversion of <<, ^ and friends. */
  function ToInt32(x: int): int {
    var u := x % TWO32;
    if u >= 0x8000_0000 then u - TWO32 else u
  }

  /** x << k for 0 <= k < 32, given two^k. */
  function Shl(x: int, twoK: nat): int {
    ToInt32(ToInt32(x) * twoK)
  }

  /** Exclusive or of naturals, bit by bit. */
  function Xor(a: nat, b: nat): nat
    decreases a + b
  {
    if a == 0 && b == 0 then 0 else (a + b) % 2 + 2 * Xor(a / 2, b / 2)
  }

  /** x ^ c for a number and a code unit: a signed 32-bit result. */
  function XorInt32(x: int, c: Unit): int {
    ToInt32(Xor(ToUint32(x), c))
  }

  lemma {:induction false} XorTwice(a: nat, c: nat)
    ensures Xor(Xor(a, c), c) == a
    decreases a + c
  {
    hide Xor;
    XorNothing();
    if a != 0 || c != 0 {
      var x := Xor(a / 2, c / 2);
      XorTwice(a / 2, c / 2);
      XorStep(a, c);
      LastBit(a, c, x);
      if Xor(a, c) != 0 || c != 0 {
        XorStep(Xor(a, c), c);
      }
    }
  }

  lemma XorStep(a: nat, c: nat)
    requires a != 0 || c != 0
    ensures Xor(a, c) == (a + c) % 2 + 2 * Xor(a / 2, c / 2)
  {}

  lemma XorNothing()
    ensures Xor(0, 0) == 0
  {}

  lemma LastBit(a: nat, c: nat, x: nat)
    ensures var z := (a + c) % 2 + 2 * x; z / 2 == x && (z + c) % 2 + 2 * (a / 2) == a
  {}

  lemma {:induction false} XorCommutes(a: nat, b: nat)
    ensures Xor(a, b) == Xor(b, a)
    decreases a + b
  {
    if a != 0 || b != 0 {
      XorCommutes(a / 2, b / 2);
    }
  }

  lemma {:induction false} XorBound(a: nat, b: nat, k: nat)
    requires a < Two(k) && b < Two(k)
    ensures Xor(a, b) < Two(k)
    decreases k
  {
    hide Xor;
    XorNothing();
    if a != 0 || b != 0 {
      XorStep(a, b);
      Halves(a, b, Two(k - 1));
      XorBound(a / 2, b / 2, k - 1);
      BitBelow(a + b, Xor(a / 2, b / 2), Two(k - 1));
    }
  }

  lemma Halves(a: nat, b: nat, half: nat)
    requires a < 2 * half && b < 2 * half
    ensures a / 2 < half && b / 2 < half
  {}

  lemma BitBelow(s: nat, x: nat, half: nat)
    requires x < half
    ensures s % 2 + 2 * x < 2 * half
  {}

  function Two(k: nat): nat {
    if k == 0 then 1 else 2 * Two(k - 1)
  }

  lemma XorWord(h: Word, c: Unit)
    ensures 0 <= Xor(h, c) < TWO32
  {
    assert Two(8) == 0x100;
    assert Two(16) == 0x1_0000;
    assert Two(24) == 0x100_0000;
    assert Two(32) == 0x1_0000_0000;
    XorBound(h, c, 32);
  }

  /** Neither argument of an exclusive or can change alone without changing the result. */
  lemma XorInjective(h: Word, g: Word, c: Unit, d: Unit)
    ensures Xor(h, c) == Xor(g, c) ==> h == g
    ensures Xor(h, c) == Xor(h, d) ==> c == d
  {
    XorTwice(h, c);
    XorTwice(g, c);
    XorCommutes(h, c);
    XorCommutes(h, d);
    XorTwice(c, h);
    XorTwice(d, h);
  }

  // ---------------------------------------------------------------------
  // Residues
  // ---------------------------------------------------------------------

  lemma ModShift(x: int, k: int, m: int)
    requires m > 0
    ensures (x + k * m) % m == x % m
  {
    var q, r := x / m, x % m;
    assert x + k * m == (q + k) * m + r;
    ModUnique(x + k * m, q + k, r, m);
  }

  lemma ModUnique(x: int, q: int, r: int, m: int)
    requires m > 0 && x == q * m + r && 0 <= r < m
    ensures x % m == r && x / m == q
  {
    var q', r' := x / m, x % m;
    assert (q - q') * m == r' - r;
    if q - q' >= 1 {
      ProductOrder(1, q - q', m);
    } else if q - q' <= -1 {
      ProductOrder(q - q', -1, m);
    }
  }

  /** Multiplying a residue by any representative of a factor gives the same residue. */
  lemma ModMultiply(x: int, y: int, f: int, m: int)
    requires m > 0 && x % m == y % m
    ensures (x * f) % m == (y * f) % m
  {
    var k := x / m - y / m;
    assert x == y + k * m;
    assert x * f == y * f + (k * f) * m;
    ModShift(y * f, k * f, m);
  }

  lemma ModAdd(x: int, y: int, z: int, m: int)
    requires m > 0 && x % m == y % m
    ensures (x + z) % m == (y + z) % m && (z + x) % m == (z + y) % m
  {
    var k := x / m - y / m;
    assert x + z == (y + z) + k * m;
    ModShift(y + z, k, m);
  }

  lemma ToInt32Residue(x: int)
    ensures ToInt32(x) % TWO32 == x % TWO32
    ensures ToUint32(ToInt32(x)) == ToUint32(x)
  {
    var u := x % TWO32;
    ModShift(u, -1, TWO32);
  }

  lemma ShlResidue(x: int, twoK: nat)
    ensures Shl(x, twoK) % TWO32 == (x * twoK) % TWO32
  {
    ToInt32Residue(x);
    ToInt32Residue(ToInt32(x) * twoK);
    ModMultiply(ToInt32(x), x, twoK, TWO32);
  }

  /** Multiplication by an odd constant is undone by multiplying by its inverse. */
  lemma MultiplyInverse(x: Word, f: nat, inverse: nat, k: nat)
    requires f * inverse == 1 + k * TWO32
    ensures ((x * f) % TWO32 * inverse) % TWO32 == x
  {
    InverseModulo(x, f, inverse, k, TWO32);
  }

  lemma InverseModulo(x: int, f: int, inverse: int, k: int, m: int)
    requires 0 <= x < m && f * inverse == 1 + k * m
    ensures ((x * f) % m * inverse) % m == x
  {
    Residue(x * f, m);
    ModMultiply((x * f) % m, x * f, inverse, m);
    Regroup(x, f, inverse, k, m);
    ModShift(x, x * k, m);
    ModUnique(x, 0, x, m);
  }

  lemma Residue(p: int, m: int)
    requires m > 0
    ensures (p % m) % m == p % m
  {
    ModUnique(p % m, 0, p % m, m);
  }

  lemma Regroup(x: int, f: int, inverse: int, k: int, m: int)
    requires f * inverse == 1 + k * m
    ensures x * f * inverse == x + (x * k) * m
  {
    assert x * f * inverse == x * (f * inverse);
    assert x * (1 + k * m) == x + (x * k) * m;
  }

  lemma MultiplyInjective(x: Word, y: Word, f: nat, inverse: nat, k: nat)
    requires f * inverse == 1 + k * TWO32
    ensures (x * f) % TWO32 == (y * f) % TWO32 ==> x == y
  {
    MultiplyInverse(x, f, inverse, k);
    MultiplyInverse(y, f, inverse, k);
  }

  // ---------------------------------------------------------------------
  // FNV-1a
  // ---------------------------------------------------------------------

  const FNV_OFFSET: int := 0x811c9dc5
  const FNV_PRIME: nat := 16777619
  const FNV_INVERSE: nat := 899433627

  /** One step of 32-bit FNV-1a (section 2 of draft-eastlake-fnv): exclusive or, then multiply by the prime. */
  function FnvStep(h: Word, c: Unit): Word {
    XorWord(h, c);
    (Xor(h, c) * FNV_PRIME) % TWO32
  }

  function Fnv1a(s: Text): Word {
    if s == [] then FNV_OFFSET else FnvStep(Fnv1a(s[..|s| - 1]), s[|s| - 1])
  }

  /** The step as the program takes it: signed shifts and an addition. */
  function ShiftAdd(h: int): Word {
    ToUint32(h + (Shl(h, 2) + Shl(h, 16) + Shl(h, 128) + Shl(h, 256) + Shl(h, 0x100_0000)))
  }

  /** Shift-and-add is multiplication by the FNV prime modulo 2^32. */
  lemma ShiftAddIsMultiply(x: Word)
    ensures ShiftAdd(ToInt32(x)) == (x * FNV_PRIME) % TWO32
  {
    var h := ToInt32(x);
    var a, b, c, d, e := Shl(h, 2), Shl(h, 16), Shl(h, 128), Shl(h, 256), Shl(h, 0x100_0000);
    assert FNV_PRIME == 1 + 2 + 16 + 128 + 256 + 0x100_0000;
    ShlResidue(h, 2);
    ShlResidue(h, 16);
    ShlResidue(h, 128);
    ShlResidue(h, 256);
    ShlResidue(h, 0x100_0000);
    hide Shl, ToInt32;
    ModAdd(a, h * 2, h + b + c + d + e, TWO32);
    ModAdd(b, h * 16, h + h * 2 + c + d + e, TWO32);
    ModAdd(c, h * 128, h + h * 2 + h * 16 + d + e, TWO32);
    ModAdd(d, h * 256, h + h * 2 + h * 16 + h * 128 + e, TWO32);
    ModAdd(e, h * 0x100_0000, h + h * 2 + h * 16 + h * 128 + h * 256, TWO32);
    assert ShiftAdd(h) == (h * FNV_PRIME) % TWO32;
    ToInt32Residue(x);
    ModMultiply(h, x, FNV_PRIME, TWO32);
  }

  lemma StepIsFnv(h: Word, c: Unit)
    ensures ShiftAdd(XorInt32(h, c)) == FnvStep(h, c)
  {
    XorWord(h, c);
    assert ToUint32(h) == h;
    ShiftAddIsMultiply(Xor(h, c));
  }

  method ComputeFnv1a(s: Text) returns (hash: Word)
    ensures hash == Fnv1a(s)
  {
    hide ShiftAdd, FnvStep, XorInt32;
    var h: Word := 0x811c9dc5;
    for i := 0 to |s|
      invariant h == Fnv1a(s[..i])
    {
      FnvAppend(s[..i], s[i]);
      assert s[..i + 1] == s[..i] + [s[i]];
      StepIsFnv(h, s[i]);
      var x := XorInt32(h, s[i]);
      h := ShiftAdd(x);
    }
    assert s[..|s|] == s;
    hash := h;
  }

  lemma FnvStepInjective(h: Word, g: Word, c: Unit, d: Unit)
    ensures FnvStep(h, c) == FnvStep(g, c) ==> h == g
    ensures FnvStep(h, c) == FnvStep(h, d) ==> c == d
  {
    XorWord(h, c);
    XorWord(g, c);
    XorWord(h, d);
    assert FNV_PRIME * FNV_INVERSE == 1 + 3513497 * TWO32;
    MultiplyInjective(Xor(h, c), Xor(g, c), FNV_PRIME, FNV_INVERSE, 3513497);
    MultiplyInjective(Xor(h, c), Xor(h, d), FNV_PRIME, FNV_INVERSE, 3513497);
    XorInjective(h, g, c, d);
  }

  lemma FnvAppend(s: Text, c: Unit)
    ensures Fnv1a(s + [c]) == FnvStep(Fnv1a(s), c)
  {
    assert (s + [c])[..|s|] == s;
  }

  /** A common tail neither creates nor removes a collision. */
  lemma {:induction false} FnvCommonTail(a: Text, b: Text, tail: Text)
    ensures Fnv1a(a + tail) == Fnv1a(b + tail) <==> Fnv1a(a) == Fnv1a(b)
  {
    if tail == [] {
      assert a + tail == a && b + tail == b;
    } else {
      var init, c := tail[..|tail| - 1], tail[|tail| - 1];
      assert a + tail == (a + init) + [c] && b + tail == (b + init) + [c];
      FnvAppend(a + init, c);
      FnvAppend(b + init, c);
      FnvStepInjective(Fnv1a(a + init), Fnv1a(b + init), c, c);
      FnvCommonTail(a, b, init);
    }
  }

  /** Changing exactly one code unit always changes the hash. */
  lemma FnvOneUnit(before: Text, c: Unit, d: Unit, after: Text)
    ensures Fnv1a(before + [c] + after) == Fnv1a(before + [d] + after) <==> c == d
  {
    FnvAppend(before, c);
    FnvAppend(before, d);
    FnvStepInjective(Fnv1a(before), Fnv1a(before), c, d);
    FnvCommonTail(before + [c], before + [d], after);
  }

  // ---------------------------------------------------------------------
  // djb2 and the linear congruential generator
  // ---------------------------------------------------------------------

  const DJB_INVERSE: nat := 1041204193
  const LCG_MULTIPLIER: nat := 1664525
  const LCG_INCREMENT: int := 1013904223
  const LCG_INVERSE: nat := 4276115653

  function Djb2Step(h: Word, c: Unit): Word {
    XorWord((33 * h) % TWO32, c);
    Xor((33 * h) % TWO32, c)
  }

  function Djb2(s: Text): Word {
    if s == [] then 5381 else Djb2Step(Djb2(s[..|s| - 1]), s[|s| - 1])
  }

  lemma StepIsDjb2(h: Word, c: Unit)
    ensures ToUint32(XorInt32(Shl(h, 32) + h, c)) == Djb2Step(h, c)
  {
    TimesThirtyThree(h);
    hide Shl, ToInt32, Xor;
    BackToWord(Shl(h, 32) + h, (33 * h) % TWO32, c);
  }

  lemma BackToWord(x: int, w: Word, c: Unit)
    requires ToUint32(x) == w
    ensures ToUint32(XorInt32(x, c)) == Xor(w, c)
  {
    hide Xor, ToInt32;
    XorWord(w, c);
    ToInt32Residue(Xor(w, c));
  }

  method ComputeDjb2(s: Text) returns (hash: Word)
    ensures hash == Djb2(s)
  {
    hide Djb2Step, XorInt32, Shl, ToUint32;
    hash := 5381;
    for i := 0 to |s|
      invariant hash == Djb2(s[..i])
    {
      assert s[..i + 1] == s[..i] + [s[i]];
      Djb2Append(s[..i], s[i]);
      StepIsDjb2(hash, s[i]);
      hash := ToUint32(XorInt32(Shl(hash, 32) + hash, s[i]));
    }
    assert s[..|s|] == s;
  }

  lemma TimesThirtyThree(h: Word)
    ensures ToUint32(Shl(h, 32) + h) == (33 * h) % TWO32
  {
    ShlResidue(h, 32);
    ModAdd(Shl(h, 32), h * 32, h, TWO32);
  }

  lemma Djb2StepInjective(h: Word, g: Word, c: Unit, d: Unit)
    ensures Djb2Step(h, c) == Djb2Step(g, c) ==> h == g
    ensures Djb2Step(h, c) == Djb2Step(h, d) ==> c == d
  {
    assert 33 * DJB_INVERSE == 1 + 8 * TWO32;
    MultiplyInjective(h, g, 33, DJB_INVERSE, 8);
    XorInjective((33 * h) % TWO32, (33 * g) % TWO32, c, d);
  }

  lemma Djb2Append(s: Text, c: Unit)
    ensures Djb2(s + [c]) == Djb2Step(Djb2(s), c)
  {
    assert (s + [c])[..|s|] == s;
  }

  lemma {:induction false} Djb2CommonTail(a: Text, b: Text, tail: Text)
    ensures Djb2(a + tail) == Djb2(b + tail) <==> Djb2(a) == Djb2(b)
  {
    if tail == [] {
      assert a + tail == a && b + tail == b;
    } else {
      var init, c := tail[..|tail| - 1], tail[|tail| - 1];
      assert a + tail == (a + init) + [c] && b + tail == (b + init) + [c];
      Djb2Append(a + init, c);
      Djb2Append(b + init, c);
      Djb2StepInjective(Djb2(a + init), Djb2(b + init), c, c);
      Djb2CommonTail(a, b, init);
    }
  }

  /** The product and sum of one step, before reduction. */
  function LcgRaw(rng: Word): int {
    rng * LCG_MULTIPLIER + LCG_INCREMENT
  }

  function LcgStep(rng: Word): Word {
    ToUint32(LcgRaw(rng))
  }

  /** Every intermediate value is a non-negative integer below 2^53, so doubles hold it exactly. */
  lemma LcgExact(rng: Word)
    ensures 0 <= rng * LCG_MULTIPLIER <= LcgRaw(rng) < 0x20_0000_0000_0000
  {}

  lemma LcgInjective(a: Word, b: Word)
    ensures LcgStep(a) == LcgStep(b) <==> a == b
  {
    if LcgStep(a) == LcgStep(b) {
      ModAdd(LcgRaw(a), LcgRaw(b), -LCG_INCREMENT, TWO32);
      MultiplyInjective(a, b, LCG_MULTIPLIER, LCG_INVERSE, 1657219);
    }
  }

  /** The state after n steps. */
  function Lcg(seed: Word, n: nat): Word {
    if n == 0 then seed else LcgStep(Lcg(seed, n - 1))
  }

  /** Two seeds never meet, however long the sequences run. */
  lemma {:induction false} LcgSeedsApart(s: Word, t: Word, n: nat)
    ensures Lcg(s, n) == Lcg(t, n) <==> s == t
  {
    if n > 0 {
      LcgSeedsApart(s, t, n - 1);
      LcgInjective(Lcg(s, n - 1), Lcg(t, n - 1));
    }
  }

  /** A coordinate of the pseudo-vector, before normalisation. */
  function Coordinate(rng: Word): real {
    rng as real / 4294967295.0 * 2.0 - 1.0
  }

  lemma CoordinateRange(a: Word, b: Word)
    ensures -1.0 <= Coordinate(a) <= 1.0
    ensures Coordinate(a) == Coordinate(b) <==> a == b
  {}

  ghost predicate IsRawVector(v: seq<real>, seed: Word) {
    forall i :: 0 <= i < |v| ==> v[i] == Coordinate(Lcg(seed, i + 1))
  }

  method RawPseudoVector(text: Text, dim: nat) returns (v: seq<real>)
    ensures |v| == dim && IsRawVector(v, Djb2(text))
  {
    var seed := ComputeDjb2(text);
    v := [];
    var rng := seed;
    for i := 0 to dim
      invariant |v| == i && rng == Lcg(seed, i)
      invariant IsRawVector(v, seed)
    {
      rng := ToUint32(rng * LCG_MULTIPLIER + LCG_INCREMENT);
      v := v + [Coordinate(rng)];
    }
  }

  /** Vectors of different seeds differ at every coordinate, and lie in [-1, 1]. */
  lemma RawVectorsDiffer(v: seq<real>, w: seq<real>, s: Word, t: Word, i: nat)
    requires IsRawVector(v, s) && IsRawVector(w, t) && i < |v| && i < |w|
    ensures -1.0 <= v[i] <= 1.0
    ensures v[i] == w[i] <==> s == t
  {
    LcgSeedsApart(s, t, i + 1);
    CoordinateRange(Lcg(s, i + 1), Lcg(t, i + 1));
  }

  /** Two texts that differ in exactly one code unit get raw vectors that agree nowhere. */
  lemma OneUnitDiffersEverywhere(before: Text, c: Unit, d: Unit, after: Text, v: seq<real>, w: seq<real>, i: nat)
    requires IsRawVector(v, Djb2(before + [c] + after)) && IsRawVector(w, Djb2(before + [d] + after))
    requires c != d && i < |v| && i < |w|
    ensures v[i] != w[i]
  {
    Djb2Append(before, c);
    Djb2Append(before, d);
    Djb2StepInjective(Djb2(before), Djb2(before), c, d);
    Djb2CommonTail(before + [c], before + [d], after);
    RawVectorsDiffer(v, w, Djb2(before + [c] + after), Djb2(before + [d] + after), i);
  }
}
