/**
 * The 32-bit "Java-style" string hash used for password hashes
 * (util.ts, `hashCode`): for every UTF-16 code unit `c` of the string,
 * `hash = ToInt32((hash << 5) - hash + c)`, starting from 0.
 */
module Util {

  const TWO_31: int := 0x8000_0000
  const TWO_32: int := 0x1_0000_0000

  /** A UTF-16 code unit, the value `String.prototype.charCodeAt` yields. */
  type CodeUnit = c: int | 0 <= c < 0x1_0000

  /** The signed 32-bit range that JavaScript's bitwise operators produce. */
  predicate IsInt32(x: int) {
    -TWO_31 <= x < TWO_31
  }

  /** ECMAScript ToInt32 on an integral value: wrap modulo 2^32 into the signed range. */
  function ToInt32(x: int): (r: int)
    ensures IsInt32(r)
    ensures (x - r) % TWO_32 == 0
  {
    var m := x % TWO_32;
    assert x == TWO_32 * (x / TWO_32) + m;
    if m < TWO_31 then m else m - TWO_32
  }

  /** ToInt32 is determined by the residue modulo 2^32: the in-range value congruent to `x`. */
  lemma ToInt32Unique(x: int, r: int)
    requires IsInt32(r)
    requires (x - r) % TWO_32 == 0
    ensures ToInt32(x) == r
  {
    var t := ToInt32(x);
    var a := (x - t) / TWO_32;
    var b := (x - r) / TWO_32;
    assert x - t == TWO_32 * a;
    assert x - r == TWO_32 * b;
    assert t - r == TWO_32 * (b - a);
  }

  /** Adding a multiple of 2^32 does not change ToInt32. */
  lemma ToInt32Shift(x: int, k: int)
    ensures ToInt32(x + TWO_32 * k) == ToInt32(x)
  {
    var t := ToInt32(x);
    var a := (x - t) / TWO_32;
    assert x - t == TWO_32 * a;
    assert (x + TWO_32 * k) - t == TWO_32 * (a + k);
    ToInt32Unique(x + TWO_32 * k, t);
  }

  /** A multiple of 2^32 leaves no remainder. */
  lemma MultipleMod(k: int)
    ensures (TWO_32 * k) % TWO_32 == 0
  {
  }

  /** `x << 5` in JavaScript: the operand is first converted by ToInt32 and the product wraps. */
  function ShiftLeft5(x: int): (r: int)
    ensures IsInt32(r)
    ensures (r - 32 * x) % TWO_32 == 0
  {
    var y := ToInt32(x);
    var r := ToInt32(y * 32);
    var a := (y * 32 - r) / TWO_32;
    var b := (x - y) / TWO_32;
    assert y * 32 - r == TWO_32 * a;
    assert x - y == TWO_32 * b;
    assert r - 32 * x == TWO_32 * (-a - 32 * b);
    MultipleMod(-a - 32 * b);
    r
  }

  /**
   * One iteration of the source loop, `hash = (hash << 5) - hash + chr; hash |= 0`,
   * is the Java step `ToInt32(31 * hash + chr)`.
   */
  lemma {:induction false} ShiftStep(h: int, c: CodeUnit)
    requires IsInt32(h)
    ensures ToInt32(ShiftLeft5(h) - h + c) == ToInt32(31 * h + c)
  {
    var s := ShiftLeft5(h);
    var k := (s - 32 * h) / TWO_32;
    assert s - 32 * h == TWO_32 * k;
    assert s - h + c == (31 * h + c) + TWO_32 * k;
    ToInt32Shift(31 * h + c, k);
  }

  /** Reference definition: the hash of a prefix, extended one code unit at a time. */
  function HashOf(s: seq<CodeUnit>): (h: int)
    ensures IsInt32(h)
  {
    if |s| == 0 then 0 else ToInt32(31 * HashOf(s[..|s| - 1]) + s[|s| - 1])
  }

  /** `hashCode` as written: early return for the empty string, then the shift-and-subtract loop. */
  method HashCode(s: seq<CodeUnit>) returns (hash: int)
    ensures hash == HashOf(s)
    ensures IsInt32(hash)
    ensures |s| == 0 ==> hash == 0
  {
    hash := 0;
    if |s| == 0 {
      return;
    }
    var i := 0;
    while i < |s|
      invariant 0 <= i <= |s|
      invariant hash == HashOf(s[..i])
    {
      var chr := s[i];
      ShiftStep(hash, chr);
      assert s[..i + 1][..i] == s[..i];
      hash := ToInt32(ShiftLeft5(hash) - hash + chr);
      i := i + 1;
    }
    assert s[..i] == s;
  }

  /** Prefix compositionality: appending one code unit performs one Java hash step. */
  lemma {:induction false} HashSnoc(s: seq<CodeUnit>, c: CodeUnit)
    ensures HashOf(s + [c]) == ToInt32(31 * HashOf(s) + c)
  {
    assert (s + [c])[..|s|] == s;
  }

  /** A single code unit hashes to itself. */
  lemma HashSingle(c: CodeUnit)
    ensures HashOf([c]) == c
  {
    assert [c][..0] == [];
  }

  /** The hash of the password seeded for "shadcn". */
  lemma PasswordHash()
    ensures HashOf(Utf16("password")) == 1216985755
  {
    Utf16Bmp("password", [112, 97, 115, 115, 119, 111, 114, 100]);
    PasswordUnitsHash();
  }

  lemma PasswordUnitsHash()
    ensures HashOf([112, 97, 115, 115, 119, 111, 114, 100]) == 1216985755
  {
    var h0: seq<CodeUnit> := [];
    var h1 := h0 + [112];
    HashSnoc(h0, 112);
    assert HashOf(h1) == 112;
    var h2 := h1 + [97];
    HashSnoc(h1, 97);
    assert HashOf(h2) == 3569;
    var h3 := h2 + [115];
    HashSnoc(h2, 115);
    assert HashOf(h3) == 110754;
    var h4 := h3 + [115];
    HashSnoc(h3, 115);
    assert HashOf(h4) == 3433489;
    var h5 := h4 + [119];
    HashSnoc(h4, 119);
    assert HashOf(h5) == 106438278;
    var h6 := h5 + [111];
    HashSnoc(h5, 111);
    assert HashOf(h6) == -995380567;
    var h7 := h6 + [114];
    HashSnoc(h6, 114);
    assert HashOf(h7) == -792026391;
    var h8 := h7 + [100];
    HashSnoc(h7, 100);
    assert HashOf(h8) == 1216985755;
    assert h8 == [112, 97, 115, 115, 119, 111, 114, 100];
  }

  /** The hash of the password seeded for "disilverstein" (API.ts only). */
  lemma TestpassHash()
    ensures HashOf(Utf16("testpass!")) == -1164974882
  {
    Utf16Bmp("testpass!", [116, 101, 115, 116, 112, 97, 115, 115, 33]);
    TestpassUnitsHash();
  }

  lemma TestpassUnitsHash()
    ensures HashOf([116, 101, 115, 116, 112, 97, 115, 115, 33]) == -1164974882
  {
    var h5: seq<CodeUnit> := [116, 101, 115, 116, 112];
    TestpassPrefixHash();
    var h6 := h5 + [97];
    HashSnoc(h5, 97);
    assert HashOf(h6) == -877169149;
    var h7 := h6 + [115];
    HashSnoc(h6, 115);
    assert HashOf(h7) == -1422439728;
    var h8 := h7 + [115];
    HashSnoc(h7, 115);
    assert HashOf(h8) == -1145958493;
    var h9 := h8 + [33];
    HashSnoc(h8, 33);
    assert HashOf(h9) == -1164974882;
    assert h9 == [116, 101, 115, 116, 112, 97, 115, 115, 33];
  }

  lemma TestpassPrefixHash()
    ensures HashOf([116, 101, 115, 116, 112]) == 110251550
  {
    var h0: seq<CodeUnit> := [];
    var h1 := h0 + [116];
    HashSnoc(h0, 116);
    assert HashOf(h1) == 116;
    var h2 := h1 + [101];
    HashSnoc(h1, 101);
    assert HashOf(h2) == 3697;
    var h3 := h2 + [115];
    HashSnoc(h2, 115);
    assert HashOf(h3) == 114722;
    var h4 := h3 + [116];
    HashSnoc(h3, 116);
    assert HashOf(h4) == 3556498;
    var h5 := h4 + [112];
    HashSnoc(h4, 112);
    assert HashOf(h5) == 110251550;
    assert h5 == [116, 101, 115, 116, 112];
  }

  /** The hash of a wrong password, used in the login examples. */
  lemma WrongHash()
    ensures HashOf(Utf16("wrong")) == 113405357
  {
    Utf16Bmp("wrong", [119, 114, 111, 110, 103]);
    WrongUnitsHash();
  }

  lemma WrongUnitsHash()
    ensures HashOf([119, 114, 111, 110, 103]) == 113405357
  {
    var h0: seq<CodeUnit> := [];
    var h1 := h0 + [119];
    HashSnoc(h0, 119);
    assert HashOf(h1) == 119;
    var h2 := h1 + [114];
    HashSnoc(h1, 114);
    assert HashOf(h2) == 3803;
    var h3 := h2 + [111];
    HashSnoc(h2, 111);
    assert HashOf(h3) == 118004;
    var h4 := h3 + [110];
    HashSnoc(h3, 110);
    assert HashOf(h4) == 3658234;
    var h5 := h4 + [103];
    HashSnoc(h4, 103);
    assert HashOf(h5) == 113405357;
    assert h5 == [119, 114, 111, 110, 103];
  }

  function Pow31(n: nat): (p: int)
    ensures p >= 1
  {
    if n == 0 then 1 else 31 * Pow31(n - 1)
  }

  /** Java's documented closed form s[0]*31^(n-1) + s[1]*31^(n-2) + ... + s[n-1], without wrap-around. */
  function Polynomial(s: seq<CodeUnit>): int
  {
    if |s| == 0 then 0 else s[0] * Pow31(|s| - 1) + Polynomial(s[1..])
  }

  lemma {:induction false} PolynomialSnoc(s: seq<CodeUnit>, c: CodeUnit)
    ensures Polynomial(s + [c]) == 31 * Polynomial(s) + c
    decreases |s|
  {
    if |s| == 0 {
      assert (s + [c])[1..] == [];
    } else {
      assert (s + [c])[1..] == s[1..] + [c];
      PolynomialSnoc(s[1..], c);
      assert s[0] * Pow31(|s|) == 31 * (s[0] * Pow31(|s| - 1));
    }
  }

  /** The wrapped fold equals the closed-form polynomial reduced into the signed 32-bit range. */
  lemma {:induction false} HashIsPolynomial(s: seq<CodeUnit>)
    ensures HashOf(s) == ToInt32(Polynomial(s))
    decreases |s|
  {
    if |s| == 0 {
    } else {
      var p := s[..|s| - 1];
      var c := s[|s| - 1];
      assert s == p + [c];
      HashIsPolynomial(p);
      PolynomialSnoc(p, c);
      var x := Polynomial(p);
      var k := (x - ToInt32(x)) / TWO_32;
      assert x - ToInt32(x) == TWO_32 * k;
      assert 31 * x + c == (31 * ToInt32(x) + c) + TWO_32 * (31 * k);
      ToInt32Shift(31 * ToInt32(x) + c, 31 * k);
    }
  }

  /** UTF-16 encoding of a string of Unicode scalar values: the units `charCodeAt` reads. */
  function Utf16(s: string): (u: seq<CodeUnit>)
    ensures |s| <= |u| <= 2 * |s|
    ensures (forall i :: 0 <= i < |s| ==> (s[i] as int) < 0x1_0000) ==> |u| == |s|
  {
    if |s| == 0 then []
    else if s[0] as int < 0x1_0000 then [s[0] as int] + Utf16(s[1..])
    else
      var v := s[0] as int - 0x1_0000;
      [0xD800 + v / 0x400, 0xDC00 + v % 0x400] + Utf16(s[1..])
  }

  /** A string without supplementary characters is one code unit per character. */
  lemma {:induction false} Utf16Bmp(s: string, u: seq<CodeUnit>)
    requires |s| == |u|
    requires forall i :: 0 <= i < |s| ==> s[i] as int == u[i]
    ensures Utf16(s) == u
    decreases |s|
  {
    if |s| > 0 {
      Utf16Bmp(s[1..], u[1..]);
      assert u == [u[0]] + u[1..];
    }
  }
}
