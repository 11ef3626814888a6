/**
 How far apart FNV-1a keeps similar ids. PRIME is 2^40 + 435, so modulo 2^64 a
 small difference d of two states becomes d * 2^40 + 435 * d, and xor with a byte
 can only change it by a little. As long as the part above 2^40 does not wrap
 around, the states stay different: that covers ids that differ anywhere within
 three adjacent bytes, and four adjacent decimal digits.
 */
module PointDistance {
  import opened Codec
  import opened PointId

  const TWO40 := 0x100_0000_0000

  // ---- Xor with a small number ----

  /** a and b have the same bits from k on. */
  ghost predicate SameFrom(a: nat, b: nat, k: nat) {
    if k == 0 then a == b else SameFrom(a / 2, b / 2, k - 1)
  }

  /** Two numbers that differ only in the bits below k take one state to ones less than 2^k apart. */
  lemma {:induction false} XorIsNear(h: nat, a: nat, b: nat, k: nat)
    requires SameFrom(a, b, k)
    ensures Xor(h, b) - Pow2(k) < Xor(h, a) < Xor(h, b) + Pow2(k)
    decreases k
  {
    if k > 0 {
      XorIsNear(h / 2, a / 2, b / 2, k - 1);
      XorUnfold(h, a);
      XorUnfold(h, b);
    }
  }

  /** Numbers in the block from lo to lo + 2^k agree in the bits from k on, if lo has none below. */
  lemma {:induction false} BlockIsSame(a: nat, b: nat, c: nat, lo: nat, k: nat)
    requires lo == c * Pow2(k) && lo <= a < lo + Pow2(k) && lo <= b < lo + Pow2(k)
    ensures SameFrom(a, b, k)
    decreases k
  {
    if k > 0 {
      var half := c * Pow2(k - 1);
      assert lo == 2 * half;
      BlockIsSame(a / 2, b / 2, c, half, k - 1);
    }
  }

  lemma ByteIsNear(x: nat, a: byte)
    ensures -255 <= Xor(x, a) - x <= 255
  {
    assert Pow2(8) == 256;
    BlockIsSame(a, 0, 0, 0, 8);
    XorIsNear(x, a, 0, 8);
    XorZero(x);
  }

  predicate IsDigit(b: byte) {
    48 <= b <= 57
  }

  lemma DigitIsNear(x: nat, a: byte)
    requires IsDigit(a)
    ensures -63 <= Xor(x, a) - x <= 63
  {
    assert Pow2(6) == 64;
    BlockIsSame(a, 0, 0, 0, 6);
    XorIsNear(x, a, 0, 6);
    XorZero(x);
  }

  lemma XorIsInjective(h: nat, a: nat, b: nat)
    requires Xor(h, a) == Xor(h, b)
    ensures a == b
  {
    XorCommutes(h, a);
    XorCommutes(h, b);
    XorUndoes(a, h);
    XorUndoes(b, h);
  }

  lemma BytesAreNear(h: nat, a: byte, b: byte)
    ensures -255 <= Xor(h, a) - Xor(h, b) <= 255
  {
    assert Pow2(8) == 256;
    BlockIsSame(a, b, 0, 0, 8);
    XorIsNear(h, a, b, 8);
  }

  lemma DigitsAreNear(h: nat, a: byte, b: byte)
    requires IsDigit(a) && IsDigit(b)
    ensures -15 <= Xor(h, a) - Xor(h, b) <= 15
  {
    assert Pow2(4) == 16;
    BlockIsSame(a, b, 3, 48, 4);
    XorIsNear(h, a, b, 4);
  }

  // ---- One round on two states ----

  /** The difference of two states, written as high * 2^40 + low modulo 2^64. */
  ghost predicate Apart(x: nat, y: nat, high: int, low: int) {
    exists q {:trigger q * MODULUS} :: x - y == high * TWO40 + low + q * MODULUS
  }

  lemma TimesPrime(x: nat, y: nat, high: int, low: int, q: int) returns (r: int)
    requires x - y == high * TWO40 + low + q * MODULUS
    ensures x * PRIME % MODULUS - y * PRIME % MODULUS
            == (435 * high + low) * TWO40 + 435 * low + r * MODULUS
  {
    var i, j := x * PRIME / MODULUS, y * PRIME / MODULUS;
    r := q * PRIME + 65536 * high - i + j;
    assert x * PRIME == i * MODULUS + x * PRIME % MODULUS;
    assert y * PRIME == j * MODULUS + y * PRIME % MODULUS;
  }

  /** After a round: u is what the two xors add to the difference. */
  lemma RoundSpreads(x: nat, y: nat, a: byte, b: byte, high: int, low: int, u: int)
    requires Apart(x, y, high, low) && Xor(x, a) - Xor(y, b) == x - y + u
    ensures Apart(Round(x, a), Round(y, b), 435 * high + low + u, 435 * (low + u))
  {
    var q :| x - y == high * TWO40 + low + q * MODULUS;
    var r := TimesPrime(Xor(x, a), Xor(y, b), high, low + u, q);
    assert r * MODULUS == r * MODULUS;
  }

  /** The part above 2^40 is not zero and does not wrap around, and the part below is small. */
  predicate Clear(high: int, low: int) {
    high != 0 && -0xC0_0000 <= high <= 0xC0_0000 && -0x10_0000_0000 <= low <= 0x10_0000_0000
  }

  lemma ApartDiffer(x: nat, y: nat, high: int, low: int, u: int)
    requires Apart(x, y, high, low) && Clear(high, low) && -510 <= u <= 510
    ensures x - y + u != 0
  {
    var q :| x - y == high * TWO40 + low + q * MODULUS;
  }

  lemma NextRoundDiffers(x: nat, y: nat, a: byte, b: byte, high: int, low: int)
    requires x < MODULUS && y < MODULUS && Apart(x, y, high, low) && Clear(high, low)
    ensures x != y && Round(x, a) != Round(y, b)
  {
    ApartDiffer(x, y, high, low, 0);
    ByteIsNear(x, a);
    ByteIsNear(y, b);
    ApartDiffer(x, y, high, low, (Xor(x, a) - x) - (Xor(y, b) - y));
    Modulus64();
    XorBelow(x, a, 64);
    XorBelow(y, b, 64);
    if Round(x, a) == Round(y, b) {
      MulIsInjective(Xor(x, a), Xor(y, b));
    }
  }

  /** The first of the differing bytes. */
  lemma FirstRound(h: nat, a: byte, b: byte) returns (d: int)
    requires a != b
    ensures d != 0 && -255 <= d <= 255 && (IsDigit(a) && IsDigit(b) ==> -15 <= d <= 15)
    ensures Apart(Round(h, a), Round(h, b), d, 435 * d)
  {
    d := Xor(h, a) - Xor(h, b);
    if d == 0 { XorIsInjective(h, a, b); }
    BytesAreNear(h, a, b);
    if IsDigit(a) && IsDigit(b) { DigitsAreNear(h, a, b); }
    assert h - h == 0 * TWO40 + 0 + 0 * MODULUS;
    RoundSpreads(h, h, a, b, 0, 0, d);
  }

  // ---- The rest of the id ----

  /** s and t agree from position k on. */
  ghost predicate AgreeFrom(s: seq<byte>, t: seq<byte>, k: nat) {
    |s| == |t| && forall j :: k <= j < |s| ==> s[j] == t[j]
  }

  /** One more byte may differ. */
  lemma OneMore(x: nat, y: nat, s: seq<byte>, t: seq<byte>, high: int, low: int)
    requires x < MODULUS && y < MODULUS && Apart(x, y, high, low) && Clear(high, low) && AgreeFrom(s, t, 1)
    ensures HashFrom(x, s) != HashFrom(y, t)
  {
    NextRoundDiffers(x, y, 0, 0, high, low);
    if s != [] {
      NextRoundDiffers(x, y, s[0], t[0], high, low);
      assert s[1..] == t[1..];
      if HashFrom(x, s) == HashFrom(y, t) {
        HashIsInjectiveInState(Round(x, s[0]), Round(y, t[0]), s[1..]);
      }
    }
  }

  /** Two more bytes may differ. */
  lemma TwoMore(x: nat, y: nat, s: seq<byte>, t: seq<byte>, d: int)
    requires x < MODULUS && y < MODULUS && AgreeFrom(s, t, 2)
    requires Apart(x, y, d, 435 * d) && d != 0 && -255 <= d <= 255
    ensures HashFrom(x, s) != HashFrom(y, t)
  {
    if s == [] {
      OneMore(x, y, s, t, d, 435 * d);
    } else {
      ByteIsNear(x, s[0]);
      ByteIsNear(y, t[0]);
      var u := (Xor(x, s[0]) - x) - (Xor(y, t[0]) - y);
      RoundSpreads(x, y, s[0], t[0], d, 435 * d, u);
      OneMore(Round(x, s[0]), Round(y, t[0]), s[1..], t[1..], 435 * d + 435 * d + u, 435 * (435 * d + u));
    }
  }

  /** Ids of equal length that differ only within three adjacent bytes never share a point id. */
  lemma {:induction false} ThreeBytesNeverCollide(h: nat, s: seq<byte>, t: seq<byte>, i: nat)
    requires h < MODULUS && |s| == |t| && s != t
    requires forall j :: 0 <= j < |s| && !(i <= j < i + 3) ==> s[j] == t[j]
    ensures HashFrom(h, s) != HashFrom(h, t)
    decreases |s|
  {
    if s[0] == t[0] {
      assert s == [s[0]] + s[1..] && t == [t[0]] + t[1..];
      ThreeBytesNeverCollide(Round(h, s[0]), s[1..], t[1..], if i > 0 then i - 1 else 0);
    } else {
      var d := FirstRound(h, s[0], t[0]);
      TwoMore(Round(h, s[0]), Round(h, t[0]), s[1..], t[1..], d);
    }
  }

  // ---- Four decimal digits ----

  ghost predicate AllDigits(s: seq<byte>) {
    forall i :: 0 <= i < |s| ==> IsDigit(s[i])
  }

  /** The second digit adds u; two more digits may differ. */
  lemma TwoMoreDigits(x: nat, y: nat, s: seq<byte>, t: seq<byte>, d: int, u: int)
    requires x < MODULUS && y < MODULUS && AgreeFrom(s, t, 2) && AllDigits(s) && AllDigits(t)
    requires Apart(x, y, 870 * d + u, 435 * (435 * d + u)) && d != 0 && -15 <= d <= 15 && -126 <= u <= 126
    ensures HashFrom(x, s) != HashFrom(y, t)
  {
    var high, low := 870 * d + u, 435 * (435 * d + u);
    if s == [] {
      OneMore(x, y, s, t, high, low);
    } else {
      DigitIsNear(x, s[0]);
      DigitIsNear(y, t[0]);
      var w := (Xor(x, s[0]) - x) - (Xor(y, t[0]) - y);
      RoundSpreads(x, y, s[0], t[0], high, low, w);
      assert 435 * high + low + w == 567675 * d + 870 * u + w;
      OneMore(Round(x, s[0]), Round(y, t[0]), s[1..], t[1..], 435 * high + low + w, 435 * (low + w));
    }
  }

  /** Three more digits may differ. */
  lemma ThreeMoreDigits(x: nat, y: nat, s: seq<byte>, t: seq<byte>, d: int)
    requires x < MODULUS && y < MODULUS && AgreeFrom(s, t, 3) && AllDigits(s) && AllDigits(t)
    requires Apart(x, y, d, 435 * d) && d != 0 && -15 <= d <= 15
    ensures HashFrom(x, s) != HashFrom(y, t)
  {
    if s == [] {
      OneMore(x, y, s, t, d, 435 * d);
    } else {
      DigitIsNear(x, s[0]);
      DigitIsNear(y, t[0]);
      var u := (Xor(x, s[0]) - x) - (Xor(y, t[0]) - y);
      RoundSpreads(x, y, s[0], t[0], d, 435 * d, u);
      TwoMoreDigits(Round(x, s[0]), Round(y, t[0]), s[1..], t[1..], d, u);
    }
  }

  /** Up to four decimal digits after a common prefix never lead to the same point id. */
  lemma {:induction false} FourDigitsNeverCollide(h: nat, p: seq<byte>, s: seq<byte>, t: seq<byte>)
    requires h < MODULUS && |s| == |t| <= 4 && s != t && AllDigits(s) && AllDigits(t)
    ensures HashFrom(h, p + s) != HashFrom(h, p + t)
    decreases |p|, |s|
  {
    if p != [] {
      assert (p + s)[1..] == p[1..] + s && (p + t)[1..] == p[1..] + t;
      FourDigitsNeverCollide(Round(h, p[0]), p[1..], s, t);
    } else {
      assert p + s == s && p + t == t;
      if s[0] == t[0] {
        assert s == [s[0]] + s[1..] && t == [t[0]] + t[1..];
        FourDigitsNeverCollide(Round(h, s[0]), [], s[1..], t[1..]);
        assert [] + s[1..] == s[1..] && [] + t[1..] == t[1..];
      } else {
        var d := FirstRound(h, s[0], t[0]);
        ThreeMoreDigits(Round(h, s[0]), Round(h, t[0]), s[1..], t[1..], d);
      }
    }
  }
}
