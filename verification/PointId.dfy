/**
 The deterministic point id of internal/indexer/indexer.go: FNV-1a over the
 bytes of the chunk id, computed with arbitrary-precision integers and reduced
 modulo 2^64 in every round.
 */
module PointId {
  import opened Codec

  const MODULUS := 0x1_0000_0000_0000_0000
  const PRIME := 1099511628211
  const OFFSET := 14695981039346656037

  /** Bitwise exclusive or on natural numbers, as big.Int.Xor computes it. */
  function Xor(a: nat, b: nat): nat
    decreases a + b
  {
    if a == 0 && b == 0 then 0
    else (if a % 2 == b % 2 then 0 else 1) + 2 * Xor(a / 2, b / 2)
  }

  /** One round in 64-bit arithmetic: xor in a byte, multiply, wrap around. */
  function Round(h: nat, b: byte): nat {
    Xor(h, b) * PRIME % MODULUS
  }

  /** FNV-1a with wrapping arithmetic from state h. */
  function HashFrom(h: nat, s: seq<byte>): nat
    decreases |s|
  {
    if s == [] then h else HashFrom(Round(h, s[0]), s[1..])
  }

  /** The same without ever wrapping. */
  ghost function Unbounded(h: nat, s: seq<byte>): nat
    decreases |s|
  {
    if s == [] then h else Unbounded(Xor(h, s[0]) * PRIME, s[1..])
  }

  /** fnv64: the loop over the bytes, on unbounded integers. */
  method Fnv64(s: seq<byte>) returns (h: nat)
    ensures h == HashFrom(OFFSET, s)
    ensures h == Unbounded(OFFSET, s) % MODULUS
    ensures h < MODULUS
  {
    h := OFFSET;
    assert s[0..] == s;
    for i := 0 to |s|
      invariant h < MODULUS
      invariant HashFrom(h, s[i..]) == HashFrom(OFFSET, s)
    {
      assert s[i..][0] == s[i] && s[i..][1..] == s[i + 1..];
      h := Xor(h, s[i]);
      h := h * PRIME;
      h := h % MODULUS;
    }
    assert s[|s|..] == [];
    WrappingIsLate(OFFSET, s);
  }

  // ---- Wrapping in every round is wrapping once at the end ----

  ghost function Pow2(k: nat): (p: nat)
    ensures p > 0
  {
    if k == 0 then 1 else 2 * Pow2(k - 1)
  }

  /** Reducing modulo 2^k drops the bits from k on: peel off the lowest bit. */
  lemma ModPeels(a: nat, p: nat)
    requires p > 0
    ensures a % (2 * p) == a % 2 + 2 * (a / 2 % p)
    ensures a % (2 * p) % 2 == a % 2 && a % (2 * p) / 2 == a / 2 % p
  {
    var q, r := a / 2 / p, a / 2 % p;
    assert a / 2 == q * p + r;
    assert a == 2 * (a / 2) + a % 2;
    assert a == (2 * p) * q + (2 * r + a % 2) by {
      assert 2 * (q * p) == (2 * p) * q;
    }
    ModIs(a, 2 * p, q, 2 * r + a % 2);
  }

  lemma ModIs(a: int, m: int, q: int, r: int)
    requires m > 0 && a == m * q + r && 0 <= r < m
    ensures a % m == r
  {
    var d := a / m - q;
    assert a == m * (a / m) + a % m;
    assert m * d == r - a % m by {
      assert m * d == m * (a / m) - m * q;
    }
    assert d >= 1 ==> m * d >= m;
    assert d <= -1 ==> m * d <= -m;
  }

  /** The lowest k bits. */
  ghost function Low(a: nat, k: nat): nat {
    if k == 0 then 0 else a % 2 + 2 * Low(a / 2, k - 1)
  }

  lemma {:induction false} LowIsMod(a: nat, k: nat)
    ensures Low(a, k) == a % Pow2(k)
    decreases k
  {
    if k > 0 {
      LowIsMod(a / 2, k - 1);
      ModPeels(a, Pow2(k - 1));
    }
  }

  /** The lowest bits of an xor are the xor of the lowest bits. */
  lemma {:induction false} XorLow(a: nat, b: nat, k: nat)
    ensures Low(Xor(a, b), k) == Xor(Low(a, k), Low(b, k))
    decreases k
  {
    if k > 0 {
      XorLow(a / 2, b / 2, k - 1);
      XorUnfold(a, b);
      XorUnfold(Low(a, k), Low(b, k));
    }
  }

  lemma XorMod(a: nat, b: nat, k: nat)
    ensures Xor(a, b) % Pow2(k) == Xor(a % Pow2(k), b % Pow2(k))
  {
    LowIsMod(a, k);
    LowIsMod(b, k);
    LowIsMod(Xor(a, b), k);
    XorLow(a, b, k);
  }

  lemma XorUnfold(a: nat, b: nat)
    ensures Xor(a, b) % 2 == (if a % 2 == b % 2 then 0 else 1) && Xor(a, b) / 2 == Xor(a / 2, b / 2)
    ensures Xor(a, b) == (if a % 2 == b % 2 then 0 else 1) + 2 * Xor(a / 2, b / 2)
  {
  }

  lemma Modulus64()
    ensures Pow2(64) == MODULUS
  {
    assert Pow2(8) == 0x100;
    assert Pow2(16) == 0x1_0000;
    assert Pow2(24) == 0x100_0000;
    assert Pow2(32) == 0x1_0000_0000;
    assert Pow2(40) == 0x100_0000_0000;
    assert Pow2(48) == 0x1_0000_0000_0000;
    assert Pow2(56) == 0x100_0000_0000_0000;
  }

  lemma MulMod(x: nat, y: nat)
    requires y == x % MODULUS
    ensures x * PRIME % MODULUS == y * PRIME % MODULUS
  {
    var q, z := x / MODULUS, y * PRIME;
    assert x == MODULUS * q + y;
    assert x * PRIME == MODULUS * (q * PRIME) + z;
    ModIs(x * PRIME, MODULUS, q * PRIME + z / MODULUS, z % MODULUS);
  }

  lemma XorWraps(h: nat, b: byte, k: nat)
    requires Pow2(k) == MODULUS
    ensures Xor(h, b) % MODULUS == Xor(h % MODULUS, b)
  {
    assert b % MODULUS == b;
    XorMod(h, b, k);
  }

  lemma RoundWraps(h: nat, b: byte)
    ensures Round(h % MODULUS, b) == Xor(h, b) * PRIME % MODULUS
  {
    assert Xor(h, b) % MODULUS == Xor(h % MODULUS, b) by {
      Modulus64();
      XorWraps(h, b, 64);
    }
    MulMod(Xor(h, b), Xor(h % MODULUS, b));
  }

  lemma {:induction false} WrappingIsLate(h: nat, s: seq<byte>)
    ensures HashFrom(h % MODULUS, s) == Unbounded(h, s) % MODULUS
    decreases |s|
  {
    if s != [] {
      RoundWraps(h, s[0]);
      WrappingIsLate(Xor(h, s[0]) * PRIME, s[1..]);
    }
  }

  // ---- No collision between ids that differ in one byte ----

  lemma {:induction false} XorUndoes(a: nat, b: nat)
    ensures Xor(Xor(a, b), b) == a
    decreases a + b
  {
    if a != 0 || b != 0 {
      XorUnfold(a, b);
      XorUndoes(a / 2, b / 2);
      XorUnfold(Xor(a, b), b);
    }
  }

  lemma {:induction false} XorCommutes(a: nat, b: nat)
    ensures Xor(a, b) == Xor(b, a)
    decreases a + b
  {
    if a != 0 || b != 0 {
      XorCommutes(a / 2, b / 2);
    }
  }

  /** PRIME * INVERSE == 1 modulo 2^64. */
  const INVERSE := 14886173955864302971

  /** Multiplying by the odd prime is injective modulo 2^64. */
  lemma MulIsInjective(x: int, y: int)
    requires 0 <= x < MODULUS && 0 <= y < MODULUS
    requires x * PRIME % MODULUS == y * PRIME % MODULUS
    ensures x == y
  {
    var d, q := x - y, x * PRIME / MODULUS - y * PRIME / MODULUS;
    assert d * PRIME == q * MODULUS;
    var c := PRIME * INVERSE / MODULUS;
    assert PRIME * INVERSE == 1 + c * MODULUS;
    var k := q * INVERSE - d * c;
    assert d == MODULUS * k;
  }

  lemma {:induction false} XorBelow(a: nat, b: nat, k: nat)
    requires a < Pow2(k) && b < Pow2(k)
    ensures Xor(a, b) < Pow2(k)
    decreases k
  {
    if k > 0 {
      XorUnfold(a, b);
      XorBelow(a / 2, b / 2, k - 1);
    }
  }

  lemma RoundIsInjective(h1: nat, b1: byte, h2: nat, b2: byte)
    requires h1 < MODULUS && h2 < MODULUS && (h1 == h2 || b1 == b2)
    requires Round(h1, b1) == Round(h2, b2)
    ensures h1 == h2 && b1 == b2
  {
    Modulus64();
    XorBelow(h1, b1, 64);
    XorBelow(h2, b2, 64);
    MulIsInjective(Xor(h1, b1), Xor(h2, b2));
    XorUndoes(h1, b1);
    XorUndoes(h2, b2);
    XorCommutes(h1, b1);
    XorCommutes(h2, b2);
    XorUndoes(b1, h1);
    XorUndoes(b2, h2);
  }

  lemma {:induction false} HashIsInjectiveInState(h1: nat, h2: nat, s: seq<byte>)
    requires h1 < MODULUS && h2 < MODULUS && HashFrom(h1, s) == HashFrom(h2, s)
    ensures h1 == h2
    decreases |s|
  {
    if s != [] {
      HashIsInjectiveInState(Round(h1, s[0]), Round(h2, s[0]), s[1..]);
      RoundIsInjective(h1, s[0], h2, s[0]);
    }
  }

  /** Ids of equal length that differ in exactly one byte never share a point id. */
  lemma {:induction false} OneByteNeverCollides(h: nat, s: seq<byte>, t: seq<byte>, i: nat)
    requires h < MODULUS && i < |s| == |t| && s[i] != t[i]
    requires forall j :: 0 <= j < |s| && j != i ==> s[j] == t[j]
    ensures HashFrom(h, s) != HashFrom(h, t)
    decreases |s|
  {
    if i > 0 {
      OneByteNeverCollides(Round(h, s[0]), s[1..], t[1..], i - 1);
    } else {
      assert s[1..] == t[1..];
      if HashFrom(h, s) == HashFrom(h, t) {
        HashIsInjectiveInState(Round(h, s[0]), Round(h, t[0]), s[1..]);
        RoundIsInjective(h, s[0], h, t[0]);
      }
    }
  }

  /** The bytes are taken from the left, one round each. */
  lemma {:induction false} HashOfConcat(h: nat, s: seq<byte>, t: seq<byte>)
    ensures HashFrom(h, s + t) == HashFrom(HashFrom(h, s), t)
    decreases |s|
  {
    if s == [] {
      assert s + t == t;
    } else {
      assert (s + t)[1..] == s[1..] + t;
      HashOfConcat(Round(h, s[0]), s[1..], t);
    }
  }

  // ---- Xor, bit by bit ----

  /** Bit k of a. */
  ghost function Bit(a: nat, k: nat): nat {
    if k == 0 then a % 2 else Bit(a / 2, k - 1)
  }

  /** A bit of an xor is set exactly if the two bits differ. */
  lemma {:induction false} XorByBits(a: nat, b: nat, k: nat)
    ensures Bit(Xor(a, b), k) == if Bit(a, k) != Bit(b, k) then 1 else 0
    decreases k
  {
    XorUnfold(a, b);
    if k > 0 {
      XorByBits(a / 2, b / 2, k - 1);
    }
  }

  // ---- The constants ----

  lemma {:induction false} XorZero(a: nat)
    ensures Xor(a, 0) == a
  {
    if a != 0 {
      XorZero(a / 2);
    }
  }

  /** Xor with a number of k bits changes only the lowest k bits. */
  lemma {:induction false} XorOfLow(a: nat, b: nat, k: nat)
    requires b < Pow2(k)
    ensures Xor(a, b) == a - Low(a, k) + Xor(Low(a, k), b)
    decreases k
  {
    if k == 0 {
      XorZero(a);
    } else {
      XorOfLow(a / 2, b / 2, k - 1);
      XorUnfold(a, b);
      XorUnfold(Low(a, k), b);
    }
  }

  /** Xor with a byte b, given the lowest byte of the state and its xor with b. */
  lemma XorWithByte(h: nat, b: byte, low: nat, x: nat)
    requires h % 256 == low && Xor(low, b) == x
    ensures Xor(h, b) == h - low + x
  {
    assert Pow2(8) == 256;
    LowIsMod(h, 8);
    XorOfLow(h, b, 8);
  }

  lemma XorOf37And97()
    ensures Xor(37, 97) == 68
  {
    assert Xor(1, 3) == 2;
    assert Xor(4, 12) == 8;
    assert Xor(18, 48) == 34;
  }

  /** Xor of byte 97, "a", into a state whose lowest byte is 37. */
  lemma XorOfA(h: nat)
    requires h % 256 == 37
    ensures Xor(h, 97) == h - 37 + 68
  {
    XorOf37And97();
    XorWithByte(h, 97, 37, 68);
  }

  /**
   With that, the published test vector of 64-bit FNV-1a for "a": it ends in
   0xaf63dc4c8601ec8c. As rounds are injective, it fixes the offset basis.
   */
  lemma OffsetFitsTestVector()
    ensures OFFSET % 256 == 37 && (OFFSET - 37 + 68) * PRIME % MODULUS == 0xaf63dc4c8601ec8c
  {
  }
}
