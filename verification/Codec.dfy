/**
 The command codec of broker/main.go: "op:id:base64(data)".

 Commands and ids are strings whose characters stand for the bytes of a Go
 string; payloads are byte sequences. Base64 is the standard padded encoding of
 section 4 of RFC 4648, with the decoder of Go's encoding/base64: it skips
 carriage returns and line feeds and ignores the unused low bits of a last,
 padded quantum.
 */
module Codec {

  type byte = b: int | 0 <= b < 256

  type sextet = x: int | 0 <= x < 64

  datatype Option<+T> = None | Some(value: T)

  // ---- Base64 ----

  function Digit(x: sextet): (c: char)
    ensures Value(c) == Some(x)
  {
    if x < 26 then 'A' + x as char
    else if x < 52 then 'a' + (x - 26) as char
    else if x < 62 then '0' + (x - 52) as char
    else if x == 62 then '+' else '/'
  }

  function Value(c: char): (r: Option<sextet>)
    ensures r.Some? ==> c != ':' && c != '=' && c != '\r' && c != '\n'
  {
    if 'A' <= c <= 'Z' then Some((c - 'A') as int)
    else if 'a' <= c <= 'z' then Some((c - 'a') as int + 26)
    else if '0' <= c <= '9' then Some((c - '0') as int + 52)
    else if c == '+' then Some(62)
    else if c == '/' then Some(63)
    else None
  }

  // Three bytes x, y, z regrouped as four sextets, and back.

  function Sextet0(x: byte): sextet { x / 4 }
  function Sextet1(x: byte, y: byte): sextet { x % 4 * 16 + y / 16 }
  function Sextet2(y: byte, z: byte): sextet { y % 16 * 4 + z / 64 }
  function Sextet3(z: byte): sextet { z % 64 }
  function Byte0(a: sextet, b: sextet): byte { a as int * 4 + b / 16 }
  function Byte1(b: sextet, c: sextet): byte { b as int % 16 * 16 + c / 4 }
  function Byte2(c: sextet, d: sextet): byte { c as int % 4 * 64 + d }

  lemma RegroupRoundTrip(x: byte, y: byte, z: byte)
    ensures Byte0(Sextet0(x), Sextet1(x, y)) == x
    ensures Byte1(Sextet1(x, y), Sextet2(y, z)) == y
    ensures Byte2(Sextet2(y, z), Sextet3(z)) == z
  {
  }

  /** Four characters for three bytes, the last group padded. */
  function Encode64(data: seq<byte>): string {
    if |data| == 0 then ""
    else if |data| == 1 then
      [Digit(Sextet0(data[0])), Digit(Sextet1(data[0], 0)), '=', '=']
    else if |data| == 2 then
      [Digit(Sextet0(data[0])), Digit(Sextet1(data[0], data[1])), Digit(Sextet2(data[1], 0)), '=']
    else
      [Digit(Sextet0(data[0])), Digit(Sextet1(data[0], data[1])),
       Digit(Sextet2(data[1], data[2])), Digit(Sextet3(data[2]))] + Encode64(data[3..])
  }

  /** What the decoder sees: the input without line breaks. */
  function SkipBreaks(s: string): string {
    if s == "" then ""
    else if s[0] == '\r' || s[0] == '\n' then SkipBreaks(s[1..])
    else [s[0]] + SkipBreaks(s[1..])
  }

  /** Whole quanta of four; padding only at the very end. */
  function DecodeQuanta(s: string): Option<seq<byte>> {
    if s == "" then Some([])
    else if |s| < 4 then None
    else
      match (Value(s[0]), Value(s[1])) {
        case (Some(a), Some(b)) =>
          if s[2] == '=' then
            if s[3] == '=' && |s| == 4 then Some([Byte0(a, b)]) else None
          else if s[3] == '=' then
            match Value(s[2]) {
              case Some(c) => if |s| == 4 then Some([Byte0(a, b), Byte1(b, c)]) else None
              case None => None
            }
          else
            match (Value(s[2]), Value(s[3]), DecodeQuanta(s[4..])) {
              case (Some(c), Some(d), Some(rest)) =>
                Some([Byte0(a, b), Byte1(b, c), Byte2(c, d)] + rest)
              case _ => None
            }
        case _ => None
      }
  }

  function Decode64(s: string): Option<seq<byte>> {
    DecodeQuanta(SkipBreaks(s))
  }

  // How the decoder reads one quantum, in terms of its sextets.

  lemma OneByteQuantum(a: sextet, b: sextet)
    ensures DecodeQuanta([Digit(a), Digit(b), '=', '=']) == Some([Byte0(a, b)])
  {
  }

  lemma TwoByteQuantum(a: sextet, b: sextet, c: sextet)
    ensures DecodeQuanta([Digit(a), Digit(b), Digit(c), '=']) == Some([Byte0(a, b), Byte1(b, c)])
  {
  }

  lemma WholeQuantum(a: sextet, b: sextet, c: sextet, d: sextet, s: string, data: seq<byte>)
    requires DecodeQuanta(s) == Some(data)
    ensures DecodeQuanta([Digit(a), Digit(b), Digit(c), Digit(d)] + s)
            == Some([Byte0(a, b), Byte1(b, c), Byte2(c, d)] + data)
  {
    assert ([Digit(a), Digit(b), Digit(c), Digit(d)] + s)[4..] == s;
  }

  lemma OneByteRoundTrip(x: byte)
    ensures DecodeQuanta(Encode64([x])) == Some([x])
  {
    OneByteQuantum(Sextet0(x), Sextet1(x, 0));
    RegroupRoundTrip(x, 0, 0);
  }

  lemma TwoByteRoundTrip(x: byte, y: byte)
    ensures DecodeQuanta(Encode64([x, y])) == Some([x, y])
  {
    TwoByteQuantum(Sextet0(x), Sextet1(x, y), Sextet2(y, 0));
    RegroupRoundTrip(x, y, 0);
  }

  lemma ThreeByteRoundTrip(x: byte, y: byte, z: byte, data: seq<byte>)
    requires DecodeQuanta(Encode64(data)) == Some(data)
    ensures DecodeQuanta(Encode64([x, y, z] + data)) == Some([x, y, z] + data)
  {
    var all := [x, y, z] + data;
    assert all[3..] == data;
    assert Encode64(all) == [Digit(Sextet0(x)), Digit(Sextet1(x, y)), Digit(Sextet2(y, z)), Digit(Sextet3(z))] + Encode64(data);
    WholeQuantum(Sextet0(x), Sextet1(x, y), Sextet2(y, z), Sextet3(z), Encode64(data), data);
    RegroupRoundTrip(x, y, z);
  }

  lemma {:induction false} QuantaRoundTrip(data: seq<byte>)
    ensures DecodeQuanta(Encode64(data)) == Some(data)
    decreases |data|
  {
    if |data| == 1 {
      assert data == [data[0]];
      OneByteRoundTrip(data[0]);
    } else if |data| == 2 {
      assert data == [data[0], data[1]];
      TwoByteRoundTrip(data[0], data[1]);
    } else if |data| >= 3 {
      assert data == [data[0], data[1], data[2]] + data[3..];
      QuantaRoundTrip(data[3..]);
      ThreeByteRoundTrip(data[0], data[1], data[2], data[3..]);
    }
  }

  // ---- Base64 against RFC 4648 ----

  /** Table 1 of RFC 4648, in ASCII: A to Z, a to z, 0 to 9, plus, slash. */
  function TableCode(x: nat): int {
    if x <= 25 then 65 + x else if x <= 51 then 71 + x else if x <= 61 then x - 4 else if x == 62 then 43 else 47
  }

  lemma DigitIsFromTable(x: sextet)
    ensures Digit(x) as int == TableCode(x)
  {
  }

  /** Byte i of the data, and zero bits beyond its end. */
  function ByteAt(data: seq<byte>, i: int): byte {
    if 0 <= i < |data| then data[i] else 0
  }

  /** The 24 bits of quantum q. */
  function Bits24(data: seq<byte>, q: nat): nat {
    ByteAt(data, 3 * q) * 65536 + ByteAt(data, 3 * q + 1) * 256 + ByteAt(data, 3 * q + 2)
  }

  /** The j-th of the four 6-bit groups of 24 bits. */
  function Group6(bits: nat, j: nat): nat {
    if j == 0 then bits / 262144 % 64 else if j == 1 then bits / 4096 % 64 else if j == 2 then bits / 64 % 64 else bits % 64
  }

  lemma Quotient(n: int, m: int, q: int, r: int)
    requires m > 0 && n == m * q + r && 0 <= r < m
    ensures n / m == q && n % m == r
  {
    var d := n / m - q;
    assert m * d == r - n % m by { assert m * d == m * (n / m) - m * q; }
    assert d >= 1 ==> m * d >= m;
    assert d <= -1 ==> m * d <= -m;
  }

  /** The j-th sextet of three bytes. */
  function SextetAt(x: byte, y: byte, z: byte, j: nat): sextet {
    if j == 0 then Sextet0(x) else if j == 1 then Sextet1(x, y) else if j == 2 then Sextet2(y, z) else Sextet3(z)
  }

  lemma SextetIsGroup(x: byte, y: byte, z: byte, j: nat, bits: nat)
    requires bits == x * 65536 + y * 256 + z && j < 4
    ensures SextetAt(x, y, z, j) == Group6(bits, j)
  {
    if j == 0 {
      Quotient(bits, 262144, x / 4, x % 4 * 65536 + y * 256 + z);
    } else if j == 1 {
      Quotient(bits, 4096, x * 16 + y / 16, y % 16 * 256 + z);
      Quotient(x * 16 + y / 16, 64, x / 4, x % 4 * 16 + y / 16);
    } else {
      Quotient(bits, 64, x * 1024 + y * 4 + z / 64, z % 64);
      Quotient(x * 1024 + y * 4 + z / 64, 64, x * 16 + y / 16, y % 16 * 4 + z / 64);
    }
  }

  lemma FirstFour(data: seq<byte>, j: nat)
    requires data != [] && j < 4
    ensures |Encode64(data)| >= 4
    ensures Encode64(data)[j] ==
            if j > |data| then '=' else Digit(SextetAt(data[0], ByteAt(data, 1), ByteAt(data, 2), j))
  {
  }

  /** What character j of a quantum must be, by its code; 61 is the pad. */
  ghost predicate IsRfcCharacter(c: char, data: seq<byte>, q: nat, j: nat) {
    c as int == if 3 * q + j > |data| then 61 else TableCode(Group6(Bits24(data, q), j))
  }

  /** Text e has the right character at place j of quantum q. */
  ghost predicate RfcAt(e: string, data: seq<byte>, q: nat, j: nat) {
    4 * q + j < |e| && IsRfcCharacter(e[4 * q + j], data, q, j)
  }

  /** The first four characters. */
  lemma FirstQuantum(data: seq<byte>, j: nat)
    requires data != [] && j < 4
    ensures RfcAt(Encode64(data), data, 0, j)
  {
    var x, y, z := data[0], ByteAt(data, 1), ByteAt(data, 2);
    var g := SextetAt(x, y, z, j);
    FirstFour(data, j);
    assert g == Group6(Bits24(data, 0), j) by { SextetIsGroup(x, y, z, j, Bits24(data, 0)); }
    assert Digit(g) as int == TableCode(g) by { DigitIsFromTable(g); }
  }

  lemma NextQuantum(e: string, tail: string, data: seq<byte>, q: nat, j: nat)
    requires |data| >= 3 && |e| >= 4 && e[4..] == tail && RfcAt(tail, data[3..], q, j)
    ensures RfcAt(e, data, q + 1, j)
  {
    assert ByteAt(data[3..], 3 * q) == ByteAt(data, 3 * q + 3);
    assert ByteAt(data[3..], 3 * q + 1) == ByteAt(data, 3 * q + 4);
    assert ByteAt(data[3..], 3 * q + 2) == ByteAt(data, 3 * q + 5);
    assert e[4 * (q + 1) + j] == tail[4 * q + j];
  }

  lemma EncodeTail(data: seq<byte>, q: nat, j: nat)
    requires |data| >= 3 && RfcAt(Encode64(data[3..]), data[3..], q, j)
    ensures RfcAt(Encode64(data), data, q + 1, j)
  {
    assert |Encode64(data)| >= 4 && Encode64(data)[4..] == Encode64(data[3..]);
    NextQuantum(Encode64(data), Encode64(data[3..]), data, q, j);
  }

  /**
   Section 4 of RFC 4648: character j of quantum q of the output is the pad if the
   input does not reach that far, and else stands for the j-th group of six of
   the quantum's 24 bits.
   */
  lemma {:induction false} EncodesAsRfc(data: seq<byte>, q: nat, j: nat)
    requires 3 * q < |data| && j < 4
    ensures RfcAt(Encode64(data), data, q, j)
    decreases q
  {
    if q == 0 {
      FirstQuantum(data, j);
    } else {
      EncodesAsRfc(data[3..], q - 1, j);
      EncodeTail(data, q - 1, j);
    }
  }

  /** There are four characters for each three bytes of input or part of them. */
  lemma {:induction false} EncodedLength(data: seq<byte>)
    ensures |Encode64(data)| == (|data| + 2) / 3 * 4
    decreases |data|
  {
    if |data| >= 3 {
      EncodedLength(data[3..]);
    }
  }

  // ---- What decodes at all ----

  lemma DigitOfValue(c: char)
    requires Value(c).Some?
    ensures Digit(Value(c).value) == c
  {
  }

  lemma RegroupBack(a: sextet, b: sextet, c: sextet, d: sextet)
    ensures Sextet0(Byte0(a, b)) == a && Sextet1(Byte0(a, b), Byte1(b, c)) == b
    ensures Sextet2(Byte1(b, c), Byte2(c, d)) == c && Sextet3(Byte2(c, d)) == d
    ensures Sextet1(Byte0(a, b), 0) == b / 16 * 16 && Sextet2(Byte1(b, c), 0) == c / 4 * 4
  {
  }

  /** Two characters that differ at most in the lowest bits of their sextets, the unused ones of a padded quantum. */
  ghost predicate SameUpTo(c: char, d: char, unit: int)
    requires unit > 0
  {
    Value(c).Some? && Value(d).Some? && Value(c).value / unit == Value(d).value / unit
  }

  /** s is the encoding of data, up to the unused bits of the last character before the padding. */
  ghost predicate Encodes(s: string, data: seq<byte>) {
    var e := Encode64(data);
    && |s| == |e|
    && forall i :: 0 <= i < |s| ==>
         || s[i] == e[i]
         || (|data| % 3 == 1 && i == |s| - 3 && SameUpTo(s[i], e[i], 16))
         || (|data| % 3 == 2 && i == |s| - 2 && SameUpTo(s[i], e[i], 4))
  }

  lemma OnePadEncodes(s: string, a: sextet, b: sextet)
    requires s == [Digit(a), Digit(b), '=', '=']
    ensures Encodes(s, [Byte0(a, b)])
  {
    RegroupBack(a, b, 0, 0);
    assert Encode64([Byte0(a, b)]) == [Digit(a), Digit(b / 16 * 16), '=', '='];
  }

  lemma TwoPadEncodes(s: string, a: sextet, b: sextet, c: sextet)
    requires s == [Digit(a), Digit(b), Digit(c), '=']
    ensures Encodes(s, [Byte0(a, b), Byte1(b, c)])
  {
    RegroupBack(a, b, c, 0);
    assert Encode64([Byte0(a, b), Byte1(b, c)]) == [Digit(a), Digit(b), Digit(c / 4 * 4), '='];
  }

  lemma QuantumEncodes(a: sextet, b: sextet, c: sextet, d: sextet, s: string, data: seq<byte>)
    requires Encodes(s, data)
    ensures Encodes([Digit(a), Digit(b), Digit(c), Digit(d)] + s, [Byte0(a, b), Byte1(b, c), Byte2(c, d)] + data)
  {
    var all := [Byte0(a, b), Byte1(b, c), Byte2(c, d)] + data;
    RegroupBack(a, b, c, d);
    assert all[3..] == data;
    assert Encode64(all) == [Digit(a), Digit(b), Digit(c), Digit(d)] + Encode64(data);
    assert |all| % 3 == |data| % 3;
  }

  /** The decoder accepts nothing but encodings: whatever decodes to data is its encoding, up to unused bits. */
  lemma {:induction false} DecodesOnlyEncodings(s: string)
    requires DecodeQuanta(s).Some?
    ensures Encodes(s, DecodeQuanta(s).value)
    decreases |s|
  {
    if s != "" {
      var a, b := Value(s[0]).value, Value(s[1]).value;
      DigitOfValue(s[0]);
      DigitOfValue(s[1]);
      if s[2] == '=' {
        assert s == [Digit(a), Digit(b), '=', '='];
        OnePadEncodes(s, a, b);
      } else if s[3] == '=' {
        var c := Value(s[2]).value;
        DigitOfValue(s[2]);
        assert s == [Digit(a), Digit(b), Digit(c), '='];
        TwoPadEncodes(s, a, b, c);
      } else {
        var c, d := Value(s[2]).value, Value(s[3]).value;
        DigitOfValue(s[2]);
        DigitOfValue(s[3]);
        assert s == [Digit(a), Digit(b), Digit(c), Digit(d)] + s[4..];
        DecodesOnlyEncodings(s[4..]);
        QuantumEncodes(a, b, c, d, s[4..], DecodeQuanta(s[4..]).value);
      }
    }
  }

  /** The decoder does not see line breaks, wherever they stand. */
  lemma {:induction false} BreaksAreIgnored(a: string, b: string, c: char)
    requires c == '\r' || c == '\n'
    ensures SkipBreaks(a + [c] + b) == SkipBreaks(a + b)
    ensures Decode64(a + [c] + b) == Decode64(a + b)
  {
    var s, t := a + [c] + b, a + b;
    if a == "" {
      assert s[1..] == b == t;
    } else {
      assert s[1..] == a[1..] + [c] + b && t[1..] == a[1..] + b;
      BreaksAreIgnored(a[1..], b, c);
    }
  }

  /** Encoded text uses no separator and no line break. */
  lemma {:induction false} EncodedIsPlain(data: seq<byte>)
    ensures forall i :: 0 <= i < |Encode64(data)| ==>
              Encode64(data)[i] != ':' && Encode64(data)[i] != '\r' && Encode64(data)[i] != '\n'
    decreases |data|
  {
    if |data| >= 3 {
      EncodedIsPlain(data[3..]);
    }
  }

  lemma {:induction false} NoBreaksToSkip(s: string)
    requires forall i :: 0 <= i < |s| ==> s[i] != '\r' && s[i] != '\n'
    ensures SkipBreaks(s) == s
  {
    if s != "" {
      NoBreaksToSkip(s[1..]);
    }
  }

  lemma Base64RoundTrip(data: seq<byte>)
    ensures Decode64(Encode64(data)) == Some(data)
  {
    EncodedIsPlain(data);
    NoBreaksToSkip(Encode64(data));
    QuantaRoundTrip(data);
  }

  /** A character outside the alphabet, other than padding and line breaks, makes the text undecodable. */
  lemma {:induction false} ForeignCharacterFails(s: string, i: int)
    requires 0 <= i < |s| && s[i] == ':'
    ensures DecodeQuanta(s) == None
    decreases |s|
  {
    if i >= 4 {
      ForeignCharacterFails(s[4..], i - 4);
    }
  }

  lemma {:induction false} SkipKeepsColon(s: string, i: int)
    requires 0 <= i < |s| && s[i] == ':'
    ensures exists j :: 0 <= j < |SkipBreaks(s)| && SkipBreaks(s)[j] == ':'
  {
    if i == 0 {
      assert SkipBreaks(s)[0] == ':';
    } else {
      SkipKeepsColon(s[1..], i - 1);
      var j :| 0 <= j < |SkipBreaks(s[1..])| && SkipBreaks(s[1..])[j] == ':';
      if s[0] != '\r' && s[0] != '\n' {
        assert SkipBreaks(s)[j + 1] == ':';
      } else {
        assert SkipBreaks(s)[j] == ':';
      }
    }
  }

  // ---- Commands ----

  datatype Command = Command(op: string, id: string, data: seq<byte>)

  /** What decodeCommand returns for anything it does not understand; the apply loop ignores it. */
  const IGNORED := Command("", "", [])

  const SUBMIT := "submit"
  const COMPLETE := "complete"

  function EncodeOp(op: string, id: string, data: seq<byte>): string {
    op + ":" + id + ":" + Encode64(data)
  }

  function EncodeSubmit(id: string, payload: seq<byte>): string {
    EncodeOp(SUBMIT, id, payload)
  }

  function EncodeComplete(id: string, errMsg: seq<byte>): string {
    EncodeOp(COMPLETE, id, errMsg)
  }

  /** The position of the first colon, or |s|. */
  function Colon(s: string): (k: nat)
    ensures k <= |s| && (k < |s| ==> s[k] == ':')
    ensures forall i :: 0 <= i < k ==> s[i] != ':'
  {
    if s == "" || s[0] == ':' then 0 else 1 + Colon(s[1..])
  }

  /** strings.SplitN at ":" into three parts: the first two colons separate them. */
  function SplitParts(cmd: string): Option<(string, string, string)> {
    var k := Colon(cmd);
    if k == |cmd| then None
    else
      var tail := cmd[k + 1..];
      var l := Colon(tail);
      if l == |tail| then None else Some((cmd[..k], tail[..l], tail[l + 1..]))
  }

  function DecodeCommand(cmd: string): Command {
    match SplitParts(cmd)
    case None => IGNORED
    case Some(parts) =>
      match Decode64(parts.2)
      case Some(data) => Command(parts.0, parts.1, data)
      case None => IGNORED
  }

  predicate Colonless(s: string) {
    forall i :: 0 <= i < |s| ==> s[i] != ':'
  }

  lemma ColonAfter(a: string, b: string)
    requires Colonless(a)
    ensures Colon(a + ":" + b) == |a|
  {
    var s := a + ":" + b;
    assert s[|a|] == ':';
    assert forall i :: 0 <= i < |a| ==> s[i] == a[i];
  }

  /** Splitting undoes joining, if the first two parts have no colon. */
  lemma SplitOfParts(a: string, b: string, c: string)
    requires Colonless(a) && Colonless(b)
    ensures SplitParts(a + ":" + b + ":" + c) == Some((a, b, c))
  {
    var tail := b + ":" + c;
    var cmd := a + ":" + b + ":" + c;
    assert cmd == a + ":" + tail;
    ColonAfter(a, tail);
    ColonAfter(b, c);
    assert cmd[..|a|] == a && cmd[|a| + 1..] == tail;
    assert tail[..|b|] == b && tail[|b| + 1..] == c;
  }

  lemma SplitAt(s: string, k: nat)
    requires k < |s| && s[k] == ':'
    ensures s == s[..k] + ":" + s[k + 1..]
  {
  }

  lemma Regroup(a: string, b: string, c: string)
    ensures a + ":" + (b + ":" + c) == a + ":" + b + ":" + c
  {
  }

  /** Joining undoes splitting. */
  lemma PartsOfSplit(cmd: string)
    requires SplitParts(cmd).Some?
    ensures var (a, b, c) := SplitParts(cmd).value;
            Colonless(a) && Colonless(b) && cmd == a + ":" + b + ":" + c
  {
    var k := Colon(cmd);
    SplitAt(cmd, k);
    var tail := cmd[k + 1..];
    var l := Colon(tail);
    SplitAt(tail, l);
    Regroup(cmd[..k], tail[..l], tail[l + 1..]);
  }

  /** With a colon in the id, the third part has one too. */
  lemma SplitWithColon(op: string, id: string, body: string)
    requires Colonless(op) && !Colonless(id)
    ensures var parts := SplitParts(op + ":" + id + ":" + body);
            parts.Some? && !Colonless(parts.value.2)
  {
    var l := Colon(id);
    var a, rest := id[..l], id[l + 1..] + ":" + body;
    assert l < |id|;
    assert id == a + ":" + id[l + 1..];
    assert op + ":" + id + ":" + body == op + ":" + a + ":" + rest;
    SplitOfParts(op, a, rest);
    assert rest[|id[l + 1..]|] == ':';
  }

  lemma ColonFails(s: string)
    requires !Colonless(s)
    ensures Decode64(s) == None
  {
    var i :| 0 <= i < |s| && s[i] == ':';
    SkipKeepsColon(s, i);
    var j :| 0 <= j < |SkipBreaks(s)| && SkipBreaks(s)[j] == ':';
    ForeignCharacterFails(SkipBreaks(s), j);
  }

  /**
   Decoding inverts encoding exactly for the ids without a colon; with one, the
   command decodes to the ignored value.
   */
  lemma CommandRoundTrip(op: string, id: string, data: seq<byte>)
    requires Colonless(op)
    ensures Colonless(id) ==> DecodeCommand(EncodeOp(op, id, data)) == Command(op, id, data)
    ensures !Colonless(id) ==> DecodeCommand(EncodeOp(op, id, data)) == IGNORED
  {
    var body := Encode64(data);
    if Colonless(id) {
      SplitOfParts(op, id, body);
      Base64RoundTrip(data);
    } else {
      SplitWithColon(op, id, body);
      ColonFails(SplitParts(op + ":" + id + ":" + body).value.2);
    }
  }

  lemma SubmitDecodes(id: string, payload: seq<byte>)
    ensures DecodeCommand(EncodeSubmit(id, payload)) == if Colonless(id) then Command(SUBMIT, id, payload) else IGNORED
  {
    CommandRoundTrip(SUBMIT, id, payload);
  }

  lemma CompleteDecodes(id: string, errMsg: seq<byte>)
    ensures DecodeCommand(EncodeComplete(id, errMsg)) == if Colonless(id) then Command(COMPLETE, id, errMsg) else IGNORED
  {
    CommandRoundTrip(COMPLETE, id, errMsg);
  }

  /** Encoding is injective on all operations without a colon, all ids and all data, colons in ids included. */
  lemma EncodingIsInjective(op1: string, id1: string, data1: seq<byte>, op2: string, id2: string, data2: seq<byte>)
    requires Colonless(op1) && Colonless(op2)
    requires EncodeOp(op1, id1, data1) == EncodeOp(op2, id2, data2)
    ensures op1 == op2 && id1 == id2 && data1 == data2
  {
    var b1, b2 := Encode64(data1), Encode64(data2);
    var t1, t2 := id1 + ":" + b1, id2 + ":" + b2;
    var cmd := op1 + ":" + t1;
    assert cmd == EncodeOp(op1, id1, data1) == op2 + ":" + t2;
    ColonAfter(op1, t1);
    ColonAfter(op2, t2);
    assert op1 == cmd[..|op1|] == op2;
    assert t1 == cmd[|op1| + 1..] == t2;
    EncodedIsPlain(data1);
    EncodedIsPlain(data2);
    LastColonSplits(id1, b1, id2, b2);
    Base64RoundTrip(data1);
    Base64RoundTrip(data2);
  }

  lemma LastColonSplits(a: string, x: string, b: string, y: string)
    requires Colonless(x) && Colonless(y) && a + ":" + x == b + ":" + y
    ensures a == b && x == y
  {
    var s := a + ":" + x;
    assert s[|a|] == ':' && s[|b|] == ':';
    assert forall i :: |a| < i < |s| ==> s[i] == x[i - |a| - 1];
    assert forall i :: |b| < i < |s| ==> s[i] == y[i - |b| - 1];
    assert |a| == |b|;
    assert a == s[..|a|] && b == s[..|b|];
    assert x == s[|a| + 1..] && y == s[|b| + 1..];
  }

  /** A command with fewer than two colons, such as the no-op of a new leader, is ignored. */
  lemma FewColonsAreIgnored(cmd: string)
    requires forall i, j :: 0 <= i < j < |cmd| ==> cmd[i] != ':' || cmd[j] != ':'
    ensures DecodeCommand(cmd) == IGNORED
  {
    var k := Colon(cmd);
    if k < |cmd| {
      var tail := cmd[k + 1..];
      forall i | 0 <= i < |tail|
        ensures tail[i] != ':'
      {
        assert tail[i] == cmd[k + 1 + i];
      }
    }
  }

  /** cmd is op:id:body, and body decodes to data. */
  ghost predicate HasForm(cmd: string, op: string, id: string, data: seq<byte>) {
    && Colonless(op) && Colonless(id)
    && exists body :: cmd == op + ":" + id + ":" + body && Decode64(body) == Some(data)
  }

  /** The commands that decode to a given operation are exactly those of the three-part form. */
  lemma DecodesExactly(cmd: string, op: string, id: string, data: seq<byte>)
    requires op != ""
    ensures DecodeCommand(cmd) == Command(op, id, data) <==> HasForm(cmd, op, id, data)
  {
    if DecodeCommand(cmd) == Command(op, id, data) {
      PartsOfSplit(cmd);
    }
    if HasForm(cmd, op, id, data) {
      var body :| cmd == op + ":" + id + ":" + body && Decode64(body) == Some(data);
      SplitOfParts(op, id, body);
    }
  }
}
