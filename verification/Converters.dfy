/** The hex form of an optional byte vector in the node configuration. */
module Converters {
  import opened Wrappers

  type Byte = b: nat | b < 256

  datatype DecodeError = MissingPrefix | InvalidByte(text: string) | Panicked

  type Decoded = Result<Option<seq<Byte>>, DecodeError>

  function HexDigit(d: nat): char
    requires d < 16
  {
    if d < 10 then '0' + d as char else 'a' + (d - 10) as char
  }

  /** The value of a hex digit of either case. */
  function DigitValue(c: char): Option<nat> {
    if '0' <= c <= '9' then Some((c - '0') as nat)
    else if 'a' <= c <= 'f' then Some((c - 'a') as nat + 10)
    else if 'A' <= c <= 'F' then Some((c - 'A') as nat + 10)
    else None
  }

  // ----- Serializing -----

  function HexByte(b: Byte): string {
    [HexDigit(b / 16), HexDigit(b % 16)]
  }

  function HexBytes(v: seq<Byte>): string {
    if v == [] then "" else HexByte(v[0]) + HexBytes(v[1..])
  }

  function Serialize(v: Option<seq<Byte>>): string {
    match v
    case None => ""
    case Some(bytes) => "0x" + HexBytes(bytes)
  }

  // ----- Deserializing -----

  /** Two characters as a byte; the integer parser also takes a plus sign before one digit. */
  function ParseByte(a: char, b: char): Option<Byte> {
    var high := if a == '+' then Some(0) else DigitValue(a);
    var low := DigitValue(b);
    if high.Some? && low.Some? then Some(16 * high.value + low.value) else None
  }

  /** The pairs of a hex string from left to right; an odd last character is sliced out of range. */
  function ParseBytes(hex: string): Result<seq<Byte>, DecodeError> {
    if hex == "" then Ok([])
    else if |hex| == 1 then Err(Panicked)
    else
      var b := ParseByte(hex[0], hex[1]);
      if b.None? then Err(InvalidByte(hex[..2]))
      else
        match ParseBytes(hex[2..])
        case Ok(rest) => Ok([b.value] + rest)
        case Err(e) => Err(e)
  }

  method Deserialize(raw: string) returns (r: Decoded)
    ensures raw == "" ==> r == Ok(None)
    ensures raw != "" && !("0x" <= raw) ==> r == Err(MissingPrefix)
    ensures "0x" <= raw ==>
              match ParseBytes(raw[2..])
              case Ok(bytes) => r == Ok(Some(bytes))
              case Err(e) => r == Err(e)
  {
    if raw == "" {
      return Ok(None);
    }
    if !("0x" <= raw) {
      return Err(MissingPrefix);
    }
    var hex := raw[2..];
    var vector: seq<Byte> := [];
    var i := 0;
    assert hex[i..] == hex && Prepend(vector, ParseBytes(hex)) == ParseBytes(hex) by {
      if ParseBytes(hex).Ok? {
        assert [] + ParseBytes(hex).value == ParseBytes(hex).value;
      }
    }
    while i < |hex|
      invariant 0 <= i <= |hex|
      invariant ParseBytes(hex) == Prepend(vector, ParseBytes(hex[i..]))
    {
      if i + 2 > |hex| {
        return Err(Panicked);
      }
      var b := ParseByte(hex[i], hex[i + 1]);
      if b.None? {
        assert hex[i..][..2] == hex[i..i + 2];
        return Err(InvalidByte(hex[i..i + 2]));
      }
      assert hex[i..][2..] == hex[i + 2..];
      PrependAssociates(vector, b.value, ParseBytes(hex[i + 2..]));
      vector := vector + [b.value];
      i := i + 2;
    }
    assert hex[i..] == "";
    assert vector + [] == vector;
    r := Ok(Some(vector));
  }

  function Prepend(v: seq<Byte>, r: Result<seq<Byte>, DecodeError>): Result<seq<Byte>, DecodeError> {
    match r
    case Ok(rest) => Ok(v + rest)
    case Err(e) => Err(e)
  }

  lemma PrependAssociates(v: seq<Byte>, b: Byte, r: Result<seq<Byte>, DecodeError>)
    ensures Prepend(v, Prepend([b], r)) == Prepend(v + [b], r)
  {
    if r.Ok? {
      assert v + ([b] + r.value) == (v + [b]) + r.value;
    }
  }

  // ----- What a text stands for -----

  const LOWER := "0123456789abcdef"
  const UPPER := "0123456789ABCDEF"

  /** The digit stands for its place in the list of digits. */
  ghost predicate IsDigit(c: char, d: nat) {
    d < 16 && (LOWER[d] == c || UPPER[d] == c)
  }

  lemma {:induction false} DigitValueIff(c: char, d: nat)
    ensures DigitValue(c) == Some(d) <==> IsDigit(c, d)
  {
    assert forall i :: 0 <= i < 10 ==> LOWER[i] == '0' + i as char == UPPER[i];
    assert forall i :: 10 <= i < 16 ==> LOWER[i] == 'a' + (i - 10) as char && UPPER[i] == 'A' + (i - 10) as char;
  }

  /** Two characters stand for a byte, the first for its sixteens; a plus sign may stand in its place. */
  ghost predicate IsPair(a: char, b: char, x: Byte) {
    exists hi: nat, lo: nat :: (IsDigit(a, hi) || (a == '+' && hi == 0)) && IsDigit(b, lo) && x == 16 * hi + lo
  }

  lemma {:induction false} ParseByteIff(a: char, b: char, x: Byte)
    ensures ParseByte(a, b) == Some(x) <==> IsPair(a, b, x)
  {
    forall d: nat ensures (DigitValue(a) == Some(d) <==> IsDigit(a, d)) && (DigitValue(b) == Some(d) <==> IsDigit(b, d)) {
      DigitValueIff(a, d);
      DigitValueIff(b, d);
    }
    if ParseByte(a, b) == Some(x) {
      var hi := if a == '+' then 0 else DigitValue(a).value;
      assert (IsDigit(a, hi) || (a == '+' && hi == 0)) && IsDigit(b, DigitValue(b).value);
    }
  }

  /** The text stands for these bytes, pair by pair from left to right. */
  ghost predicate StandsFor(hex: string, v: seq<Byte>) {
    |hex| == 2 * |v| && forall i :: 0 <= i < |v| ==> IsPair(hex[2 * i], hex[2 * i + 1], v[i])
  }

  lemma {:induction false} ParsesIff(hex: string, v: seq<Byte>)
    ensures ParseBytes(hex) == Ok(v) <==> StandsFor(hex, v)
  {
    if |hex| >= 2 {
      if v == [] {
        StandsForNothing(hex);
      } else {
        ParsesIff(hex[2..], v[1..]);
        ParseByteIff(hex[0], hex[1], v[0]);
        StandsForFirst(hex, v);
        assert v == [v[0]] + v[1..];
      }
    }
  }

  lemma {:induction false} StandsForNothing(hex: string)
    requires |hex| >= 2
    ensures ParseBytes(hex) != Ok([])
  {
  }

  lemma {:induction false} StandsForFirst(hex: string, v: seq<Byte>)
    requires |hex| >= 2 && v != []
    ensures StandsFor(hex, v) <==> IsPair(hex[0], hex[1], v[0]) && StandsFor(hex[2..], v[1..])
  {
    var rest, w := hex[2..], v[1..];
    if StandsFor(hex, v) {
      forall i | 0 <= i < |w| ensures IsPair(rest[2 * i], rest[2 * i + 1], w[i]) {
        assert IsPair(hex[2 * (i + 1)], hex[2 * (i + 1) + 1], v[i + 1]);
      }
    }
    if IsPair(hex[0], hex[1], v[0]) && StandsFor(rest, w) {
      forall i | 0 <= i < |v| ensures IsPair(hex[2 * i], hex[2 * i + 1], v[i]) {
        if i > 0 {
          assert IsPair(rest[2 * (i - 1)], rest[2 * (i - 1) + 1], w[i - 1]);
        }
      }
    }
  }

  // ----- Round trips -----

  lemma DigitRoundTrip(d: nat)
    requires d < 16
    ensures DigitValue(HexDigit(d)) == Some(d) && HexDigit(d) != '+'
  {
  }

  lemma {:induction false} HexBytesRoundTrip(v: seq<Byte>)
    ensures ParseBytes(HexBytes(v)) == Ok(v)
  {
    if v != [] {
      var b := v[0];
      DigitRoundTrip(b / 16);
      DigitRoundTrip(b % 16);
      HexBytesRoundTrip(v[1..]);
      assert HexBytes(v)[2..] == HexBytes(v[1..]);
      assert v == [b] + v[1..];
    }
  }

  /** Decoding the encoding of any optional vector, also none and the empty one, returns it. */
  method RoundTrip(v: Option<seq<Byte>>) returns (r: Decoded)
    ensures r == Ok(v)
  {
    var raw := Serialize(v);
    if v.Some? {
      HexBytesRoundTrip(v.value);
      assert raw[2..] == HexBytes(v.value);
    }
    r := Deserialize(raw);
  }

  predicate LowerDigit(c: char) {
    '0' <= c <= '9' || 'a' <= c <= 'f'
  }

  /** The digits that the serializer writes. */
  ghost predicate Canonical(hex: string) {
    forall i :: 0 <= i < |hex| ==> LowerDigit(hex[i])
  }

  lemma LowerDigitIff(c: char)
    requires DigitValue(c).Some?
    ensures HexDigit(DigitValue(c).value) == c <==> LowerDigit(c)
  {
  }

  lemma ReencodedPair(a: char, b: char)
    requires ParseByte(a, b).Some?
    ensures HexByte(ParseByte(a, b).value) == [a, b] <==> LowerDigit(a) && LowerDigit(b)
  {
    var high := if a == '+' then 0 else DigitValue(a).value;
    var low := DigitValue(b).value;
    var byte := ParseByte(a, b).value;
    assert byte / 16 == high && byte % 16 == low;
    LowerDigitIff(b);
    if a == '+' {
      DigitRoundTrip(high);
    } else {
      LowerDigitIff(a);
    }
    assert HexByte(byte)[0] == HexDigit(high) && HexByte(byte)[1] == HexDigit(low);
  }

  lemma SplitPair(x: string, rest: string, hex: string)
    requires |x| == 2 && |hex| >= 2
    ensures x + rest == hex <==> x == hex[..2] && rest == hex[2..]
  {
    assert (x + rest)[..2] == x && (x + rest)[2..] == rest;
    assert hex[..2] + hex[2..] == hex;
  }

  /** Encoding what was decoded returns the same text exactly when all its digits are lower case. */
  lemma {:induction false} ReencodesIff(hex: string)
    requires ParseBytes(hex).Ok?
    ensures HexBytes(ParseBytes(hex).value) == hex <==> Canonical(hex)
  {
    if hex != "" {
      var a, b, rest := hex[0], hex[1], hex[2..];
      ReencodesIff(rest);
      var bytes, byte := ParseBytes(rest).value, ParseByte(a, b).value;
      assert ParseBytes(hex).value == [byte] + bytes && ([byte] + bytes)[1..] == bytes;
      SplitPair(HexByte(byte), HexBytes(bytes), hex);
      ReencodedPair(a, b);
      assert hex[..2] == [a, b];
      CanonicalPair(hex);
    }
  }

  lemma CanonicalPair(hex: string)
    requires |hex| >= 2
    ensures Canonical(hex) <==> LowerDigit(hex[0]) && LowerDigit(hex[1]) && Canonical(hex[2..])
  {
    if LowerDigit(hex[0]) && LowerDigit(hex[1]) && Canonical(hex[2..]) {
      forall i | 0 <= i < |hex| ensures LowerDigit(hex[i]) {
        assert i >= 2 ==> hex[i] == hex[2..][i - 2];
      }
    }
  }
}
