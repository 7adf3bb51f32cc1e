/**
 * The application/x-www-form-urlencoded byte serializer of section 5.2 of the
 * WHATWG URL Standard, in the variant of java.net.URLEncoder, together with the
 * matching parser of java.net.URLDecoder.  Text is modelled as its UTF-8 bytes.
 */
module FormCodec {
  import opened Wrappers

  newtype Byte = x: int | 0 <= x < 256
  type Bytes = seq<Byte>

  datatype Result<T, E> = Success(value: T) | Failure(error: E)

  /** The two messages of the IllegalArgumentException that URLDecoder throws. */
  datatype DecodeError = IllegalHexCharacters | IncompleteTrailingEscape

  const SPACE: Byte := 32
  const AMPERSAND: Byte := 38
  const PERCENT: Byte := 37
  const PLUS: Byte := 43
  const MINUS: Byte := 45
  const EQUALS: Byte := 61

  /** Bytes URLEncoder leaves alone: ASCII letters and digits and `.`, `-`, `*`, `_`. */
  predicate IsUnreserved(b: Byte) {
    (48 <= b <= 57) || (65 <= b <= 90) || (97 <= b <= 122) || b == 46 || b == 45 || b == 42 || b == 95
  }

  /** Character.digit(c, 16) restricted to ASCII: None stands for -1. */
  function DigitValue(c: Byte): (d: Option<int>)
    ensures d.Some? ==> 0 <= d.value < 16
  {
    if 48 <= c <= 57 then Some(c as int - 48)
    else if 65 <= c <= 70 then Some(c as int - 55)
    else if 97 <= c <= 102 then Some(c as int - 87)
    else None
  }

  /** The upper-case hexadecimal digit URLEncoder writes for `n`. */
  function HexDigit(n: int): (c: Byte)
    requires 0 <= n < 16
    ensures DigitValue(c) == Some(n) && c != PLUS && c != MINUS
  {
    if n < 10 then (48 + n) as Byte else (55 + n) as Byte
  }

  /**
   * Integer.parseInt over the two characters after a `%`, radix 16, followed by
   * URLDecoder's rejection of negative values.  parseInt accepts a sign, so
   * `+d` yields d and `-0` yields 0.
   */
  function ParseEscape(hi: Byte, lo: Byte): (r: Option<Byte>)
  {
    if hi == PLUS then
      match DigitValue(lo)
      case Some(d) => Some(d as Byte)
      case None => None
    else if hi == MINUS then
      if DigitValue(lo) == Some(0) then Some(0) else None
    else
      match (DigitValue(hi), DigitValue(lo))
      case (Some(h), Some(l)) => Some((16 * h + l) as Byte)
      case _ => None
  }

  /** What URLEncoder.encode writes for one byte. */
  function EncodeByte(b: Byte): Bytes {
    if IsUnreserved(b) then [b]
    else if b == SPACE then [PLUS]
    else [PERCENT, HexDigit(b as int / 16), HexDigit(b as int % 16)]
  }

  /**
   * URLEncoder.encode(s, UTF_8): each byte becomes one to three bytes, and a text
   * made only of unreserved bytes is written as it is.
   */
  function Encode(s: Bytes): (r: Bytes)
    ensures |s| <= |r| <= 3 * |s|
    ensures (forall i :: 0 <= i < |s| ==> IsUnreserved(s[i])) ==> r == s
  {
    if s == [] then [] else EncodeByte(s[0]) + Encode(s[1..])
  }

  function Prepend(b: Byte, r: Result<Bytes, DecodeError>): Result<Bytes, DecodeError> {
    match r
    case Success(t) => Success([b] + t)
    case Failure(e) => Failure(e)
  }

  /**
   * URLDecoder.decode(s, "UTF-8"): `+` becomes a space, `%` must be followed by two
   * characters that parse as an escape, every other byte is kept. Without a `%`
   * it cannot fail, and a text with neither `%` nor `+` comes back unchanged.
   */
  function Decode(s: Bytes): (r: Result<Bytes, DecodeError>)
    ensures r.Success? ==> |r.value| <= |s|
    ensures PERCENT !in s ==> r.Success?
    ensures PERCENT !in s && PLUS !in s ==> r == Success(s)
    decreases |s|
  {
    if s == [] then Success([])
    else if s[0] == PERCENT then
      if |s| < 3 then Failure(IncompleteTrailingEscape)
      else
        match ParseEscape(s[1], s[2])
        case None => Failure(IllegalHexCharacters)
        case Some(b) => Prepend(b, Decode(s[3..]))
    else if s[0] == PLUS then Prepend(SPACE, Decode(s[1..]))
    else assert [s[0]] + s[1..] == s; Prepend(s[0], Decode(s[1..]))
  }

  /** The client's `encode`: null and the empty string give the empty string. */
  function EncodeText(s: Option<Bytes>): (r: Bytes)
    ensures r == [] <==> (s.None? || s.value == [])
  {
    if s.None? || s.value == [] then [] else Encode(s.value)
  }

  /**
   * The client's `decode`: null and the empty string give the empty string; a
   * malformed escape is a Failure, because the IllegalArgumentException it raises
   * is not caught.
   */
  function DecodeText(s: Option<Bytes>): (r: Result<Bytes, DecodeError>)
    ensures (s.None? || s.value == []) ==> r == Success([])
  {
    if s.None? || s.value == [] then Success([]) else Decode(s.value)
  }

  /**
   * The client's `getPostData`: the request body `encode(key)=encode(value)`, one to
   * three bytes per byte of the pair plus the `=`; a pair of unreserved texts is
   * sent as it is.
   */
  function FormBody(key: Bytes, value: Bytes): (r: Bytes)
    ensures |key| + |value| + 1 <= |r| <= 3 * (|key| + |value|) + 1
    ensures (forall i :: 0 <= i < |key| ==> IsUnreserved(key[i])) &&
            (forall i :: 0 <= i < |value| ==> IsUnreserved(value[i])) ==>
      r == key + [EQUALS] + value
  {
    EncodeText(Some(key)) + [EQUALS] + EncodeText(Some(value))
  }

  /** Index of the first `=` in `s`, or |s| when there is none. */
  function SeparatorIndex(s: Bytes): (i: nat)
    ensures i <= |s|
    ensures forall j :: 0 <= j < i ==> s[j] != EQUALS
    ensures i < |s| ==> s[i] == EQUALS
  {
    if s == [] then 0 else if s[0] == EQUALS then 0 else 1 + SeparatorIndex(s[1..])
  }

  /** How a form parser reads a one-pair body: split at the first `=`, decode both sides. */
  function ParsePair(body: Bytes): Result<(Bytes, Bytes), DecodeError> {
    var i := SeparatorIndex(body);
    var rest := if i < |body| then body[i + 1..] else [];
    match (Decode(body[..i]), Decode(rest))
    case (Success(k), Success(v)) => Success((k, v))
    case (Failure(e), _) => Failure(e)
    case (_, Failure(e)) => Failure(e)
  }

  /** A byte the encoder may emit: never `=` and never `&`. */
  predicate IsFormSafe(b: Byte) {
    IsUnreserved(b) || b == PLUS || b == PERCENT
  }

  lemma {:induction false} EncodeIsFormSafe(s: Bytes)
    ensures forall i :: 0 <= i < |Encode(s)| ==> IsFormSafe(Encode(s)[i])
  {
    if s != [] {
      EncodeIsFormSafe(s[1..]);
      var head, tail := EncodeByte(s[0]), Encode(s[1..]);
      assert Encode(s) == head + tail;
      forall i | 0 <= i < |Encode(s)| ensures IsFormSafe(Encode(s)[i]) {
        if i >= |head| {
          assert Encode(s)[i] == tail[i - |head|];
        }
      }
    }
  }

  /** Decoding what one encoded byte became, followed by anything, yields that byte first. */
  lemma DecodeAfterEncodedByte(b: Byte, t: Bytes)
    ensures Decode(EncodeByte(b) + t) == Prepend(b, Decode(t))
  {
    var s := EncodeByte(b) + t;
    if IsUnreserved(b) {
      assert s[1..] == t;
    } else if b == SPACE {
      assert s[1..] == t;
    } else {
      var hi, lo := b as int / 16, b as int % 16;
      assert s[0] == PERCENT && s[1] == HexDigit(hi) && s[2] == HexDigit(lo);
      assert ParseEscape(s[1], s[2]) == Some(b);
      assert s[3..] == t;
    }
  }

  /** Round trip: URLDecoder undoes URLEncoder on every byte string. */
  lemma {:induction false} DecodeEncode(s: Bytes)
    ensures Decode(Encode(s)) == Success(s)
  {
    if s != [] {
      DecodeEncode(s[1..]);
      DecodeAfterEncodedByte(s[0], Encode(s[1..]));
      assert [s[0]] + s[1..] == s;
    }
  }

  /** The client's own `decode(encode(s)) == s`, null read as the empty string. */
  lemma DecodeTextEncodeText(s: Option<Bytes>)
    ensures DecodeText(Some(EncodeText(s))) == Success(s.GetOr([]))
  {
    if s.Some? && s.value != [] {
      DecodeEncode(s.value);
    }
  }

  /** Different byte strings never encode to the same text. */
  lemma EncodeInjective(a: Bytes, b: Bytes)
    requires Encode(a) == Encode(b)
    ensures a == b
  {
    DecodeEncode(a);
    DecodeEncode(b);
  }

  /** A `%` left dangling after any encoded text makes decoding throw. */
  lemma {:induction false} DecodeTrailingPercent(t: Bytes)
    ensures Decode(Encode(t) + [PERCENT]) == Failure(IncompleteTrailingEscape)
  {
    if t == [] {
      assert Encode(t) + [PERCENT] == [PERCENT];
    } else {
      DecodeTrailingPercent(t[1..]);
      assert Encode(t) + [PERCENT] == EncodeByte(t[0]) + (Encode(t[1..]) + [PERCENT]);
      DecodeAfterEncodedByte(t[0], Encode(t[1..]) + [PERCENT]);
    }
  }

  /** The POST body holds exactly one `=`, just after the encoded key, and no `&`. */
  lemma FormBodySeparator(key: Bytes, value: Bytes)
    ensures forall i :: 0 <= i < |FormBody(key, value)| ==>
      (FormBody(key, value)[i] == EQUALS <==> i == |EncodeText(Some(key))|)
    ensures AMPERSAND !in FormBody(key, value)
  {
    var k, v := EncodeText(Some(key)), EncodeText(Some(value));
    EncodeIsFormSafe(key);
    EncodeIsFormSafe(value);
    var body := FormBody(key, value);
    forall i | 0 <= i < |body| ensures (body[i] == EQUALS <==> i == |k|) && body[i] != AMPERSAND {
      if i < |k| {
        assert body[i] == k[i];
      } else if i > |k| {
        assert body[i] == v[i - |k| - 1];
      }
    }
  }

  /** A form parser recovers exactly the key and value from the POST body. */
  lemma ParseFormBody(key: Bytes, value: Bytes)
    ensures ParsePair(FormBody(key, value)) == Success((key, value))
  {
    var k, v := EncodeText(Some(key)), EncodeText(Some(value));
    var body := FormBody(key, value);
    FormBodySeparator(key, value);
    var i := SeparatorIndex(body);
    assert body[|k|] == EQUALS;
    assert i == |k|;
    assert body[..i] == k;
    assert body[i + 1..] == v;
    DecodeTextEncodeText(Some(key));
    DecodeTextEncodeText(Some(value));
  }

  /** parseInt's sign handling: `%+1` decodes to the byte 1 and `%-1` is rejected. */
  lemma SignedEscapes()
    ensures Decode([PERCENT, PLUS, 49]) == Success([1])
    ensures Decode([PERCENT, MINUS, 48]) == Success([0])
    ensures Decode([PERCENT, MINUS, 49]) == Failure(IllegalHexCharacters)
  {
    var plus, zero: Bytes := [PERCENT, PLUS, 49], [PERCENT, MINUS, 48];
    assert ParseEscape(plus[1], plus[2]) == Some(1);
    assert plus[3..] == [];
    assert Decode(plus) == Prepend(1, Decode([]));
    assert [1 as Byte] + [] == [1];
    assert ParseEscape(zero[1], zero[2]) == Some(0);
    assert zero[3..] == [];
    assert Decode(zero) == Prepend(0, Decode([]));
    assert [0 as Byte] + [] == [0];
  }

  /** Decoding twice is not decoding once: "50%25" decodes to "50%", which does not decode. */
  lemma DecodeIsNotIdempotent()
    ensures Decode([53, 48, PERCENT, 50, 53]) == Success([53, 48, PERCENT])
    ensures Decode([53, 48, PERCENT]) == Failure(IncompleteTrailingEscape)
  {
    var wire: Bytes := [53, 48, PERCENT, 50, 53];
    assert ParseEscape(wire[3], wire[4]) == Some(PERCENT);
    assert wire[2..][3..] == [];
    assert Decode(wire[2..]) == Prepend(PERCENT, Decode([]));
    assert [PERCENT] + [] == [PERCENT];
    assert Decode(wire[1..]) == Prepend(48, Decode(wire[2..]));
    assert [48 as Byte] + [PERCENT] == [48, PERCENT];
    assert Decode(wire) == Prepend(53, Decode(wire[1..]));
    assert [53 as Byte] + [48, PERCENT] == [53, 48, PERCENT];
    var once: Bytes := [53, 48, PERCENT];
    assert Decode(once[1..]) == Prepend(48, Decode(once[2..]));
  }
}
