/**
 * The Snowflake identifier of src/common/snowflake.cpp: two unsigned 64-bit
 * halves, (0, 0) meaning "no id".
 *
 * On the wire an id is a JSON number when only its high half is set, and
 * otherwise the unpadded base64url text of its 16-byte memory image. The
 * memory image is fixed here to little-endian order: the high half's eight
 * bytes, least significant first, then the low half's.
 */
module Snowflakes {
  import opened Wrappers
  import Json
  import Base64

  type byte = Base64.byte

  const TWO_64: int := 0x1_0000_0000_0000_0000

  type uint64 = x: int | 0 <= x < 0x1_0000_0000_0000_0000

  datatype Snowflake = Snowflake(most: uint64, least: uint64) {
    /** is_valid: not both halves are zero, so (0, 0) is the one id that is not valid. */
    predicate IsValid()
      ensures IsValid() <==> this != Snowflake(0, 0)
    {
      most != 0 || least != 0
    }
  }

  /** invalid(), and what the default constructor copies: the one id that is not valid. */
  function Invalid(): (s: Snowflake)
    ensures !s.IsValid()
    ensures forall t: Snowflake :: t.IsValid() <==> t != s
  {
    Snowflake(0, 0)
  }

  /**
   * generate(): both halves drawn from a 64-bit random engine. The drawn
   * values are the parameters.
   */
  function Generate(hi: uint64, lo: uint64): (s: Snowflake)
    ensures s.most == hi && s.least == lo
    ensures s.IsValid() <==> hi != 0 || lo != 0
  {
    Snowflake(hi, lo)
  }

  /**
   * generate_64(): only the high half is drawn; the low half keeps the 0 of
   * the default id, so a non-zero draw travels as a plain JSON number.
   */
  function Generate64(hi: uint64): (s: Snowflake)
    ensures s.most == hi && s.least == 0
    ensures s.IsValid() <==> hi != 0
    ensures hi != 0 ==> Wire(s) == Json.UInt(hi)
  {
    Snowflake(hi, 0)
  }

  // ---------------------------------------------------------------------------
  // The 16-byte memory image

  function Pow256(n: nat): (r: nat)
    ensures r >= 1
  {
    if n == 0 then 1 else 256 * Pow256(n - 1)
  }

  /** The n base-256 digits of x, least significant first. */
  function LittleEndian(x: nat, n: nat): (b: seq<byte>)
    ensures |b| == n
  {
    if n == 0 then [] else [x % 256] + LittleEndian(x / 256, n - 1)
  }

  /** The number whose little-endian digits are b. */
  function ValueOf(b: seq<byte>): (x: nat)
    ensures x < Pow256(|b|)
  {
    if b == [] then 0 else b[0] + 256 * ValueOf(b[1..])
  }

  /** Byte k of the memory of x, for what the pointer `(uint8_t*)&x + k` reads: x shifted right by 8k bits, masked to 8. */
  function ByteOf(x: nat, k: nat): byte {
    if k == 0 then x % 256 else ByteOf(x / 256, k - 1)
  }

  /** The memory image of an id: the bytes of the high half, then those of the low half. */
  function Image(s: Snowflake): (b: seq<byte>)
    ensures |b| == 16
  {
    LittleEndian(s.most, 8) + LittleEndian(s.least, 8)
  }

  /** The id whose memory image is b: the two halves read back from it. */
  function FromImage(b: seq<byte>): (s: Snowflake)
    requires |b| == 16
    ensures Image(s) == b
  {
    BytesOfValue(b[..8]);
    BytesOfValue(b[8..]);
    assert Pow256(8) == TWO_64;
    Snowflake(ValueOf(b[..8]), ValueOf(b[8..]))
  }

  /** Reading a number back from its digits gives the number. */
  lemma {:induction false} ValueOfDigits(x: nat, n: nat)
    requires x < Pow256(n)
    ensures ValueOf(LittleEndian(x, n)) == x
  {
    if n > 0 {
      var rest := LittleEndian(x / 256, n - 1);
      assert LittleEndian(x, n)[1..] == rest;
      ValueOfDigits(x / 256, n - 1);
    }
  }

  /** Writing a number read from digits gives the digits back. */
  lemma {:induction false} BytesOfValue(b: seq<byte>)
    ensures LittleEndian(ValueOf(b), |b|) == b
  {
    if b != [] {
      BytesOfValue(b[1..]);
      var x := ValueOf(b);
      assert x % 256 == b[0] && x / 256 == ValueOf(b[1..]);
    }
  }

  /** The digit k of x is what the byte pointer k reads. */
  lemma {:induction false} DigitIsByte(x: nat, n: nat, k: nat)
    requires k < n
    ensures LittleEndian(x, n)[k] == ByteOf(x, k)
  {
    if k > 0 {
      DigitIsByte(x / 256, n - 1, k - 1);
    }
  }

  /** Reading the halves back from the memory image gives the id. */
  lemma ImageRoundTrip(s: Snowflake)
    ensures FromImage(Image(s)) == s
  {
    var b := Image(s);
    assert Pow256(8) == TWO_64;
    assert b[..8] == LittleEndian(s.most, 8);
    assert b[8..] == LittleEndian(s.least, 8);
    ValueOfDigits(s.most, 8);
    ValueOfDigits(s.least, 8);
  }

  // ---------------------------------------------------------------------------
  // Wire form

  /**
   * What as_json returns: the number most_sig exactly when only the high half
   * is set; otherwise the base64url text of the memory image, 22 symbols of
   * A-Z a-z 0-9 - _.
   */
  function Wire(s: Snowflake): (j: Json.Value)
    ensures j.UInt? <==> s.most != 0 && s.least == 0
    ensures j.UInt? ==> j.u == s.most
    ensures !j.UInt? ==> j.Str? && |j.s| == 22
    ensures !j.UInt? ==> forall i | 0 <= i < |j.s| :: Base64.IsUrlSymbol(j.s[i])
  {
    if s.most != 0 && s.least == 0 then Json.UInt(s.most)
    else Json.Str(Base64.UrlEncoding(Image(s)))
  }

  /** as_json. The bytes of both halves are copied through byte pointers into a 16-byte string. */
  method AsJson(s: Snowflake) returns (j: Json.Value)
    ensures j == Wire(s)
  {
    if s.most != 0 && s.least == 0 {
      return Json.UInt(s.most);
    }
    var out := new byte[16](_ => 0);                            // out.resize(16)
    for i := 0 to 16
      invariant forall k | 0 <= k < i :: out[k] == Image(s)[k]
    {
      if i < 8 {
        DigitIsByte(s.most, 8, i);
        out[i] := ByteOf(s.most, i);
      } else {
        DigitIsByte(s.least, 8, i - 8);
        out[i] := ByteOf(s.least, i - 8);
      }
    }
    assert out[..] == Image(s);
    var text := Base64.EncodeBase64Url(out[..]);
    j := Json.Str(text.GetOr(""));
  }

  // ---------------------------------------------------------------------------
  // Reading an id from JSON

  /**
   * from_json_number: the number is taken as a signed 64-bit integer and
   * stored as the unsigned high half (two's complement); the low half is 0.
   */
  function FromNumber(n: int): (s: Snowflake)
    ensures s.least == 0
    ensures 0 <= n < TWO_64 ==> s.most == n
    ensures -TWO_64 <= n < 0 ==> s.most == n + TWO_64
  {
    Snowflake(n % TWO_64, 0)
  }

  /**
   * How from_json_array ends: it returns (always "no id"), or get<uint64_t>
   * throws a type error on an element that is not a number.
   */
  datatype ArrayOutcome = Returned(id: Option<Snowflake>) | TypeError

  /**
   * What from_json_array does with the elements of an array. Any size but
   * two returns at once; for two elements the first is inspected: a number
   * returns, anything else (a boolean included) makes the conversion throw.
   * The second element is never reached.
   */
  function ArrayResult(items: seq<Json.Value>): (r: ArrayOutcome)
    ensures !(r.Returned? && r.id.Some?)
    ensures r == Returned(None) <==> |items| != 2 || Json.IsNumber(items[0])
    ensures r == TypeError <==> |items| == 2 && !Json.IsNumber(items[0])
  {
    if |items| != 2 || Json.IsNumber(items[0]) then Returned(None)
    else TypeError
  }

  /**
   * from_json_array. The loop runs over the eight bytes of a uint64 but its
   * first element already decides: a number returns, anything else throws
   * in the conversion.
   */
  method FromJsonArray(items: seq<Json.Value>) returns (r: ArrayOutcome)
    ensures r == ArrayResult(items)
  {
    if |items| != 2 {
      return Returned(None);
    }
    for i := 0 to 8
      invariant i == 0
    {
      if Json.IsNumber(items[i]) {
        return Returned(None);
      }
      return TypeError;                                         // get<uint64_t> on a non-number
    }
    assert false;
  }

  /** The bytes of a std::string as the characters of another one. */
  function AsText(b: seq<byte>): (s: string)
    ensures |s| == |b|
    ensures forall i | 0 <= i < |b| :: s[i] as int == b[i]
  {
    seq(|b|, i requires 0 <= i < |b| => b[i] as char)
  }

  /**
   * What from_json_string returns: decode_base64 of the text must succeed;
   * 16 bytes are the image of the id; any other length is decoded a second
   * time, and that must give 16 bytes.
   */
  function StringDecode(text: string): (r: Option<Snowflake>)
    ensures r.Some? ==> Base64.Decoding(text).Some?
    ensures r.Some? && |Base64.Decoding(text).value| == 16 ==> Image(r.value) == Base64.Decoding(text).value
    ensures r.Some? && |Base64.Decoding(text).value| != 16 ==>
              Base64.Decoding(AsText(Base64.Decoding(text).value)) == Some(Image(r.value))
  {
    match Base64.Decoding(text)
    case None => None
    case Some(bytes) =>
      if |bytes| == 16 then Some(FromImage(bytes))
      else
        match Base64.Decoding(AsText(bytes))
        case Some(again) => if |again| == 16 then Some(FromImage(again)) else None
        case None => None
  }

  /** The 16 bytes copied, one by one, into the memory of the id. */
  method CopyImage(bytes: seq<byte>) returns (s: Snowflake)
    requires |bytes| == 16
    ensures s == FromImage(bytes)
  {
    var image := new byte[16](_ => 0);                          // the memory of `Snowflake out`: (0, 0)
    for i := 0 to 16
      invariant image[..i] == bytes[..i]
    {
      image[i] := bytes[i];
    }
    assert image[..] == bytes;
    s := FromImage(image[..]);
  }

  /** from_json_string. */
  method FromJsonString(text: string) returns (r: Option<Snowflake>)
    ensures r == StringDecode(text)
  {
    var decoded := Base64.DecodeBase64(text);
    if decoded.None? {
      return None;
    }
    var bytes := decoded.value;
    if |bytes| == 16 {
      var s := CopyImage(bytes);
      return Some(s);
    }
    var decoded64 := Base64.DecodeBase64(AsText(bytes));
    if decoded64.Some? && |decoded64.value| == 16 {
      var s := CopyImage(decoded64.value);
      return Some(s);
    }
    return None;
  }

  /**
   * What from_json returns. Both ways from_json_array ends (an early None,
   * a thrown type error) give None here.
   */
  function Decode(v: Json.Value): (r: Option<Snowflake>)
    ensures r.Some? ==> v.Str? || v.Int? || v.UInt?
    ensures v.Arr? ==> r == None
    ensures v.Int? ==> r == Some(FromNumber(v.i))
    ensures v.UInt? ==> r == Some(FromNumber(v.u))
    ensures v.Str? ==> r == StringDecode(v.s)
  {
    match v
    case Arr(items) =>
      var outcome := ArrayResult(items);
      if outcome.Returned? then outcome.id else None
    case Str(text) => StringDecode(text)
    case Int(n) => Some(FromNumber(n))
    case UInt(n) => Some(FromNumber(n))
    case _ => None
  }

  /** from_json: dispatch on the kind of the JSON value. */
  method FromJson(v: Json.Value) returns (r: Option<Snowflake>)
    ensures r == Decode(v)
  {
    match v {
      case Arr(items) =>
        var outcome := FromJsonArray(items);
        r := if outcome.Returned? then outcome.id else None;
      case Str(text) =>
        r := FromJsonString(text);
      case Int(n) =>
        r := Some(FromNumber(n));
      case UInt(n) =>
        r := Some(FromNumber(n));
      case _ =>
        r := None;
    }
  }

  /** from_json(as_json(s)) == s for every id, the invalid one included. */
  lemma WireRoundTrip(s: Snowflake)
    ensures Decode(Wire(s)) == Some(s)
  {
    if !(s.most != 0 && s.least == 0) {
      Base64.UrlRoundTrip(Image(s));
      ImageRoundTrip(s);
    }
  }
}
