/**
 * The base64 and base64url codecs of src/common/encoding/base64.cpp.
 *
 * Each codec is a method that fills an output buffer in a loop driven by a
 * small carry state machine, as the C++ does; each is proved equal to a
 * specification function that describes the encoding group by group. The
 * properties of the encodings (lengths, alphabet, the round trip, the ways
 * the padded variant departs from section 4 of RFC 4648) are proved about
 * those functions.
 *
 * A C++ `char`/`uint8_t` is an int between 0 and 255. The masks and shifts
 * with constant operands are written as division and remainder by powers of
 * two (`(b & 0b11110000) >> 4` is `b / 16`); `|` is BitOr below.
 */
module Base64 {
  import opened Wrappers

  type byte = x: int | 0 <= x < 256

  // ---------------------------------------------------------------------------
  // Bit helpers

  function Pow2(n: nat): (r: nat)
    ensures r >= 1
  {
    if n == 0 then 1 else 2 * Pow2(n - 1)
  }

  /** Bitwise OR of two naturals, bit by bit from the lowest. */
  function BitOr(a: nat, b: nat): nat
    decreases a + b
  {
    if a == 0 then b
    else if b == 0 then a
    else 2 * BitOr(a / 2, b / 2) + (if a % 2 == 1 || b % 2 == 1 then 1 else 0)
  }

  /** OR-ing a value below 2^s into a multiple of 2^s is addition. */
  lemma {:induction false} BitOrShifted(q: nat, b: nat, s: nat)
    requires b < Pow2(s)
    ensures BitOr(q * Pow2(s), b) == q * Pow2(s) + b
    decreases s
  {
    var a := q * Pow2(s);
    if s == 0 {
      assert b == 0;
    } else if a != 0 && b != 0 {
      var x := q * Pow2(s - 1);
      assert a == 2 * x by {
        assert Pow2(s) == 2 * Pow2(s - 1);
      }
      BitOrShifted(q, b / 2, s - 1);
      assert BitOr(a, b) == 2 * BitOr(x, b / 2) + b % 2;
    }
  }

  /** OR-ing a value into bits that are zero is addition. */
  lemma BitOrDisjoint(a: nat, b: nat, s: nat)
    requires a % Pow2(s) == 0 && b < Pow2(s)
    ensures BitOr(a, b) == a + b
  {
    var p := Pow2(s);
    assert a == (a / p) * p;
    BitOrShifted(a / p, b, s);
  }

  // ---------------------------------------------------------------------------
  // The four symbol maps

  /** The symbols of base64url_chars: A-Z a-z 0-9 - _ */
  predicate IsUrlSymbol(c: char) {
    ('A' <= c <= 'Z') || ('a' <= c <= 'z') || ('0' <= c <= '9') || c == '-' || c == '_'
  }

  /**
   * to_base64url_char: the symbol at index b of
   * "ABCDEFGHIJKLMNOPQRSTUVWXYZabcdefghijklmnopqrstuvwxyz0123456789-_",
   * or '?' for b >= 64. The table is written out range by range.
   */
  function ToBase64UrlChar(b: byte): (c: char)
    ensures b < 64 <==> IsUrlSymbol(c)
    ensures b >= 64 ==> c == '?'
  {
    if b < 26 then ('A' as int + b) as char
    else if b < 52 then ('a' as int + (b - 26)) as char
    else if b < 62 then ('0' as int + (b - 52)) as char
    else if b == 62 then '-'
    else if b == 63 then '_'
    else '?'
  }

  /**
   * to_base64_char: the same table with '+' and '/' in places 62 and 63,
   * or '?' for b >= 64.
   */
  function ToBase64Char(b: byte): (c: char)
    ensures b < 62 ==> c == ToBase64UrlChar(b)
    ensures b == 62 ==> c == '+'
    ensures b == 63 ==> c == '/'
    ensures b >= 64 ==> c == '?'
  {
    if b == 62 then '+'
    else if b == 63 then '/'
    else ToBase64UrlChar(b)
  }

  /** from_base64url: the index of a base64url symbol; nothing for any other character. */
  function FromBase64Url(c: char): (r: Option<byte>)
    ensures r.Some? <==> IsUrlSymbol(c)
    ensures r.Some? ==> r.value < 64 && ToBase64UrlChar(r.value) == c
  {
    if 'A' <= c <= 'Z' then Some(c as int - 'A' as int)
    else if 'a' <= c <= 'z' then Some(c as int - 'a' as int + 26)
    else if '0' <= c <= '9' then Some(c as int - '0' as int + 52)
    else if c == '-' || c == '_' then Some(if c == '-' then 62 else 63)
    else None
  }

  /**
   * from_base64: written separately in the source, with the URL symbols '-'
   * and '_' (not '+' and '/'), so it is the same map as from_base64url.
   */
  function FromBase64(c: char): (r: Option<byte>)
    ensures r == FromBase64Url(c)
  {
    if 'A' <= c <= 'Z' then Some(c as int - 'A' as int)
    else if 'a' <= c <= 'z' then Some(c as int - 'a' as int + 26)
    else if '0' <= c <= '9' then Some(c as int - '0' as int + 52)
    else if c == '-' || c == '_' then Some(if c == '-' then 62 else 63)
    else None
  }

  lemma UrlSymbolRoundTrip(b: byte)
    requires b < 64
    ensures FromBase64Url(ToBase64UrlChar(b)) == Some(b)
  {
  }

  // ---------------------------------------------------------------------------
  // Specification of the encoders

  /** (n * 8 + 5) / 6: the number of symbols for n bytes, before any padding. */
  function EncodedLength(n: nat): nat {
    (n * 8 + 5) / 6
  }

  function ByteOrZero(d: seq<byte>, i: nat): byte {
    if i < |d| then d[i] else 0
  }

  /**
   * The k-th 6-bit group of d: each 3-byte group g gives four 6-bit groups,
   * most significant bits first, with zero bits after the last byte.
   */
  function SextetAt(d: seq<byte>, k: nat): (v: byte)
    ensures v < 64
  {
    GroupSextet(d, k / 4, k % 4)
  }

  /** 6-bit group r (0 to 3) of the bytes 3g, 3g + 1 and 3g + 2 of d. */
  function GroupSextet(d: seq<byte>, g: nat, r: nat): (v: byte)
    ensures v < 64
  {
    var b0, b1, b2 := ByteOrZero(d, 3 * g), ByteOrZero(d, 3 * g + 1), ByteOrZero(d, 3 * g + 2);
    if r == 0 then b0 / 4
    else if r == 1 then (b0 % 4) * 16 + b1 / 16
    else if r == 2 then (b1 % 16) * 4 + b2 / 64
    else b2 % 64
  }

  /** Unpadded base64url (section 5 of RFC 4648): what encode_base64url returns. */
  function UrlEncoding(d: seq<byte>): (s: string)
    ensures |s| == EncodedLength(|d|)
    ensures forall i | 0 <= i < |s| :: IsUrlSymbol(s[i])
  {
    seq(EncodedLength(|d|), k requires 0 <= k => ToBase64UrlChar(SextetAt(d, k)))
  }

  /**
   * What encode_base64 returns: the symbols of the standard table, except
   * that the second symbol of each group of four comes from the URL table,
   * followed by |d| % 3 characters '='.
   */
  function StdEncoding(d: seq<byte>): (s: string)
    ensures |s| == EncodedLength(|d|) + |d| % 3
    ensures forall i | EncodedLength(|d|) <= i < |s| :: s[i] == '='
    ensures forall i | 0 <= i < EncodedLength(|d|) :: s[i] != '='
  {
    seq(EncodedLength(|d|), k requires 0 <= k => StdSymbol(SextetAt(d, k), k % 4))
    + seq(|d| % 3, _ => '=')
  }

  /** The symbol encode_base64 writes for the 6-bit group v at place p (0 to 3) of its group. */
  function StdSymbol(v: byte, p: nat): char {
    if p == 1 then ToBase64UrlChar(v) else ToBase64Char(v)
  }

  // ---------------------------------------------------------------------------
  // Specification of the decoders

  /** (m * 6) / 8: the number of bytes for m symbols. */
  function DecodedLength(m: nat): nat {
    (m * 6) / 8
  }

  type sextet = x: int | 0 <= x < 64

  /** The index of c in the alphabet, or 0 for a foreign character. */
  function SymbolIndex(c: char): sextet {
    var v := FromBase64Url(c);
    if v.Some? then v.value else 0
  }

  /** The indexes of the characters of s, one by one. */
  function SymbolValues(s: string): (vs: seq<sextet>)
    ensures |vs| == |s|
  {
    if s == [] then [] else [SymbolIndex(s[0])] + SymbolValues(s[1..])
  }

  /** Value i of vs, or 0 past the end. */
  function ValueAt(vs: seq<sextet>, i: nat): sextet {
    if i < |vs| then vs[i] else 0
  }

  /** Byte j of the decoding: the 6-bit values vs, concatenated, cut into bytes. */
  function DecodedByte(vs: seq<sextet>, j: nat): byte {
    GroupByte(vs, j / 3, j % 3)
  }

  /** Byte r (0 to 2) of what the values 4g to 4g + 3 of vs decode to. */
  function GroupByte(vs: seq<sextet>, g: nat, r: nat): byte {
    var v0, v1, v2, v3 := ValueAt(vs, 4 * g), ValueAt(vs, 4 * g + 1),
                          ValueAt(vs, 4 * g + 2), ValueAt(vs, 4 * g + 3);
    if r == 0 then v0 * 4 + v1 / 16
    else if r == 1 then (v1 % 16) * 16 + v2 / 4
    else (v2 % 4) * 64 + v3
  }

  /**
   * What decode_base64 and decode_base64url return. Fewer than two symbols give
   * the empty string without looking at them; otherwise a single character
   * outside A-Z a-z 0-9 - _ (so also '+', '/' and '=') gives nothing. Trailing
   * bits that do not fill a byte are dropped, and no length is refused.
   */
  function Decoding(s: string): (r: Option<seq<byte>>)
    ensures |s| < 2 ==> r == Some([])
    ensures r.Some? <==> |s| < 2 || forall i | 0 <= i < |s| :: IsUrlSymbol(s[i])
    ensures r.Some? ==> |r.value| == DecodedLength(|s|)
  {
    if DecodedLength(|s|) == 0 then Some([])
    else if forall i | 0 <= i < |s| :: FromBase64Url(s[i]).Some? then
      Some(seq(DecodedLength(|s|), j requires 0 <= j => DecodedByte(SymbolValues(s), j)))
    else None
  }

  // ---------------------------------------------------------------------------
  // Properties of the encodings

  lemma {:induction false} SymbolValueAt(s: string, i: nat)
    requires i < |s|
    ensures SymbolValues(s)[i] == SymbolIndex(s[i])
    decreases i
  {
    if i > 0 {
      SymbolValueAt(s[1..], i - 1);
      assert s[1..][i - 1] == s[i];
    }
  }

  lemma LengthsInverse(n: nat)
    ensures DecodedLength(EncodedLength(n)) == n
    ensures n > 0 ==> EncodedLength(n) >= 2
  {
    var g, r := n / 3, n % 3;
    assert n == 3 * g + r;
    if r == 0 {
      assert EncodedLength(n) == 4 * g;
    } else if r == 1 {
      assert EncodedLength(n) == 4 * g + 2;
    } else {
      assert EncodedLength(n) == 4 * g + 3;
    }
  }

  /** 6-bit group 4g + r of d is group r of the bytes of group g. */
  lemma SextetOfGroup(d: seq<byte>, g: nat, r: nat)
    requires r < 4
    ensures SextetAt(d, 4 * g + r) == GroupSextet(d, g, r)
  {
    assert (4 * g + r) / 4 == g && (4 * g + r) % 4 == r;
  }

  /** Cutting the 6-bit groups of a 3-byte group back into bytes gives the bytes. */
  lemma RegroupFirst(b0: byte, b1: byte, x: int, y: int)
    requires x == b0 / 4 && y == (b0 % 4) * 16 + b1 / 16
    ensures x * 4 + y / 16 == b0
  {
  }

  lemma RegroupSecond(b0: byte, b1: byte, b2: byte, x: int, y: int)
    requires x == (b0 % 4) * 16 + b1 / 16 && y == (b1 % 16) * 4 + b2 / 64
    ensures (x % 16) * 16 + y / 4 == b1
  {
  }

  lemma RegroupThird(b1: byte, b2: byte, x: int, y: int)
    requires x == (b1 % 16) * 4 + b2 / 64 && y == b2 % 64
    ensures (x % 4) * 64 + y == b2
  {
  }

  /** The symbols that byte j of n bytes is made of are all there. */
  lemma SymbolsOfByteExist(n: nat, j: nat)
    requires j < n
    ensures 4 * (j / 3) + j % 3 + 1 < EncodedLength(n)
  {
    var g, r := j / 3, j % 3;
    assert j + 1 == 3 * g + r + 1 <= n;
    assert (j + 1) * 8 + 5 <= n * 8 + 5;
    assert EncodedLength(j + 1) <= EncodedLength(n);
    if r == 0 {
      assert EncodedLength(j + 1) == 4 * g + 2;
    } else if r == 1 {
      assert EncodedLength(j + 1) == 4 * g + 3;
    } else {
      assert EncodedLength(j + 1) == 4 * g + 4;
    }
  }

  /** The value of a symbol of the unpadded encoding is the 6-bit group it encodes. */
  lemma SymbolOfEncoding(d: seq<byte>, i: nat)
    requires i < EncodedLength(|d|)
    ensures SymbolValues(UrlEncoding(d))[i] == SextetAt(d, i)
  {
    SymbolValueAt(UrlEncoding(d), i);
    UrlSymbolRoundTrip(SextetAt(d, i));
  }

  /** Byte 3g + r of the decoding, for r = 0, 1, 2, is byte r of group g. */
  lemma DecodedByteAt(vs: seq<sextet>, g: nat, r: nat)
    requires r < 3
    ensures DecodedByte(vs, 3 * g + r) == GroupByte(vs, g, r)
  {
    assert (3 * g + r) / 3 == g && (3 * g + r) % 3 == r;
  }

  /** The decoder reads byte 3g + r from the 6-bit groups the encoder cut it into. */
  lemma DecodedByteOfGroups(vs: seq<sextet>, d: seq<byte>, g: nat, r: nat)
    requires r < 3
    requires ValueAt(vs, 4 * g + r) == GroupSextet(d, g, r)
    requires ValueAt(vs, 4 * g + r + 1) == GroupSextet(d, g, r + 1)
    ensures GroupByte(vs, g, r) == ByteOrZero(d, 3 * g + r)
  {
    var b0, b1, b2 := ByteOrZero(d, 3 * g), ByteOrZero(d, 3 * g + 1), ByteOrZero(d, 3 * g + 2);
    var x, y := ValueAt(vs, 4 * g + r), ValueAt(vs, 4 * g + r + 1);
    if r == 0 {
      RegroupFirst(b0, b1, x, y);
    } else if r == 1 {
      RegroupSecond(b0, b1, b2, x, y);
    } else {
      RegroupThird(b1, b2, x, y);
    }
  }

  /** Byte j comes back from the 6-bit groups the encoder made of it. */
  lemma {:induction false} RoundTripByte(d: seq<byte>, j: nat)
    requires j < |d|
    ensures DecodedByte(SymbolValues(UrlEncoding(d)), j) == d[j]
  {
    var e := SymbolValues(UrlEncoding(d));
    var g, r := j / 3, j % 3;
    assert j == 3 * g + r;
    SymbolsOfByteExist(|d|, j);
    SymbolOfEncoding(d, 4 * g + r);
    SymbolOfEncoding(d, 4 * g + r + 1);
    SextetOfGroup(d, g, r);
    SextetOfGroup(d, g, r + 1);
    DecodedByteAt(e, g, r);
    DecodedByteOfGroups(e, d, g, r);
  }

  /** decode_base64url(encode_base64url(d)) == d: unpadded base64url round-trips. */
  lemma {:induction false} UrlRoundTrip(d: seq<byte>)
    ensures Decoding(UrlEncoding(d)) == Some(d)
  {
    var e := UrlEncoding(d);
    LengthsInverse(|d|);
    if |d| > 0 {
      assert forall i | 0 <= i < |e| :: FromBase64Url(e[i]).Some?;
      forall j | 0 <= j < |d|
        ensures DecodedByte(SymbolValues(e), j) == d[j]
      {
        RoundTripByte(d, j);
      }
      assert Decoding(e).value == d;
    }
  }

  /**
   * The padded output of encode_base64 is never accepted by decode_base64 when
   * the input length is not a multiple of three: it ends in '='.
   */
  lemma StdEncodingRejected(d: seq<byte>)
    requires |d| % 3 != 0
    ensures Decoding(StdEncoding(d)) == None
  {
    var e := StdEncoding(d);
    LengthsInverse(|d|);
    assert e[|e| - 1] == '=';
  }

  /** The smallest case of that: one zero byte is encoded as "AA=". */
  lemma StdEncodingOneByte()
    ensures StdEncoding([0]) == "AA="
    ensures Decoding("AA=") == None
  {
    assert EncodedLength(1) == 2;
    var e := StdEncoding([0]);
    assert e[0] == ToBase64Char(SextetAt([0], 0)) == 'A';
    assert e[1] == ToBase64UrlChar(SextetAt([0], 1)) == 'A';
    assert e[2] == '=';
    assert !IsUrlSymbol("AA="[2]);
  }

  // ---------------------------------------------------------------------------
  // The encoders

  /*
   * The encoder loop reads byte i = 3g + r, byte r of group g. Its carry
   * and carry_bits follow r, and out_idx is 4g + r: each byte completes one
   * 6-bit group, and the last byte of a group completes two.
   */

  /** The bits of byte 3g + r - 1 that wait for byte 3g + r (carry). */
  function Pending(d: seq<byte>, g: nat, r: nat): (c: byte)
    requires r < 3 && 3 * g + r <= |d|
    ensures c <= 60
    ensures r == 1 ==> c % 16 == 0
    ensures r == 2 ==> c % 4 == 0
  {
    if r == 1 then (d[3 * g] % 4) * 16
    else if r == 2 then (d[3 * g + 1] % 16) * 4
    else 0
  }

  /** The symbols that byte 3g + r completes are within char_count. */
  lemma EncodeFits(n: nat, g: nat, r: nat)
    requires r < 3 && 3 * g + r < n
    ensures 4 * g + r + (if r == 2 then 2 else 1) <= EncodedLength(n)
  {
    assert (3 * g + r + 1) * 8 + 5 <= n * 8 + 5;
    assert EncodedLength(3 * g + r + 1) <= EncodedLength(n);
    if r == 0 {
      assert EncodedLength(3 * g + 1) == 4 * g + 2;
    } else if r == 1 {
      assert EncodedLength(3 * g + 2) == 4 * g + 3;
    } else {
      assert EncodedLength(3 * g + 3) == 4 * g + 4;
    }
  }

  /**
   * The 6-bit groups that byte 3g + r completes, from the byte and the
   * carry, and the carry it leaves.
   */
  lemma GroupSextetStep(d: seq<byte>, g: nat, r: nat)
    requires r < 3 && 3 * g + r < |d|
    ensures r == 0 ==> GroupSextet(d, g, 0) == d[3 * g] / 4 && Pending(d, g, 1) == (d[3 * g] % 4) * 16
    ensures r == 1 ==> && GroupSextet(d, g, 1) == Pending(d, g, 1) + d[3 * g + 1] / 16
                       && Pending(d, g, 2) == (d[3 * g + 1] % 16) * 4
    ensures r == 2 ==> && GroupSextet(d, g, 2) == Pending(d, g, 2) + d[3 * g + 2] / 64
                       && GroupSextet(d, g, 3) == d[3 * g + 2] % 64
  {
  }

  /**
   * After the last byte, 3g + r in all, at most one 6-bit group is left, and
   * it is the carry: the bits of the last byte followed by zero bits.
   */
  lemma EncodeTail(d: seq<byte>, g: nat, r: nat)
    requires r < 3 && |d| == 3 * g + r
    ensures EncodedLength(|d|) == 4 * g + r + (if r == 0 then 0 else 1)
    ensures r > 0 ==> SextetAt(d, 4 * g + r) == Pending(d, g, r)
  {
    SextetOfGroup(d, g, r);
    if r == 0 {
      assert EncodedLength(|d|) == 4 * g;
    } else if r == 1 {
      assert EncodedLength(|d|) == 4 * g + 2;
    } else {
      assert EncodedLength(|d|) == 4 * g + 3;
    }
  }

  lemma OrBelow16(a: nat, b: nat)
    requires a % 16 == 0 && b < 16
    ensures BitOr(a, b) == a + b
  {
    assert Pow2(4) == 16;
    BitOrDisjoint(a, b, 4);
  }

  lemma OrBelow4(a: nat, b: nat)
    requires a % 4 == 0 && b < 4
    ensures BitOr(a, b) == a + b
  {
    assert Pow2(2) == 4;
    BitOrDisjoint(a, b, 2);
  }

  lemma OrBelow64(a: nat, b: nat)
    requires a % 64 == 0 && b < 64
    ensures BitOr(a, b) == a + b
  {
    assert Pow2(6) == 64;
    BitOrDisjoint(a, b, 6);
  }

  /** A string of the symbols of the 6-bit groups of d, one by one, is its URL encoding. */
  lemma UrlEncodingOf(d: seq<byte>, body: string)
    requires |body| == EncodedLength(|d|)
    requires forall k | 0 <= k < |body| :: body[k] == ToBase64UrlChar(SextetAt(d, k))
    ensures body == UrlEncoding(d)
  {
  }

  /** The same for encode_base64, whose padding follows the symbols. */
  lemma StdEncodingOf(d: seq<byte>, body: string)
    requires |body| == EncodedLength(|d|)
    requires forall k | 0 <= k < |body| :: body[k] == StdSymbol(SextetAt(d, k), k % 4)
    ensures body + seq(|d| % 3, _ => '=') == StdEncoding(d)
  {
  }

  /** The symbols before out_idx grow by those a pass of encode_base64url writes. */
  lemma ExtendUrlSymbols(d: seq<byte>, prev: seq<char>, next: seq<char>, g: nat, r: nat)
    requires r < 3 && |prev| == |next| && 4 * g + r + (if r == 2 then 2 else 1) <= |next|
    requires forall k | 0 <= k < 4 * g + r :: prev[k] == ToBase64UrlChar(SextetAt(d, k))
    requires forall k | 0 <= k < 4 * g + r :: next[k] == prev[k]
    requires next[4 * g + r] == ToBase64UrlChar(GroupSextet(d, g, r))
    requires r == 2 ==> next[4 * g + 3] == ToBase64UrlChar(GroupSextet(d, g, 3))
    ensures forall k | 0 <= k < 4 * g + r + (if r == 2 then 2 else 1) :: next[k] == ToBase64UrlChar(SextetAt(d, k))
  {
    SextetOfGroup(d, g, r);
    SextetOfGroup(d, g, 3);
  }

  /** The same for encode_base64. */
  lemma ExtendStdSymbols(d: seq<byte>, prev: seq<char>, next: seq<char>, g: nat, r: nat)
    requires r < 3 && |prev| == |next| && 4 * g + r + (if r == 2 then 2 else 1) <= |next|
    requires forall k | 0 <= k < 4 * g + r :: prev[k] == StdSymbol(SextetAt(d, k), k % 4)
    requires forall k | 0 <= k < 4 * g + r :: next[k] == prev[k]
    requires next[4 * g + r] == StdSymbol(GroupSextet(d, g, r), r)
    requires r == 2 ==> next[4 * g + 3] == StdSymbol(GroupSextet(d, g, 3), 3)
    ensures forall k | 0 <= k < 4 * g + r + (if r == 2 then 2 else 1) :: next[k] == StdSymbol(SextetAt(d, k), k % 4)
  {
    SextetOfGroup(d, g, r);
    SextetOfGroup(d, g, 3);
    assert (4 * g + r) % 4 == r && (4 * g + 3) % 4 == 3;
  }

  /**
   * The cases of encode_base64url's switch on carry_bits, for byte 3g + r
   * (r = 0, 1, 2: carry_bits 0, 2, 4): each writes the 6-bit groups the
   * byte completes and leaves the carry for the next byte. Case 2 reads
   * the URL table in encode_base64 too.
   */
  method EncodeUrlCase0(b: byte, ghost data: seq<byte>, ghost g: nat, out: array<char>, outIdx: nat)
    returns (nextIdx: nat, nextCarry: byte, nextBits: nat)
    requires 3 * g < |data| && data[3 * g] == b && outIdx < out.Length
    modifies out
    ensures nextIdx == outIdx + 1 && nextBits == 2 && nextCarry == Pending(data, g, 1)
    ensures forall k | 0 <= k < out.Length && k != outIdx :: out[k] == old(out[k])
    ensures out[outIdx] == ToBase64UrlChar(GroupSextet(data, g, 0))
  {
    GroupSextetStep(data, g, 0);
    out[outIdx] := ToBase64UrlChar(b / 4);                      // (byte & 0b11111100) >> 2
    nextIdx := outIdx + 1;
    nextCarry := (b % 4) * 16;                                  // (byte & 0b00000011) << 4
    nextBits := 2;
  }

  method EncodeCase2(b: byte, carry: byte, ghost data: seq<byte>, ghost g: nat, out: array<char>, outIdx: nat)
    returns (nextIdx: nat, nextCarry: byte, nextBits: nat)
    requires 3 * g + 1 < |data| && data[3 * g + 1] == b && carry == Pending(data, g, 1) && outIdx < out.Length
    modifies out
    ensures nextIdx == outIdx + 1 && nextBits == 4 && nextCarry == Pending(data, g, 2)
    ensures forall k | 0 <= k < out.Length && k != outIdx :: out[k] == old(out[k])
    ensures out[outIdx] == ToBase64UrlChar(GroupSextet(data, g, 1))
  {
    GroupSextetStep(data, g, 1);
    OrBelow16(carry, b / 16);
    out[outIdx] := ToBase64UrlChar(BitOr(carry, b / 16));      // carry | ((byte & 0b11110000) >> 4)
    nextIdx := outIdx + 1;
    nextCarry := (b % 16) * 4;                                  // (byte & 0b00001111) << 2
    nextBits := 4;
  }

  method EncodeUrlCase4(b: byte, carry: byte, ghost data: seq<byte>, ghost g: nat, out: array<char>, outIdx: nat)
    returns (nextIdx: nat, nextCarry: byte, nextBits: nat)
    requires 3 * g + 2 < |data| && data[3 * g + 2] == b && carry == Pending(data, g, 2) && outIdx + 1 < out.Length
    modifies out
    ensures nextIdx == outIdx + 2 && nextBits == 0 && nextCarry == 0
    ensures forall k | 0 <= k < out.Length && k != outIdx && k != outIdx + 1 :: out[k] == old(out[k])
    ensures out[outIdx] == ToBase64UrlChar(GroupSextet(data, g, 2)) && out[outIdx + 1] == ToBase64UrlChar(GroupSextet(data, g, 3))
  {
    GroupSextetStep(data, g, 2);
    OrBelow4(carry, b / 64);
    out[outIdx] := ToBase64UrlChar(BitOr(carry, b / 64));      // carry | ((byte & 0b11000000) >> 6)
    out[outIdx + 1] := ToBase64UrlChar(b % 64);                 // byte & 0b00111111
    nextIdx := outIdx + 2;
    nextCarry := 0;
    nextBits := 0;
  }

  /**
   * One pass of encode_base64url's loop: the switch on carry_bits for byte i,
   * byte r of group g. It writes the 6-bit groups that byte i completes, and
   * nothing before them; the `default` branch is never taken.
   */
  method EncodeUrlPass(data: seq<byte>, i: nat, ghost g: nat, ghost r: nat, out: array<char>, outIdx: nat,
                       carry: byte, carryBits: nat)
    returns (nextIdx: nat, nextCarry: byte, nextBits: nat)
    requires i == 3 * g + r && r < 3 && i < |data| && out.Length == EncodedLength(|data|)
    requires outIdx == 4 * g + r && carryBits == 2 * r && carry == Pending(data, g, r)
    modifies out
    ensures nextIdx == outIdx + (if r == 2 then 2 else 1) <= out.Length
    ensures r < 2 ==> nextBits == 2 * (r + 1) && nextCarry == Pending(data, g, r + 1)
    ensures r == 2 ==> nextBits == 0 && nextCarry == 0
    ensures forall k | 0 <= k < outIdx :: out[k] == old(out[k])
    ensures out[outIdx] == ToBase64UrlChar(GroupSextet(data, g, r))
    ensures r == 2 ==> out[outIdx + 1] == ToBase64UrlChar(GroupSextet(data, g, 3))
  {
    EncodeFits(|data|, g, r);
    var b := data[i];
    if carryBits == 0 {
      nextIdx, nextCarry, nextBits := EncodeUrlCase0(b, data, g, out, outIdx);
    } else if carryBits == 2 {
      nextIdx, nextCarry, nextBits := EncodeCase2(b, carry, data, g, out, outIdx);
    } else if carryBits == 4 {
      nextIdx, nextCarry, nextBits := EncodeUrlCase4(b, carry, data, g, out, outIdx);
    } else {
      assert false;
      nextIdx, nextCarry, nextBits := outIdx, carry, carryBits;
    }
  }

  /** encode_base64url. */
  method EncodeBase64Url(data: seq<byte>) returns (r: Option<string>)
    ensures r == Some(UrlEncoding(data))
  {
    var charCount := EncodedLength(|data|);                     // (size * 8 + 5) / 6
    if |data| == 0 {
      return Some("");
    }
    var out := new char[charCount](_ => '\0');
    var outIdx, carry, g, pos := EncodeUrlSymbols(data, out);
    EncodeTail(data, g, pos);
    while outIdx < charCount
      invariant outIdx <= charCount
      invariant outIdx < charCount ==> outIdx == 4 * g + pos && pos > 0 && carry == Pending(data, g, pos)
      invariant forall k | 0 <= k < outIdx :: out[k] == ToBase64UrlChar(SextetAt(data, k))
    {
      out[outIdx] := ToBase64UrlChar(carry);
      outIdx := outIdx + 1;
      carry := 0;
    }
    UrlEncodingOf(data, out[..]);
    r := Some(out[..]);
  }

  /**
   * The loop of encode_base64url over the bytes of data. After
   * it, out_idx is 4g + r for the 3g + r bytes of data, the carry holds the
   * bits of the last byte not yet written, and the symbols before out_idx
   * are those of the encoding.
   */
  method EncodeUrlSymbols(data: seq<byte>, out: array<char>) returns (outIdx: nat, carry: byte, ghost g: nat, ghost pos: nat)
    requires out.Length == EncodedLength(|data|)
    modifies out
    ensures |data| == 3 * g + pos && pos < 3 && outIdx == 4 * g + pos <= out.Length
    ensures carry == Pending(data, g, pos)
    ensures forall k | 0 <= k < outIdx :: out[k] == ToBase64UrlChar(SextetAt(data, k))
  {
    outIdx := 0;
    carry := 0;
    var carryBits := 0;
    g, pos := 0, 0;                                              // byte i is byte pos of group g
    for i := 0 to |data|
      invariant i == 3 * g + pos && pos < 3
      invariant outIdx == 4 * g + pos <= out.Length
      invariant carryBits == 2 * pos && carry == Pending(data, g, pos)
      invariant forall k | 0 <= k < outIdx :: out[k] == ToBase64UrlChar(SextetAt(data, k))
    {
      ghost var prev := out[..];
      outIdx, carry, carryBits := EncodeUrlPass(data, i, g, pos, out, outIdx, carry, carryBits);
      ExtendUrlSymbols(data, prev, out[..], g, pos);
      if pos == 2 {
        g, pos := g + 1, 0;
      } else {
        pos := pos + 1;
      }
    }
  }

  /** Cases 0 and 4 of encode_base64's switch, over the standard table. */
  method EncodeStdCase0(b: byte, ghost data: seq<byte>, ghost g: nat, out: array<char>, outIdx: nat)
    returns (nextIdx: nat, nextCarry: byte, nextBits: nat)
    requires 3 * g < |data| && data[3 * g] == b && outIdx < out.Length
    modifies out
    ensures nextIdx == outIdx + 1 && nextBits == 2 && nextCarry == Pending(data, g, 1)
    ensures forall k | 0 <= k < out.Length && k != outIdx :: out[k] == old(out[k])
    ensures out[outIdx] == ToBase64Char(GroupSextet(data, g, 0))
  {
    GroupSextetStep(data, g, 0);
    out[outIdx] := ToBase64Char(b / 4);
    nextIdx := outIdx + 1;
    nextCarry := (b % 4) * 16;
    nextBits := 2;
  }

  method EncodeStdCase4(b: byte, carry: byte, ghost data: seq<byte>, ghost g: nat, out: array<char>, outIdx: nat)
    returns (nextIdx: nat, nextCarry: byte, nextBits: nat)
    requires 3 * g + 2 < |data| && data[3 * g + 2] == b && carry == Pending(data, g, 2) && outIdx + 1 < out.Length
    modifies out
    ensures nextIdx == outIdx + 2 && nextBits == 0 && nextCarry == 0
    ensures forall k | 0 <= k < out.Length && k != outIdx && k != outIdx + 1 :: out[k] == old(out[k])
    ensures out[outIdx] == ToBase64Char(GroupSextet(data, g, 2)) && out[outIdx + 1] == ToBase64Char(GroupSextet(data, g, 3))
  {
    GroupSextetStep(data, g, 2);
    OrBelow4(carry, b / 64);
    out[outIdx] := ToBase64Char(BitOr(carry, b / 64));
    out[outIdx + 1] := ToBase64Char(b % 64);
    nextIdx := outIdx + 2;
    nextCarry := 0;
    nextBits := 0;
  }

  /**
   * One pass of encode_base64's loop: as EncodeUrlPass, except that cases 0
   * and 4 use the standard table.
   */
  method EncodeStdPass(data: seq<byte>, i: nat, ghost g: nat, ghost r: nat, out: array<char>, outIdx: nat,
                       carry: byte, carryBits: nat)
    returns (nextIdx: nat, nextCarry: byte, nextBits: nat)
    requires i == 3 * g + r && r < 3 && i < |data| && out.Length == EncodedLength(|data|)
    requires outIdx == 4 * g + r && carryBits == 2 * r && carry == Pending(data, g, r)
    modifies out
    ensures nextIdx == outIdx + (if r == 2 then 2 else 1) <= out.Length
    ensures r < 2 ==> nextBits == 2 * (r + 1) && nextCarry == Pending(data, g, r + 1)
    ensures r == 2 ==> nextBits == 0 && nextCarry == 0
    ensures forall k | 0 <= k < outIdx :: out[k] == old(out[k])
    ensures out[outIdx] == StdSymbol(GroupSextet(data, g, r), r)
    ensures r == 2 ==> out[outIdx + 1] == StdSymbol(GroupSextet(data, g, 3), 3)
  {
    EncodeFits(|data|, g, r);
    var b := data[i];
    if carryBits == 0 {
      nextIdx, nextCarry, nextBits := EncodeStdCase0(b, data, g, out, outIdx);
    } else if carryBits == 2 {
      nextIdx, nextCarry, nextBits := EncodeCase2(b, carry, data, g, out, outIdx);
    } else if carryBits == 4 {
      nextIdx, nextCarry, nextBits := EncodeStdCase4(b, carry, data, g, out, outIdx);
    } else {
      assert false;
      nextIdx, nextCarry, nextBits := outIdx, carry, carryBits;
    }
  }

  /** encode_base64, with |data| % 3 characters '=' appended. */
  method EncodeBase64(data: seq<byte>) returns (r: Option<string>)
    ensures r == Some(StdEncoding(data))
  {
    var charCount := EncodedLength(|data|);                     // (size * 8 + 5) / 6
    var padding := |data| % 3;
    if |data| == 0 {
      return Some("");
    }
    var out := new char[charCount](_ => '\0');
    var outIdx, carry, g, pos := EncodeStdSymbols(data, out);
    EncodeTail(data, g, pos);
    while outIdx < charCount
      invariant outIdx <= charCount
      invariant outIdx < charCount ==> outIdx == 4 * g + pos && pos > 0 && carry == Pending(data, g, pos)
      invariant forall k | 0 <= k < outIdx :: out[k] == StdSymbol(SextetAt(data, k), k % 4)
    {
      // both tables agree on the carry, which is at most 60
      out[outIdx] := ToBase64Char(carry);
      outIdx := outIdx + 1;
      carry := 0;
    }
    StdEncodingOf(data, out[..]);
    r := Some(out[..] + seq(padding, _ => '='));
  }

  /**
   * The loop of encode_base64 over the bytes of data. After
   * it, out_idx is 4g + r for the 3g + r bytes of data, the carry holds the
   * bits of the last byte not yet written, and the symbols before out_idx
   * are those of the encoding.
   */
  method EncodeStdSymbols(data: seq<byte>, out: array<char>) returns (outIdx: nat, carry: byte, ghost g: nat, ghost pos: nat)
    requires out.Length == EncodedLength(|data|)
    modifies out
    ensures |data| == 3 * g + pos && pos < 3 && outIdx == 4 * g + pos <= out.Length
    ensures carry == Pending(data, g, pos)
    ensures forall k | 0 <= k < outIdx :: out[k] == StdSymbol(SextetAt(data, k), k % 4)
  {
    outIdx := 0;
    carry := 0;
    var carryBits := 0;
    g, pos := 0, 0;                                              // byte i is byte pos of group g
    for i := 0 to |data|
      invariant i == 3 * g + pos && pos < 3
      invariant outIdx == 4 * g + pos <= out.Length
      invariant carryBits == 2 * pos && carry == Pending(data, g, pos)
      invariant forall k | 0 <= k < outIdx :: out[k] == StdSymbol(SextetAt(data, k), k % 4)
    {
      ghost var prev := out[..];
      outIdx, carry, carryBits := EncodeStdPass(data, i, g, pos, out, outIdx, carry, carryBits);
      ExtendStdSymbols(data, prev, out[..], g, pos);
      if pos == 2 {
        g, pos := g + 1, 0;
      } else {
        pos := pos + 1;
      }
    }
  }

  // ---------------------------------------------------------------------------
  // The decoders

  /*
   * The decoder loop reads symbol k = 4g + r, the r-th of group g. Its state
   * (carry, bits_to_read, final_shift) follows r, out_idx is the number of
   * bytes the symbols before k complete, and out[out_idx] holds the bits of
   * the next byte read so far.
   */

  /** carry, bits_to_read and final_shift before symbol r of a group. */
  predicate DecoderPhase(r: nat, carry: bool, bitsToRead: nat, finalShift: nat) {
    && carry == (r == 3)
    && bitsToRead == (if r == 1 then 2 else if r == 2 then 4 else 6)
    && finalShift == 2 * r
  }

  /** out_idx before symbol r of group g: the bytes completed so far. */
  function BytesBefore(g: nat, r: nat): nat {
    3 * g + (if r == 0 then 0 else r - 1)
  }

  /** The bits of the next byte read before symbol r of group g (out[out_idx]). */
  function PartialAt(vs: seq<sextet>, g: nat, r: nat): byte {
    if r == 1 then ValueAt(vs, 4 * g) * 4
    else if r == 2 then (ValueAt(vs, 4 * g + 1) % 16) * 16
    else if r == 3 then (ValueAt(vs, 4 * g + 2) % 4) * 64
    else 0
  }

  /** BytesBefore is (6k)/8 for k = 4g + r. */
  lemma BytesBeforeLength(g: nat, r: nat)
    requires r < 4
    ensures BytesBefore(g, r) == DecodedLength(4 * g + r)
  {
    if r == 1 {
      assert (4 * g + 1) * 6 == 8 * (3 * g) + 6;
    } else if r == 2 {
      assert (4 * g + 2) * 6 == 8 * (3 * g + 1) + 4;
    } else if r == 3 {
      assert (4 * g + 3) * 6 == 8 * (3 * g + 2) + 2;
    }
  }

  /** The bytes the symbols before k complete fit in the char_count of n symbols. */
  lemma BytesBeforeFit(g: nat, r: nat, n: nat)
    requires r < 4 && 4 * g + r <= n
    ensures BytesBefore(g, r) <= DecodedLength(n)
  {
    BytesBeforeLength(g, r);
    assert (4 * g + r) * 6 <= n * 6;
  }

  /** The masks of the decoder loop keep the bits of a 6-bit value x. */
  lemma SymbolMasks(x: int)
    requires 0 <= x < 64
    ensures (x / 16) % 4 == x / 16 && (x / 4) % 16 == x / 4 && x % 64 == x
  {
  }

  /** What the OR into out[out_idx] amounts to, per symbol of the group. */
  lemma PartialBits(vs: seq<sextet>, g: nat)
    ensures PartialAt(vs, g, 1) % 4 == 0 && PartialAt(vs, g, 2) % 16 == 0 && PartialAt(vs, g, 3) % 64 == 0
  {
    Multiples(ValueAt(vs, 4 * g), ValueAt(vs, 4 * g + 1) % 16, ValueAt(vs, 4 * g + 2) % 4);
  }

  lemma Multiples(x: int, y: int, z: int)
    ensures (x * 4) % 4 == 0 && (y * 16) % 16 == 0 && (z * 64) % 64 == 0
  {
  }

  /** A buffer holding byte j of the decoding of s at each j is the decoding. */
  lemma DecodingOf(s: string, body: seq<byte>)
    requires DecodedLength(|s|) != 0 && forall i | 0 <= i < |s| :: IsUrlSymbol(s[i])
    requires |body| == DecodedLength(|s|)
    requires forall j | 0 <= j < |body| :: body[j] == DecodedByte(SymbolValues(s), j)
    ensures Some(body) == Decoding(s)
  {
    assert forall i | 0 <= i < |s| :: FromBase64Url(s[i]).Some?;
    assert body == seq(DecodedLength(|s|), j requires 0 <= j => DecodedByte(SymbolValues(s), j));
  }

  /** The decoded prefix of the buffer grows by the byte a pass completes. */
  lemma ExtendDecoded(vs: seq<sextet>, prev: seq<byte>, next: seq<byte>, g: nat, r: nat)
    requires r < 4 && BytesBefore(g, r) < |prev| && BytesBefore(g, r) < |next|
    requires r > 0 ==> next[BytesBefore(g, r)] == GroupByte(vs, g, r - 1)
    requires forall j | 0 <= j < BytesBefore(g, r) :: prev[j] == DecodedByte(vs, j)
    requires forall j | 0 <= j < BytesBefore(g, r) :: next[j] == prev[j]
    ensures forall j | 0 <= j < BytesBefore(if r == 3 then g + 1 else g, if r == 3 then 0 else r + 1) ::
              next[j] == DecodedByte(vs, j)
  {
    if r > 0 {
      DecodedByteAt(vs, g, r - 1);
    }
  }

  /** `>>` on a byte, for the shifts of the decoder. */
  lemma ShiftRight(x: byte, n: nat)
    requires n <= 6
    ensures 0 <= x / Pow2(n) <= x
  {
    assert Pow2(1) == 2 && Pow2(2) == 4 && Pow2(3) == 8;
    assert Pow2(4) == 16 && Pow2(5) == 32 && Pow2(6) == 64;
  }

  /**
   * What symbol 4g + r, of value v, contributes: the low bits of the byte
   * it completes (none for r = 0) and the high bits of the next one.
   */
  lemma GroupStep(vs: seq<sextet>, g: nat, r: nat)
    requires r < 4 && 4 * g + r < |vs|
    ensures r == 0 ==> PartialAt(vs, g, 1) == (vs[4 * g] as int) * 4
    ensures r == 1 ==> && GroupByte(vs, g, 0) == PartialAt(vs, g, 1) + vs[4 * g + 1] / 16
                       && PartialAt(vs, g, 2) == (vs[4 * g + 1] as int % 16) * 16
    ensures r == 2 ==> && GroupByte(vs, g, 1) == PartialAt(vs, g, 2) + vs[4 * g + 2] / 4
                       && PartialAt(vs, g, 3) == (vs[4 * g + 2] as int % 4) * 64
    ensures r == 3 ==> GroupByte(vs, g, 2) == PartialAt(vs, g, 3) + vs[4 * g + 3]
  {
  }

  /**
   * case 6 of the decoder switch, for symbol r of group g (r is 0 or 3, and
   * carry says which): value v is ORed into out[out_idx], shifted left by 2
   * when it starts a byte; after symbol 3 the byte is complete.
   */
  method DecodeCase6(v: sextet, ghost vs: seq<sextet>, ghost g: nat, ghost r: nat, out: array<byte>, outIdx: nat,
                     carry: bool)
    returns (nextIdx: nat, nextCarry: bool, nextBits: nat, nextShift: nat)
    requires (r == 0 || r == 3) && carry == (r == 3) && 4 * g + r < |vs| && vs[4 * g + r] == v
    requires outIdx < out.Length && (r == 3 ==> outIdx + 1 < out.Length)
    requires out[outIdx] == PartialAt(vs, g, r)
    modifies out
    ensures nextIdx == outIdx + (if r == 0 then 0 else 1)
    ensures DecoderPhase(if r == 3 then 0 else 1, nextCarry, nextBits, nextShift)
    ensures forall j | 0 <= j < out.Length && j != outIdx :: out[j] == old(out[j])
    ensures r == 0 ==> out[outIdx] == PartialAt(vs, g, 1)
    ensures r == 3 ==> out[outIdx] == GroupByte(vs, g, 2)
  {
    GroupStep(vs, g, r);
    SymbolMasks(v);
    if carry {
      PartialBits(vs, g);
      OrBelow64(out[outIdx], v % 64);
      out[outIdx] := BitOr(out[outIdx], v % 64);                // |= (val & 0b00111111) << 0
    } else {
      out[outIdx] := BitOr(out[outIdx], (v % 64) * 4);          // |= (val & 0b00111111) << 2
    }
    nextIdx := outIdx + (if carry then 1 else 0);             // out_idx += carry
    nextBits := if carry then 6 else 2;
    nextShift := if carry then 0 else 2;
    nextCarry := false;
  }

  /**
   * case 2, for symbol 1 of group g: the high two bits of v complete byte
   * out_idx, the low four start the next one.
   */
  method DecodeCase2(v: sextet, ghost vs: seq<sextet>, ghost g: nat, out: array<byte>, outIdx: nat)
    returns (nextIdx: nat, nextBits: nat, nextShift: nat)
    requires 4 * g + 1 < |vs| && vs[4 * g + 1] == v
    requires outIdx + 1 < out.Length && out[outIdx] == PartialAt(vs, g, 1) && out[outIdx + 1] == 0
    modifies out
    ensures nextIdx == outIdx + 1 && nextBits == 4 && nextShift == 4
    ensures forall j | 0 <= j < out.Length && j != outIdx && j != nextIdx :: out[j] == old(out[j])
    ensures out[outIdx] == GroupByte(vs, g, 0) && out[nextIdx] == PartialAt(vs, g, 2)
  {
    GroupStep(vs, g, 1);
    SymbolMasks(v);
    PartialBits(vs, g);
    OrBelow4(out[outIdx], (v / 16) % 4);
    out[outIdx] := BitOr(out[outIdx], (v / 16) % 4);            // |= (val & 0b00110000) >> 4
    nextIdx := outIdx + 1;
    out[nextIdx] := BitOr(out[nextIdx], (v % 16) * 16);         // |= (val & 0b00001111) << 4
    nextBits := 4;
    nextShift := 4;
  }

  /**
   * case 4, for symbol 2 of group g: the high four bits of v complete byte
   * out_idx, the low two start the next one, and carry is set.
   */
  method DecodeCase4(v: sextet, ghost vs: seq<sextet>, ghost g: nat, out: array<byte>, outIdx: nat)
    returns (nextIdx: nat, nextCarry: bool, nextBits: nat, nextShift: nat)
    requires 4 * g + 2 < |vs| && vs[4 * g + 2] == v
    requires outIdx + 1 < out.Length && out[outIdx] == PartialAt(vs, g, 2) && out[outIdx + 1] == 0
    modifies out
    ensures nextIdx == outIdx + 1 && nextCarry && nextBits == 6 && nextShift == 6
    ensures forall j | 0 <= j < out.Length && j != outIdx && j != nextIdx :: out[j] == old(out[j])
    ensures out[outIdx] == GroupByte(vs, g, 1) && out[nextIdx] == PartialAt(vs, g, 3)
  {
    GroupStep(vs, g, 2);
    SymbolMasks(v);
    PartialBits(vs, g);
    OrBelow16(out[outIdx], (v / 4) % 16);
    out[outIdx] := BitOr(out[outIdx], (v / 4) % 16);            // |= (val & 0b00111100) >> 2
    nextIdx := outIdx + 1;
    out[nextIdx] := BitOr(out[nextIdx], (v % 4) * 64);          // |= (val & 0b00000011) << 6
    nextCarry := true;
    nextBits := 6;
    nextShift := 6;
  }

  /**
   * One pass of decode_base64url's loop: the switch on bits_to_read for
   * character c, symbol r of group g of a text whose symbol values are vs.
   * It fails exactly when c is not a base64url symbol; otherwise it completes
   * byte out_idx when r is not 0 and leaves the bits of the next byte at the
   * new out_idx, whose slot was zero. The buffer is the std::string after
   * resize(char_count), with its terminator slot at index char_count. Each
   * case of the C++ switch calls from_base64url first; it has no effects, so
   * it is called once here, before the switch. The `default` branch is never
   * taken.
   */
  method DecodeUrlPass(c: char, ghost vs: seq<sextet>, ghost g: nat, ghost r: nat, out: array<byte>, outIdx: nat,
                       carry: bool, bitsToRead: nat, finalShift: nat)
    returns (ok: bool, nextIdx: nat, nextCarry: bool, nextBits: nat, nextShift: nat)
    requires r < 4 && 4 * g + r < |vs| && (IsUrlSymbol(c) ==> vs[4 * g + r] == SymbolIndex(c))
    requires DecoderPhase(r, carry, bitsToRead, finalShift)
    requires outIdx == BytesBefore(g, r) && outIdx + (if r == 0 then 0 else 1) < out.Length
    requires forall j | 0 <= j < outIdx :: out[j] == DecodedByte(vs, j)
    requires out[outIdx] == PartialAt(vs, g, r)
    requires forall j | outIdx < j < out.Length :: out[j] == 0
    modifies out
    ensures ok <==> IsUrlSymbol(c)
    ensures ok ==> && nextIdx == BytesBefore(if r == 3 then g + 1 else g, if r == 3 then 0 else r + 1)
                   && DecoderPhase(if r == 3 then 0 else r + 1, nextCarry, nextBits, nextShift)
    ensures ok ==> forall j | 0 <= j < nextIdx :: out[j] == DecodedByte(vs, j)
    ensures ok ==> out[nextIdx] == PartialAt(vs, if r == 3 then g + 1 else g, if r == 3 then 0 else r + 1)
    ensures ok ==> forall j | nextIdx < j < out.Length :: out[j] == 0
  {
    nextIdx, nextCarry, nextBits, nextShift := outIdx, carry, bitsToRead, finalShift;
    var val := FromBase64Url(c);
    if val.None? {
      return false, nextIdx, nextCarry, nextBits, nextShift;
    }
    ok := true;
    ghost var prev := out[..];
    if bitsToRead == 6 {
      nextIdx, nextCarry, nextBits, nextShift := DecodeCase6(val.value, vs, g, r, out, outIdx, carry);
    } else if bitsToRead == 2 {
      nextIdx, nextBits, nextShift := DecodeCase2(val.value, vs, g, out, outIdx);
    } else if bitsToRead == 4 {
      nextIdx, nextCarry, nextBits, nextShift := DecodeCase4(val.value, vs, g, out, outIdx);
    } else {
      assert false;
    }
    ExtendDecoded(vs, prev, out[..], g, r);
  }

  /**
   * decode_base64url. The result is the first char_count bytes of the
   * buffer; the final shift lands on the slot just past them.
   */
  method DecodeBase64Url(text: string) returns (r: Option<seq<byte>>)
    ensures r == Decoding(text)
  {
    var charCount := DecodedLength(|text|);                     // (size * 6) / 8
    if charCount == 0 {
      return Some([]);
    }
    var out := new byte[charCount + 1](_ => 0);
    var ok, outIdx, finalShift := DecodeUrlSymbols(text, out);
    if !ok {
      return None;
    }
    ShiftRight(out[outIdx], finalShift);
    out[outIdx] := out[outIdx] / Pow2(finalShift);
    DecodingOf(text, out[..charCount]);
    r := Some(out[..charCount]);
  }

  /**
   * The loop of decode_base64url over the characters of text. It stops at the first character
   * outside the alphabet; otherwise every byte before out_idx, which ends at
   * char_count, is a byte of the decoding.
   */
  method DecodeUrlSymbols(text: string, out: array<byte>) returns (ok: bool, outIdx: nat, finalShift: nat)
    requires out.Length == DecodedLength(|text|) + 1
    requires forall j | 0 <= j < out.Length :: out[j] == 0
    modifies out
    ensures ok <==> forall i | 0 <= i < |text| :: IsUrlSymbol(text[i])
    ensures ok ==> outIdx == DecodedLength(|text|) && finalShift <= 6
    ensures ok ==> forall j | 0 <= j < outIdx :: out[j] == DecodedByte(SymbolValues(text), j)
  {
    outIdx := 0;
    var carry := false;
    var bitsToRead := 6;
    finalShift := 0;
    ghost var vs := SymbolValues(text);
    ghost var g, pos := 0, 0;                                    // symbol k is symbol pos of group g
    for k := 0 to |text|
      invariant k == 4 * g + pos && pos < 4
      invariant outIdx == BytesBefore(g, pos) < out.Length
      invariant DecoderPhase(pos, carry, bitsToRead, finalShift)
      invariant forall i | 0 <= i < k :: IsUrlSymbol(text[i])
      invariant forall j | 0 <= j < outIdx :: out[j] == DecodedByte(vs, j)
      invariant out[outIdx] == PartialAt(vs, g, pos)
      invariant forall j | outIdx < j < out.Length :: out[j] == 0
    {
      BytesBeforeFit(if pos == 3 then g + 1 else g, if pos == 3 then 0 else pos + 1, |text|);
      SymbolValueAt(text, k);
      ok, outIdx, carry, bitsToRead, finalShift := DecodeUrlPass(text[k], vs, g, pos, out, outIdx, carry, bitsToRead, finalShift);
      if !ok {
        return;
      }
      if pos == 3 {
        g, pos := g + 1, 0;
      } else {
        pos := pos + 1;
      }
    }
    BytesBeforeLength(g, pos);
    ok := true;
  }

  /** One pass of decode_base64's loop: the same switch over from_base64, the same map. */
  method DecodeStdPass(c: char, ghost vs: seq<sextet>, ghost g: nat, ghost r: nat, out: array<byte>, outIdx: nat,
                       carry: bool, bitsToRead: nat, finalShift: nat)
    returns (ok: bool, nextIdx: nat, nextCarry: bool, nextBits: nat, nextShift: nat)
    requires r < 4 && 4 * g + r < |vs| && (IsUrlSymbol(c) ==> vs[4 * g + r] == SymbolIndex(c))
    requires DecoderPhase(r, carry, bitsToRead, finalShift)
    requires outIdx == BytesBefore(g, r) && outIdx + (if r == 0 then 0 else 1) < out.Length
    requires forall j | 0 <= j < outIdx :: out[j] == DecodedByte(vs, j)
    requires out[outIdx] == PartialAt(vs, g, r)
    requires forall j | outIdx < j < out.Length :: out[j] == 0
    modifies out
    ensures ok <==> IsUrlSymbol(c)
    ensures ok ==> && nextIdx == BytesBefore(if r == 3 then g + 1 else g, if r == 3 then 0 else r + 1)
                   && DecoderPhase(if r == 3 then 0 else r + 1, nextCarry, nextBits, nextShift)
    ensures ok ==> forall j | 0 <= j < nextIdx :: out[j] == DecodedByte(vs, j)
    ensures ok ==> out[nextIdx] == PartialAt(vs, if r == 3 then g + 1 else g, if r == 3 then 0 else r + 1)
    ensures ok ==> forall j | nextIdx < j < out.Length :: out[j] == 0
  {
    nextIdx, nextCarry, nextBits, nextShift := outIdx, carry, bitsToRead, finalShift;
    var val := FromBase64(c);
    if val.None? {
      return false, nextIdx, nextCarry, nextBits, nextShift;
    }
    ok := true;
    ghost var prev := out[..];
    if bitsToRead == 6 {
      nextIdx, nextCarry, nextBits, nextShift := DecodeCase6(val.value, vs, g, r, out, outIdx, carry);
    } else if bitsToRead == 2 {
      nextIdx, nextBits, nextShift := DecodeCase2(val.value, vs, g, out, outIdx);
    } else if bitsToRead == 4 {
      nextIdx, nextCarry, nextBits, nextShift := DecodeCase4(val.value, vs, g, out, outIdx);
    } else {
      assert false;
    }
    ExtendDecoded(vs, prev, out[..], g, r);
  }

  /** decode_base64: the loop of decode_base64url over DecodeStdPass. */
  method DecodeBase64(text: string) returns (r: Option<seq<byte>>)
    ensures r == Decoding(text)
  {
    var charCount := DecodedLength(|text|);                     // (size * 6) / 8
    if charCount == 0 {
      return Some([]);
    }
    var out := new byte[charCount + 1](_ => 0);
    var ok, outIdx, finalShift := DecodeStdSymbols(text, out);
    if !ok {
      return None;
    }
    ShiftRight(out[outIdx], finalShift);
    out[outIdx] := out[outIdx] / Pow2(finalShift);
    DecodingOf(text, out[..charCount]);
    r := Some(out[..charCount]);
  }

  /**
   * The loop of decode_base64. It stops at the first character
   * outside the alphabet; otherwise every byte before out_idx, which ends at
   * char_count, is a byte of the decoding.
   */
  method DecodeStdSymbols(text: string, out: array<byte>) returns (ok: bool, outIdx: nat, finalShift: nat)
    requires out.Length == DecodedLength(|text|) + 1
    requires forall j | 0 <= j < out.Length :: out[j] == 0
    modifies out
    ensures ok <==> forall i | 0 <= i < |text| :: IsUrlSymbol(text[i])
    ensures ok ==> outIdx == DecodedLength(|text|) && finalShift <= 6
    ensures ok ==> forall j | 0 <= j < outIdx :: out[j] == DecodedByte(SymbolValues(text), j)
  {
    outIdx := 0;
    var carry := false;
    var bitsToRead := 6;
    finalShift := 0;
    ghost var vs := SymbolValues(text);
    ghost var g, pos := 0, 0;                                    // symbol k is symbol pos of group g
    for k := 0 to |text|
      invariant k == 4 * g + pos && pos < 4
      invariant outIdx == BytesBefore(g, pos) < out.Length
      invariant DecoderPhase(pos, carry, bitsToRead, finalShift)
      invariant forall i | 0 <= i < k :: IsUrlSymbol(text[i])
      invariant forall j | 0 <= j < outIdx :: out[j] == DecodedByte(vs, j)
      invariant out[outIdx] == PartialAt(vs, g, pos)
      invariant forall j | outIdx < j < out.Length :: out[j] == 0
    {
      BytesBeforeFit(if pos == 3 then g + 1 else g, if pos == 3 then 0 else pos + 1, |text|);
      SymbolValueAt(text, k);
      ok, outIdx, carry, bitsToRead, finalShift := DecodeStdPass(text[k], vs, g, pos, out, outIdx, carry, bitsToRead, finalShift);
      if !ok {
        return;
      }
      if pos == 3 {
        g, pos := g + 1, 0;
      } else {
        pos := pos + 1;
      }
    }
    BytesBeforeLength(g, pos);
    ok := true;
  }
}
