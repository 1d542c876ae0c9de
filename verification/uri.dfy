/**
 * Object-key normalisation shared by the S3-facing handlers: every `+` of the
 * key as delivered in the storage-change notification becomes a space, then
 * the key is percent-decoded as `decodeURIComponent` does (section 2.1 of
 * RFC 3986 for the `%XY` triplets, with multi-octet sequences read as UTF-8
 * per section 3 of RFC 3629; anything malformed is a URIError).
 */
module UriDecoding {
  import opened Wrappers

  /** `key.replace(/\+/g, " ")` */
  function PlusToSpace(s: string): (r: string)
    ensures |r| == |s|
    ensures forall i :: 0 <= i < |s| && s[i] == '+' ==> r[i] == ' '
    ensures forall i :: 0 <= i < |s| && s[i] != '+' ==> r[i] == s[i]
    ensures '+' !in r
    ensures '+' !in s ==> r == s
  {
    seq(|s|, i requires 0 <= i < |s| => if s[i] == '+' then ' ' else s[i])
  }

  predicate IsHexDigit(c: char) {
    '0' <= c <= '9' || 'A' <= c <= 'F' || 'a' <= c <= 'f'
  }

  function HexValue(c: char): (v: nat)
    requires IsHexDigit(c)
    ensures v < 16
  {
    if '0' <= c <= '9' then c as int - '0' as int
    else if 'A' <= c <= 'F' then c as int - 'A' as int + 10
    else c as int - 'a' as int + 10
  }

  /** The upper-case hex digit an encoder writes for `v`. */
  function HexChar(v: nat): (c: char)
    requires v < 16
    ensures IsHexDigit(c) && HexValue(c) == v
  {
    if v < 10 then (v + '0' as int) as char else (v - 10 + 'A' as int) as char
  }

  /** The octet written as a `%XY` triplet at the front of `s`, if there is one. */
  function PercentOctet(s: string): (r: Option<nat>)
    ensures r.Some? ==> 3 <= |s| && s[0] == '%' && r.value < 256
  {
    if 3 <= |s| && s[0] == '%' && IsHexDigit(s[1]) && IsHexDigit(s[2])
    then Some(16 * HexValue(s[1]) + HexValue(s[2]))
    else None
  }

  /** `n` consecutive `%XY` triplets at the front of `s`. */
  function PercentOctets(s: string, n: nat): (r: Option<seq<nat>>)
    ensures r.Some? ==> |r.value| == n && 3 * n <= |s|
    ensures r.Some? ==> forall k :: 0 <= k < n ==> r.value[k] < 256
    decreases n
  {
    if n == 0 then Some([])
    else match PercentOctet(s)
      case None => None
      case Some(b) =>
        match PercentOctets(s[3..], n - 1)
        case None => None
        case Some(bs) => Some([b] + bs)
  }

  /**
   * How many octets a UTF-8 sequence starting with `lead` has, from its
   * leading one bits; 0 when `lead` cannot start a sequence (a continuation
   * octet, or five or more leading one bits).
   */
  function SequenceLength(lead: nat): (n: nat)
    ensures n <= 4
  {
    if lead < 0x80 then 1
    else if lead < 0xC0 then 0
    else if lead < 0xE0 then 2
    else if lead < 0xF0 then 3
    else if lead < 0xF8 then 4
    else 0
  }

  predicate IsContinuation(b: nat) {
    0x80 <= b < 0xC0
  }

  /**
   * The scalar value that `o` encodes when it is exactly one well-formed
   * UTF-8 sequence; overlong forms, surrogates and values above U+10FFFF
   * are refused (section 3 of RFC 3629).
   */
  function DecodeScalar(o: seq<nat>): (r: Option<char>)
  {
    if |o| == 1 && o[0] < 0x80 then Some(o[0] as char)
    else if |o| == 2 && 0xC0 <= o[0] < 0xE0 && IsContinuation(o[1]) then
      var cp := (o[0] - 0xC0) * 0x40 + (o[1] - 0x80);
      if cp < 0x80 then None else Some(cp as char)
    else if |o| == 3 && 0xE0 <= o[0] < 0xF0 && IsContinuation(o[1]) && IsContinuation(o[2]) then
      var cp := (o[0] - 0xE0) * 0x1000 + (o[1] - 0x80) * 0x40 + (o[2] - 0x80);
      if cp < 0x800 || 0xD800 <= cp <= 0xDFFF then None else Some(cp as char)
    else if |o| == 4 && 0xF0 <= o[0] < 0xF8 && IsContinuation(o[1]) && IsContinuation(o[2]) && IsContinuation(o[3]) then
      var cp := (o[0] - 0xF0) * 0x40000 + (o[1] - 0x80) * 0x1000 + (o[2] - 0x80) * 0x40 + (o[3] - 0x80);
      if cp < 0x10000 || 0x10FFFF < cp then None else Some(cp as char)
    else None
  }

  /**
   * `decodeURIComponent(s)`; `None` is the URIError it throws. Text without
   * `%` is returned as it is, and decoding never lengthens the text.
   */
  function DecodeComponent(s: string): (r: Option<string>)
    ensures '%' !in s ==> r == Some(s)
    ensures r.Some? ==> |r.value| <= |s|
    decreases |s|
  {
    if s == [] then Some([])
    else if s[0] != '%' then
      assert [s[0]] + s[1..] == s;
      match DecodeComponent(s[1..])
      case None => None
      case Some(t) => Some([s[0]] + t)
    else
      match PercentOctet(s)
      case None => None
      case Some(lead) =>
        var n := SequenceLength(lead);
        if n == 0 then None
        else
          match PercentOctets(s, n)
          case None => None
          case Some(octets) =>
            match DecodeScalar(octets)
            case None => None
            case Some(c) =>
              match DecodeComponent(s[3 * n..])
              case None => None
              case Some(t) => Some([c] + t)
  }

  /** `decodeURIComponent(key.replace(/\+/g, " "))`, the source key of every S3-facing handler. */
  function NormaliseKey(raw: string): (r: Option<string>)
    ensures '%' !in raw ==> r == Some(PlusToSpace(raw))
    ensures r.Some? ==> |r.value| <= |raw|
  {
    DecodeComponent(PlusToSpace(raw))
  }

  // ---------------------------------------------------------------------
  // The inverse: how the storage-change notification encodes a key.

  /** Characters left as they are (section 2.3 of RFC 3986). */
  predicate IsUnreserved(c: char) {
    'A' <= c <= 'Z' || 'a' <= c <= 'z' || '0' <= c <= '9' || c == '-' || c == '.' || c == '_' || c == '~'
  }

  /** The UTF-8 octets of one scalar value (section 3 of RFC 3629). */
  function Utf8Encode(c: char): (o: seq<nat>)
    ensures 1 <= |o| <= 4 && forall k :: 0 <= k < |o| ==> o[k] < 256
  {
    var cp := c as int;
    if cp < 0x80 then [cp]
    else if cp < 0x800 then [0xC0 + cp / 0x40, 0x80 + cp % 0x40]
    else if cp < 0x10000 then [0xE0 + cp / 0x1000, 0x80 + (cp / 0x40) % 0x40, 0x80 + cp % 0x40]
    else [0xF0 + cp / 0x40000, 0x80 + (cp / 0x1000) % 0x40, 0x80 + (cp / 0x40) % 0x40, 0x80 + cp % 0x40]
  }

  function PercentEncode(o: seq<nat>): (s: string)
    requires forall k :: 0 <= k < |o| ==> o[k] < 256
    ensures |s| == 3 * |o| && '+' !in s
  {
    if o == [] then []
    else ['%', HexChar(o[0] / 16), HexChar(o[0] % 16)] + PercentEncode(o[1..])
  }

  /** A space becomes `+`, an unreserved character stays, anything else is percent-encoded. */
  function EncodeChar(c: char): (s: string)
    ensures '+' in s ==> c == ' '
  {
    if c == ' ' then "+"
    else if IsUnreserved(c) then [c]
    else PercentEncode(Utf8Encode(c))
  }

  /**
   * An encoding in the notification's convention: a space as `+`, RFC 3986
   * unreserved characters as they are, and every other character, `%` and
   * `+` included, percent-encoded as UTF-8.
   */
  function EncodeKey(key: string): string
  {
    if key == [] then [] else EncodeChar(key[0]) + EncodeKey(key[1..])
  }

  // ---------------------------------------------------------------------
  // Properties.

  lemma DivMod64(x: int)
    requires 0 <= x
    ensures x == (x / 0x40) * 0x40 + x % 0x40 && 0 <= x % 0x40 < 0x40
  {
  }

  lemma Utf8RoundTrip(c: char)
    ensures SequenceLength(Utf8Encode(c)[0]) == |Utf8Encode(c)|
    ensures DecodeScalar(Utf8Encode(c)) == Some(c)
  {
    var cp := c as int;
    if cp < 0x80 {
    } else if cp < 0x800 {
      TwoOctetRoundTrip(cp);
    } else if cp < 0x10000 {
      ThreeOctetRoundTrip(cp);
    } else {
      FourOctetRoundTrip(cp);
    }
  }

  lemma TwoOctetRoundTrip(cp: int)
    requires 0x80 <= cp < 0x800
    ensures var o := [0xC0 + cp / 0x40, 0x80 + cp % 0x40];
      SequenceLength(o[0]) == 2 && DecodeScalar(o) == Some(cp as char)
  {
    var o := [0xC0 + cp / 0x40, 0x80 + cp % 0x40];
    DivMod64(cp);
    assert (o[0] - 0xC0) * 0x40 + (o[1] - 0x80) == cp;
  }

  lemma ThreeOctetRoundTrip(cp: int)
    requires 0x800 <= cp < 0x10000 && !(0xD800 <= cp <= 0xDFFF)
    ensures var o := [0xE0 + cp / 0x1000, 0x80 + (cp / 0x40) % 0x40, 0x80 + cp % 0x40];
      SequenceLength(o[0]) == 3 && DecodeScalar(o) == Some(cp as char)
  {
    var o := [0xE0 + cp / 0x1000, 0x80 + (cp / 0x40) % 0x40, 0x80 + cp % 0x40];
    var q1 := cp / 0x40;
    DivMod64(cp);
    DivMod64(q1);
    assert cp / 0x1000 == q1 / 0x40;
    assert (o[0] - 0xE0) * 0x1000 + (o[1] - 0x80) * 0x40 + (o[2] - 0x80) == cp;
  }

  lemma FourOctetRoundTrip(cp: int)
    requires 0x10000 <= cp <= 0x10FFFF
    ensures var o := [0xF0 + cp / 0x40000, 0x80 + (cp / 0x1000) % 0x40, 0x80 + (cp / 0x40) % 0x40, 0x80 + cp % 0x40];
      SequenceLength(o[0]) == 4 && DecodeScalar(o) == Some(cp as char)
  {
    var o := [0xF0 + cp / 0x40000, 0x80 + (cp / 0x1000) % 0x40, 0x80 + (cp / 0x40) % 0x40, 0x80 + cp % 0x40];
    var q1 := cp / 0x40;
    var q2 := q1 / 0x40;
    DivMod64(cp);
    DivMod64(q1);
    DivMod64(q2);
    assert cp / 0x1000 == q2;
    assert cp / 0x40000 == q2 / 0x40;
    assert (o[0] - 0xF0) * 0x40000 + (o[1] - 0x80) * 0x1000 + (o[2] - 0x80) * 0x40 + (o[3] - 0x80) == cp;
  }

  lemma HexPairValue(b: nat)
    requires b < 256
    ensures 16 * HexValue(HexChar(b / 16)) + HexValue(HexChar(b % 16)) == b
  {
  }

  lemma {:induction false} PercentOctetsOfEncoding(o: seq<nat>, rest: string)
    requires forall k :: 0 <= k < |o| ==> o[k] < 256
    ensures PercentOctets(PercentEncode(o) + rest, |o|) == Some(o)
  {
    if o != [] {
      var head := ['%', HexChar(o[0] / 16), HexChar(o[0] % 16)];
      var tail := PercentEncode(o[1..]) + rest;
      var s := PercentEncode(o) + rest;
      assert s == head + tail;
      PercentOctetOfTriplet(o[0], tail);
      assert s[3..] == tail;
      PercentOctetsOfEncoding(o[1..], rest);
      assert [o[0]] + o[1..] == o;
    }
  }

  lemma PercentOctetOfTriplet(b: nat, tail: string)
    requires b < 256
    ensures PercentOctet(['%', HexChar(b / 16), HexChar(b % 16)] + tail) == Some(b)
  {
    HexPairValue(b);
  }

  /** Decoding one encoded character, with `+` already turned into a space, gives that character back. */
  lemma DecodeOneChar(c: char, rest: string)
    ensures DecodeComponent(PlusToSpace(EncodeChar(c)) + rest) ==
      match DecodeComponent(rest)
      case None => None
      case Some(t) => Some([c] + t)
  {
    var u := PlusToSpace(EncodeChar(c));
    var s := u + rest;
    if c == ' ' || IsUnreserved(c) {
      assert u == [c];
      assert s[1..] == rest;
    } else {
      var o := Utf8Encode(c);
      assert u == PercentEncode(o);
      Utf8RoundTrip(c);
      PercentOctetsOfEncoding(o, rest);
      assert s[3 * |o|..] == rest;
    }
  }

  lemma PlusToSpaceAppend(a: string, b: string)
    ensures PlusToSpace(a + b) == PlusToSpace(a) + PlusToSpace(b)
  {
  }

  /** Normalisation undoes the notification's encoding of every key. */
  lemma {:induction false} NormaliseEncodedKey(key: string)
    ensures NormaliseKey(EncodeKey(key)) == Some(key)
  {
    if key != [] {
      PlusToSpaceAppend(EncodeChar(key[0]), EncodeKey(key[1..]));
      DecodeOneChar(key[0], PlusToSpace(EncodeKey(key[1..])));
      NormaliseEncodedKey(key[1..]);
      assert [key[0]] + key[1..] == key;
    }
  }

  /** A transport `+` is a space: for plain `p` and `q`, `p+q` names `p q`. */
  lemma PlusIsSpace(p: string, q: string)
    requires '%' !in p && '+' !in p && '%' !in q && '+' !in q
    ensures NormaliseKey(p + "+" + q) == Some(p + " " + q)
  {
    var raw := p + "+" + q;
    assert '%' !in raw;
    PlusToSpaceAppend(p + "+", q);
    PlusToSpaceAppend(p, "+");
    assert PlusToSpace("+") == " ";
  }

  /** A decoding result with `p` in front, a URIError staying one. */
  function Prefixed(p: string, r: Option<string>): Option<string> {
    match r
    case None => None
    case Some(t) => Some(p + t)
  }

  lemma PrefixedTwice(a: string, b: string, r: Option<string>)
    ensures Prefixed(a, Prefixed(b, r)) == Prefixed(a + b, r)
  {
    if r.Some? {
      assert a + (b + r.value) == (a + b) + r.value;
    }
  }

  /** A character other than `%` is copied through. */
  lemma DecodePlainChar(s: string)
    requires s != [] && s[0] != '%'
    ensures DecodeComponent(s) == Prefixed([s[0]], DecodeComponent(s[1..]))
  {
  }

  /** Text without `%` decodes to itself, in front of whatever the rest decodes to. */
  lemma {:induction false} DecodePlainPrefix(p: string, rest: string)
    requires '%' !in p
    ensures DecodeComponent(p + rest) == Prefixed(p, DecodeComponent(rest))
    decreases |p|
  {
    if p == [] {
      assert p + rest == rest;
      if DecodeComponent(rest).Some? {
        assert p + DecodeComponent(rest).value == DecodeComponent(rest).value;
      }
    } else {
      var s := p + rest;
      assert s[0] == p[0];
      assert s[1..] == p[1..] + rest;
      DecodePlainChar(s);
      DecodePlainPrefix(p[1..], rest);
      PrefixedTwice([p[0]], p[1..], DecodeComponent(rest));
      assert [p[0]] + p[1..] == p;
    }
  }

  /** Position `i` holds a `%` that is not followed by two hex digits. */
  predicate BadPercentAt(s: string, i: int) {
    0 <= i < |s| && s[i] == '%' && !(i + 2 < |s| && IsHexDigit(s[i + 1]) && IsHexDigit(s[i + 2]))
  }

  /** A run of `n` triplets read at the front of `s` is made of `%XY` at every third position. */
  lemma {:induction false} PercentOctetsShape(s: string, n: nat)
    requires PercentOctets(s, n).Some?
    ensures forall j :: 0 <= j < n ==> s[3 * j] == '%' && IsHexDigit(s[3 * j + 1]) && IsHexDigit(s[3 * j + 2])
    decreases n
  {
    if n > 0 {
      PercentOctetsShape(s[3..], n - 1);
      forall j | 1 <= j < n
        ensures s[3 * j] == '%' && IsHexDigit(s[3 * j + 1]) && IsHexDigit(s[3 * j + 2])
      {
        assert s[3..][3 * (j - 1)] == s[3 * j];
        assert s[3..][3 * (j - 1) + 1] == s[3 * j + 1];
        assert s[3..][3 * (j - 1) + 2] == s[3 * j + 2];
      }
    }
  }

  /** Inside a run of `n` triplets, every third position starts `%XY` and no other holds a `%`. */
  lemma TripletPosition(s: string, n: nat, i: int)
    requires PercentOctets(s, n).Some? && 0 <= i < 3 * n
    ensures i % 3 == 0 ==> s[i] == '%' && i + 2 < |s| && IsHexDigit(s[i + 1]) && IsHexDigit(s[i + 2])
    ensures i % 3 != 0 ==> s[i] != '%'
  {
    PercentOctetsShape(s, n);
    var j := i / 3;
    if i % 3 == 1 {
      assert i == 3 * j + 1;
    } else if i % 3 == 2 {
      assert i == 3 * j + 2;
    } else {
      assert i == 3 * j;
    }
  }

  /** A bad `%` lies beyond any run of `n` triplets read at the front. */
  lemma BadPercentAfterTriplets(s: string, n: nat, i: int)
    requires PercentOctets(s, n).Some? && BadPercentAt(s, i)
    ensures 3 * n <= i
  {
    if i < 3 * n {
      TripletPosition(s, n, i);
    }
  }

  /**
   * Wherever it stands, a `%` not followed by two hex digits makes the whole
   * decoding a URIError.
   */
  lemma {:induction false} BadPercentFails(s: string, i: int)
    requires BadPercentAt(s, i)
    ensures DecodeComponent(s) == None
    decreases |s|
  {
    if s[0] != '%' {
      assert BadPercentAt(s[1..], i - 1);
      BadPercentFails(s[1..], i - 1);
    } else if i > 0 && PercentOctet(s).Some? {
      var n := SequenceLength(PercentOctet(s).value);
      if n > 0 && PercentOctets(s, n).Some? && DecodeScalar(PercentOctets(s, n).value).Some? {
        BadPercentAfterTriplets(s, n, i);
        assert BadPercentAt(s[3 * n..], i - 3 * n);
        BadPercentFails(s[3 * n..], i - 3 * n);
      }
    }
  }

  /** The same holds of a raw key: replacing `+` touches neither `%` nor hex digits. */
  lemma BadPercentKeyThrows(raw: string, i: int)
    requires BadPercentAt(raw, i)
    ensures NormaliseKey(raw) == None
  {
    assert BadPercentAt(PlusToSpace(raw), i);
    BadPercentFails(PlusToSpace(raw), i);
  }

  /**
   * After any text without `%`, a triplet whose octet cannot start a UTF-8
   * sequence (a continuation octet 0x80-0xBF, or 0xF8 and above) is a URIError.
   */
  lemma StrayLeadFails(p: string, t: string)
    requires '%' !in p && PercentOctet(t).Some?
    requires 0x80 <= PercentOctet(t).value < 0xC0 || 0xF8 <= PercentOctet(t).value
    ensures DecodeComponent(p + t) == None
  {
    DecodePlainPrefix(p, t);
  }

  /** `+` is replaced before percent-decoding, so `%2B` still yields a literal plus sign. */
  lemma EncodedPlusIsPlus(p: string, q: string)
    requires '%' !in p && '+' !in p && '%' !in q && '+' !in q
    ensures NormaliseKey(p + "%2B" + q) == Some(p + "+" + q)
  {
    assert Utf8Encode('+') == [0x2B];
    assert HexChar(2) == '2' && HexChar(11) == 'B';
    assert EncodeChar('+') == "%2B";
    assert PlusToSpace("%2B") == "%2B";
    DecodeOneChar('+', q);
    assert DecodeComponent("%2B" + q) == Some(['+'] + q);
    var s := p + "%2B" + q;
    assert s == p + ("%2B" + q);
    assert '+' !in s;
    DecodePlainPrefix(p, "%2B" + q);
    assert p + (['+'] + q) == p + "+" + q;
  }

  /** A `%` not followed by two hex digits is a URIError. */
  lemma BarePercentThrows()
    ensures NormaliseKey("50%.png") == None
  {
  }

  /** The overlong two-octet form of `/` is refused, as section 3 of RFC 3629 requires. */
  lemma OverlongFormThrows()
    ensures NormaliseKey("%C0%AF.png") == None
  {
  }

  /** A lead octet announcing three octets but followed by only two is a URIError. */
  lemma TruncatedSequenceThrows()
    ensures NormaliseKey("%E2%82.png") == None
  {
  }
}
