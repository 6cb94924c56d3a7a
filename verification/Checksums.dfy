/** `normalizeChecksumValue`: one normal form for the spellings of a digest (base64 and base16 are
    sections 4 and 8 of RFC 4648). */
module Checksums {
  import opened Text

  type Byte = b: int | 0 <= b < 256

  datatype Decoded = Bytes(bytes: seq<Byte>) | Malformed

  // ---------------------------------------------------------------- base16

  function HexDigit(n: int): char
    requires 0 <= n < 16
  {
    if n < 10 then '0' + n as char else 'a' + (n - 10) as char
  }

  /** Either case is read. */
  function HexValue(c: char): (n: int)
    ensures -1 <= n < 16
  {
    if '0' <= c <= '9' then c as int - '0' as int
    else if 'a' <= c <= 'f' then c as int - 'a' as int + 10
    else if 'A' <= c <= 'F' then c as int - 'A' as int + 10
    else -1
  }

  /** `hex.EncodeToString`. */
  function HexEncode(d: seq<Byte>): (r: string)
    ensures |r| == 2 * |d|
  {
    if d == [] then "" else [HexDigit(d[0] / 16), HexDigit(d[0] % 16)] + HexEncode(d[1..])
  }

  /** `hex.DecodeString`. */
  function HexDecode(s: string): Decoded {
    if s == "" then Bytes([])
    else if |s| == 1 || HexValue(s[0]) < 0 || HexValue(s[1]) < 0 then Malformed
    else
      var rest := HexDecode(s[2..]);
      if rest.Malformed? then Malformed
      else Bytes([HexValue(s[0]) * 16 + HexValue(s[1])] + rest.bytes)
  }

  /** `isHexString`. */
  predicate IsHexString(s: string) {
    s != "" && HexDecode(s).Bytes?
  }

  lemma HexDigitValue(n: int)
    requires 0 <= n < 16
    ensures HexValue(HexDigit(n)) == n && LowerChar(HexDigit(n)) == HexDigit(n)
  {
  }

  lemma HexValueDigit(c: char)
    requires HexValue(c) >= 0
    ensures HexDigit(HexValue(c)) == LowerChar(c)
  {
  }

  lemma HexPair(b: Byte, rest: string, tail: seq<Byte>)
    requires HexDecode(rest) == Bytes(tail)
    ensures HexDecode([HexDigit(b / 16), HexDigit(b % 16)] + rest) == Bytes([b] + tail)
  {
    HexDigitValue(b / 16);
    HexDigitValue(b % 16);
    assert ([HexDigit(b / 16), HexDigit(b % 16)] + rest)[2..] == rest;
  }

  lemma {:induction false} HexRoundTrip(d: seq<Byte>)
    ensures HexDecode(HexEncode(d)) == Bytes(d)
  {
    if d != [] {
      HexRoundTrip(d[1..]);
      HexPair(d[0], HexEncode(d[1..]), d[1..]);
      assert [d[0]] + d[1..] == d;
    }
  }

  lemma HexStep(s: string)
    requires |s| >= 2 && HexDecode(s).Bytes?
    ensures HexDecode(s[2..]).Bytes?
    ensures HexEncode(HexDecode(s).bytes) ==
            [LowerChar(s[0]), LowerChar(s[1])] + HexEncode(HexDecode(s[2..]).bytes)
  {
    HexValueDigit(s[0]);
    HexValueDigit(s[1]);
    var d := HexDecode(s).bytes;
    assert d[0] == HexValue(s[0]) * 16 + HexValue(s[1]);
    assert d[0] / 16 == HexValue(s[0]) && d[0] % 16 == HexValue(s[1]);
    assert d[1..] == HexDecode(s[2..]).bytes;
  }

  /** Lower-casing any spelling of some bytes gives the canonical one. */
  lemma {:induction false} LowerHexIsCanonical(s: string)
    requires HexDecode(s).Bytes?
    ensures ToLower(s) == HexEncode(HexDecode(s).bytes)
  {
    if s != "" {
      HexStep(s);
      LowerHexIsCanonical(s[2..]);
      assert s == [s[0], s[1]] + s[2..];
      LowerAppend([s[0], s[1]], s[2..]);
      assert ToLower([s[0], s[1]]) == [LowerChar(s[0]), LowerChar(s[1])];
    }
  }

  lemma LowerHexValue(c: char, n: int)
    requires 0 <= n < 16 && LowerChar(c) == HexDigit(n)
    ensures HexValue(c) == n
  {
  }

  /** Base16 text in any case is read as the bytes whose lower-case text it is, and no other text is. */
  lemma {:induction false} HexDecodeIff(h: string, d: seq<Byte>)
    ensures HexDecode(h) == Bytes(d) <==> ToLower(h) == HexEncode(d)
  {
    if HexDecode(h) == Bytes(d) {
      LowerHexIsCanonical(h);
    } else if ToLower(h) == HexEncode(d) {
      LowerIsRead(h, d);
    }
  }

  lemma {:induction false} LowerIsRead(h: string, d: seq<Byte>)
    requires ToLower(h) == HexEncode(d)
    ensures HexDecode(h) == Bytes(d)
  {
    if d == [] {
      assert |h| == 0;
    } else {
      assert |h| == |HexEncode(d)| >= 2;
      assert LowerChar(h[0]) == HexEncode(d)[0] && LowerChar(h[1]) == HexEncode(d)[1];
      LowerHexValue(h[0], d[0] / 16);
      LowerHexValue(h[1], d[0] % 16);
      assert h == [h[0], h[1]] + h[2..];
      LowerAppend([h[0], h[1]], h[2..]);
      assert ToLower(h[2..]) == ToLower(h)[2..] == HexEncode(d)[2..] == HexEncode(d[1..]);
      LowerIsRead(h[2..], d[1..]);
      assert [d[0]] + d[1..] == d;
    }
  }

  lemma LowerAppend(a: string, b: string)
    ensures ToLower(a + b) == ToLower(a) + ToLower(b)
  {
    assert |ToLower(a + b)| == |ToLower(a) + ToLower(b)|;
  }

  // ---------------------------------------------------------------- base64

  function Sextet(n: int): char
    requires 0 <= n < 64
  {
    if n < 26 then 'A' + n as char
    else if n < 52 then 'a' + (n - 26) as char
    else if n < 62 then '0' + (n - 52) as char
    else if n == 62 then '+'
    else '/'
  }

  function SextetValue(c: char): (n: int)
    ensures -1 <= n < 64
  {
    if 'A' <= c <= 'Z' then c as int - 'A' as int
    else if 'a' <= c <= 'z' then c as int - 'a' as int + 26
    else if '0' <= c <= '9' then c as int - '0' as int + 52
    else if c == '+' then 62
    else if c == '/' then 63
    else -1
  }

  lemma SextetRoundTrip(n: int)
    requires 0 <= n < 64
    ensures SextetValue(Sextet(n)) == n && Sextet(n) != '=' && Sextet(n) != ':'
    ensures Sextet(n) != '\r' && Sextet(n) != '\n' && !IsSpace(Sextet(n))
  {
  }

  function Quad3(a: Byte, b: Byte, c: Byte): (r: string)
    ensures |r| == 4
  {
    [Sextet(a / 4), Sextet(a % 4 * 16 + b / 16), Sextet(b % 16 * 4 + c / 64), Sextet(c % 64)]
  }

  function Quad2(a: Byte, b: Byte): (r: string)
    ensures |r| == 4
  {
    [Sextet(a / 4), Sextet(a % 4 * 16 + b / 16), Sextet(b % 16 * 4), '=']
  }

  function Quad1(a: Byte): (r: string)
    ensures |r| == 4
  {
    [Sextet(a / 4), Sextet(a % 4 * 16), '=', '=']
  }

  /** `base64.StdEncoding.EncodeToString`. */
  function Base64Encode(d: seq<Byte>): (r: string)
    ensures |r| == (|d| + 2) / 3 * 4
  {
    if d == [] then ""
    else if |d| == 1 then Quad1(d[0])
    else if |d| == 2 then Quad2(d[0], d[1])
    else Quad3(d[0], d[1], d[2]) + Base64Encode(d[3..])
  }

  /** One quantum of the decoder; only the last may be padded. The bits that padding leaves over are
      not checked. */
  function Quantum(s: string, last: bool): Decoded
    requires |s| == 4
  {
    var p, q, u, v := SextetValue(s[0]), SextetValue(s[1]), SextetValue(s[2]), SextetValue(s[3]);
    if p < 0 || q < 0 then Malformed
    else if last && s[2] == '=' && s[3] == '=' then Bytes([p * 4 + q / 16])
    else if u < 0 then Malformed
    else if last && s[3] == '=' then Bytes([p * 4 + q / 16, q % 16 * 16 + u / 4])
    else if v < 0 then Malformed
    else Bytes([p * 4 + q / 16, q % 16 * 16 + u / 4, u % 4 * 64 + v])
  }

  function DecodeQuanta(s: string): Decoded
    decreases |s|, 1
  {
    if s == "" then Bytes([]) else if |s| < 4 then Malformed else DecodeFirst(s)
  }

  /** One quantum, and those that follow it. */
  function DecodeFirst(s: string): Decoded
    requires |s| >= 4
    decreases |s|, 0
  {
    var q := Quantum(s[..4], |s| == 4);
    if q.Malformed? then Malformed
    else
      var rest := DecodeQuanta(s[4..]);
      if rest.Malformed? then Malformed else Bytes(q.bytes + rest.bytes)
  }

  /** The decoder passes over line ends. */
  function WithoutLineEnds(s: string): string {
    if s == "" then ""
    else if s[0] == '\r' || s[0] == '\n' then WithoutLineEnds(s[1..])
    else [s[0]] + WithoutLineEnds(s[1..])
  }

  /** `base64.StdEncoding.DecodeString`. */
  function Base64Decode(s: string): Decoded {
    DecodeQuanta(WithoutLineEnds(s))
  }

  /** Three bytes cut into sextets and joined again. */
  lemma BitsRejoin(a: Byte, b: Byte, c: Byte)
    ensures a / 4 * 4 + (a % 4 * 16 + b / 16) / 16 == a
    ensures (a % 4 * 16 + b / 16) % 16 * 16 + (b % 16 * 4 + c / 64) / 4 == b
    ensures (b % 16 * 4 + c / 64) % 4 * 64 + c % 64 == c
  {
  }

  lemma QuantumRoundTrip3(a: Byte, b: Byte, c: Byte, last: bool)
    ensures Quantum(Quad3(a, b, c), last) == Bytes([a, b, c])
  {
    SextetRoundTrip(a / 4);
    SextetRoundTrip(a % 4 * 16 + b / 16);
    SextetRoundTrip(b % 16 * 4 + c / 64);
    SextetRoundTrip(c % 64);
    BitsRejoin(a, b, c);
  }

  lemma QuantumRoundTrip2(a: Byte, b: Byte)
    ensures Quantum(Quad2(a, b), true) == Bytes([a, b])
  {
    SextetRoundTrip(a / 4);
    SextetRoundTrip(a % 4 * 16 + b / 16);
    SextetRoundTrip(b % 16 * 4);
  }

  lemma QuantumRoundTrip1(a: Byte)
    ensures Quantum(Quad1(a), true) == Bytes([a])
  {
    SextetRoundTrip(a / 4);
    SextetRoundTrip(a % 4 * 16);
  }

  /** The characters that may appear in base64 text. */
  predicate Plain(s: string) {
    forall i :: 0 <= i < |s| ==> s[i] != ':' && s[i] != '\r' && s[i] != '\n' && !IsSpace(s[i])
  }

  lemma {:induction false} PlainHasNoLineEnds(s: string)
    requires Plain(s)
    ensures WithoutLineEnds(s) == s
  {
    if s != "" {
      PlainHasNoLineEnds(s[1..]);
    }
  }

  lemma FourPlain(w: char, x: char, y: char, z: char)
    requires Plain([w]) && Plain([x]) && Plain([y]) && Plain([z])
    ensures Plain([w, x, y, z])
  {
    assert [w][0] == w && [x][0] == x && [y][0] == y && [z][0] == z;
  }

  lemma SextetPlain(n: int)
    requires 0 <= n < 64
    ensures Plain([Sextet(n)]) && Plain("=")
  {
  }

  lemma QuadsPlain(a: Byte, b: Byte, c: Byte)
    ensures Plain(Quad1(a)) && Plain(Quad2(a, b)) && Plain(Quad3(a, b, c))
  {
    SextetPlain(a / 4);
    SextetPlain(a % 4 * 16);
    SextetPlain(a % 4 * 16 + b / 16);
    SextetPlain(b % 16 * 4);
    SextetPlain(b % 16 * 4 + c / 64);
    SextetPlain(c % 64);
    FourPlain(Sextet(a / 4), Sextet(a % 4 * 16), '=', '=');
    FourPlain(Sextet(a / 4), Sextet(a % 4 * 16 + b / 16), Sextet(b % 16 * 4), '=');
    FourPlain(Sextet(a / 4), Sextet(a % 4 * 16 + b / 16), Sextet(b % 16 * 4 + c / 64), Sextet(c % 64));
  }

  lemma {:induction false} Base64Plain(d: seq<Byte>)
    ensures Plain(Base64Encode(d))
  {
    if |d| >= 3 {
      QuadsPlain(d[0], d[1], d[2]);
      Base64Plain(d[3..]);
    } else if d != [] {
      QuadsPlain(d[0], d[|d| - 1], 0);
    }
  }

  lemma QuantaStep(q: string, rest: string, d: seq<Byte>, tail: seq<Byte>)
    requires |q| == 4 && Quantum(q, rest == "") == Bytes(d)
    requires DecodeQuanta(rest) == Bytes(tail)
    ensures DecodeQuanta(q + rest) == Bytes(d + tail)
  {
    var s := q + rest;
    assert s[..4] == q && s[4..] == rest;
    assert DecodeFirst(s) == Bytes(d + tail);
  }

  lemma QuantaOfThree(a: Byte, b: Byte, c: Byte, rest: string, tail: seq<Byte>)
    requires DecodeQuanta(rest) == Bytes(tail)
    ensures DecodeQuanta(Quad3(a, b, c) + rest) == Bytes([a, b, c] + tail)
  {
    QuantumRoundTrip3(a, b, c, rest == "");
    QuantaStep(Quad3(a, b, c), rest, [a, b, c], tail);
  }

  lemma QuantaOfTwo(a: Byte, b: Byte)
    ensures DecodeQuanta(Quad2(a, b)) == Bytes([a, b])
  {
    QuantumRoundTrip2(a, b);
    QuantaStep(Quad2(a, b), "", [a, b], []);
    assert Quad2(a, b) + "" == Quad2(a, b) && [a, b] + [] == [a, b];
  }

  lemma QuantaOfOne(a: Byte)
    ensures DecodeQuanta(Quad1(a)) == Bytes([a])
  {
    QuantumRoundTrip1(a);
    QuantaStep(Quad1(a), "", [a], []);
    assert Quad1(a) + "" == Quad1(a) && [a] + [] == [a];
  }

  lemma {:induction false} QuantaRoundTrip(d: seq<Byte>)
    ensures DecodeQuanta(Base64Encode(d)) == Bytes(d)
  {
    if |d| >= 3 {
      QuantaRoundTrip(d[3..]);
      QuantaOfThree(d[0], d[1], d[2], Base64Encode(d[3..]), d[3..]);
      assert [d[0], d[1], d[2]] + d[3..] == d;
    } else if |d| == 2 {
      QuantaOfTwo(d[0], d[1]);
    } else if |d| == 1 {
      QuantaOfOne(d[0]);
    }
  }

  lemma Base64RoundTrip(d: seq<Byte>)
    ensures Base64Decode(Base64Encode(d)) == Bytes(d)
  {
    Base64Plain(d);
    PlainHasNoLineEnds(Base64Encode(d));
    QuantaRoundTrip(d);
  }

  // ---------------------------------------------------------------- the normal form

  function FirstColon(s: string): (i: nat)
    requires ':' in s
    ensures i < |s| && s[i] == ':' && ':' !in s[..i]
  {
    if s[0] == ':' then 0
    else
      assert s == [s[0]] + s[1..];
      var i := 1 + FirstColon(s[1..]);
      assert s[..i] == [s[0]] + s[1..][..i - 1];
      i
  }

  /** `strings.SplitN(s, ":", 2)`, keeping what follows the colon if there is one. */
  function WithoutTag(s: string): string {
    if ':' in s then s[FirstColon(s) + 1..] else s
  }

  /** The part of `normalizeChecksumValue` that follows the tag: base16 first, then base64, then the
      text as it is. */
  function NormalizePart(part: string): string {
    if IsHexString(part) then ToLower(part)
    else
      match Base64Decode(part)
      case Bytes(d) => HexEncode(d)
      case Malformed => part
  }

  /** `normalizeChecksumValue`. */
  function NormalizeChecksumValue(irodsChecksum: string): string {
    var trimmed := TrimSpace(irodsChecksum);
    if trimmed == "" then "" else NormalizePart(WithoutTag(trimmed))
  }

  lemma {:induction false} TrimLeftStops(a: string, b: string)
    requires b != "" && !IsSpace(b[0])
    ensures TrimLeft(a + b) == TrimLeft(a) + b
  {
    if a == "" {
      assert a + b == b;
    } else if IsSpace(a[0]) {
      assert (a + b)[1..] == a[1..] + b;
      TrimLeftStops(a[1..], b);
    }
  }

  lemma WithoutTagOf(tag: string, s: string)
    requires ':' !in tag
    ensures WithoutTag(tag + ":" + s) == s
  {
    var t := tag + ":" + s;
    assert t[|tag|] == ':';
    var i := FirstColon(t);
    assert forall k :: 0 <= k < |tag| ==> t[k] == tag[k];
    assert forall k :: 0 <= k < i ==> t[k] == t[..i][k];
    assert i == |tag|;
    assert t[|tag| + 1..] == s;
  }

  lemma TrimRightKeeps(a: string, s: string)
    requires Trimmed(s)
    ensures TrimRight(a + ":" + s) == a + ":" + s
  {
    var t := a + ":" + s;
    if s == "" {
      assert t[|t| - 1] == ':';
    } else {
      assert t[|t| - 1] == s[|s| - 1];
    }
  }

  lemma TrimTagged(tag: string, s: string)
    requires Trimmed(s)
    ensures TrimSpace(tag + ":" + s) == TrimLeft(tag) + ":" + s
  {
    TrimLeftStops(tag, ":" + s);
    assert tag + ":" + s == tag + (":" + s);
    assert TrimLeft(tag) + ":" + s == TrimLeft(tag) + (":" + s);
    TrimRightKeeps(TrimLeft(tag), s);
  }

  lemma EmptyPart()
    ensures NormalizePart("") == ""
  {
  }

  /** Text without white space or colons is its own part. */
  lemma PlainPart(s: string)
    requires Trimmed(s) && ':' !in s
    ensures NormalizeChecksumValue(s) == NormalizePart(s)
  {
    EmptyPart();
  }

  /** What precedes the first colon does not matter. */
  lemma TagIgnored(tag: string, s: string)
    requires ':' !in tag && Trimmed(s)
    ensures NormalizeChecksumValue(tag + ":" + s) == NormalizePart(s)
  {
    TrimTagged(tag, s);
    TrimLeftSuffix(tag);
    WithoutTagOf(TrimLeft(tag), s);
  }

  lemma {:induction false} HexIsPlain(h: string)
    requires HexDecode(h).Bytes?
    ensures Plain(h) && '=' !in h
  {
    if h != "" {
      HexIsPlain(h[2..]);
      assert h == [h[0], h[1]] + h[2..];
    }
  }

  lemma PlainIsTrimmed(s: string)
    requires Plain(s)
    ensures Trimmed(s) && ':' !in s
  {
  }

  /** Any base16 spelling, in whatever case, becomes the lower-case one. */
  lemma HexNormalizes(h: string)
    requires HexDecode(h).Bytes?
    ensures NormalizePart(h) == HexEncode(HexDecode(h).bytes)
  {
    if h == "" {
      EmptyPart();
    } else {
      LowerHexIsCanonical(h);
    }
  }

  lemma {:induction false} PaddedEnds(d: seq<Byte>)
    requires |d| % 3 != 0
    ensures '=' in Base64Encode(d)
  {
    if |d| > 3 {
      PaddedEnds(d[3..]);
    } else if |d| == 1 {
      assert Quad1(d[0])[3] == '=';
    } else {
      assert Quad2(d[0], d[1])[3] == '=';
    }
  }

  lemma PaddedIsNotHex(d: seq<Byte>)
    requires |d| % 3 != 0
    ensures !IsHexString(Base64Encode(d))
  {
    PaddedEnds(d);
    if HexDecode(Base64Encode(d)).Bytes? {
      HexIsPlain(Base64Encode(d));
    }
  }

  lemma Base64Part(d: seq<Byte>)
    ensures NormalizePart(Base64Encode(d)) ==
            if IsHexString(Base64Encode(d)) then ToLower(Base64Encode(d)) else HexEncode(d)
  {
    Base64RoundTrip(d);
  }

  lemma ShorterText(n: nat)
    requires n % 3 == 0 && n > 0
    ensures (n + 2) / 3 * 4 != 2 * n
  {
  }

  /** Base64 text that passes for base16 spells fewer bytes. */
  lemma MisreadIsWrong(d: seq<Byte>)
    requires IsHexString(Base64Encode(d))
    ensures ToLower(Base64Encode(d)) != HexEncode(d)
  {
    if |d| % 3 != 0 {
      PaddedIsNotHex(d);
    }
    assert |d| > 0;
    ShorterText(|d|);
    assert |ToLower(Base64Encode(d))| != |HexEncode(d)|;
  }

  lemma Base64IsPart(d: seq<Byte>)
    ensures NormalizeChecksumValue(Base64Encode(d)) == NormalizePart(Base64Encode(d))
  {
    Base64Plain(d);
    PlainIsTrimmed(Base64Encode(d));
    PlainPart(Base64Encode(d));
  }

  /** A base64 spelling is understood exactly when it cannot be taken for base16. */
  lemma Base64NormalizesIff(d: seq<Byte>)
    ensures NormalizeChecksumValue(Base64Encode(d)) == HexEncode(d) <==> !IsHexString(Base64Encode(d))
  {
    Base64IsPart(d);
    Base64Part(d);
    if IsHexString(Base64Encode(d)) {
      MisreadIsWrong(d);
    }
  }

  lemma AbcdIsHex()
    ensures IsHexString("abcd") && ToLower("abcd") == "abcd"
  {
    assert "abcd"[2..] == "cd" && "cd"[2..] == "";
    assert HexDecode("cd").Bytes?;
  }

  lemma AbcdIsBase64()
    ensures Base64Encode([0x69, 0xb7, 0x1d]) == "abcd"
  {
    var d: seq<Byte> := [0x69, 0xb7, 0x1d];
    assert d[3..] == [] && Base64Encode(d[3..]) == "";
    assert Quad3(0x69, 0xb7, 0x1d) == "abcd";
  }

  /** One of the digests that are misread: the three bytes whose base64 text is "abcd". */
  lemma Base64Misread()
    ensures NormalizeChecksumValue(Base64Encode([0x69, 0xb7, 0x1d])) == "abcd" != HexEncode([0x69, 0xb7, 0x1d])
  {
    AbcdIsHex();
    AbcdIsBase64();
    Base64NormalizesIff([0x69, 0xb7, 0x1d]);
    PlainPart("abcd");
  }

  // ---------------------------------------------------------------- the standard's own words

  const HEX_ALPHABET := "0123456789abcdef"

  const UPPER_CASE := "ABCDEFGHIJKLMNOPQRSTUVWXYZ"

  const LOWER_CASE := "abcdefghijklmnopqrstuvwxyz"

  const BASE64_ALPHABET := UPPER_CASE + LOWER_CASE + "0123456789" + "+/"

  lemma LetterAt(n: nat)
    requires n < 26
    ensures UPPER_CASE[n] == 'A' + n as char && LOWER_CASE[n] == 'a' + n as char
  {
    if n < 7 {
    } else if n < 13 {
    } else if n < 20 {
    }
  }

  /** The alphabets of sections 4 and 8 of RFC 4648. */
  lemma Alphabets(n: nat)
    ensures n < 16 ==> HexDigit(n) == HEX_ALPHABET[n]
    ensures n < 64 ==> Sextet(n) == BASE64_ALPHABET[n]
  {
    var letters := UPPER_CASE + LOWER_CASE;
    if n < 26 {
      LetterAt(n);
      assert BASE64_ALPHABET[n] == letters[n] == UPPER_CASE[n];
    } else if n < 52 {
      LetterAt(n - 26);
      assert BASE64_ALPHABET[n] == letters[n] == LOWER_CASE[n - 26];
    } else if n < 62 {
      assert BASE64_ALPHABET[n] == "0123456789"[n - 52];
    }
  }

  /** The test vectors of section 10 of RFC 4648, "foobar" and its beginnings. */
  lemma TestVectors()
    ensures Base64Encode([0x66]) == "Zg==" && Base64Encode([0x66, 0x6f]) == "Zm8="
    ensures Base64Encode([0x66, 0x6f, 0x6f]) == "Zm9v" && Base64Encode([0x66, 0x6f, 0x6f, 0x62]) == "Zm9vYg=="
    ensures HexEncode([0x66, 0x6f, 0x6f]) == "666f6f"
  {
    var f, fo, foo: seq<Byte>, foob: seq<Byte> := [0x66], [0x66, 0x6f], [0x66, 0x6f, 0x6f], [0x66, 0x6f, 0x6f, 0x62];
    assert foo[3..] == [] && foob[3..] == [0x62];
    assert Base64Encode([]) == "" && Base64Encode([0x62]) == "Yg==";
    assert HexEncode([0x6f][1..]) == "" && HexEncode([0x6f]) == "6f";
    assert foo[1..] == [0x6f, 0x6f] && [0x6f, 0x6f][1..] == [0x6f];
    assert HexEncode([0x6f, 0x6f]) == "6f6f";
  }

  /** Line ends within base64 text do not matter. */
  lemma {:induction false} LineEndsIgnored(a: string, end: char, b: string)
    requires end == '\r' || end == '\n'
    ensures WithoutLineEnds(a + [end] + b) == WithoutLineEnds(a + b)
    ensures Base64Decode(a + [end] + b) == Base64Decode(a + b)
  {
    if a == "" {
      assert [] + [end] + b == [end] + b && ([end] + b)[1..] == b && [] + b == b;
    } else {
      assert (a + [end] + b)[1..] == a[1..] + [end] + b && (a + b)[1..] == a[1..] + b;
      LineEndsIgnored(a[1..], end, b);
    }
  }

  lemma SextetOf(c: char)
    requires SextetValue(c) >= 0
    ensures Sextet(SextetValue(c)) == c
  {
  }

  lemma SextetsRejoin(p: int, q: int, u: int, v: int)
    requires 0 <= p < 64 && 0 <= q < 64 && 0 <= u < 64 && 0 <= v < 64
    ensures var a, b, c := p * 4 + q / 16, q % 16 * 16 + u / 4, u % 4 * 64 + v;
      a / 4 == p && a % 4 * 16 + b / 16 == q && b % 16 * 4 + c / 64 == u && c % 64 == v
  {
  }

  /** A quantum read as three bytes is the one printed for them; a padded one is shorter and the last. */
  lemma QuantumText(s: string, last: bool)
    requires |s| == 4 && Quantum(s, last).Bytes?
    ensures var d := Quantum(s, last).bytes;
      1 <= |d| <= 3 && (|d| < 3 ==> last) && (|d| == 3 ==> s == Quad3(d[0], d[1], d[2]))
  {
    var p, q, u, v := SextetValue(s[0]), SextetValue(s[1]), SextetValue(s[2]), SextetValue(s[3]);
    if |Quantum(s, last).bytes| == 3 {
      SextetsRejoin(p, q, u, v);
      forall i | 0 <= i < 4 ensures SextetValue(s[i]) >= 0 && Sextet(SextetValue(s[i])) == s[i] {
        SextetOf(s[i]);
      }
    }
  }

  /** Base64 text is accepted only in full quanta, as many as its bytes take; and unless it is padded it
      is the text printed for its bytes. */
  lemma {:induction false} AcceptedText(s: string, d: seq<Byte>)
    requires DecodeQuanta(s) == Bytes(d)
    ensures |s| == (|d| + 2) / 3 * 4
    ensures |d| % 3 == 0 ==> s == Base64Encode(d)
  {
    if s != "" {
      assert DecodeFirst(s) == Bytes(d);
      var q := Quantum(s[..4], |s| == 4).bytes;
      var rest := DecodeQuanta(s[4..]).bytes;
      QuantumText(s[..4], |s| == 4);
      AcceptedText(s[4..], rest);
      AcceptedStep(s, d, q, rest);
    }
  }

  lemma QuantaOf(n: nat)
    ensures (n + 3 + 2) / 3 * 4 == 4 + (n + 2) / 3 * 4
    ensures (n + 3) % 3 == n % 3
  {
  }

  lemma EncodeThree(d: seq<Byte>)
    requires |d| >= 3
    ensures Base64Encode(d) == Quad3(d[0], d[1], d[2]) + Base64Encode(d[3..])
  {
  }

  lemma AcceptedStep(s: string, d: seq<Byte>, q: seq<Byte>, rest: seq<Byte>)
    requires |s| >= 4 && d == q + rest && 1 <= |q| <= 3 && (|q| < 3 ==> |s| == 4)
    requires |q| == 3 ==> s[..4] == Quad3(q[0], q[1], q[2])
    requires |s[4..]| == (|rest| + 2) / 3 * 4 && (|rest| % 3 == 0 ==> s[4..] == Base64Encode(rest))
    ensures |s| == (|d| + 2) / 3 * 4
    ensures |d| % 3 == 0 ==> s == Base64Encode(d)
  {
    if |q| == 3 {
      QuantaOf(|rest|);
      assert d[3..] == rest && d[0] == q[0] && d[1] == q[1] && d[2] == q[2];
      EncodeThree(d);
      assert s == s[..4] + s[4..];
    } else {
      NoQuanta(|rest|);
    }
  }

  lemma NoQuanta(n: nat)
    requires (n + 2) / 3 * 4 == 0
    ensures n == 0
  {
  }

  /** Text that is neither base16 nor base64 is left as it is. */
  lemma OtherTextStays(s: string)
    requires Trimmed(s) && s != "" && ':' !in s && !IsHexString(s) && Base64Decode(s).Malformed?
    ensures NormalizeChecksumValue(s) == s
  {
    PlainPart(s);
  }

  // ---------------------------------------------------------------- digests

  /** For a digest whose length is no multiple of three (MD5, SHA-1, SHA-256, SHA-512 and Adler-32
      among them) every spelling has the same normal form, which is its own normal form. */
  lemma DigestNormalForm(d: seq<Byte>, tag: string, h: string)
    requires |d| % 3 != 0 && ':' !in tag && ToLower(h) == HexEncode(d)
    ensures NormalizeChecksumValue(Base64Encode(d)) == HexEncode(d)
    ensures NormalizeChecksumValue(tag + ":" + Base64Encode(d)) == HexEncode(d)
    ensures NormalizeChecksumValue(h) == HexEncode(d)
    ensures NormalizeChecksumValue(tag + ":" + h) == HexEncode(d)
    ensures NormalizeChecksumValue(HexEncode(d)) == HexEncode(d)
  {
    HexDecodeIff(h, d);
    PaddedIsNotHex(d);
    Base64NormalizesIff(d);
    Base64Part(d);
    Base64Plain(d);
    PlainIsTrimmed(Base64Encode(d));
    TagIgnored(tag, Base64Encode(d));
    HexSpelling(h, tag);
    HexRoundTrip(d);
    HexSpelling(HexEncode(d), tag);
  }

  lemma HexSpelling(h: string, tag: string)
    requires HexDecode(h).Bytes? && ':' !in tag
    ensures NormalizeChecksumValue(h) == NormalizeChecksumValue(tag + ":" + h) == HexEncode(HexDecode(h).bytes)
  {
    HexIsPlain(h);
    PlainIsTrimmed(h);
    PlainPart(h);
    TagIgnored(tag, h);
    HexNormalizes(h);
  }
}
