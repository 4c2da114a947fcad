/** Hexadecimal text of byte arrays as the edge functions and the browser
    code write and read it: `toHex` (`b.toString(16).padStart(2, '0')`,
    joined) and its inverse on the salt segment,
    `new Uint8Array(hex.match(/.{2}/g)!.map(b => parseInt(b, 16)))`. */
module Hex {
  import opened Wrappers
  import opened JsString

  /** An element of a `Uint8Array`. */
  type Byte = b: int | 0 <= b < 256

  predicate IsLowerHexDigit(c: char) {
    '0' <= c <= '9' || 'a' <= c <= 'f'
  }

  /** A digit of radix 16 in either case, as `parseInt` and `[0-9a-f]` under
      the `i` flag accept it. */
  predicate IsHexDigit(c: char) {
    IsLowerHexDigit(LowerAscii(c))
  }

  /** The numeric value of a hexadecimal digit. */
  function DigitValue(c: char): (v: nat)
    requires IsHexDigit(c)
    ensures v < 16
  {
    var d := LowerAscii(c);
    if '0' <= d <= '9' then d as int - '0' as int else d as int - 'a' as int + 10
  }

  /** The lower-case digit `Number.prototype.toString(16)` writes for `v`. */
  function HexDigit(v: nat): (c: char)
    requires v < 16
    ensures IsLowerHexDigit(c) && DigitValue(c) == v
  {
    if v < 10 then ('0' as int + v) as char else ('a' as int + v - 10) as char
  }

  /** `b.toString(16)`: no leading zero. */
  function ToString16(b: Byte): (r: string)
    ensures 1 <= |r| <= 2
  {
    if b < 16 then [HexDigit(b)] else [HexDigit(b / 16), HexDigit(b % 16)]
  }

  /** `s.padStart(2, '0')`. */
  function PadStart2(s: string): (r: string)
    ensures |r| == if |s| < 2 then 2 else |s|
    decreases 2 - |s|
  {
    if |s| >= 2 then s else PadStart2(['0'] + s)
  }

  /** The two characters `toHex` emits for one byte: lower-case, zero-padded,
      most significant digit first. */
  function ByteToHex(b: Byte): (r: string)
    ensures |r| == 2 && IsLowerHexDigit(r[0]) && IsLowerHexDigit(r[1])
    ensures DigitValue(r[0]) * 16 + DigitValue(r[1]) == b
  {
    var r := PadStart2(ToString16(b));
    assert r == [HexDigit(b / 16), HexDigit(b % 16)] by {
      if b < 16 {
        assert PadStart2([HexDigit(b)]) == ['0', HexDigit(b)];
        assert HexDigit(0) == '0';
      }
    }
    r
  }

  /** `toHex`: the bytes, two lower-case hexadecimal digits each, in order. */
  function ToHex(bytes: seq<Byte>): (s: string)
    ensures |s| == 2 * |bytes|
    ensures forall k :: 0 <= k < |s| ==> IsLowerHexDigit(s[k])
  {
    if bytes == [] then "" else ByteToHex(bytes[0]) + ToHex(bytes[1..])
  }

  /** Hexadecimal text never holds the `:` that separates credential fields. */
  lemma ToHexHasNoColon(bytes: seq<Byte>)
    ensures ':' !in ToHex(bytes)
  {
    var s := ToHex(bytes);
    assert forall k :: 0 <= k < |s| ==> s[k] != ':';
  }

  /** A line terminator as one code unit: what the regular-expression `.`
      refuses. */
  predicate IsLineTerminatorUnit(u: CodeUnit) {
    u == 0x0A || u == 0x0D || u == 0x2028 || u == 0x2029
  }

  /** The matches of `/.{2}/g` (no `u` flag, so `.` is one code unit):
      scanning from the left, two units that are not line terminators form a
      match; a line terminator is skipped. */
  function MatchPairs(us: seq<CodeUnit>): (pairs: seq<seq<CodeUnit>>)
    ensures forall k :: 0 <= k < |pairs| ==> |pairs[k]| == 2
    ensures |pairs| <= |us| / 2
    decreases |us|
  {
    if |us| < 2 then []
    else if !IsLineTerminatorUnit(us[0]) && !IsLineTerminatorUnit(us[1]) then [us[..2]] + MatchPairs(us[2..])
    else MatchPairs(us[1..])
  }

  /** The characters of the longest prefix of `p` free of surrogates. */
  function UnitText(p: seq<CodeUnit>): (t: string)
    ensures |t| <= |p|
    ensures forall k :: 0 <= k < |t| ==> t[k] as int == p[k]
    ensures |t| < |p| ==> IsSurrogate(p[|t|])
  {
    if p == [] || IsSurrogate(p[0]) then [] else [p[0] as char] + UnitText(p[1..])
  }

  /** The longest prefix of radix-16 digits. */
  function HexPrefix(s: string): (ds: string)
    ensures |ds| <= |s| && ds == s[..|ds|]
    ensures forall k :: 0 <= k < |ds| ==> IsHexDigit(ds[k])
    ensures |ds| < |s| ==> !IsHexDigit(s[|ds|])
  {
    if s != [] && IsHexDigit(s[0]) then [s[0]] + HexPrefix(s[1..]) else []
  }

  /** The number a string of radix-16 digits denotes. */
  function HexValue(ds: string): nat
    requires forall k :: 0 <= k < |ds| ==> IsHexDigit(ds[k])
  {
    if ds == [] then 0 else HexValue(ds[..|ds| - 1]) * 16 + DigitValue(ds[|ds| - 1])
  }

  /** `parseInt(t, 16)`; None stands for NaN. Leading white space is skipped,
      one sign is read, a `0x`/`0X` prefix is dropped, and the longest run of
      radix-16 digits is converted. */
  function ParseInt16(t: string): Option<int> {
    var u := TrimStart(t);
    var negative := u != [] && u[0] == '-';
    var v := if u != [] && (u[0] == '-' || u[0] == '+') then u[1..] else u;
    var w := if |v| >= 2 && v[0] == '0' && (v[1] == 'x' || v[1] == 'X') then v[2..] else v;
    var ds := HexPrefix(w);
    var magnitude: int := HexValue(ds);
    if ds == [] then None else Some(if negative then -magnitude else magnitude)
  }

  /** Storing a number in a `Uint8Array`: NaN becomes 0, anything else is
      taken modulo 256. */
  function ToUint8(v: Option<int>): Byte {
    match v
    case None => 0
    case Some(x) => x % 256
  }

  /** `parseInt(piece, 16)` on a match. A surrogate is neither white space,
      a sign, nor a radix-16 digit, so parsing stops at the first one: the
      piece parses as the text before it. */
  function ParsePiece(p: seq<CodeUnit>): Option<int> {
    ParseInt16(UnitText(p))
  }

  /** `.map(b => parseInt(b, 16))` followed by the `Uint8Array` conversion. */
  function ParsePairs(pairs: seq<seq<CodeUnit>>): (bytes: seq<Byte>)
    ensures |bytes| == |pairs|
  {
    if pairs == [] then [] else [ToUint8(ParsePiece(pairs[0]))] + ParsePairs(pairs[1..])
  }

  /** Decoding of a hexadecimal salt. None when `/.{2}/g` finds no match:
      `match` then yields null and the following `.map` throws. */
  function DecodeHex(hex: string): (r: Option<seq<Byte>>)
    ensures r.Some? <==> MatchPairs(CodeUnits(hex)) != []
    ensures r.Some? ==> 0 < |r.value| <= Utf16Length(hex) / 2
  {
    var pairs := MatchPairs(CodeUnits(hex));
    if pairs == [] then None else Some(ParsePairs(pairs))
  }

  /** A character outside the Basic Multilingual Plane is two code units, so
      `/.{2}/g` takes its surrogate pair as one match, which parses as NaN and
      is stored as 0. */
  lemma AstralSaltCharacter()
    ensures DecodeHex("ab\U{1F600}cd") == Some([0xab, 0, 0xcd])
  {
    var ab, pair, cd := [0x61, 0x62], [0xD83D, 0xDE00], [0x63, 0x64];
    AstralUnits();
    MatchPairsCons(ab, pair + cd);
    MatchPairsCons(pair, cd);
    assert cd == cd + [];
    MatchPairsCons(cd, []);
    AstralPieces();
  }

  /** The code units of the example salt. */
  lemma AstralUnits()
    ensures CodeUnits("ab\U{1F600}cd") == [0x61, 0x62] + ([0xD83D, 0xDE00] + [0x63, 0x64])
  {
    var s := "ab\U{1F600}cd";
    assert s == "ab" + (['\U{1F600}'] + "cd");
    CodeUnitsAppend("ab", ['\U{1F600}'] + "cd");
    CodeUnitsAppend(['\U{1F600}'], "cd");
    PairUnits('a', 'b');
    PairUnits('c', 'd');
    assert CodeUnits(['\U{1F600}']) == [0xD83D, 0xDE00];
  }

  /** Two characters of the Basic Multilingual Plane are two code units. */
  lemma PairUnits(x: char, y: char)
    requires x as int <= 0xFFFF && y as int <= 0xFFFF
    ensures CodeUnits([x, y]) == [x as int, y as int]
  {
    assert [x, y][1..] == [y];
  }

  /** The three matches of the example salt, parsed and stored. */
  lemma AstralPieces()
    ensures ParsePairs([[0x61, 0x62]] + ([[0xD83D, 0xDE00]] + ([[0x63, 0x64]] + []))) == [0xab, 0, 0xcd]
  {
    var ab, pair, cd := [0x61, 0x62], [0xD83D, 0xDE00], [0x63, 0x64];
    LetterPieces();
    SurrogatePiece();
    var last := [cd] + [];
    ParsePairsCons(cd, []);
    assert ParsePairs(last) == [0xcd];
    var tail := [pair] + last;
    ParsePairsCons(pair, last);
    assert ParsePairs(tail) == [0, 0xcd];
    ParsePairsCons(ab, tail);
  }

  /** The matches "ab" and "cd" are stored as 0xab and 0xcd. */
  lemma LetterPieces()
    ensures ToUint8(ParsePiece([0x61, 0x62])) == 0xab
    ensures ToUint8(ParsePiece([0x63, 0x64])) == 0xcd
  {
    DigitPiece([0x61, 0x62], 'a', 'b');
    DigitPiece([0x63, 0x64], 'c', 'd');
  }

  /** A surrogate pair parses as NaN, stored as 0. */
  lemma SurrogatePiece()
    ensures ToUint8(ParsePiece([0xD83D, 0xDE00])) == 0
  {
    assert UnitText([0xD83D, 0xDE00]) == [];
    assert TrimStart([]) == [];
  }

  /** A match of two lower-case digit units is stored as their value. */
  lemma DigitPiece(p: seq<CodeUnit>, x: char, y: char)
    requires IsLowerHexDigit(x) && IsLowerHexDigit(y) && p == [x as int, y as int]
    ensures ToUint8(ParsePiece(p)) == DigitValue(x) * 16 + DigitValue(y)
  {
    var t := UnitText(p);
    assert UnitText(p[1..]) == [y];
    assert t == [x, y];
    ParseTwoDigits(t);
    ToUint8Byte(DigitValue(x) * 16 + DigitValue(y));
  }

  /** `parseInt(_, 16)` of two lower-case digits is their value. */
  lemma ParseTwoDigits(r: string)
    requires |r| == 2 && IsLowerHexDigit(r[0]) && IsLowerHexDigit(r[1])
    ensures ParseInt16(r) == Some(DigitValue(r[0]) * 16 + DigitValue(r[1]))
  {
    assert !IsWhiteSpace(r[0]);
    assert TrimStart(r) == r;
    assert r[0] != '-' && r[0] != '+' && r[1] != 'x' && r[1] != 'X';
    assert HexPrefix(r[1..][1..]) == [];
    assert HexPrefix(r[1..]) == r[1..];
    assert HexPrefix(r) == r;
    assert r[..1] == [r[0]] && r[..1][..0] == [];
    assert HexValue(r[..1]) == DigitValue(r[0]);
  }

  /** `parseInt(_, 16)` reads back the byte `toHex` wrote. */
  lemma ByteToHexParses(b: Byte)
    ensures ParseInt16(ByteToHex(b)) == Some(b)
  {
    ParseTwoDigits(ByteToHex(b));
  }

  /** Decoding the hexadecimal text of a non-empty byte array gives that array
      back; the text of the empty array has no match and decoding throws. */
  lemma {:induction false} DecodeToHex(bytes: seq<Byte>)
    ensures DecodeHex(ToHex(bytes)) == if bytes == [] then None else Some(bytes)
  {
    PairsOfToHex(bytes);
  }

  lemma {:induction false} PairsOfToHex(bytes: seq<Byte>)
    ensures |MatchPairs(CodeUnits(ToHex(bytes)))| == |bytes|
    ensures ParsePairs(MatchPairs(CodeUnits(ToHex(bytes)))) == bytes
  {
    if bytes != [] {
      var b, rest := bytes[0], bytes[1..];
      var h, t := ByteToHex(b), ToHex(rest);
      assert ToHex(bytes) == h + t;
      CodeUnitsAppend(h, t);
      var hu := CodeUnits(h);
      ByteUnits(b);
      MatchPairsCons(hu, CodeUnits(t));
      PairsOfToHex(rest);
      ByteToHexParses(b);
      ToUint8Byte(b);
      ParsePairsCons(hu, MatchPairs(CodeUnits(t)));
      assert bytes == [b] + rest;
    }
  }

  /** The two digits of a byte are two ASCII code units, read back as those
      digits. */
  lemma ByteUnits(b: Byte)
    ensures var h := ByteToHex(b); var hu := CodeUnits(h);
      hu == [h[0] as int, h[1] as int] && UnitText(hu) == h &&
      !IsLineTerminatorUnit(hu[0]) && !IsLineTerminatorUnit(hu[1])
  {
    var h := ByteToHex(b);
    assert h == [h[0]] + [h[1]];
    CodeUnitsAppend([h[0]], [h[1]]);
    var hu := [h[0] as int, h[1] as int];
    assert UnitText(hu[1..]) == [h[1]];
  }

  /** Parsing a leading piece, then the rest. */
  lemma ParsePairsCons(p: seq<CodeUnit>, ps: seq<seq<CodeUnit>>)
    ensures ParsePairs([p] + ps) == [ToUint8(ParsePiece(p))] + ParsePairs(ps)
  {
    assert ([p] + ps)[1..] == ps;
  }

  /** A byte value is stored unchanged. */
  lemma ToUint8Byte(b: Byte)
    ensures ToUint8(Some(b)) == b
  {
  }

  /** A leading pair free of line terminators is the first match. */
  lemma MatchPairsCons(h: seq<CodeUnit>, t: seq<CodeUnit>)
    requires |h| == 2 && !IsLineTerminatorUnit(h[0]) && !IsLineTerminatorUnit(h[1])
    ensures MatchPairs(h + t) == [h] + MatchPairs(t)
  {
    assert (h + t)[..2] == h && (h + t)[2..] == t;
  }
}
