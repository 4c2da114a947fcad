/** The few JavaScript string operations the capsule code relies on, with the
    ECMAScript meaning: `length` in UTF-16 code units, `trim`, `split` on one
    character, `includes`, `startsWith` and ASCII-only case folding. */
module JsString {
  import opened Wrappers

  /** JavaScript's `length`: a character outside the Basic Multilingual Plane
      takes two UTF-16 code units. */
  function Utf16Length(s: string): (n: nat)
    ensures |s| <= n <= 2 * |s|
    ensures n == 0 <==> s == []
  {
    if s == [] then 0
    else (if s[0] as int > 0xFFFF then 2 else 1) + Utf16Length(s[1..])
  }

  /** A UTF-16 code unit. */
  type CodeUnit = u: int | 0 <= u < 0x1_0000

  /** A code unit that is half of a surrogate pair. */
  predicate IsSurrogate(u: CodeUnit) {
    0xD800 <= u < 0xE000
  }

  /** The UTF-16 encoding of one character: itself in the Basic Multilingual
      Plane, a surrogate pair above it. */
  function CharUnits(c: char): (us: seq<CodeUnit>)
    ensures |us| == if c as int > 0xFFFF then 2 else 1
    ensures c as int <= 0xFFFF ==> us == [c as int]
  {
    var x := c as int;
    if x > 0xFFFF then
      var y := x - 0x1_0000;
      [0xD800 + y / 0x400, 0xDC00 + y % 0x400]
    else [x]
  }

  /** The code units a JavaScript string is made of. */
  function CodeUnits(s: string): (us: seq<CodeUnit>)
    ensures |us| == Utf16Length(s)
  {
    if s == [] then [] else CharUnits(s[0]) + CodeUnits(s[1..])
  }

  /** Encoding distributes over concatenation. */
  lemma {:induction false} CodeUnitsAppend(a: string, b: string)
    ensures CodeUnits(a + b) == CodeUnits(a) + CodeUnits(b)
  {
    if a == [] {
      assert a + b == b;
    } else {
      assert (a + b)[0] == a[0] && (a + b)[1..] == a[1..] + b;
      CodeUnitsAppend(a[1..], b);
    }
  }

  /** A JSON string field is truthy when present and not empty. */
  predicate Truthy(v: Option<string>) {
    v.Some? && v.value != ""
  }

  /** LineTerminator of ECMAScript: what the regular-expression `.` refuses. */
  predicate IsLineTerminator(c: char) {
    var x := c as int;
    x == 0x0A || x == 0x0D || x == 0x2028 || x == 0x2029
  }

  /** The code points of WhiteSpace and LineTerminator in ECMAScript: what
      `trim`, `parseInt` and the regular-expression class `\s` skip. */
  const WhiteSpaceCodes: set<int> :=
    {0x09, 0x0A, 0x0B, 0x0C, 0x0D, 0x20, 0xA0, 0x1680,
     0x2000, 0x2001, 0x2002, 0x2003, 0x2004, 0x2005, 0x2006, 0x2007, 0x2008, 0x2009, 0x200A,
     0x2028, 0x2029, 0x202F, 0x205F, 0x3000, 0xFEFF}

  predicate IsWhiteSpace(c: char) {
    c as int in WhiteSpaceCodes
  }

  /** `t` occurs in `s` starting at position `i`. */
  predicate OccursAt(s: string, t: string, i: int) {
    0 <= i <= |s| - |t| && s[i..i + |t|] == t
  }

  /** `trimStart`: drops the leading white space. */
  function TrimStart(s: string): (r: string)
    ensures |r| <= |s|
    ensures r == [] || !IsWhiteSpace(r[0])
  {
    if s != [] && IsWhiteSpace(s[0]) then TrimStart(s[1..]) else s
  }

  /** `trimEnd`: drops the trailing white space. */
  function TrimEnd(s: string): (r: string)
    ensures |r| <= |s|
    ensures r == [] || (!IsWhiteSpace(r[|r| - 1]) && r[0] == s[0])
  {
    if s != [] && IsWhiteSpace(s[|s| - 1]) then TrimEnd(s[..|s| - 1]) else s
  }

  /** `trim`: both ends stripped of white space. */
  function Trim(s: string): (r: string)
    ensures r == [] || (!IsWhiteSpace(r[0]) && !IsWhiteSpace(r[|r| - 1]))
  {
    TrimEnd(TrimStart(s))
  }

  /** `trimStart` removes white space only, and only from the front. */
  lemma {:induction false} TrimStartSuffix(s: string)
    ensures TrimStart(s) == s[|s| - |TrimStart(s)|..]
    ensures forall k :: 0 <= k < |s| - |TrimStart(s)| ==> IsWhiteSpace(s[k])
    decreases |s|
  {
    if s != [] && IsWhiteSpace(s[0]) {
      TrimStartSuffix(s[1..]);
    }
  }

  /** `trimEnd` removes white space only, and only from the back. */
  lemma {:induction false} TrimEndPrefix(s: string)
    ensures TrimEnd(s) == s[..|TrimEnd(s)|]
    ensures forall k :: |TrimEnd(s)| <= k < |s| ==> IsWhiteSpace(s[k])
    decreases |s|
  {
    if s != [] && IsWhiteSpace(s[|s| - 1]) {
      TrimEndPrefix(s[..|s| - 1]);
    }
  }

  /** `trim` removes only white space: its result is an infix of the input,
      the input itself when it holds no white space, and empty when the input
      is all white space. */
  lemma TrimInfix(s: string)
    ensures exists i :: OccursAt(s, Trim(s), i)
    ensures (forall k :: 0 <= k < |s| ==> !IsWhiteSpace(s[k])) ==> Trim(s) == s
    ensures (forall k :: 0 <= k < |s| ==> IsWhiteSpace(s[k])) ==> Trim(s) == []
  {
    var t := TrimStart(s);
    TrimAt(s);
    TrimStartSuffix(s);
    TrimEndPrefix(t);
    if Trim(s) != [] {
      assert Trim(s)[0] == s[|s| - |t|];
    }
  }

  /** The trimmed text starts where `trimStart` stopped. */
  lemma TrimAt(s: string)
    ensures OccursAt(s, Trim(s), |s| - |TrimStart(s)|)
  {
    var t := TrimStart(s);
    var r := TrimEnd(t);
    TrimStartSuffix(s);
    TrimEndPrefix(t);
    assert r == s[|s| - |t|..][..|r|] == s[|s| - |t|..|s| - |t| + |r|];
  }

  /** Trimming twice is trimming once. */
  lemma TrimIdempotent(s: string)
    ensures Trim(Trim(s)) == Trim(s)
  {
    var r := Trim(s);
    assert TrimStart(r) == r;
    assert TrimEnd(r) == r;
  }

  /** Position of the first occurrence of `c`. */
  function IndexOf(s: string, c: char): (i: nat)
    requires c in s
    ensures i < |s| && s[i] == c && c !in s[..i]
  {
    if s[0] == c then 0 else 1 + IndexOf(s[1..], c)
  }

  /** `s.split(sep)` for a one-character separator. */
  function Split(s: string, sep: char): (parts: seq<string>)
    ensures |parts| >= 1
    ensures forall k :: 0 <= k < |parts| ==> sep !in parts[k]
    decreases |s|
  {
    if sep !in s then [s]
    else
      var i := IndexOf(s, sep);
      [s[..i]] + Split(s[i + 1..], sep)
  }

  /** Joining the segments restores the string. */
  lemma {:induction false} SplitJoined(s: string, sep: char)
    ensures Join(Split(s, sep), sep) == s
    decreases |s|
  {
    if sep in s {
      var i := IndexOf(s, sep);
      var rest := Split(s[i + 1..], sep);
      SplitJoined(s[i + 1..], sep);
      assert Split(s, sep) == [s[..i]] + rest;
      assert ([s[..i]] + rest)[1..] == rest;
      assert s == s[..i] + [sep] + s[i + 1..];
    }
  }


  /** `parts.join(sep)`. */
  function Join(parts: seq<string>, sep: char): string
    requires |parts| >= 1
  {
    if |parts| == 1 then parts[0] else parts[0] + [sep] + Join(parts[1..], sep)
  }

  /** Joining two or three segments. */
  lemma JoinSmall(a: string, b: string, c: string, sep: char)
    ensures Join([a, b], sep) == a + [sep] + b
    ensures Join([a, b, c], sep) == a + [sep] + b + [sep] + c
  {
    assert [a, b][1..] == [b];
    assert [a, b, c][1..] == [b, c] && [b, c][1..] == [c];
    assert Join([b, c], sep) == b + [sep] + c;
    assert Join([a, b, c], sep) == a + [sep] + (b + [sep] + c);
  }

  /** Splitting a string with no separator yields that string alone. */
  lemma SplitNone(s: string, sep: char)
    requires sep !in s
    ensures Split(s, sep) == [s]
  {
  }

  /** Splitting at a first separator peels off the segment before it. */
  lemma {:induction false} SplitCons(a: string, sep: char, b: string)
    requires sep !in a
    ensures Split(a + [sep] + b, sep) == [a] + Split(b, sep)
  {
    var s := a + [sep] + b;
    assert s[|a|] == sep;
    assert s[..|a|] == a;
    var i := IndexOf(s, sep);
    assert i <= |a| by {
      assert forall k :: 0 <= k < i ==> s[..i][k] == s[k];
    }
    assert i == |a|;
    assert s[..i] == a && s[i + 1..] == b;
  }

  /** The last segment after splitting is whatever follows the last separator. */
  lemma {:induction false} SplitLast(a: string, sep: char, b: string)
    requires sep !in b
    ensures var parts := Split(a + [sep] + b, sep); parts[|parts| - 1] == b
    decreases |a|
  {
    var parts := Split(a + [sep] + b, sep);
    if sep !in a {
      SplitCons(a, sep, b);
      SplitNone(b, sep);
      assert parts == [a, b];
    } else {
      var i := IndexOf(a, sep);
      var tail := Split(a[i + 1..] + [sep] + b, sep);
      SplitFirst(a, sep, b);
      SplitLast(a[i + 1..], sep, b);
      assert parts == [a[..i]] + tail;
      assert parts[|parts| - 1] == tail[|tail| - 1];
    }
  }

  /** A separator inside `a` ends the first segment of `a + [sep] + b`. */
  lemma SplitFirst(a: string, sep: char, b: string)
    requires sep in a
    ensures var i := IndexOf(a, sep);
      Split(a + [sep] + b, sep) == [a[..i]] + Split(a[i + 1..] + [sep] + b, sep)
  {
    var i := IndexOf(a, sep);
    var a1, rest := a[..i], a[i + 1..] + [sep] + b;
    assert a == a1 + [sep] + a[i + 1..];
    assert a + [sep] + b == a1 + [sep] + rest;
    SplitCons(a1, sep, rest);
  }

  /** Splitting the join of separator-free segments gives those segments back. */
  lemma {:induction false} SplitJoin(parts: seq<string>, sep: char)
    requires |parts| >= 1
    requires forall k :: 0 <= k < |parts| ==> sep !in parts[k]
    ensures Split(Join(parts, sep), sep) == parts
    decreases |parts|
  {
    if |parts| == 1 {
      SplitNone(parts[0], sep);
    } else {
      SplitJoin(parts[1..], sep);
      SplitCons(parts[0], sep, Join(parts[1..], sep));
    }
  }

  /** `s.startsWith(p)`. */
  predicate StartsWith(s: string, p: string) {
    |p| <= |s| && s[..|p|] == p
  }

  /** `s.includes(t)`: `t` occurs in `s` as a contiguous substring. */
  predicate Includes(s: string, t: string)
    decreases |s|
  {
    StartsWith(s, t) || (s != [] && Includes(s[1..], t))
  }

  /** `includes` holds exactly when `t` sits at some position of `s`. */
  lemma {:induction false} IncludesAt(s: string, t: string)
    ensures Includes(s, t) <==> exists i :: OccursAt(s, t, i)
    decreases |s|
  {
    assert OccursAt(s, t, 0) <==> StartsWith(s, t);
    forall i | OccursAt(s, t, i) && i > 0
      ensures s != [] && OccursAt(s[1..], t, i - 1)
    {
      assert s[1..][i - 1..i - 1 + |t|] == s[i..i + |t|];
    }
    if s != [] {
      IncludesAt(s[1..], t);
      forall i | OccursAt(s[1..], t, i)
        ensures OccursAt(s, t, i + 1)
      {
        assert s[1..][i..i + |t|] == s[i + 1..i + 1 + |t|];
      }
    }
  }

  /** Every character of an included string occurs in the including one. */
  lemma IncludesChars(s: string, t: string, c: char)
    requires Includes(s, t) && c in t
    ensures c in s
  {
    IncludesAt(s, t);
    var i :| OccursAt(s, t, i);
    var k :| 0 <= k < |t| && t[k] == c;
    assert s[i..i + |t|][k] == c;
  }

  /** Case folding of a non-unicode `/i` regular expression for the ASCII
      letters: characters outside ASCII never fold onto ASCII ones. */
  function LowerAscii(c: char): (d: char)
    ensures 'A' <= c <= 'Z' ==> d as int == c as int + 32
    ensures !('A' <= c <= 'Z') ==> d == c
  {
    if 'A' <= c <= 'Z' then (c as int + 32) as char else c
  }

  /** `s` with every ASCII capital folded to lower case. */
  function LowerAsciiAll(s: string): (r: string)
    ensures |r| == |s|
    ensures forall k :: 0 <= k < |s| ==> r[k] == LowerAscii(s[k])
  {
    if s == [] then [] else [LowerAscii(s[0])] + LowerAsciiAll(s[1..])
  }

  predicate IsDigit(c: char) {
    '0' <= c <= '9'
  }

  /** `String(n)` for a non-negative integer: its decimal digits. */
  function DecimalString(n: nat): (r: string)
    ensures r != []
    ensures forall k :: 0 <= k < |r| ==> IsDigit(r[k])
    ensures |r| == 1 <==> n < 10
  {
    var d := ['0' + (n % 10) as char];
    if n < 10 then d else DecimalString(n / 10) + d
  }

  /** The number a string of decimal digits denotes. */
  function DecimalValue(s: string): nat
    requires forall k :: 0 <= k < |s| ==> IsDigit(s[k])
  {
    if s == [] then 0
    else
      var c := s[|s| - 1];
      assert IsDigit(c);
      DecimalValue(s[..|s| - 1]) * 10 + (c as int - '0' as int)
  }

  /** The decimal digits of `n` read back as `n`. */
  lemma {:induction false} DecimalStringValue(n: nat)
    ensures DecimalValue(DecimalString(n)) == n
  {
    if n >= 10 {
      var r := DecimalString(n);
      assert r[..|r| - 1] == DecimalString(n / 10);
      DecimalStringValue(n / 10);
    }
  }

  /** Distinct numbers have distinct decimal texts. */
  lemma DecimalStringInjective(m: nat, n: nat)
    requires DecimalString(m) == DecimalString(n)
    ensures m == n
  {
    DecimalStringValue(m);
    DecimalStringValue(n);
  }

  /** A leading zero does not change the value. */
  lemma {:induction false} LeadingZeroValue(s: string)
    requires forall k :: 0 <= k < |s| ==> IsDigit(s[k])
    ensures DecimalValue(['0'] + s) == DecimalValue(s)
  {
    if s != [] {
      var t := ['0'] + s;
      assert t[..|t| - 1] == ['0'] + s[..|s| - 1];
      LeadingZeroValue(s[..|s| - 1]);
    }
  }

  /** `s.split(sep).pop()`. */
  function LastSegment(s: string, sep: char): (last: string)
    ensures sep !in last
  {
    var parts := Split(s, sep);
    parts[|parts| - 1]
  }

  /** `t` is what follows a separator at the end of `s`. */
  predicate EndsAfter(s: string, sep: char, t: string) {
    |t| < |s| && s[|s| - |t| - 1] == sep && s[|s| - |t|..] == t
  }

  /** The last segment of a string holding the separator is the text after
      its last separator. */
  lemma {:induction false} SplitLastSuffix(s: string, sep: char)
    requires sep in s
    ensures EndsAfter(s, sep, LastSegment(s, sep))
    decreases |s|
  {
    var i := IndexOf(s, sep);
    var rest := s[i + 1..];
    LastSegmentStep(s, sep);
    if sep in rest {
      SplitLastSuffix(rest, sep);
      EndsAfterExtend(s, i, sep, LastSegment(rest, sep));
    } else {
      SplitNone(rest, sep);
      assert s[|s| - |rest|..] == rest;
    }
  }

  /** The last segment is found in the text after the first separator. */
  lemma LastSegmentStep(s: string, sep: char)
    requires sep in s
    ensures LastSegment(s, sep) == LastSegment(s[IndexOf(s, sep) + 1..], sep)
  {
    var i := IndexOf(s, sep);
    var tail := Split(s[i + 1..], sep);
    var parts := Split(s, sep);
    assert parts == [s[..i]] + tail;
    LastOfCons(s[..i], tail);
  }

  /** Putting an element in front keeps the last one. */
  lemma LastOfCons<T>(x: T, t: seq<T>)
    requires |t| >= 1
    ensures ([x] + t)[|t|] == t[|t| - 1]
  {
  }

  /** Ending after a separator carries over from a suffix to the whole. */
  lemma EndsAfterExtend(s: string, i: nat, sep: char, t: string)
    requires i < |s| && EndsAfter(s[i + 1..], sep, t)
    ensures EndsAfter(s, sep, t)
  {
    var rest := s[i + 1..];
    assert rest[|rest| - |t| - 1] == s[|s| - |t| - 1];
    assert rest[|rest| - |t|..] == s[|s| - |t|..];
  }
}
