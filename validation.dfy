/** The browser-side validators: the HTML escaper `sanitizeText`, the share
    token test `isValidUUID`, and the field rules of the capsule creation
    form (`createCapsuleSchema`). */
module Validation {
  import opened Wrappers
  import opened JsString
  import opened Hex
  import opened Capsules

  // ---------------------------------------------------------------- sanitizeText

  /** The five characters the escaper rewrites. */
  predicate IsSpecial(c: char) {
    c == '<' || c == '>' || c == '"' || c == '\'' || c == '/'
  }

  /** `s.replace(/c/g, rep)`: every occurrence of `c` becomes `rep`. */
  function ReplaceAll(s: string, c: char, rep: string): (r: string)
    ensures c !in s ==> r == s
  {
    if s == [] then []
    else (if s[0] == c then rep else [s[0]]) + ReplaceAll(s[1..], c, rep)
  }

  /** `sanitizeText`: five global replacements, applied one after the other. */
  function SanitizeText(s: string): string {
    var a := ReplaceAll(s, '<', "&lt;");
    var b := ReplaceAll(a, '>', "&gt;");
    var c := ReplaceAll(b, '"', "&quot;");
    var d := ReplaceAll(c, '\'', "&#x27;");
    ReplaceAll(d, '/', "&#x2F;")
  }

  /** The escape of one character, as an HTML entity for the five specials. */
  function Escape(x: char): string {
    match x
    case '<' => "&lt;"
    case '>' => "&gt;"
    case '"' => "&quot;"
    case '\'' => "&#x27;"
    case '/' => "&#x2F;"
    case _ => [x]
  }

  /** Every character replaced by its escape, independently of the others. */
  function EscapeAll(s: string): string {
    if s == [] then [] else Escape(s[0]) + EscapeAll(s[1..])
  }

  lemma {:induction false} ReplaceAllAppend(a: string, b: string, c: char, rep: string)
    ensures ReplaceAll(a + b, c, rep) == ReplaceAll(a, c, rep) + ReplaceAll(b, c, rep)
    decreases |a|
  {
    if a == [] {
      assert a + b == b;
    } else {
      assert (a + b)[0] == a[0] && (a + b)[1..] == a[1..] + b;
      ReplaceAllAppend(a[1..], b, c, rep);
    }
  }

  lemma SanitizeAppend(a: string, b: string)
    ensures SanitizeText(a + b) == SanitizeText(a) + SanitizeText(b)
  {
    var a1, b1 := ReplaceAll(a, '<', "&lt;"), ReplaceAll(b, '<', "&lt;");
    ReplaceAllAppend(a, b, '<', "&lt;");
    var a2, b2 := ReplaceAll(a1, '>', "&gt;"), ReplaceAll(b1, '>', "&gt;");
    ReplaceAllAppend(a1, b1, '>', "&gt;");
    var a3, b3 := ReplaceAll(a2, '"', "&quot;"), ReplaceAll(b2, '"', "&quot;");
    ReplaceAllAppend(a2, b2, '"', "&quot;");
    var a4, b4 := ReplaceAll(a3, '\'', "&#x27;"), ReplaceAll(b3, '\'', "&#x27;");
    ReplaceAllAppend(a3, b3, '\'', "&#x27;");
    ReplaceAllAppend(a4, b4, '/', "&#x2F;");
  }

  lemma ReplaceAllOne(x: char, c: char, rep: string)
    ensures ReplaceAll([x], c, rep) == if x == c then rep else [x]
  {
    assert [x][1..] == [];
  }

  /** One character goes through the five replacements as its escape: the
      replacements before its own leave it alone, and no later one matches a
      character of the entity. */
  lemma SanitizeChar(x: char)
    ensures SanitizeText([x]) == Escape(x)
  {
    if x == '<' {
      ReplaceAllOne('<', '<', "&lt;");
      assert '>' !in "&lt;" && '"' !in "&lt;" && '\'' !in "&lt;" && '/' !in "&lt;";
    } else if x == '>' {
      ReplaceAllOne('>', '<', "&lt;");
      ReplaceAllOne('>', '>', "&gt;");
      assert '"' !in "&gt;" && '\'' !in "&gt;" && '/' !in "&gt;";
    } else if x == '"' {
      ReplaceAllOne('"', '<', "&lt;");
      ReplaceAllOne('"', '>', "&gt;");
      ReplaceAllOne('"', '"', "&quot;");
      assert '\'' !in "&quot;" && '/' !in "&quot;";
    } else if x == '\'' {
      ReplaceAllOne('\'', '<', "&lt;");
      ReplaceAllOne('\'', '>', "&gt;");
      ReplaceAllOne('\'', '"', "&quot;");
      ReplaceAllOne('\'', '\'', "&#x27;");
      assert '/' !in "&#x27;";
    } else if x == '/' {
      ReplaceAllOne('/', '<', "&lt;");
      ReplaceAllOne('/', '>', "&gt;");
      ReplaceAllOne('/', '"', "&quot;");
      ReplaceAllOne('/', '\'', "&#x27;");
      ReplaceAllOne('/', '/', "&#x2F;");
    } else {
      assert SanitizeText([x]) == [x];
    }
  }

  /** No replacement produces a character that a later one rewrites, so the
      chain of replacements is the per-character escape map. */
  lemma {:induction false} SanitizeIsEscapeMap(s: string)
    ensures SanitizeText(s) == EscapeAll(s)
  {
    if s != [] {
      assert s == [s[0]] + s[1..];
      SanitizeAppend([s[0]], s[1..]);
      SanitizeChar(s[0]);
      SanitizeIsEscapeMap(s[1..]);
    }
  }

  lemma EscapeIsPlain(x: char)
    ensures forall k :: 0 <= k < |Escape(x)| ==> !IsSpecial(Escape(x)[k])
    ensures !IsSpecial(x) ==> Escape(x) == [x]
  {
  }

  lemma {:induction false} EscapeAllPlain(s: string)
    ensures forall k :: 0 <= k < |EscapeAll(s)| ==> !IsSpecial(EscapeAll(s)[k])
    ensures (forall k :: 0 <= k < |s| ==> !IsSpecial(s[k])) ==> EscapeAll(s) == s
  {
    if s != [] {
      EscapeIsPlain(s[0]);
      EscapeAllPlain(s[1..]);
      var e, t := Escape(s[0]), EscapeAll(s[1..]);
      forall k | 0 <= k < |e + t| ensures !IsSpecial((e + t)[k]) {
        if k < |e| { assert (e + t)[k] == e[k]; } else { assert (e + t)[k] == t[k - |e|]; }
      }
      if forall k :: 0 <= k < |s| ==> !IsSpecial(s[k]) {
        assert forall k :: 0 <= k < |s[1..]| ==> !IsSpecial(s[1..][k]) by {
          forall k | 0 <= k < |s[1..]| ensures !IsSpecial(s[1..][k]) { assert s[1..][k] == s[k + 1]; }
        }
        assert s == [s[0]] + s[1..];
      }
    }
  }

  /** The escaped text holds none of `<`, `>`, `"`, `'` and `/`. */
  lemma SanitizeRemovesSpecials(s: string)
    ensures forall k :: 0 <= k < |SanitizeText(s)| ==> !IsSpecial(SanitizeText(s)[k])
  {
    SanitizeIsEscapeMap(s);
    EscapeAllPlain(s);
  }

  /** Text without the five specials is left as it is. */
  lemma SanitizeKeepsPlain(s: string)
    requires forall k :: 0 <= k < |s| ==> !IsSpecial(s[k])
    ensures SanitizeText(s) == s
  {
    SanitizeIsEscapeMap(s);
    EscapeAllPlain(s);
  }

  /** Escaping an escaped string changes nothing. */
  lemma SanitizeIdempotent(s: string)
    ensures SanitizeText(SanitizeText(s)) == SanitizeText(s)
  {
    SanitizeRemovesSpecials(s);
    SanitizeKeepsPlain(SanitizeText(s));
  }

  // ----------------------------------------------------------------- isValidUUID

  predicate AllHex(t: string) {
    forall k :: 0 <= k < |t| ==> IsHexDigit(t[k])
  }

  /** `isValidUUID`: groups of 8, 4, 4, 4 and 12 hexadecimal digits of either
      case joined by hyphens, the third group opening with a version digit 1
      to 5 and the fourth with a variant digit 8, 9, a or b. */
  predicate IsValidUuid(s: string) {
    |s| == 36 &&
    AllHex(s[0..8]) && s[8] == '-' &&
    AllHex(s[9..13]) && s[13] == '-' &&
    '1' <= s[14] <= '5' && AllHex(s[15..18]) && s[18] == '-' &&
    s[19] in "89abAB" && AllHex(s[20..23]) && s[23] == '-' &&
    AllHex(s[24..36])
  }

  /** `t` is hexadecimal at every position `lo..hi` of `s`. */
  lemma SliceHex(s: string, lo: nat, hi: nat)
    requires lo <= hi <= |s|
    ensures AllHex(s[lo..hi]) <==> forall k :: lo <= k < hi ==> IsHexDigit(s[k])
  {
    if AllHex(s[lo..hi]) {
      forall k | lo <= k < hi ensures IsHexDigit(s[k]) {
        assert s[lo..hi][k - lo] == s[k];
      }
    }
  }

  /** The client test is the server's token shape narrowed by the version and
      variant digits, in both directions. */
  lemma UuidIsNarrowedServerShape(s: string)
    ensures IsValidUuid(s) <==>
              ServerTokenShaped(s) && '1' <= s[14] <= '5' && s[19] in "89abAB"
  {
    if |s| == 36 {
      SliceHex(s, 0, 8);
      SliceHex(s, 9, 13);
      SliceHex(s, 15, 18);
      SliceHex(s, 20, 23);
      SliceHex(s, 24, 36);
      assert IsHexDigit(s[14]) <== '1' <= s[14] <= '5';
      assert IsHexDigit(s[19]) <== s[19] in "89abAB";
    }
  }

  /** Every token the page lets through also passes the edge functions' check. */
  lemma ClientTokenPassesServer(s: string)
    requires IsValidUuid(s)
    ensures ServerTokenShaped(s)
  {
    UuidIsNarrowedServerShape(s);
  }

  // ---------------------------------------------------------- createCapsuleSchema

  /** One validation issue: the path of the offending field and its message. */
  datatype Issue = Issue(path: seq<string>, message: string)

  /** The object the form hands to `createCapsuleSchema.safeParse`. Content and
      recipient are null when left empty; the password is the empty string
      when the password switch is off; the unlock date is absent until a day
      is picked (a day is an integer instant here). */
  datatype CapsuleInput = CapsuleInput(
    title: string,
    content: Option<string>,
    recipientEmail: Option<string>,
    password: string,
    unlockDate: Option<int>,
    unlockTime: string)

  const TitleMax: nat := 100
  const ContentMax: nat := 10000
  const EmailMax: nat := 255
  const PasswordMin: nat := 4
  const PasswordMax: nat := 100

  /** `<script` occurs at `i` in `t` with ASCII letters of either case. */
  predicate ScriptTagAt(t: string, i: int) {
    0 <= i <= |t| - 7 &&
    forall j :: 0 <= j < 7 ==> LowerAscii(t[i + j]) == "<script"[j]
  }

  /** `/<script/i.test(t)`. */
  predicate HasScriptTag(t: string) {
    Includes(LowerAsciiAll(t), "<script")
  }

  /** The case-insensitive test finds a `<script` of any letter case at some
      position, and only then. */
  lemma ScriptTagSomewhere(t: string)
    ensures HasScriptTag(t) <==> exists i :: ScriptTagAt(t, i)
  {
    var l := LowerAsciiAll(t);
    IncludesAt(l, "<script");
    forall i | 0 <= i <= |t| - 7
      ensures OccursAt(l, "<script", i) <==> ScriptTagAt(t, i)
    {
      var w := l[i..i + 7];
      assert forall j :: 0 <= j < 7 ==> w[j] == LowerAscii(t[i + j]);
    }
  }

  /** Issues for the title: it is trimmed first, then checked for length in
      UTF-16 units and for a script tag; the refinement runs even after a
      length failure. */
  function TitleIssues(title: string): (issues: seq<Issue>)
    ensures issues == [] <==>
              1 <= Utf16Length(Trim(title)) <= TitleMax && !HasScriptTag(Trim(title))
  {
    var t := Trim(title);
    var n := Utf16Length(t);
    (if n < 1 then [Issue(["title"], "Title is required")] else []) +
    (if n > TitleMax then [Issue(["title"], "Title must be less than 100 characters")] else []) +
    (if HasScriptTag(t) then [Issue(["title"], "Invalid characters in title")] else [])
  }

  /** White space around the title never changes the verdict. */
  lemma TitleTrimInsensitive(title: string)
    ensures TitleIssues(Trim(title)) == TitleIssues(title)
  {
    TrimIdempotent(title);
  }

  /** A title made of blanks only is refused as missing. */
  lemma BlankTitleRequired(title: string)
    requires forall k :: 0 <= k < |title| ==> IsWhiteSpace(title[k])
    ensures TitleIssues(title) == [Issue(["title"], "Title is required")]
  {
    TrimInfix(title);
  }

  /** Content may be null; otherwise at most 10,000 UTF-16 units. */
  function ContentIssues(content: Option<string>): (issues: seq<Issue>)
    ensures issues == [] <==> content.None? || Utf16Length(content.value) <= ContentMax
  {
    if content.Some? && Utf16Length(content.value) > ContentMax
    then [Issue(["content"], "Content must be less than 10,000 characters")]
    else []
  }

  /** The recipient may be null or empty; otherwise it must be an address
      (`isEmail` stands for the library's address test) of at most 255 units.
      The two checks are reported together. */
  function EmailIssues(email: Option<string>, isEmail: string -> bool): (issues: seq<Issue>)
    ensures issues == [] <==>
              email.None? || email.value == "" ||
              (isEmail(email.value) && Utf16Length(email.value) <= EmailMax)
  {
    if email.None? || email.value == "" then []
    else
      (if !isEmail(email.value) then [Issue(["recipientEmail"], "Please enter a valid email")] else []) +
      (if Utf16Length(email.value) > EmailMax then [Issue(["recipientEmail"], "Email must be less than 255 characters")] else [])
  }

  /** The capsule password is either empty (no password) or 4 to 100 units. */
  function PasswordIssues(password: string): (issues: seq<Issue>)
    ensures issues == [] <==>
              password == "" || PasswordMin <= Utf16Length(password) <= PasswordMax
    ensures |issues| <= 1
  {
    var n := Utf16Length(password);
    if password == "" then []
    else if n < PasswordMin then [Issue(["password"], "Password must be at least 4 characters")]
    else if n > PasswordMax then [Issue(["password"], "Password must be less than 100 characters")]
    else []
  }

  function DateIssues(unlockDate: Option<int>): (issues: seq<Issue>)
    ensures issues == [] <==> unlockDate.Some?
  {
    if unlockDate.None? then [Issue(["unlockDate"], "Unlock date is required")] else []
  }

  predicate InRange(c: char, lo: char, hi: char) {
    lo <= c <= hi
  }

  /** `/^([01]?[0-9]|2[0-3]):[0-5][0-9]$/.test(t)`. */
  predicate TimeMatches(t: string) {
    (|t| == 4 && IsDigit(t[0]) &&
       t[1] == ':' && InRange(t[2], '0', '5') && IsDigit(t[3])) ||
    (|t| == 5 &&
       ((InRange(t[0], '0', '1') && IsDigit(t[1])) || (t[0] == '2' && InRange(t[1], '0', '3'))) &&
       t[2] == ':' && InRange(t[3], '0', '5') && IsDigit(t[4]))
  }

  function TimeIssues(unlockTime: string): (issues: seq<Issue>)
    ensures issues == [] <==> TimeMatches(unlockTime)
  {
    if TimeMatches(unlockTime) then [] else [Issue(["unlockTime"], "Invalid time format")]
  }

  function DigitOf(d: nat): (c: char)
    requires d < 10
    ensures IsDigit(c)
  {
    ('0' as int + d) as char
  }

  function ValueOf(c: char): nat {
    if IsDigit(c) then c as int - '0' as int else 0
  }

  /** `hours:minutes` written with minutes in two digits and hours in one digit
      (`padded` false) or two. */
  function ClockText(hours: nat, minutes: nat, padded: bool): (t: string)
    requires hours < 100 && minutes < 60 && (padded || hours < 10)
    ensures |t| == if padded then 5 else 4
  {
    (if padded then [DigitOf(hours / 10), DigitOf(hours % 10)] else [DigitOf(hours)]) +
    ":" + [DigitOf(minutes / 10), DigitOf(minutes % 10)]
  }

  /** The hours and minutes `Number` reads from the two sides of the colon. */
  function HoursOf(t: string): nat
    requires |t| >= 4
  {
    if |t| == 4 then ValueOf(t[0]) else 10 * ValueOf(t[0]) + ValueOf(t[1])
  }

  function MinutesOf(t: string): nat
    requires |t| >= 2
  {
    10 * ValueOf(t[|t| - 2]) + ValueOf(t[|t| - 1])
  }

  /** Every accepted time is a clock time of the day, written `H:MM` or
      `HH:MM`. */
  lemma TimeSound(t: string)
    requires TimeMatches(t)
    ensures HoursOf(t) < 24 && MinutesOf(t) < 60
    ensures t == ClockText(HoursOf(t), MinutesOf(t), |t| == 5)
  {
    var h, m := HoursOf(t), MinutesOf(t);
    assert t == ClockText(h, m, |t| == 5);
  }

  /** Every clock time of the day is accepted in both spellings, and reads
      back as itself. */
  lemma TimeComplete(hours: nat, minutes: nat, padded: bool)
    requires hours < 24 && minutes < 60 && (padded || hours < 10)
    ensures TimeMatches(ClockText(hours, minutes, padded))
    ensures HoursOf(ClockText(hours, minutes, padded)) == hours
    ensures MinutesOf(ClockText(hours, minutes, padded)) == minutes
  {
  }

  /** Every issue of the schema, field by field in declaration order. */
  function SchemaIssues(input: CapsuleInput, isEmail: string -> bool): seq<Issue> {
    TitleIssues(input.title) + ContentIssues(input.content) +
    EmailIssues(input.recipientEmail, isEmail) + PasswordIssues(input.password) +
    DateIssues(input.unlockDate) + TimeIssues(input.unlockTime)
  }

  /** The schema accepts an input exactly when every field rule does; the
      rules' own contracts say what each one accepts. */
  lemma SchemaAccepts(input: CapsuleInput, isEmail: string -> bool)
    ensures SchemaIssues(input, isEmail) == [] <==>
              TitleIssues(input.title) == [] && ContentIssues(input.content) == [] &&
              EmailIssues(input.recipientEmail, isEmail) == [] && PasswordIssues(input.password) == [] &&
              DateIssues(input.unlockDate) == [] && TimeIssues(input.unlockTime) == []
  {
  }
}
