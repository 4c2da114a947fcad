/** The stored credential record (`password_hash`) and the way both edge
    functions take it apart: `storedHash.split(':')`, then `pbkdf2` with three
    parts, any two parts, or anything else. */
module CredentialRecord {
  import opened JsString

  /** The three record shapes, newest first. `LegacyPlain` holds the whole
      stored string, which is compared with `btoa(password)`. */
  datatype Scheme =
    | Pbkdf2(saltHex: string, expected: string)
    | LegacySalted(saltHex: string, expected: string)
    | LegacyPlain(encoded: string)

  /** A scheme whose fields can be written without ambiguity. */
  predicate WellFormed(s: Scheme) {
    match s
    case Pbkdf2(salt, h) => ':' !in salt && ':' !in h
    case LegacySalted(salt, h) => ':' !in salt && ':' !in h
    case LegacyPlain(e) => ':' !in e
  }

  /** The record text of each shape: `pbkdf2:<salt>:<hash>`, `<salt>:<hash>`,
      or the bare encoding. */
  function Format(s: Scheme): string {
    match s
    case Pbkdf2(salt, h) => "pbkdf2:" + salt + ":" + h
    case LegacySalted(salt, h) => salt + ":" + h
    case LegacyPlain(e) => e
  }

  /** The dispatch of `verifyPassword`/`verifyPasswordPBKDF2`. Every string is
      some record: the shape is read back exactly. */
  function Classify(stored: string): (s: Scheme)
    ensures Format(s) == stored
    ensures s.Pbkdf2? || s.LegacySalted? ==> ':' !in s.saltHex && ':' !in s.expected
  {
    var parts := Split(stored, ':');
    if parts[0] == "pbkdf2" && |parts| == 3 then
      ThreeSegments(stored);
      Pbkdf2(parts[1], parts[2])
    else if |parts| == 2 then
      TwoSegments(stored);
      LegacySalted(parts[0], parts[1])
    else LegacyPlain(stored)
  }

  /** A record of three segments tagged `pbkdf2` is written back as such. */
  lemma ThreeSegments(stored: string)
    requires var parts := Split(stored, ':'); |parts| == 3 && parts[0] == "pbkdf2"
    ensures var parts := Split(stored, ':'); Format(Pbkdf2(parts[1], parts[2])) == stored
  {
    var parts := Split(stored, ':');
    var tag, salt, h := parts[0], parts[1], parts[2];
    SplitJoined(stored, ':');
    assert parts == [tag, salt, h];
    JoinSmall(tag, salt, h, ':');
    assert stored == tag + [':'] + salt + [':'] + h;
    assert tag + [':'] == "pbkdf2:";
  }

  /** A record of two segments is written back as such. */
  lemma TwoSegments(stored: string)
    requires |Split(stored, ':')| == 2
    ensures var parts := Split(stored, ':'); Format(LegacySalted(parts[0], parts[1])) == stored
  {
    var parts := Split(stored, ':');
    var salt, h := parts[0], parts[1];
    SplitJoined(stored, ':');
    assert parts == [salt, h];
    JoinSmall(salt, h, "", ':');
    assert stored == salt + [':'] + h;
  }

  /** A well-formed record is read back as the shape that wrote it. */
  lemma ClassifyFormat(s: Scheme)
    requires WellFormed(s)
    ensures Classify(Format(s)) == s
  {
    match s
    case Pbkdf2(salt, h) => ClassifyPbkdf2(salt, h);
    case LegacySalted(salt, h) => ClassifySalted(salt, h);
    case LegacyPlain(e) => SplitNone(e, ':');
  }

  lemma ClassifyPbkdf2(salt: string, h: string)
    requires ':' !in salt && ':' !in h
    ensures Classify("pbkdf2:" + salt + ":" + h) == Pbkdf2(salt, h)
  {
    assert ':' !in "pbkdf2";
    JoinSmall("pbkdf2", salt, h, ':');
    assert "pbkdf2:" + salt + ":" + h == Join(["pbkdf2", salt, h], ':');
    SplitJoin(["pbkdf2", salt, h], ':');
  }

  lemma ClassifySalted(salt: string, h: string)
    requires ':' !in salt && ':' !in h
    ensures Classify(salt + ":" + h) == LegacySalted(salt, h)
  {
    JoinSmall(salt, h, "", ':');
    assert salt + ":" + h == Join([salt, h], ':');
    SplitJoin([salt, h], ':');
  }
}
