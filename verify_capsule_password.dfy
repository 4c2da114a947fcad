/** The `verify-capsule-password` edge function: the access gate in front of a
    capsule's content. Guards run in order: inputs present, token shape,
    password length, row with a hash, unlock time, open-once, then the
    password itself; the capsule is disclosed only when all of them pass. */
module VerifyCapsulePassword {
  import opened Wrappers
  import opened JsString
  import opened Hex
  import opened Primitives
  import opened CredentialRecord
  import opened Capsules
  import opened Http
  import HashCapsulePassword

  /** The body of the `try` block of `verifyPassword`; None when it throws. */
  function TryVerify(c: Suite, password: string, stored: string): Option<bool> {
    match Classify(stored)
    case Pbkdf2(saltHex, expected) =>
      (match DecodeHex(saltHex)
       case None => None
       case Some(saltBytes) => Some(ToHex(c.pbkdf2(password, saltBytes, Iterations, DerivedBits)) == expected))
    case LegacySalted(saltHex, expected) =>
      Some(ToHex(c.sha256(saltHex + password)) == expected)
    case LegacyPlain(_) =>
      (match Btoa(c, password)
       case None => None
       case Some(encoded) => Some(encoded == stored))
  }

  /** `verifyPassword`: a thrown error is reported as `false`. */
  function VerifyPassword(c: Suite, password: string, stored: string): (ok: bool)
    ensures ok <==> TryVerify(c, password, stored) == Some(true)
  {
    TryVerify(c, password, stored).GetOr(false)
  }

  /** Both edge functions decide every password against every record alike. */
  lemma SameVerdictAsHashFunction(c: Suite, password: string, stored: string)
    ensures VerifyPassword(c, password, stored) == HashCapsulePassword.VerifyPasswordPbkdf2(c, password, stored)
  {
    match Classify(stored)
    case Pbkdf2(saltHex, expected) =>
      if DecodeHex(saltHex).Some? {
        HashCapsulePassword.HashSegment(c, password, DecodeHex(saltHex).value);
      }
    case LegacySalted(_, _) =>
    case LegacyPlain(_) =>
  }

  /** A record issued by `hash-capsule-password` opens with its password here. */
  lemma AcceptsIssuedRecord(c: Suite, password: string, saltBytes: seq<Byte>)
    requires saltBytes != []
    ensures VerifyPassword(c, password, HashCapsulePassword.HashPasswordPbkdf2(c, password, saltBytes).hash)
  {
    var stored := HashCapsulePassword.HashPasswordPbkdf2(c, password, saltBytes).hash;
    HashCapsulePassword.HashThenVerify(c, password, saltBytes);
    SameVerdictAsHashFunction(c, password, stored);
  }

  /** A legacy `salt:SHA256(salt‖password)` record verifies with its password. */
  lemma AcceptsLegacySalted(c: Suite, password: string, saltHex: string)
    requires ':' !in saltHex
    ensures VerifyPassword(c, password, saltHex + ":" + ToHex(c.sha256(saltHex + password)))
  {
    ToHexHasNoColon(c.sha256(saltHex + password));
    ClassifySalted(saltHex, ToHex(c.sha256(saltHex + password)));
  }

  /** An empty record never matches a non-empty password. */
  lemma EmptyRecordNeverMatches(c: Suite, password: string)
    requires Conforms(c) && password != ""
    ensures !VerifyPassword(c, password, "")
  {
    SplitNone("", ':');
    BtoaNonEmpty(c, password);
  }

  /** The JSON body `{ shareToken, password }`. */
  datatype Fields = Fields(shareToken: Option<string>, password: Option<string>)

  /** Both fields are present and non-empty. */
  predicate InputsPresent(f: Fields) {
    Truthy(f.shareToken) && Truthy(f.password)
  }

  /** Inputs the handler forwards to the database lookup. */
  predicate Admissible(f: Fields) {
    InputsPresent(f) && ServerTokenShaped(f.shareToken.value) &&
    1 <= Utf16Length(f.password.value) <= 100
  }

  /** The row may be disclosed at `now` by time and open-once policy. */
  predicate Openable(row: CapsuleRow, now: int) {
    Truthy(row.passwordHash) && row.unlockAt <= now && !(row.openOnce && row.isOpened)
  }

  /** The handler. `body` is None when `req.json()` fails; `row` is the capsule
      fetched by share token (None on a fetch error or no such row); `now` is
      the server clock. */
  function Handle(c: Suite, body: Option<Fields>, row: Option<CapsuleRow>, now: int): (r: Response)
    ensures body.Some? ==> (r.status == 400 <==> !InputsPresent(body.value) || !ServerTokenShaped(body.value.shareToken.value))
    ensures r.body.Verdict? ==> (r.body.capsule.Some? <==> r.body.isValid)
    ensures r.body.Verdict? && r.body.isValid <==>
              body.Some? && Admissible(body.value) && row.Some? && Openable(row.value, now) &&
              VerifyPassword(c, body.value.password.value, row.value.passwordHash.value)
    ensures r.body.Verdict? && r.body.isValid ==> r.body.capsule == Some(PublicView(row.value))
  {
    if body.None? then Response(500, InternalError)
    else
      var f := body.value;
      if !InputsPresent(f) then Response(400, Error("Missing shareToken or password"))
      else if !ServerTokenShaped(f.shareToken.value) then Response(400, Error("Invalid shareToken format"))
      else if Utf16Length(f.password.value) < 1 || Utf16Length(f.password.value) > 100 then
        Response(200, Verdict(false, None, None))
      else if row.None? || !Truthy(row.value.passwordHash) then Response(200, Verdict(false, None, None))
      else if now < row.value.unlockAt then Response(200, Verdict(false, Some("Capsule is still locked"), None))
      else if row.value.openOnce && row.value.isOpened then
        Response(200, Verdict(false, Some("Capsule can only be opened once"), None))
      else
        var isValid := VerifyPassword(c, f.password.value, row.value.passwordHash.value);
        Response(200, Verdict(isValid, None, if isValid then Some(PublicView(row.value)) else None))
  }

  /** A malformed token is refused with 400 whatever the database holds. */
  lemma MalformedTokenRefusedBeforeLookup(c: Suite, f: Fields, row: Option<CapsuleRow>, now: int)
    requires InputsPresent(f) && !ServerTokenShaped(f.shareToken.value)
    ensures Handle(c, Some(f), row, now) == Response(400, Error("Invalid shareToken format"))
  {
  }

  /** Before the unlock instant every admissible request, with any password,
      is answered "still locked"; from the unlock instant on, never. */
  lemma TimeGate(c: Suite, f: Fields, row: CapsuleRow, now: int)
    requires Admissible(f) && Truthy(row.passwordHash)
    ensures now < row.unlockAt <==>
              Handle(c, Some(f), Some(row), now) == Response(200, Verdict(false, Some("Capsule is still locked"), None))
  {
  }

  /** An open-once capsule that has been opened is refused from its unlock
      instant on, whatever password is offered. */
  lemma OpenOnceIsTerminal(c: Suite, f: Fields, row: CapsuleRow, now: int)
    requires Admissible(f) && Truthy(row.passwordHash)
    requires row.openOnce && row.isOpened && row.unlockAt <= now
    ensures Handle(c, Some(f), Some(row), now) == Response(200, Verdict(false, Some("Capsule can only be opened once"), None))
  {
  }

  /** An admissible request that passes every gate is answered with the
      capsule. */
  lemma Discloses(c: Suite, f: Fields, row: CapsuleRow, now: int)
    requires Admissible(f) && Openable(row, now)
    requires VerifyPassword(c, f.password.value, row.passwordHash.value)
    ensures Handle(c, Some(f), Some(row), now) == Response(200, Verdict(true, None, Some(PublicView(row))))
  {
  }

  /** An open-once capsule whose record was issued for "petal": the first
      request with "petal" after the unlock instant discloses it; once the row
      is marked opened the same request is refused. */
  lemma PetalScenario(c: Suite, token: string, saltBytes: seq<Byte>, row: CapsuleRow, now: int)
    requires ServerTokenShaped(token) && |saltBytes| == 16
    requires row.passwordHash == Some(HashCapsulePassword.HashPasswordPbkdf2(c, "petal", saltBytes).hash)
    requires row.openOnce && !row.isOpened && row.unlockAt <= now
    ensures Handle(c, Some(Fields(Some(token), Some("petal"))), Some(row), now) ==
              Response(200, Verdict(true, None, Some(PublicView(row))))
    ensures Handle(c, Some(Fields(Some(token), Some("petal"))), Some(row.(isOpened := true)), now) ==
              Response(200, Verdict(false, Some("Capsule can only be opened once"), None))
  {
    var f := Fields(Some(token), Some("petal"));
    var stored := HashCapsulePassword.HashPasswordPbkdf2(c, "petal", saltBytes).hash;
    assert stored != "" by {
      assert Format(Classify(stored)) == stored;
    }
    assert Utf16Length("petal") == 5 by {
      assert "petal"[1..] == "etal" && "etal"[1..] == "tal" && "tal"[1..] == "al" && "al"[1..] == "l";
    }
    assert Admissible(f);
    AcceptsIssuedRecord(c, "petal", saltBytes);
    Discloses(c, f, row, now);
    OpenOnceIsTerminal(c, f, row.(isOpened := true), now);
  }
}
