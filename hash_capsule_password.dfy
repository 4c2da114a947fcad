/** The `hash-capsule-password` edge function: PBKDF2 record creation, the
    three-scheme verifier, and the request handler (bearer check, password
    length, then the `hash` or `verify` action). */
module HashCapsulePassword {
  import opened Wrappers
  import opened JsString
  import opened Hex
  import opened Primitives
  import opened CredentialRecord
  import opened Capsules
  import opened Http

  datatype Hashed = Hashed(hash: string, salt: string)

  /** `hashPasswordPBKDF2` with the salt bytes it uses: the handler's fresh
      `crypto.getRandomValues(new Uint8Array(16))`, or the salt decoded from a
      stored record. The record is `pbkdf2:<saltHex>:<hashHex>`. */
  function HashPasswordPbkdf2(c: Suite, password: string, saltBytes: seq<Byte>): (r: Hashed)
    ensures Classify(r.hash) == Pbkdf2(r.salt, ToHex(c.pbkdf2(password, saltBytes, Iterations, DerivedBits)))
    ensures |r.salt| == 2 * |saltBytes|
    ensures DecodeHex(r.salt) == if saltBytes == [] then None else Some(saltBytes)
  {
    var saltHex := ToHex(saltBytes);
    var hashHex := ToHex(c.pbkdf2(password, saltBytes, Iterations, DerivedBits));
    ToHexHasNoColon(saltBytes);
    ToHexHasNoColon(c.pbkdf2(password, saltBytes, Iterations, DerivedBits));
    ClassifyPbkdf2(saltHex, hashHex);
    DecodeToHex(saltBytes);
    Hashed("pbkdf2:" + saltHex + ":" + hashHex, saltHex)
  }

  /** The `:`-segments of the record `HashPasswordPbkdf2` builds: the tag, the
      salt text and the hexadecimal PBKDF2 output. */
  lemma HashSegment(c: Suite, password: string, saltBytes: seq<Byte>)
    ensures var r := HashPasswordPbkdf2(c, password, saltBytes);
      Split(r.hash, ':') == ["pbkdf2", r.salt, ToHex(c.pbkdf2(password, saltBytes, Iterations, DerivedBits))]
  {
    var r := HashPasswordPbkdf2(c, password, saltBytes);
    var h := ToHex(c.pbkdf2(password, saltBytes, Iterations, DerivedBits));
    assert r.hash == Format(Pbkdf2(r.salt, h));
    assert ':' !in "pbkdf2";
    JoinSmall("pbkdf2", r.salt, h, ':');
    SplitJoin(["pbkdf2", r.salt, h], ':');
  }

  /** The body of the `try` block of `verifyPasswordPBKDF2`; None when it throws
      (a salt with no two-character match, or `btoa` of a non-Latin-1 password). */
  function TryVerifyPbkdf2(c: Suite, password: string, stored: string): Option<bool> {
    match Classify(stored)
    case Pbkdf2(saltHex, expected) =>
      (match DecodeHex(saltHex)
       case None => None
       case Some(saltBytes) =>
         var parts := Split(HashPasswordPbkdf2(c, password, saltBytes).hash, ':');
         Some(|parts| > 2 && parts[2] == expected))
    case LegacySalted(saltHex, expected) =>
      Some(ToHex(c.sha256(saltHex + password)) == expected)
    case LegacyPlain(_) =>
      (match Btoa(c, password)
       case None => None
       case Some(encoded) => Some(encoded == stored))
  }

  /** `verifyPasswordPBKDF2`: a thrown error is reported as `false`. */
  function VerifyPasswordPbkdf2(c: Suite, password: string, stored: string): (ok: bool)
    ensures ok <==> TryVerifyPbkdf2(c, password, stored) == Some(true)
  {
    TryVerifyPbkdf2(c, password, stored).GetOr(false)
  }

  /** A record made by `hashPasswordPBKDF2` verifies with its own password. */
  lemma HashThenVerify(c: Suite, password: string, saltBytes: seq<Byte>)
    requires saltBytes != []
    ensures VerifyPasswordPbkdf2(c, password, HashPasswordPbkdf2(c, password, saltBytes).hash)
  {
    HashSegment(c, password, saltBytes);
  }

  /** Hexadecimal text determines its bytes. */
  lemma ToHexInjective(a: seq<Byte>, b: seq<Byte>)
    requires ToHex(a) == ToHex(b)
    ensures a == b
  {
    DecodeToHex(a);
    DecodeToHex(b);
  }

  /** Another password passes against a PBKDF2 record only if PBKDF2 collides
      on the two passwords for that salt. */
  lemma WrongPasswordNeedsCollision(c: Suite, p: string, q: string, saltBytes: seq<Byte>)
    requires saltBytes != []
    requires VerifyPasswordPbkdf2(c, q, HashPasswordPbkdf2(c, p, saltBytes).hash)
    ensures c.pbkdf2(q, saltBytes, Iterations, DerivedBits) == c.pbkdf2(p, saltBytes, Iterations, DerivedBits)
  {
    HashSegment(c, q, saltBytes);
    ToHexInjective(c.pbkdf2(q, saltBytes, Iterations, DerivedBits), c.pbkdf2(p, saltBytes, Iterations, DerivedBits));
  }

  /** The JSON body `{ action, password, shareToken }`. */
  datatype Fields = Fields(action: Option<string>, password: Option<string>, shareToken: Option<string>)

  /** The request: its Authorization header and its body; a body `req.json()`
      cannot parse is None. */
  datatype Request = Request(authorization: Option<string>, body: Option<Fields>)

  predicate HasBearer(authorization: Option<string>) {
    authorization.Some? && StartsWith(authorization.value, "Bearer ")
  }

  /** The password length the endpoint admits, in UTF-16 code units. */
  predicate PasswordInRange(password: Option<string>) {
    Truthy(password) && 4 <= Utf16Length(password.value) <= 100
  }

  /** The request passed the bearer, user and password-length gates. */
  predicate Admitted(req: Request, user: Option<string>) {
    HasBearer(req.authorization) && user.Some? && req.body.Some? && PasswordInRange(req.body.value.password)
  }

  /** The body asks to verify against a share token. */
  predicate VerifyRequested(f: Fields) {
    f.action == Some("verify") && Truthy(f.shareToken)
  }

  /** The handler. `user` is what `auth.getUser()` yields for the bearer token,
      `row` the capsule looked up by share token (None on a lookup error or no
      row), `randomSalt` the 16 random salt bytes. */
  function Handle(c: Suite, req: Request, user: Option<string>, row: Option<CapsuleRow>, randomSalt: seq<Byte>): (r: Response)
    ensures r.status == 401 <==> !HasBearer(req.authorization) || user.None?
    ensures r.status == 401 ==> r.body == Error("Unauthorized")
    ensures HasBearer(req.authorization) && user.Some? && req.body.Some? && !PasswordInRange(req.body.value.password)
            ==> r == Response(400, Error("Password must be between 4 and 100 characters"))
    ensures r.body.Hash? ==>
              req.body.Some? && req.body.value.action == Some("hash") &&
              Classify(r.body.hash) == Pbkdf2(ToHex(randomSalt), ToHex(c.pbkdf2(req.body.value.password.value, randomSalt, Iterations, DerivedBits))) &&
              (|randomSalt| == 16 ==> |Classify(r.body.hash).saltHex| == 32) &&
              (randomSalt != [] ==> VerifyPasswordPbkdf2(c, req.body.value.password.value, r.body.hash))
    ensures HasBearer(req.authorization) && user.Some? && req.body.None? ==> r == Response(500, InternalError)
    ensures Admitted(req, user) && req.body.value.action == Some("hash") ==> r.status == 200 && r.body.Hash?
    ensures Admitted(req, user) && VerifyRequested(req.body.value) && !ServerTokenShaped(req.body.value.shareToken.value)
            ==> r == Response(400, Error("Invalid shareToken format"))
    ensures Admitted(req, user) && VerifyRequested(req.body.value) && ServerTokenShaped(req.body.value.shareToken.value) &&
            (row.None? || !Truthy(row.value.passwordHash))
            ==> r == Response(200, Validity(false))
    ensures Admitted(req, user) && VerifyRequested(req.body.value) && ServerTokenShaped(req.body.value.shareToken.value) &&
            row.Some? && Truthy(row.value.passwordHash)
            ==> r.status == 200 && r.body.Validity? &&
                (r.body.isValid <==> VerifyPasswordPbkdf2(c, req.body.value.password.value, row.value.passwordHash.value))
    ensures Admitted(req, user) && req.body.value.action != Some("hash") && !VerifyRequested(req.body.value)
            ==> r == Response(400, Error("Invalid action"))
    ensures r.body.Validity? && r.body.isValid ==>
              req.body.Some? && req.body.value.action == Some("verify") &&
              Truthy(req.body.value.shareToken) && ServerTokenShaped(req.body.value.shareToken.value) &&
              row.Some? && Truthy(row.value.passwordHash) &&
              VerifyPasswordPbkdf2(c, req.body.value.password.value, row.value.passwordHash.value)
  {
    if !HasBearer(req.authorization) then Response(401, Error("Unauthorized"))
    else if user.None? then Response(401, Error("Unauthorized"))
    else if req.body.None? then Response(500, InternalError)
    else
      var f := req.body.value;
      if !PasswordInRange(f.password) then
        Response(400, Error("Password must be between 4 and 100 characters"))
      else if f.action == Some("hash") then
        var hashed := HashPasswordPbkdf2(c, f.password.value, randomSalt);
        assert randomSalt != [] ==> VerifyPasswordPbkdf2(c, f.password.value, hashed.hash) by {
          if randomSalt != [] { HashThenVerify(c, f.password.value, randomSalt); }
        }
        Response(200, Hash(hashed.hash))
      else if f.action == Some("verify") && Truthy(f.shareToken) then
        if !ServerTokenShaped(f.shareToken.value) then Response(400, Error("Invalid shareToken format"))
        else if row.None? || !Truthy(row.value.passwordHash) then Response(200, Validity(false))
        else Response(200, Validity(VerifyPasswordPbkdf2(c, f.password.value, row.value.passwordHash.value)))
      else Response(400, Error("Invalid action"))
  }
}
