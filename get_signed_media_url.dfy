/** The `get-signed-media-url` edge function: a signed, one-hour link to a
    capsule's stored media, issued only once the capsule is unlocked and only
    for a path contained in the stored media path. */
module GetSignedMediaUrl {
  import opened Wrappers
  import opened JsString
  import opened Capsules
  import opened Http

  /** Validity of the signed link, in seconds. */
  const ExpirySeconds: nat := 3600

  /** The JSON body `{ shareToken, mediaPath }`. */
  datatype Fields = Fields(shareToken: Option<string>, mediaPath: Option<string>)

  predicate InputsPresent(f: Fields) {
    Truthy(f.shareToken) && Truthy(f.mediaPath)
  }

  /** The body parsed, both inputs are present and the token is well formed. */
  predicate Screened(body: Option<Fields>) {
    body.Some? && InputsPresent(body.value) && ServerTokenShaped(body.value.shareToken.value)
  }

  /** The handler. `body` is None when `req.json()` fails; `row` is the capsule
      fetched by share token (None on a fetch error or no such row); `now` is
      the server clock; `sign(path, seconds)` is the storage call
      `createSignedUrl`, None when it reports an error. */
  function Handle(body: Option<Fields>, row: Option<CapsuleRow>, now: int,
                  sign: (string, nat) -> Option<string>): (r: Response)
    ensures body.Some? ==> (r.status == 400 <==> !InputsPresent(body.value) || !ServerTokenShaped(body.value.shareToken.value))
    ensures r.status == 200 <==>
              body.Some? && InputsPresent(body.value) && ServerTokenShaped(body.value.shareToken.value) &&
              row.Some? && row.value.unlockAt <= now && Truthy(row.value.mediaUrl) &&
              Includes(row.value.mediaUrl.value, body.value.mediaPath.value) &&
              sign(body.value.mediaPath.value, ExpirySeconds).Some?
    ensures r.status == 200 ==> r.body == SignedUrl(sign(body.value.mediaPath.value, ExpirySeconds).value)
    ensures body.None? ==> r == Response(500, InternalError)
    ensures Screened(body) && row.None? ==> r == Response(404, Error("Capsule not found"))
    ensures Screened(body) && row.Some? && now < row.value.unlockAt ==> r == Response(403, Error("Capsule is still locked"))
    ensures Screened(body) && row.Some? && row.value.unlockAt <= now && !Truthy(row.value.mediaUrl)
            ==> r == Response(404, Error("No media attached to this capsule"))
    ensures Screened(body) && row.Some? && row.value.unlockAt <= now && Truthy(row.value.mediaUrl) &&
            !Includes(row.value.mediaUrl.value, body.value.mediaPath.value)
            ==> r == Response(403, Error("Media path mismatch"))
    ensures Screened(body) && row.Some? && row.value.unlockAt <= now && Truthy(row.value.mediaUrl) &&
            Includes(row.value.mediaUrl.value, body.value.mediaPath.value) &&
            sign(body.value.mediaPath.value, ExpirySeconds).None?
            ==> r == Response(500, Error("Failed to generate signed URL"))
  {
    if body.None? then Response(500, InternalError)
    else
      var f := body.value;
      if !InputsPresent(f) then Response(400, Error("Missing shareToken or mediaPath"))
      else if !ServerTokenShaped(f.shareToken.value) then Response(400, Error("Invalid shareToken format"))
      else if row.None? then Response(404, Error("Capsule not found"))
      else if now < row.value.unlockAt then Response(403, Error("Capsule is still locked"))
      else if !Truthy(row.value.mediaUrl) then Response(404, Error("No media attached to this capsule"))
      else if !Includes(row.value.mediaUrl.value, f.mediaPath.value) then Response(403, Error("Media path mismatch"))
      else
        match sign(f.mediaPath.value, ExpirySeconds)
        case None => Response(500, Error("Failed to generate signed URL"))
        case Some(url) => Response(200, SignedUrl(url))
  }

  /** A locked capsule is refused with 403 before its media is looked at. */
  lemma LockedBeforeMediaChecks(f: Fields, row: CapsuleRow, now: int, sign: (string, nat) -> Option<string>)
    requires InputsPresent(f) && ServerTokenShaped(f.shareToken.value) && now < row.unlockAt
    ensures Handle(Some(f), Some(row), now, sign) == Response(403, Error("Capsule is still locked"))
  {
  }

  /** The open-once flags play no part in issuing a link. */
  lemma IgnoresOpenOnce(body: Option<Fields>, row: CapsuleRow, now: int, sign: (string, nat) -> Option<string>,
                        openOnce: bool, isOpened: bool)
    ensures Handle(body, Some(row), now, sign) == Handle(body, Some(row.(openOnce := openOnce, isOpened := isOpened)), now, sign)
  {
  }

  /** A path holding a character the stored path lacks is refused as a
      mismatch once the capsule is unlocked. */
  lemma ForeignPathRefused(f: Fields, row: CapsuleRow, now: int, sign: (string, nat) -> Option<string>, c: char)
    requires InputsPresent(f) && ServerTokenShaped(f.shareToken.value)
    requires row.unlockAt <= now && Truthy(row.mediaUrl)
    requires c in f.mediaPath.value && c !in row.mediaUrl.value
    ensures Handle(Some(f), Some(row), now, sign) == Response(403, Error("Media path mismatch"))
  {
    if Includes(row.mediaUrl.value, f.mediaPath.value) {
      IncludesChars(row.mediaUrl.value, f.mediaPath.value, c);
    }
  }

  /** A request for `../u1/secret.png` against the stored `u1/1700000000000.png`
      is refused as a path mismatch. */
  lemma TraversalRefused(token: string, row: CapsuleRow, now: int, sign: (string, nat) -> Option<string>)
    requires ServerTokenShaped(token) && row.unlockAt <= now && row.mediaUrl == Some("u1/1700000000000.png")
    ensures Handle(Some(Fields(Some(token), Some("../u1/secret.png"))), Some(row), now, sign) ==
              Response(403, Error("Media path mismatch"))
  {
    assert "../u1/secret.png"[7] == 'e';
    ForeignPathRefused(Fields(Some(token), Some("../u1/secret.png")), row, now, sign, 'e');
  }

  /** The check is containment, not equality: any non-empty infix of the stored
      path is signed, and the link is for the requested infix. */
  lemma InfixIsSigned(token: string, path: string, row: CapsuleRow, now: int, sign: (string, nat) -> Option<string>, i: nat)
    requires ServerTokenShaped(token) && row.unlockAt <= now && Truthy(row.mediaUrl)
    requires path != "" && OccursAt(row.mediaUrl.value, path, i) && sign(path, ExpirySeconds).Some?
    ensures Handle(Some(Fields(Some(token), Some(path))), Some(row), now, sign) ==
              Response(200, SignedUrl(sign(path, ExpirySeconds).value))
  {
    IncludesAt(row.mediaUrl.value, path);
  }
}
