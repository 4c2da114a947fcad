/** The capsule viewing page: the state it keeps, the handlers that change it
    (loading by share token, the unlock callback, password submission,
    revealing), the backend requests they issue, and the screen a state
    selects. Each handler runs as one step; the outcome of every request it
    awaits is a parameter. Instants are integer milliseconds. */
module ViewCapsule {
  import opened Wrappers
  import opened JsString
  import opened Capsules
  import opened Validation

  /** A capsule as the page holds it (the rows of `get_capsule_by_share_token`). */
  datatype ClientCapsule = ClientCapsule(
    id: string,
    title: string,
    content: Option<string>,
    mediaUrl: Option<string>,
    mediaType: Option<string>,
    unlockAt: int,
    isUnlocked: bool,
    isOpened: bool,
    hasPassword: bool,
    openOnce: bool,
    createdAt: int)

  /** The requests the page sends to the backend. */
  datatype Call =
    | FetchCapsule(token: string)
    | VerifyPassword(token: string, password: string)
    | SignMedia(token: string, path: string)
    | MarkOpened(token: string)

  /** The answer of `verify-capsule-password` as the page reads it. */
  datatype Verdict = Verdict(isValid: bool, capsule: Option<PublicCapsule>)

  datatype Media = Media(kind: Option<string>, url: string)

  /** What the page shows. */
  datatype Screen =
    | Loading
    | SecurityError
    | NotFound
    | AlreadyOpened
    | Sealed(unlockAt: int)
    | PasswordPrompt(showError: bool)
    | Closed(title: string)
    | Revealed(title: string, content: Option<string>, media: Option<Media>)

  /** `{ ...capsule, ...returned }`: the fields the server returns win. */
  function Merge(c: ClientCapsule, p: PublicCapsule): (m: ClientCapsule)
    ensures m.id == c.id && m.isUnlocked == c.isUnlocked
    ensures m.title == p.title && m.content == p.content && m.mediaUrl == p.mediaUrl
    ensures m.isOpened == p.isOpened && m.openOnce == p.openOnce && m.hasPassword == p.hasPassword
  {
    c.(title := p.title, content := p.content, mediaUrl := p.mediaUrl, mediaType := p.mediaType,
       unlockAt := p.unlockAt, createdAt := p.createdAt, openOnce := p.openOnce,
       isOpened := p.isOpened, hasPassword := p.hasPassword)
  }

  /** An open-once capsule that has been opened. */
  predicate Spent(c: Option<ClientCapsule>) {
    c.Some? && c.value.openOnce && c.value.isOpened
  }

  /** The signing request `revealCapsule` sends for capsule `c`, if any. */
  function SignCalls(c: Option<ClientCapsule>, token: Option<string>): seq<Call> {
    if c.Some? && Truthy(c.value.mediaUrl) && Truthy(token)
    then [SignMedia(token.value, c.value.mediaUrl.value)] else []
  }

  /** The open-marking request `revealCapsule` sends for capsule `c`, if any. */
  function MarkCalls(c: Option<ClientCapsule>, token: Option<string>): seq<Call> {
    if c.Some? && !c.value.isOpened && Truthy(token) then [MarkOpened(token.value)] else []
  }

  /** The capsule after `revealCapsule` ran on `c`: marked opened when the
      marking request was sent and succeeded. */
  function MarkedCapsule(c: Option<ClientCapsule>, token: Option<string>, marked: bool): (m: Option<ClientCapsule>)
    ensures m.Some? <==> c.Some?
    ensures m.Some? ==> m.value.isOpened == (c.value.isOpened || (Truthy(token) && marked))
  {
    if MarkCalls(c, token) != [] && marked then Some(c.value.(isOpened := true)) else c
  }

  /** The link held after `revealCapsule` ran on `c`: the signed link when
      one was asked for and came back non-empty, otherwise the one held. */
  function SignedLink(c: Option<ClientCapsule>, token: Option<string>, signed: Reply<Option<string>>,
                      held: Option<string>): (l: Option<string>)
    ensures l != held ==> SignCalls(c, token) != [] && signed.Data? && l == signed.data && Truthy(l)
  {
    if SignCalls(c, token) != [] && signed.Data? && Truthy(signed.data) then signed.data else held
  }

  /** The screen for a state: the first matching case wins. */
  function SelectScreen(loading: bool, securityError: bool, capsule: Option<ClientCapsule>,
                        isReady: bool, isRevealed: bool, passwordError: bool,
                        signedMediaUrl: Option<string>): (s: Screen)
    ensures s.Revealed? ==> capsule.Some? && isReady && isRevealed && !Spent(capsule)
    ensures s.Revealed? && s.media.Some? ==>
              Truthy(capsule.value.mediaUrl) && signedMediaUrl == Some(s.media.value.url)
    ensures s.PasswordPrompt? ==> capsule.Some? && capsule.value.hasPassword && !isRevealed
  {
    if loading then Loading
    else if securityError then SecurityError
    else if capsule.None? then NotFound
    else
      var c := capsule.value;
      if c.openOnce && c.isOpened then AlreadyOpened
      else if !isReady then Sealed(c.unlockAt)
      else if c.hasPassword && !isRevealed then PasswordPrompt(passwordError)
      else if !isRevealed then Closed(c.title)
      else
        Revealed(c.title,
                 if Truthy(c.content) then c.content else None,
                 if Truthy(c.mediaUrl) && Truthy(signedMediaUrl) then Some(Media(c.mediaType, signedMediaUrl.value)) else None)
  }

  /** Nothing of a spent capsule is shown, whatever else the state holds. */
  lemma SpentNeverShown(loading: bool, securityError: bool, capsule: Option<ClientCapsule>,
                        isReady: bool, isRevealed: bool, passwordError: bool, signedMediaUrl: Option<string>)
    requires Spent(capsule)
    ensures SelectScreen(loading, securityError, capsule, isReady, isRevealed, passwordError, signedMediaUrl)
              in {Loading, SecurityError, AlreadyOpened}
  {
  }

  /** Content is shown exactly when a capsule is loaded, ready, revealed, not
      spent, and nothing earlier in the order applies. */
  lemma RevealedExactly(loading: bool, securityError: bool, capsule: Option<ClientCapsule>,
                        isReady: bool, isRevealed: bool, passwordError: bool, signedMediaUrl: Option<string>)
    ensures SelectScreen(loading, securityError, capsule, isReady, isRevealed, passwordError, signedMediaUrl).Revealed? <==>
              !loading && !securityError && capsule.Some? && !Spent(capsule) && isReady && isRevealed
  {
  }

  class ViewCapsulePage {
    /** The `:id` route parameter; absent when the route has none. */
    const shareToken: Option<string>
    var capsule: Option<ClientCapsule>
    var loading: bool
    var isReady: bool
    var isRevealed: bool
    var passwordInput: string
    var passwordError: bool
    var securityError: bool
    var signedMediaUrl: Option<string>
    /** The backend requests sent so far, oldest first. */
    var calls: seq<Call>

    /** A signed link is only ever held for a revealed capsule, and a rejected
        token is never sent anywhere. */
    predicate Valid()
      reads this
    {
      (signedMediaUrl.Some? ==> isRevealed && signedMediaUrl.value != "") &&
      (securityError ==> capsule.None? && calls == []) &&
      (capsule.Some? ==> calls != [])
    }

    /** The state before the mount effect has run. */
    predicate Initial()
      reads this
    {
      capsule.None? && loading && !isReady && !isRevealed && !passwordError &&
      !securityError && signedMediaUrl.None? && calls == []
    }

    function Screen(): Screen
      reads this
    {
      SelectScreen(loading, securityError, capsule, isReady, isRevealed, passwordError, signedMediaUrl)
    }

    /** The state of the first render. */
    constructor (shareToken: Option<string>)
      ensures this.shareToken == shareToken
      ensures passwordInput == "" && Initial() && Valid() && Screen() == Loading
    {
      this.shareToken := shareToken;
      capsule := None;
      loading := true;
      isReady := false;
      isRevealed := false;
      passwordInput := "";
      passwordError := false;
      securityError := false;
      signedMediaUrl := None;
      calls := [];
    }

    /** The mount effect and `fetchCapsuleByToken`: `rows` is the RPC's answer
        and `now` the clock when it arrives. */
    method Mount(rows: Reply<seq<ClientCapsule>>, now: int)
      requires Initial()
      modifies this
      ensures Valid()
      ensures isRevealed == (old(isRevealed) ||
                (Truthy(shareToken) && IsValidUuid(shareToken.value) && rows.Data? && rows.data != [] &&
                 rows.data[0].isOpened && !rows.data[0].openOnce && !rows.data[0].hasPassword))
      ensures !Truthy(shareToken) ==>
                loading == old(loading) && calls == [] && capsule == old(capsule) &&
                securityError == old(securityError) && isReady == old(isReady)
      ensures Truthy(shareToken) && !IsValidUuid(shareToken.value) ==>
                securityError && !loading && calls == [] && capsule == old(capsule) && isReady == old(isReady)
      ensures Truthy(shareToken) && IsValidUuid(shareToken.value) ==>
                !loading && calls == [FetchCapsule(shareToken.value)] && securityError == old(securityError) &&
                capsule == (match rows
                            case Failed => old(capsule)
                            case Data(d) => if d == [] then None else Some(d[0])) &&
                isReady == (if rows.Data? && rows.data != [] then now >= rows.data[0].unlockAt else old(isReady))
      ensures passwordInput == old(passwordInput) && passwordError == old(passwordError)
      ensures signedMediaUrl == old(signedMediaUrl)
    {
      if !Truthy(shareToken) {
        return;
      }
      var token := shareToken.value;
      if !IsValidUuid(token) {
        securityError := true;
        loading := false;
        return;
      }
      calls := calls + [FetchCapsule(token)];
      match rows
      case Failed =>
        loading := false;
      case Data(d) =>
        if d == [] {
          capsule := None;
          loading := false;
          return;
        }
        var c := d[0];
        capsule := Some(c);
        isReady := now >= c.unlockAt;
        if c.openOnce && c.isOpened {
          loading := false;
          return;
        }
        if c.isOpened && !c.hasPassword {
          isRevealed := true;
        }
        loading := false;
    }

    /** `handleUnlock`, the countdown's callback. */
    method HandleUnlock()
      modifies this
      ensures isReady
      ensures capsule == old(capsule) && loading == old(loading) && isRevealed == old(isRevealed)
      ensures passwordInput == old(passwordInput) && passwordError == old(passwordError)
      ensures securityError == old(securityError) && signedMediaUrl == old(signedMediaUrl) && calls == old(calls)
    {
      isReady := true;
    }

    /** Typing in the password field: the new text, and the error cleared. */
    method TypePassword(text: string)
      modifies this
      ensures passwordInput == text && !passwordError
      ensures capsule == old(capsule) && loading == old(loading) && isReady == old(isReady)
      ensures isRevealed == old(isRevealed) && securityError == old(securityError)
      ensures signedMediaUrl == old(signedMediaUrl) && calls == old(calls)
    {
      passwordInput := text;
      passwordError := false;
    }

    /** `revealCapsule`: refuses a spent capsule; otherwise reveals, asks for a
        signed media link (`signed` is the answer's `signedUrl`) and, for a
        capsule not yet opened, records the opening (`marked` tells whether
        that request succeeded). */
    method RevealCapsule(signed: Reply<Option<string>>, marked: bool)
      requires Valid()
      modifies this
      ensures Valid()
      ensures Spent(old(capsule)) ==>
                capsule == old(capsule) && isRevealed == old(isRevealed) &&
                signedMediaUrl == old(signedMediaUrl) && calls == old(calls)
      ensures !Spent(old(capsule)) ==>
                isRevealed &&
                calls == old(calls) + SignCalls(old(capsule), shareToken) + MarkCalls(old(capsule), shareToken) &&
                signedMediaUrl == SignedLink(old(capsule), shareToken, signed, old(signedMediaUrl)) &&
                capsule == MarkedCapsule(old(capsule), shareToken, marked)
      ensures loading == old(loading) && isReady == old(isReady) && securityError == old(securityError)
      ensures passwordInput == old(passwordInput) && passwordError == old(passwordError)
    {
      if Spent(capsule) {
        return;
      }
      isRevealed := true;
      var c := capsule;
      if c.Some? && Truthy(c.value.mediaUrl) && Truthy(shareToken) {
        calls := calls + [SignMedia(shareToken.value, c.value.mediaUrl.value)];
        if signed.Data? && Truthy(signed.data) {
          signedMediaUrl := signed.data;
        }
      }
      if c.Some? && !c.value.isOpened && Truthy(shareToken) {
        calls := calls + [MarkOpened(shareToken.value)];
        if marked {
          capsule := Some(c.value.(isOpened := true));
        }
      }
    }

    /** `handleReveal`, the reveal button: a password capsule not yet revealed
        waits for its password instead. */
    method HandleReveal(signed: Reply<Option<string>>, marked: bool)
      requires Valid()
      modifies this
      ensures Valid()
      ensures old(capsule).Some? && old(capsule).value.hasPassword && !old(isRevealed) ==>
                capsule == old(capsule) && !isRevealed && signedMediaUrl == old(signedMediaUrl) && calls == old(calls)
      ensures !(old(capsule).Some? && old(capsule).value.hasPassword && !old(isRevealed)) && !Spent(old(capsule)) ==>
                isRevealed && calls == old(calls) + SignCalls(old(capsule), shareToken) + MarkCalls(old(capsule), shareToken) &&
                signedMediaUrl == SignedLink(old(capsule), shareToken, signed, old(signedMediaUrl)) &&
                capsule == MarkedCapsule(old(capsule), shareToken, marked)
      ensures Spent(old(capsule)) ==>
                capsule == old(capsule) && isRevealed == old(isRevealed) &&
                signedMediaUrl == old(signedMediaUrl) && calls == old(calls)
      ensures loading == old(loading) && isReady == old(isReady) && securityError == old(securityError)
      ensures passwordInput == old(passwordInput) && passwordError == old(passwordError)
    {
      if capsule.Some? && capsule.value.hasPassword && !isRevealed {
        return;
      }
      RevealCapsule(signed, marked);
    }

    /** `handlePasswordSubmit`: `verdict` is the answer of the password
        check; on acceptance the returned fields are merged in and the
        capsule revealed as by `revealCapsule`. */
    method HandlePasswordSubmit(verdict: Reply<Verdict>, signed: Reply<Option<string>>, marked: bool)
      requires Valid()
      modifies this
      ensures Valid()
      ensures old(capsule).None? || !Truthy(shareToken) ==>
                capsule == old(capsule) && isRevealed == old(isRevealed) && passwordError == old(passwordError) &&
                signedMediaUrl == old(signedMediaUrl) && calls == old(calls)
      ensures old(capsule).Some? && Truthy(shareToken) &&
              (Utf16Length(passwordInput) > 100 || Utf16Length(passwordInput) == 0) ==>
                passwordError && capsule == old(capsule) && isRevealed == old(isRevealed) &&
                signedMediaUrl == old(signedMediaUrl) && calls == old(calls)
      ensures old(capsule).Some? && Truthy(shareToken) && 0 < Utf16Length(passwordInput) <= 100 &&
              !(verdict.Data? && verdict.data.isValid) ==>
                passwordError && capsule == old(capsule) && isRevealed == old(isRevealed) &&
                signedMediaUrl == old(signedMediaUrl) &&
                calls == old(calls) + [VerifyPassword(shareToken.value, passwordInput)]
      ensures old(capsule).Some? && Truthy(shareToken) && 0 < Utf16Length(passwordInput) <= 100 &&
              verdict.Data? && verdict.data.isValid ==>
                var merged := if verdict.data.capsule.Some?
                              then Some(Merge(old(capsule).value, verdict.data.capsule.value))
                              else old(capsule);
                !passwordError &&
                (Spent(merged) ==>
                   capsule == merged && isRevealed == old(isRevealed) && signedMediaUrl == old(signedMediaUrl) &&
                   calls == old(calls) + [VerifyPassword(shareToken.value, passwordInput)]) &&
                (!Spent(merged) ==>
                   isRevealed && capsule == MarkedCapsule(merged, shareToken, marked) &&
                   signedMediaUrl == SignedLink(merged, shareToken, signed, old(signedMediaUrl)) &&
                   calls == old(calls) + [VerifyPassword(shareToken.value, passwordInput)] +
                            SignCalls(merged, shareToken) + MarkCalls(merged, shareToken))
      ensures !old(isRevealed) && isRevealed ==> verdict.Data? && verdict.data.isValid
      ensures loading == old(loading) && isReady == old(isReady) && securityError == old(securityError)
      ensures passwordInput == old(passwordInput)
    {
      if capsule.None? || !Truthy(shareToken) {
        return;
      }
      var n := Utf16Length(passwordInput);
      if n > 100 || n == 0 {
        passwordError := true;
        return;
      }
      calls := calls + [VerifyPassword(shareToken.value, passwordInput)];
      match verdict
      case Failed =>
        passwordError := true;
      case Data(v) =>
        if v.isValid {
          passwordError := false;
          if v.capsule.Some? {
            capsule := Some(Merge(capsule.value, v.capsule.value));
          }
          RevealCapsule(signed, marked);
        } else {
          passwordError := true;
        }
    }
  }

  /** A malformed token shows the security error and is never sent. */
  method MalformedTokenNeverSent(token: string, rows: Reply<seq<ClientCapsule>>, now: int)
    returns (screen: Screen, sent: seq<Call>)
    requires token != "" && !IsValidUuid(token)
    ensures screen == SecurityError && sent == []
  {
    var page := new ViewCapsulePage(Some(token));
    page.Mount(rows, now);
    screen, sent := page.Screen(), page.calls;
  }

  /** Opening an open-once capsule: the content is revealed, and as soon as
      the opening is recorded the page switches to the already-opened
      screen. */
  method OpenOnceClosesAfterReveal(token: string, c: ClientCapsule, now: int, signed: Reply<Option<string>>)
    returns (first: Screen, afterReveal: Screen)
    requires IsValidUuid(token) && c.openOnce && !c.isOpened && !c.hasPassword && c.unlockAt <= now
    ensures first == Closed(c.title)
    ensures afterReveal == AlreadyOpened
  {
    var page := new ViewCapsulePage(Some(token));
    page.Mount(Data([c]), now);
    first := page.Screen();
    page.HandleReveal(signed, true);
    afterReveal := page.Screen();
  }
}
