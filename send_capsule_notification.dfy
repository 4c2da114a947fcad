/** The `send-capsule-notification` edge function: after authorizing the
    caller, it selects the capsules that are due for a notification and walks
    them in order, e-mailing each recipient through SendGrid and flagging the
    row as notified; every selected id ends up in `success` or in `failed`. */
module SendCapsuleNotification {
  import opened Wrappers
  import opened JsString
  import opened Capsules
  import opened Http

  /** The function's settings: `SENDGRID_API_KEY`, `SENDGRID_FROM_EMAIL` and
      `CRON_SECRET` (each None when unset). */
  datatype Env = Env(apiKey: Option<string>, fromEmail: Option<string>, cronSecret: Option<string>)

  /** The request headers the handler reads: `Authorization` and
      `X-Cron-Secret` (header names are case-insensitive). */
  datatype Headers = Headers(authorization: Option<string>, cronSecret: Option<string>)

  /** The outgoing requests of the batch, in the order they are made. */
  datatype Call =
    | Send(to: string)        // POST to SendGrid's mail/send
    | MarkSent(id: string)    // update capsules set notification_sent = true where id = …

  // ---------------------------------------------------------------- authorization

  /** The `?.trim()` of an optional header. */
  function TrimmedHeader(h: Option<string>): (r: Option<string>)
    ensures r.Some? <==> h.Some?
    ensures r.Some? ==> r.value == Trim(h.value)
  {
    match h
    case None => None
    case Some(v) => Some(Trim(v))
  }

  /** A scheduled invocation: `CRON_SECRET` is set, and the trimmed header is
      non-empty and equals the trimmed secret. */
  predicate CronAuthorized(h: Headers, env: Env) {
    var header := TrimmedHeader(h.cronSecret);
    Truthy(env.cronSecret) && Truthy(header) && header.value == Trim(env.cronSecret.value)
  }

  /** A manual invocation carries a `Bearer ` token. */
  predicate HasBearer(h: Headers) {
    h.authorization.Some? && StartsWith(h.authorization.value, "Bearer ")
  }

  /** The caller may run the batch. `user` is what `auth.getUser()` finds for
      the bearer token: None when it reports an error or no user. */
  predicate Authorized(h: Headers, env: Env, user: Option<string>) {
    CronAuthorized(h, env) || (HasBearer(h) && user.Some?)
  }

  // ---------------------------------------------------------------- selection

  /** The filter of the capsule query: unlocked at `now`, not yet notified,
      with a recipient. */
  predicate Due(row: CapsuleRow, now: int) {
    row.unlockAt <= now && !row.notificationSent && row.recipientEmail.Some?
  }

  /** The rows the query returns, in table order. */
  function Selected(rows: seq<CapsuleRow>, now: int): (sel: seq<CapsuleRow>)
    ensures |sel| <= |rows|
    ensures forall r :: r in sel <==> r in rows && Due(r, now)
    decreases |rows|
  {
    if rows == [] then []
    else
      var rest := Selected(rows[..|rows| - 1], now);
      var last := rows[|rows| - 1];
      assert rows == rows[..|rows| - 1] + [last];
      if Due(last, now) then rest + [last] else rest
  }

  // ---------------------------------------------------------------- one capsule

  /** No whitespace and no `@`: the class `[^\s@]`. */
  predicate NoSpaceOrAt(s: string) {
    forall k :: 0 <= k < |s| ==> s[k] != '@' && !IsWhiteSpace(s[k])
  }

  /** `s` without its first and last characters. */
  function Inner(s: string): (r: string)
    ensures |r| == if |s| < 2 then 0 else |s| - 2
    ensures forall k :: 0 <= k < |r| ==> r[k] == s[k + 1]
  {
    if |s| < 2 then [] else s[1..|s| - 1]
  }

  /** `/^[^\s@]+@[^\s@]+\.[^\s@]+$/.test(s)`, decided at the only `@`: a
      non-empty local part, and a domain with a `.` neither first nor last. */
  predicate EmailShaped(s: string) {
    '@' in s &&
    var i := IndexOf(s, '@');
    var domain := s[i + 1..];
    i > 0 && NoSpaceOrAt(s[..i]) && NoSpaceOrAt(domain) && '.' in Inner(domain)
  }

  /** The regular expression read literally: three runs of `[^\s@]+` joined
      by `@` and `.`. */
  ghost predicate MatchesEmailPattern(s: string) {
    exists a: string, b: string, c: string ::
      a != [] && b != [] && c != [] &&
      NoSpaceOrAt(a) && NoSpaceOrAt(b) && NoSpaceOrAt(c) && s == a + "@" + b + "." + c
  }

  /** The text the regular expression sees: a null address reads "null". */
  function Recipient(row: CapsuleRow): (to: string)
    ensures row.recipientEmail.Some? ==> to == row.recipientEmail.value
    ensures row.recipientEmail.None? ==> !EmailShaped(to)
  {
    match row.recipientEmail
    case Some(e) => e
    case None => assert '@' !in "null"; "null"
  }

  /** `sendEmail` makes its request only when both SendGrid settings are set;
      it throws before the request otherwise. */
  predicate CanSend(env: Env) {
    Truthy(env.apiKey) && Truthy(env.fromEmail)
  }

  /** `sendEmail` returns normally. `reply` is SendGrid's answer: its status,
      or Failed when `fetch` throws. */
  predicate SendSucceeds(env: Env, reply: Reply<int>) {
    CanSend(env) && reply == Data(202)
  }

  /** Where one capsule's id goes. */
  datatype Disposition = BadAddress | SendFailed | Sent

  /** The body of the loop for one capsule; `sendgrid` gives SendGrid's answer
      for the capsule with that id. */
  function Dispose(env: Env, row: CapsuleRow, sendgrid: string -> Reply<int>): (d: Disposition)
    ensures d == Sent <==> EmailShaped(Recipient(row)) && SendSucceeds(env, sendgrid(row.id))
    ensures d == BadAddress <==> !EmailShaped(Recipient(row))
  {
    if !EmailShaped(Recipient(row)) then BadAddress
    else if SendSucceeds(env, sendgrid(row.id)) then Sent
    else SendFailed
  }

  /** The requests one capsule causes. An error of the update is only logged. */
  function ItemRequests(env: Env, row: CapsuleRow, sendgrid: string -> Reply<int>): seq<Call> {
    if !EmailShaped(Recipient(row)) || !CanSend(env) then []
    else if sendgrid(row.id) != Data(202) then [Send(Recipient(row))]
    else [Send(Recipient(row)), MarkSent(row.id)]
  }

  /** A capsule's requests: a send only to a well-formed address, and the
      `notification_sent` flag only after SendGrid accepted that send. */
  lemma ItemRequestsShape(env: Env, row: CapsuleRow, sendgrid: string -> Reply<int>)
    ensures !EmailShaped(Recipient(row)) ==> ItemRequests(env, row, sendgrid) == []
    ensures Dispose(env, row, sendgrid) == Sent <==>
              ItemRequests(env, row, sendgrid) == [Send(Recipient(row)), MarkSent(row.id)]
    ensures Dispose(env, row, sendgrid) != Sent ==>
              forall c :: c in ItemRequests(env, row, sendgrid) ==> c.Send?
    ensures forall to :: Send(to) in ItemRequests(env, row, sendgrid) ==>
              to == Recipient(row) && EmailShaped(to) && CanSend(env)
  {
  }

  // ---------------------------------------------------------------- the batch

  /** The ids pushed to `results.success`, in iteration order. */
  function SuccessIds(env: Env, caps: seq<CapsuleRow>, sendgrid: string -> Reply<int>): seq<string>
    decreases |caps|
  {
    if caps == [] then []
    else
      var last := caps[|caps| - 1];
      SuccessIds(env, caps[..|caps| - 1], sendgrid) +
        (if Dispose(env, last, sendgrid) == Sent then [last.id] else [])
  }

  /** The ids pushed to `results.failed`, in iteration order. */
  function FailedIds(env: Env, caps: seq<CapsuleRow>, sendgrid: string -> Reply<int>): seq<string>
    decreases |caps|
  {
    if caps == [] then []
    else
      var last := caps[|caps| - 1];
      FailedIds(env, caps[..|caps| - 1], sendgrid) +
        (if Dispose(env, last, sendgrid) != Sent then [last.id] else [])
  }

  /** The requests of the whole batch, capsule after capsule. */
  function Requests(env: Env, caps: seq<CapsuleRow>, sendgrid: string -> Reply<int>): seq<Call>
    decreases |caps|
  {
    if caps == [] then []
    else Requests(env, caps[..|caps| - 1], sendgrid) + ItemRequests(env, caps[|caps| - 1], sendgrid)
  }

  /** The ids of the capsules, in order. */
  function Ids(caps: seq<CapsuleRow>): (ids: seq<string>)
    ensures |ids| == |caps|
    ensures forall k :: 0 <= k < |caps| ==> ids[k] == caps[k].id
  {
    if caps == [] then [] else Ids(caps[..|caps| - 1]) + [caps[|caps| - 1].id]
  }

  /** The `for … of` loop over the selected capsules. */
  method ProcessBatch(env: Env, caps: seq<CapsuleRow>, sendgrid: string -> Reply<int>)
    returns (success: seq<string>, failed: seq<string>, calls: seq<Call>)
    ensures success == SuccessIds(env, caps, sendgrid)
    ensures failed == FailedIds(env, caps, sendgrid)
    ensures calls == Requests(env, caps, sendgrid)
  {
    success, failed, calls := [], [], [];
    for i := 0 to |caps|
      invariant success == SuccessIds(env, caps[..i], sendgrid)
      invariant failed == FailedIds(env, caps[..i], sendgrid)
      invariant calls == Requests(env, caps[..i], sendgrid)
    {
      var capsule := caps[i];
      BatchStep(env, caps, i, sendgrid);
      var to := Recipient(capsule);
      if !EmailShaped(to) {
        failed := failed + [capsule.id];
        continue;
      }
      if !CanSend(env) {
        failed := failed + [capsule.id];
        continue;
      }
      calls := calls + [Send(to)];
      var reply := sendgrid(capsule.id);
      if reply != Data(202) {
        failed := failed + [capsule.id];
        continue;
      }
      calls := calls + [MarkSent(capsule.id)];
      success := success + [capsule.id];
    }
    assert caps[..|caps|] == caps;
  }

  /** One more capsule extends each list by that capsule's part. */
  lemma BatchStep(env: Env, caps: seq<CapsuleRow>, i: nat, sendgrid: string -> Reply<int>)
    requires i < |caps|
    ensures var d := Dispose(env, caps[i], sendgrid);
      SuccessIds(env, caps[..i + 1], sendgrid) ==
        SuccessIds(env, caps[..i], sendgrid) + (if d == Sent then [caps[i].id] else []) &&
      FailedIds(env, caps[..i + 1], sendgrid) ==
        FailedIds(env, caps[..i], sendgrid) + (if d != Sent then [caps[i].id] else []) &&
      Requests(env, caps[..i + 1], sendgrid) ==
        Requests(env, caps[..i], sendgrid) + ItemRequests(env, caps[i], sendgrid)
  {
    assert caps[..i + 1][..i] == caps[..i] && caps[..i + 1][i] == caps[i];
  }

  /** Every capsule's id lands in exactly one of the two lists. */
  lemma {:induction false} EveryIdOnce(env: Env, caps: seq<CapsuleRow>, sendgrid: string -> Reply<int>)
    ensures |SuccessIds(env, caps, sendgrid)| + |FailedIds(env, caps, sendgrid)| == |caps|
    ensures multiset(SuccessIds(env, caps, sendgrid)) + multiset(FailedIds(env, caps, sendgrid)) ==
              multiset(Ids(caps))
    decreases |caps|
  {
    if caps != [] {
      var init, last := caps[..|caps| - 1], caps[|caps| - 1];
      EveryIdOnce(env, init, sendgrid);
    }
  }

  /** A capsule is flagged as notified exactly when its id is reported as a
      success, and only right after the send SendGrid accepted. */
  lemma {:induction false} MarkedExactlySucceeded(env: Env, caps: seq<CapsuleRow>, sendgrid: string -> Reply<int>,
                                                  id: string)
    ensures MarkSent(id) in Requests(env, caps, sendgrid) <==> id in SuccessIds(env, caps, sendgrid)
    decreases |caps|
  {
    if caps != [] {
      var init, last := caps[..|caps| - 1], caps[|caps| - 1];
      MarkedExactlySucceeded(env, init, sendgrid, id);
      ItemRequestsShape(env, last, sendgrid);
    }
  }

  /** Every send of the batch goes to a well-formed address of one of its capsules. */
  lemma {:induction false} SendsOnlyWellFormed(env: Env, caps: seq<CapsuleRow>, sendgrid: string -> Reply<int>,
                                               to: string)
    requires Send(to) in Requests(env, caps, sendgrid)
    ensures EmailShaped(to) && CanSend(env)
    ensures exists k :: 0 <= k < |caps| && Recipient(caps[k]) == to
    decreases |caps|
  {
    var init, last := caps[..|caps| - 1], caps[|caps| - 1];
    assert Requests(env, caps, sendgrid) == Requests(env, init, sendgrid) + ItemRequests(env, last, sendgrid);
    if Send(to) in Requests(env, init, sendgrid) {
      SendsOnlyWellFormed(env, init, sendgrid, to);
      var k :| 0 <= k < |init| && Recipient(init[k]) == to;
      assert caps[k] == init[k];
    } else {
      ItemRequestsShape(env, last, sendgrid);
      assert Recipient(caps[|caps| - 1]) == to;
    }
  }

  // ---------------------------------------------------------------- the handler

  /** The handler, after CORS preflight. `user` is what `auth.getUser()`
      reports for the bearer token; `table` is the `capsules` table, or Failed
      when the query reports an error; `now` is the server clock. The second
      result is the requests the batch made. */
  method Handle(h: Headers, env: Env, user: Option<string>, table: Reply<seq<CapsuleRow>>, now: int,
                sendgrid: string -> Reply<int>)
    returns (r: Response, calls: seq<Call>)
    ensures r.status == 401 <==> !Authorized(h, env, user)
    ensures r.status == 401 ==> r.body == Error("Unauthorized") && calls == []
    ensures Authorized(h, env, user) && table.Failed? ==> r == Response(500, InternalError) && calls == []
    ensures Authorized(h, env, user) && table.Data? && Selected(table.data, now) == [] ==>
              r == Response(200, NothingToNotify) && calls == []
    ensures Authorized(h, env, user) && table.Data? && Selected(table.data, now) != [] ==>
              var sel := Selected(table.data, now);
              var success, failed := SuccessIds(env, sel, sendgrid), FailedIds(env, sel, sendgrid);
              r == Response(200, Notified(|success|, |failed|, success, failed)) &&
              |success| + |failed| == |sel| && calls == Requests(env, sel, sendgrid)
  {
    calls := [];
    if !CronAuthorized(h, env) {
      if !HasBearer(h) || user.None? {
        return Response(401, Error("Unauthorized")), [];
      }
    }
    if table.Failed? {
      return Response(500, InternalError), [];
    }
    var caps := Selected(table.data, now);
    if caps == [] {
      return Response(200, NothingToNotify), [];
    }
    var success, failed;
    success, failed, calls := ProcessBatch(env, caps, sendgrid);
    EveryIdOnce(env, caps, sendgrid);
    r := Response(200, Notified(|success|, |failed|, success, failed));
  }

  /** The regular expression and its at-the-`@` reading accept the same strings. */
  lemma EmailShapedIsPattern(s: string)
    ensures EmailShaped(s) <==> MatchesEmailPattern(s)
  {
    if EmailShaped(s) {
      ShapedIsPattern(s);
    }
    if MatchesEmailPattern(s) {
      var a, b, c :| a != [] && b != [] && c != [] &&
        NoSpaceOrAt(a) && NoSpaceOrAt(b) && NoSpaceOrAt(c) && s == a + "@" + b + "." + c;
      PatternIsShaped(a, b, c);
    }
  }

  /** An accepted string splits at its `@` and at a `.` inside its domain. */
  lemma ShapedIsPattern(s: string)
    requires EmailShaped(s)
    ensures MatchesEmailPattern(s)
  {
    var i := IndexOf(s, '@');
    var domain := s[i + 1..];
    var inner := Inner(domain);
    var j := IndexOf(inner, '.');
    assert j + 2 < |domain| && domain[j + 1] == '.';
    var a, b, c := s[..i], domain[..j + 1], domain[j + 2..];
    RegroupAt(s, i, j);
    NoSpaceOrAtSlice(domain, 0, j + 1);
    NoSpaceOrAtSlice(domain, j + 2, |domain|);
    PatternWitness(s, a, b, c);
  }

  /** A string with `@` at `i` and `.` at `j + 1` past it, read as local part,
      `@`, domain name, `.` and the rest. */
  lemma RegroupAt(s: string, i: nat, j: nat)
    requires i < |s| && s[i] == '@'
    requires j + 2 < |s[i + 1..]| && s[i + 1..][j + 1] == '.'
    ensures var d := s[i + 1..]; s == s[..i] + "@" + d[..j + 1] + "." + d[j + 2..]
  {
    var d := s[i + 1..];
    SplitAt(d, j + 1, '.');
    SplitAt(s, i, '@');
    JoinAround(s[..i], d[..j + 1], d[j + 2..]);
  }

  /** Three runs that build `s` as the pattern describes witness the match. */
  lemma PatternWitness(s: string, a: string, b: string, c: string)
    requires a != [] && b != [] && c != []
    requires NoSpaceOrAt(a) && NoSpaceOrAt(b) && NoSpaceOrAt(c) && s == a + "@" + b + "." + c
    ensures MatchesEmailPattern(s)
  {
  }

  /** A string is the text before a position, its character, and the rest. */
  lemma SplitAt(s: string, i: nat, ch: char)
    requires i < |s| && s[i] == ch
    ensures s == s[..i] + [ch] + s[i + 1..]
  {
    assert s[..i] + [ch] + s[i + 1..] == s[..i] + s[i..];
  }

  /** The address text regrouped around its domain. */
  lemma JoinAround(a: string, b: string, c: string)
    ensures a + "@" + b + "." + c == a + "@" + (b + "." + c)
  {
    var x, y := a + "@" + b + "." + c, a + "@" + (b + "." + c);
    assert |x| == |y|;
    assert forall k :: 0 <= k < |x| ==> x[k] == y[k];
  }

  /** A slice of a run free of white space and `@` is one too. */
  lemma NoSpaceOrAtSlice(s: string, lo: nat, hi: nat)
    requires NoSpaceOrAt(s) && lo <= hi <= |s|
    ensures NoSpaceOrAt(s[lo..hi])
  {
    assert forall k :: 0 <= k < hi - lo ==> s[lo..hi][k] == s[lo + k];
  }

  /** A string built as the pattern describes is accepted at its `@`. */
  lemma PatternIsShaped(a: string, b: string, c: string)
    requires a != [] && b != [] && c != []
    requires NoSpaceOrAt(a) && NoSpaceOrAt(b) && NoSpaceOrAt(c)
    ensures EmailShaped(a + "@" + b + "." + c)
  {
    var s := a + "@" + b + "." + c;
    var domain := b + "." + c;
    JoinAround(a, b, c);
    assert s[|a|] == '@' && s[..|a|] == a;
    var i := IndexOf(s, '@');
    assert i == |a|;
    assert s[i + 1..] == domain;
    assert Inner(domain)[|b| - 1] == '.';
    assert NoSpaceOrAt(domain) by {
      assert '.' as int !in WhiteSpaceCodes;
    }
  }
}
