/** The capsule creation form: which media file it accepts, how a submission
    is validated, where the file is stored, and which record is inserted. The
    clock, the storage upload, the hashing function and the table insert are
    parameters; each handler runs as one step. */
module CreateCapsule {
  import opened Wrappers
  import opened JsString
  import opened Validation

  /** Largest accepted upload: 50 MiB. */
  const MaxFileBytes: nat := 50 * 1024 * 1024

  /** The MIME prefixes of the accepted media kinds. */
  const AllowedPrefixes: seq<string> := ["image/", "video/", "audio/"]

  /** The `File` the picker hands over. */
  datatype FileInfo = FileInfo(name: string, size: nat, mime: string)

  /** The row sent to the `capsules` table. */
  datatype NewCapsule = NewCapsule(
    ownerId: string,
    title: string,
    content: Option<string>,
    mediaUrl: Option<string>,
    mediaType: Option<string>,
    unlockAt: int,
    hasPassword: bool,
    passwordHash: Option<string>,
    recipientEmail: Option<string>,
    openOnce: bool)

  /** The requests a submission sends. */
  datatype Call =
    | Upload(path: string)
    | HashPassword(password: string)
    | Insert(record: NewCapsule)

  /** How a submission ends. */
  datatype Outcome =
    | Invalid
    | UnlockNotInFuture
    | Aborted
    | Created(shareToken: string)

  predicate Accepted(mime: string) {
    exists k :: 0 <= k < |AllowedPrefixes| && StartsWith(mime, AllowedPrefixes[k])
  }

  // ------------------------------------------------------------ field errors

  /** The issue names a field: its first path element is a non-empty string. */
  predicate Keyed(e: Issue) {
    |e.path| > 0 && e.path[0] != ""
  }

  /** The error record built from the issues in order; a later issue for the
      same field replaces an earlier one. */
  function FieldErrors(issues: seq<Issue>): map<string, string> {
    if issues == [] then map[]
    else
      var m := FieldErrors(issues[..|issues| - 1]);
      var e := issues[|issues| - 1];
      if Keyed(e) then m[e.path[0] := e.message] else m
  }

  /** Issue `i` is the last one reported for `field`. */
  predicate LastFor(issues: seq<Issue>, field: string, i: int) {
    0 <= i < |issues| && Keyed(issues[i]) && issues[i].path[0] == field &&
    forall j :: i < j < |issues| && Keyed(issues[j]) ==> issues[j].path[0] != field
  }

  /** A field has an error exactly when some issue names it, and the error is
      the message of the last issue naming it. */
  lemma {:induction false} FieldErrorsLastWins(issues: seq<Issue>, field: string)
    ensures field in FieldErrors(issues) <==>
              exists i :: 0 <= i < |issues| && Keyed(issues[i]) && issues[i].path[0] == field
    ensures field in FieldErrors(issues) ==>
              exists i :: LastFor(issues, field, i) && FieldErrors(issues)[field] == issues[i].message
    decreases |issues|
  {
    if issues != [] {
      var init := issues[..|issues| - 1];
      var n := |issues| - 1;
      FieldErrorsLastWins(init, field);
      assert forall i :: 0 <= i < n ==> init[i] == issues[i];
      var e := issues[n];
      if Keyed(e) && e.path[0] == field {
        assert LastFor(issues, field, n);
      } else if field in FieldErrors(init) {
        var i :| LastFor(init, field, i) && FieldErrors(init)[field] == init[i].message;
        assert LastFor(issues, field, i);
      }
    }
  }

  /** The `forEach` over the issues that fills the error record. */
  method CollectFieldErrors(issues: seq<Issue>) returns (fieldErrors: map<string, string>)
    ensures fieldErrors == FieldErrors(issues)
  {
    fieldErrors := map[];
    var i := 0;
    while i < |issues|
      invariant 0 <= i <= |issues|
      invariant fieldErrors == FieldErrors(issues[..i])
    {
      var e := issues[i];
      assert issues[..i + 1][..i] == issues[..i];
      if |e.path| > 0 && e.path[0] != "" {
        fieldErrors := fieldErrors[e.path[0] := e.message];
      }
      i := i + 1;
    }
    assert issues[..i] == issues;
  }

  // ------------------------------------------------------- paths and records

  /** `name.split('.').pop()`: the text after the last dot, or the whole name. */
  function FileExtension(name: string): (ext: string)
    ensures '.' !in ext
    ensures '.' !in name ==> ext == name
    ensures '.' in name ==> EndsAfter(name, '.', ext)
  {
    if '.' in name then SplitLastSuffix(name, '.'); LastSegment(name, '.')
    else SplitNone(name, '.'); LastSegment(name, '.')
  }

  /** `<userId>/<millis>.<extension>`: the object path of an upload. */
  function StoragePath(userId: string, millis: nat, fileName: string): (path: string)
    ensures StartsWith(path, userId + "/")
  {
    userId + "/" + DecimalString(millis) + "." + FileExtension(fileName)
  }

  /** Uploads of one file by one user at different instants go to different
      paths: the millisecond stamp can be read back from the path. */
  lemma StoragePathDistinct(userId: string, m1: nat, m2: nat, fileName: string)
    ensures StoragePath(userId, m1, fileName) == StoragePath(userId, m2, fileName) ==> m1 == m2
  {
    var p, ext := userId + "/", FileExtension(fileName);
    var d1, d2 := DecimalString(m1), DecimalString(m2);
    if StoragePath(userId, m1, fileName) == StoragePath(userId, m2, fileName) {
      var x1, x2 := d1 + ['.'] + ext, d2 + ['.'] + ext;
      assert StoragePath(userId, m1, fileName) == p + x1;
      assert StoragePath(userId, m2, fileName) == p + x2;
      assert x1 == (p + x1)[|p|..] && x2 == (p + x2)[|p|..];
      assert x1 == x2;
      StampBeforeDot(m1, ext);
      StampBeforeDot(m2, ext);
      DecimalStringInjective(m1, m2);
    }
  }

  /** The stamp is the segment before the first dot of `<millis>.<ext>`. */
  lemma StampBeforeDot(m: nat, ext: string)
    ensures Split(DecimalString(m) + ['.'] + ext, '.')[0] == DecimalString(m)
  {
    var d := DecimalString(m);
    assert '.' !in d by { assert forall k :: 0 <= k < |d| ==> IsDigit(d[k]); }
    SplitCons(d, '.', ext);
  }

  /** The stored path keeps the file's extension. */
  lemma StoragePathExtension(userId: string, millis: nat, fileName: string)
    ensures FileExtension(StoragePath(userId, millis, fileName)) == FileExtension(fileName)
  {
    var ext := FileExtension(fileName);
    var head := userId + "/" + DecimalString(millis);
    assert StoragePath(userId, millis, fileName) == head + ['.'] + ext;
    SplitLast(head, '.', ext);
  }

  /** `mime.split('/')[0]`: the media kind stored with the capsule. */
  function MediaKind(mime: string): (kind: string)
    ensures '/' !in kind
    ensures '/' !in mime ==> kind == mime
  {
    Split(mime, '/')[0]
  }

  /** An accepted file is stored as an image, a video or an audio file. */
  lemma AcceptedMediaKind(mime: string)
    requires Accepted(mime)
    ensures MediaKind(mime) in {"image", "video", "audio"}
    ensures MediaKind(mime) + "/" == mime[..|MediaKind(mime)| + 1]
  {
    var k :| 0 <= k < |AllowedPrefixes| && StartsWith(mime, AllowedPrefixes[k]);
    var p := AllowedPrefixes[k];
    var kind := p[..|p| - 1];
    assert p == kind + "/";
    assert mime == kind + ['/'] + mime[|p|..];
    assert '/' !in kind;
    SplitCons(kind, '/', mime[|p|..]);
    assert kind == (if k == 0 then "image" else if k == 1 then "video" else "audio");
  }

  /** `s.trim() || null`. */
  function NullIfBlank(s: string): Option<string> {
    var t := Trim(s);
    if t == "" then None else Some(t)
  }

  /** Optional text is stored trimmed, and as null when nothing but white
      space was typed. */
  lemma NullIfBlankMeaning(s: string)
    ensures NullIfBlank(s).None? <==> forall k :: 0 <= k < |s| ==> IsWhiteSpace(s[k])
    ensures NullIfBlank(s).Some? ==> NullIfBlank(s).value == Trim(s) && exists i :: OccursAt(s, Trim(s), i)
  {
    TrimInfix(s);
    if Trim(s) == "" {
      forall k | 0 <= k < |s| ensures IsWhiteSpace(s[k]) {
        TrimStartSuffix(s);
        TrimEndPrefix(TrimStart(s));
      }
    }
  }

  /** The inserted row; `passwordHash` is the hash obtained, if any. */
  function Record(userId: string, title: string, content: string, media: Option<(string, string)>,
                  unlockAt: int, hasPassword: bool, password: string, passwordHash: Option<string>,
                  recipientEmail: string, openOnce: bool): NewCapsule
  {
    NewCapsule(userId, Trim(title), NullIfBlank(content),
               if media.Some? then Some(media.value.0) else None,
               if media.Some? then Some(media.value.1) else None,
               unlockAt, hasPassword && password != "", passwordHash,
               NullIfBlank(recipientEmail), openOnce)
  }

  /** What the form hands to the schema: empty content and recipient become
      null, and the password is empty while its switch is off. */
  function SchemaInput(title: string, content: string, recipientEmail: string, hasPassword: bool,
                       password: string, unlockDate: Option<int>, unlockTime: string): CapsuleInput
  {
    CapsuleInput(title,
                 if content == "" then None else Some(content),
                 if recipientEmail == "" then None else Some(recipientEmail),
                 if hasPassword then password else "",
                 unlockDate, unlockTime)
  }

  /** An attached file is of an accepted kind and size, and a preview is only
      ever shown for an image. */
  predicate MediaValid(file: Option<FileInfo>, preview: Option<string>) {
    (file.Some? ==> Accepted(file.value.mime) && file.value.size <= MaxFileBytes) &&
    (preview.Some? ==> file.Some? && StartsWith(file.value.mime, "image/"))
  }

  // ------------------------------------------------------------ submission

  /** The contents of the form a submission reads. */
  datatype Draft = Draft(
    title: string,
    content: string,
    unlockDate: Option<int>,
    unlockTime: string,
    hasPassword: bool,
    password: string,
    recipientEmail: string,
    openOnce: bool,
    mediaFile: Option<FileInfo>)

  /** The issues the schema reports for the form contents. */
  function DraftIssues(d: Draft, isEmail: string -> bool): seq<Issue> {
    SchemaIssues(SchemaInput(d.title, d.content, d.recipientEmail, d.hasPassword, d.password,
                             d.unlockDate, d.unlockTime), isEmail)
  }

  /** The upload, when a file is attached: its path and media kind. */
  function MediaOf(d: Draft, millis: nat, userId: string): Option<(string, string)> {
    if d.mediaFile.Some?
    then Some((StoragePath(userId, millis, d.mediaFile.value.name), MediaKind(d.mediaFile.value.mime)))
    else None
  }

  /** The hashing request is sent only for a switched-on, non-empty password. */
  predicate NeedsHash(d: Draft) {
    d.hasPassword && d.password != ""
  }

  /** The row inserted once the upload and the hashing have succeeded. */
  function InsertedRecord(d: Draft, unlockAt: int, millis: nat, userId: string, hashed: Reply<string>): NewCapsule
    requires NeedsHash(d) ==> hashed.Data?
  {
    Record(userId, d.title, d.content, MediaOf(d, millis, userId), unlockAt, d.hasPassword, d.password,
           if NeedsHash(d) then Some(hashed.data) else None, d.recipientEmail, d.openOnce)
  }

  /** The inserted row: the title without surrounding white space, content
      and recipient null exactly when blank, the media path under the user's
      folder with the file's extension, and a password flag that holds
      exactly when a hash was requested. */
  lemma InsertedRecordFields(d: Draft, unlockAt: int, millis: nat, userId: string, hashed: Reply<string>)
    requires NeedsHash(d) ==> hashed.Data?
    ensures var r := InsertedRecord(d, unlockAt, millis, userId, hashed);
      r.ownerId == userId && r.unlockAt == unlockAt && r.openOnce == d.openOnce &&
      r.title == Trim(d.title) &&
      (r.content.None? <==> forall k :: 0 <= k < |d.content| ==> IsWhiteSpace(d.content[k])) &&
      (r.recipientEmail.None? <==> forall k :: 0 <= k < |d.recipientEmail| ==> IsWhiteSpace(d.recipientEmail[k])) &&
      (r.mediaUrl.Some? <==> d.mediaFile.Some?) && (r.mediaType.Some? <==> d.mediaFile.Some?) &&
      (r.mediaUrl.Some? ==>
         StartsWith(r.mediaUrl.value, userId + "/") &&
         FileExtension(r.mediaUrl.value) == FileExtension(d.mediaFile.value.name)) &&
      (r.hasPassword <==> NeedsHash(d)) && (r.passwordHash.Some? <==> NeedsHash(d))
  {
    NullIfBlankMeaning(d.content);
    NullIfBlankMeaning(d.recipientEmail);
    if d.mediaFile.Some? {
      StoragePathExtension(userId, millis, d.mediaFile.value.name);
    }
  }

  /** The requests of a valid submission, in order: the upload, the hashing
      and the insert, each sent only if the ones before it succeeded. */
  function Requests(d: Draft, unlockAt: int, millis: nat, userId: string, uploaded: bool,
                    hashed: Reply<string>): seq<Call>
  {
    if d.mediaFile.Some? then
      [Upload(MediaOf(d, millis, userId).value.0)] +
      (if uploaded then StoreRequests(d, unlockAt, millis, userId, hashed) else [])
    else StoreRequests(d, unlockAt, millis, userId, hashed)
  }

  /** The requests after the upload: the hashing, then the insert if the
      hashing succeeded. */
  function StoreRequests(d: Draft, unlockAt: int, millis: nat, userId: string, hashed: Reply<string>): seq<Call>
  {
    if NeedsHash(d) then
      [HashPassword(d.password)] +
      (if hashed.Data? then [Insert(InsertedRecord(d, unlockAt, millis, userId, hashed))] else [])
    else [Insert(InsertedRecord(d, unlockAt, millis, userId, hashed))]
  }

  /** A file is uploaded first; the password is sent for hashing only when
      switched on and non-empty, and only after a successful upload; the row
      is inserted last, only when every earlier request succeeded, and it
      carries a hash exactly when it is marked as password-protected. */
  lemma RequestsShape(d: Draft, unlockAt: int, millis: nat, userId: string, uploaded: bool, hashed: Reply<string>)
    ensures var rs := Requests(d, unlockAt, millis, userId, uploaded, hashed);
            (d.mediaFile.Some? <==> rs != [] && rs[0].Upload?) &&
            (HashPassword(d.password) in rs <==> NeedsHash(d) && (d.mediaFile.Some? ==> uploaded)) &&
            (rs != [] && rs[|rs| - 1].Insert? <==>
               (d.mediaFile.Some? ==> uploaded) && (NeedsHash(d) ==> hashed.Data?)) &&
            (rs != [] && rs[|rs| - 1].Insert? ==>
               (rs[|rs| - 1].record.hasPassword <==> rs[|rs| - 1].record.passwordHash.Some?))
  {
  }

  /** How a valid submission ends. */
  function Persisted(d: Draft, uploaded: bool, hashed: Reply<string>, inserted: Reply<string>): (o: Outcome)
    ensures o.Created? <==>
              (d.mediaFile.Some? ==> uploaded) && (NeedsHash(d) ==> hashed.Data?) && inserted.Data?
  {
    if (d.mediaFile.Some? && !uploaded) || (NeedsHash(d) && hashed.Failed?) || inserted.Failed? then Aborted
    else Created(inserted.data)
  }

  // ------------------------------------------------------------------- form

  class CreateCapsuleForm {
    var title: string
    var content: string
    var unlockDate: Option<int>
    var unlockTime: string
    var hasPassword: bool
    var password: string
    var recipientEmail: string
    var openOnce: bool
    var mediaFile: Option<FileInfo>
    /** The data URL shown as preview. */
    var mediaPreview: Option<string>
    var loading: bool
    var errors: map<string, string>
    /** The requests sent so far, oldest first. */
    var calls: seq<Call>

    predicate Valid()
      reads this`mediaFile, this`mediaPreview
    {
      MediaValid(mediaFile, mediaPreview)
    }

    constructor ()
      ensures title == "" && content == "" && unlockDate.None? && unlockTime == "12:00"
      ensures !hasPassword && password == "" && recipientEmail == "" && !openOnce
      ensures mediaFile.None? && mediaPreview.None? && !loading && errors == map[] && calls == []
      ensures Valid()
    {
      title := "";
      content := "";
      unlockDate := None;
      unlockTime := "12:00";
      hasPassword := false;
      password := "";
      recipientEmail := "";
      openOnce := false;
      mediaFile := None;
      mediaPreview := None;
      loading := false;
      errors := map[];
      calls := [];
    }

    /** Typing in the fields and flipping the switches. */
    method Edit(title: string, content: string, unlockDate: Option<int>, unlockTime: string,
                hasPassword: bool, password: string, recipientEmail: string, openOnce: bool)
      requires Valid()
      modifies this
      ensures Valid()
      ensures this.title == title && this.content == content && this.unlockDate == unlockDate
      ensures this.unlockTime == unlockTime && this.hasPassword == hasPassword && this.password == password
      ensures this.recipientEmail == recipientEmail && this.openOnce == openOnce
      ensures mediaFile == old(mediaFile) && mediaPreview == old(mediaPreview) && loading == old(loading)
      ensures errors == old(errors) && calls == old(calls)
    {
      this.title := title;
      this.content := content;
      this.unlockDate := unlockDate;
      this.unlockTime := unlockTime;
      this.hasPassword := hasPassword;
      this.password := password;
      this.recipientEmail := recipientEmail;
      this.openOnce := openOnce;
    }

    /** `handleFileChange`: `file` is the picked file, if any, and `dataUrl`
        what the file reader produces for it. A file over 50 MiB or of a kind
        other than image, video or audio leaves the form as it was. */
    method HandleFileChange(file: Option<FileInfo>, dataUrl: string)
      requires Valid()
      modifies this`mediaFile, this`mediaPreview
      ensures Valid()
      ensures file.None? || file.value.size > MaxFileBytes || !Accepted(file.value.mime) ==>
                mediaFile == old(mediaFile) && mediaPreview == old(mediaPreview)
      ensures file.Some? && file.value.size <= MaxFileBytes && Accepted(file.value.mime) ==>
                mediaFile == file &&
                mediaPreview == (if StartsWith(file.value.mime, "image/") then Some(dataUrl) else None)
      ensures title == old(title) && content == old(content) && password == old(password)
      ensures loading == old(loading) && errors == old(errors) && calls == old(calls)
    {
      if file.None? {
        return;
      }
      var f := file.value;
      if f.size > MaxFileBytes {
        return;
      }
      if !(StartsWith(f.mime, "image/") || StartsWith(f.mime, "video/") || StartsWith(f.mime, "audio/")) {
        return;
      }
      assert StartsWith(f.mime, AllowedPrefixes[0]) || StartsWith(f.mime, AllowedPrefixes[1]) ||
             StartsWith(f.mime, AllowedPrefixes[2]);
      mediaFile := file;
      if StartsWith(f.mime, "image/") {
        mediaPreview := Some(dataUrl);
      } else {
        mediaPreview := None;
      }
    }

    /** `removeMedia`. */
    method RemoveMedia()
      requires Valid()
      modifies this`mediaFile, this`mediaPreview
      ensures Valid() && mediaFile.None? && mediaPreview.None?
      ensures title == old(title) && content == old(content) && password == old(password)
      ensures loading == old(loading) && errors == old(errors) && calls == old(calls)
    {
      mediaFile := None;
      mediaPreview := None;
    }

    /** What a submission reads from the form. */
    function Snapshot(): Draft
      reads this`title, this`content, this`unlockDate, this`unlockTime, this`hasPassword
      reads this`password, this`recipientEmail, this`openOnce, this`mediaFile
    {
      Draft(title, content, unlockDate, unlockTime, hasPassword, password, recipientEmail,
            openOnce, mediaFile)
    }

    /** The validation step of `handleSubmit` on the contents `d` the
        handler sees: the error record is cleared, then filled from the issues
        when there are any. */
    method Validate(d: Draft, isEmail: string -> bool) returns (ok: bool)
      modifies this`errors
      ensures ok <==> DraftIssues(d, isEmail) == []
      ensures errors == FieldErrors(DraftIssues(d, isEmail))
    {
      var issues := DraftIssues(d, isEmail);
      errors := map[];
      ok := issues == [];
      if !ok {
        errors := CollectFieldErrors(issues);
      }
    }

    /** `handleSubmit`. `isEmail` is the library's address test, `unlockAt`
        the instant built from the chosen day and time, `now` the clock at the
        check and `millis` at the upload; `userId` is the signed-in user.
        `uploaded`, `hashed` and `inserted` are the answers of the upload, the
        hashing function and the insert (the new share token). */
    method HandleSubmit(isEmail: string -> bool, unlockAt: int, now: int, millis: nat, userId: string,
                        uploaded: bool, hashed: Reply<string>, inserted: Reply<string>)
      returns (outcome: Outcome)
      modifies this`errors, this`loading, this`calls
      ensures var d := old(Snapshot());
              var issues := DraftIssues(d, isEmail);
              errors == FieldErrors(issues) &&
              (issues != [] ==> outcome == Invalid && calls == old(calls) && loading == old(loading)) &&
              (issues == [] && unlockAt <= now ==>
                 outcome == UnlockNotInFuture && calls == old(calls) && loading == old(loading)) &&
              (issues == [] && now < unlockAt ==>
                 outcome == Persisted(d, uploaded, hashed, inserted) &&
                 calls == old(calls) + Requests(d, unlockAt, millis, userId, uploaded, hashed) &&
                 !loading)
    {
      var d := Snapshot();
      var ok := Validate(d, isEmail);
      if !ok {
        return Invalid;
      }
      outcome := Submit(d, unlockAt, now, millis, userId, uploaded, hashed, inserted);
    }

    /** The rest of `handleSubmit` once the schema accepted `d`: the unlock
        instant must lie ahead; the spinner is on while the requests run. */
    method Submit(d: Draft, unlockAt: int, now: int, millis: nat, userId: string,
                  uploaded: bool, hashed: Reply<string>, inserted: Reply<string>)
      returns (outcome: Outcome)
      modifies this`loading, this`calls
      ensures unlockAt <= now ==> outcome == UnlockNotInFuture && calls == old(calls) && loading == old(loading)
      ensures now < unlockAt ==>
                outcome == Persisted(d, uploaded, hashed, inserted) &&
                calls == old(calls) + Requests(d, unlockAt, millis, userId, uploaded, hashed) && !loading
    {
      if unlockAt <= now {
        return UnlockNotInFuture;
      }
      loading := true;
      outcome := Persist(d, unlockAt, millis, userId, uploaded, hashed, inserted);
      loading := false;
    }

    /** Upload, hashing and insert of a valid submission of the contents `d`. */
    method Persist(d: Draft, unlockAt: int, millis: nat, userId: string,
                   uploaded: bool, hashed: Reply<string>, inserted: Reply<string>)
      returns (outcome: Outcome)
      modifies this`calls
      ensures outcome == Persisted(d, uploaded, hashed, inserted)
      ensures calls == old(calls) + Requests(d, unlockAt, millis, userId, uploaded, hashed)
    {
      if d.mediaFile.Some? {
        var media := MediaOf(d, millis, userId);
        calls := calls + [Upload(media.value.0)];
        if !uploaded {
          return Aborted;
        }
      }
      outcome := Store(d, unlockAt, millis, userId, hashed, inserted);
    }

    /** The hashing and the insert, once the upload (if any) succeeded. */
    method Store(d: Draft, unlockAt: int, millis: nat, userId: string,
                 hashed: Reply<string>, inserted: Reply<string>)
      returns (outcome: Outcome)
      modifies this`calls
      ensures outcome == Persisted(d, true, hashed, inserted)
      ensures calls == old(calls) + StoreRequests(d, unlockAt, millis, userId, hashed)
    {
      if d.hasPassword && d.password != "" {
        calls := calls + [HashPassword(d.password)];
        if hashed.Failed? {
          return Aborted;
        }
      }
      calls := calls + [Insert(InsertedRecord(d, unlockAt, millis, userId, hashed))];
      if inserted.Failed? {
        return Aborted;
      }
      return Created(inserted.data);
    }
  }

  /** An inserted row has a password hash exactly when it is marked as
      password-protected. */
  lemma RecordPasswordConsistent(userId: string, title: string, content: string, media: Option<(string, string)>,
                                 unlockAt: int, hasPassword: bool, password: string, hash: string,
                                 recipientEmail: string, openOnce: bool)
    ensures var r := Record(userId, title, content, media, unlockAt, hasPassword, password,
                            if hasPassword && password != "" then Some(hash) else None,
                            recipientEmail, openOnce);
            r.hasPassword <==> r.passwordHash.Some?
  {
  }
}
