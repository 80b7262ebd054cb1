/**
 * The state of server.js and its routes: the submission store, the session
 * table, the admin configuration file and the backup directory, with one
 * method per route of the submission lifecycle and the admin area. Every
 * admin route is guarded by `requireAdmin` in its intended form (the token
 * names a live session).
 */
module Server {
  import opened Text
  import opened Json
  import opened Sorting
  import opened Submissions
  import opened Csv
  import opened Auth
  import opened Backups

  /** What a handler sends: `res.status(status).json(body)`, the CSV
      attachment of the export, or, for an exception the handler does not
      catch, the status 500 page of Express's default error handler. */
  datatype Response =
    | Reply(status: int, body: Value)
    | Attachment(filename: string, text: string)
    | Uncaught

  /** `{ error: message }` with an error status. */
  function ErrorReply(status: int, message: string): Response {
    Reply(status, Obj(map["error" := Str(message)]))
  }

  /** `{ ok: true, ... }` with status 200. */
  function OkReply(extra: map<string, Value>): Response {
    Reply(200, Obj(map["ok" := Bool(true)] + extra))
  }

  const Unauthorized := "Unauthorized"
  const NotFound := "Not found"
  const ConfigUnavailable := "Admin config unavailable"
  const InvalidCredentials := "Invalid credentials"
  const WrongPassword := "Current password is incorrect"
  const ShortPassword := "New password must be at least 8 characters"
  const MinPasswordLength := 8

  /** One reading of the clock: `toISOString()` and the local calendar fields. */
  datatype Clock = Clock(iso: string, local: DateTime)

  // ------------------------------------------------------ admin config

  const DefaultEmail := "admin@acelab.com"
  const DefaultPassword := "admin123"

  /** The credentials `loadAdminConfig` returns. */
  datatype Admin = Admin(email: Value, password: Value)

  /** The admin file as `DEFAULT_ADMIN` writes it. */
  function DefaultAdminFile(): Value {
    Obj(map["email" := Str(DefaultEmail), "password" := Str(DefaultPassword)])
  }

  /** `loadAdminConfig()` over the parsed admin file (`None`: unreadable or
      not JSON). Reading a property of `null` throws, which also gives
      `null`; any other value supplies each field or its default. */
  function LoadAdminConfig(file: Option<Value>): (c: Option<Admin>)
    ensures c.None? <==> file.None? || file.value == Null || file.value == Undefined
    ensures c.Some? ==> Truthy(c.value.email) && Truthy(c.value.password)
    ensures c.Some? && Truthy(Get(file.value, "email")) ==> c.value.email == Get(file.value, "email")
    ensures c.Some? && !Truthy(Get(file.value, "email")) ==> c.value.email == Str(DefaultEmail)
    ensures c.Some? && Truthy(Get(file.value, "password")) ==> c.value.password == Get(file.value, "password")
    ensures c.Some? && !Truthy(Get(file.value, "password")) ==> c.value.password == Str(DefaultPassword)
  {
    match file
    case None => None
    case Some(v) =>
      if IsNullish(v) then None
      else Some(Admin(Or(Get(v, "email"), Str(DefaultEmail)), Or(Get(v, "password"), Str(DefaultPassword))))
  }

  /** The object `saveAdminConfig(config)` writes. */
  function SavedAdminFile(config: Admin): Value {
    Obj(map["email" := Or(config.email, Str(DefaultEmail)), "password" := Or(config.password, Str(DefaultPassword))])
  }

  /** Saving credentials with truthy fields and loading them again gives them
      back; the default file loads as the default credentials. */
  lemma AdminConfigRoundTrip(config: Admin)
    requires Truthy(config.email) && Truthy(config.password)
    ensures LoadAdminConfig(Some(SavedAdminFile(config))) == Some(config)
    ensures LoadAdminConfig(Some(DefaultAdminFile())) == Some(Admin(Str(DefaultEmail), Str(DefaultPassword)))
  {
  }

  /** `const { email, password } = req.body || {}` */
  function BodyField(req: Request, key: string): Value {
    Get(Or(req.body, Obj(map[])), key)
  }

  /** The login check: both credentials strictly equal the stored ones. */
  predicate CredentialsMatch(req: Request, config: Admin) {
    StrictEquals(BodyField(req, "email"), config.email) && StrictEquals(BodyField(req, "password"), config.password)
  }

  /** The two checks of a password change, in order: the current password
      has text and is the stored one, the new one has text and at least 8
      UTF-16 code units. */
  function PasswordCheck(req: Request, config: Admin): (r: Option<string>)
    ensures r.None? <==>
      && BodyField(req, "currentPassword").Str? && Trim(BodyField(req, "currentPassword").s) != ""
      && StrictEquals(BodyField(req, "currentPassword"), config.password)
      && BodyField(req, "newPassword").Str? && Trim(BodyField(req, "newPassword").s) != ""
      && Utf16Length(BodyField(req, "newPassword").s) >= MinPasswordLength
    ensures r.Some? ==> r.value in {WrongPassword, ShortPassword}
    ensures r == Some(WrongPassword) <==>
      !(HasText(BodyField(req, "currentPassword")) && StrictEquals(BodyField(req, "currentPassword"), config.password))
    ensures r == Some(ShortPassword) <==>
      && HasText(BodyField(req, "currentPassword")) && StrictEquals(BodyField(req, "currentPassword"), config.password)
      && !(HasText(BodyField(req, "newPassword")) && Utf16Length(BodyField(req, "newPassword").s) >= MinPasswordLength)
  {
    var current := BodyField(req, "currentPassword");
    var next := BodyField(req, "newPassword");
    if !HasText(current) || !StrictEquals(current, config.password) then Some(WrongPassword)
    else if !HasText(next) || Utf16Length(next.s) < MinPasswordLength then Some(ShortPassword)
    else None
  }

  /** The refusals of `POST /admin/change-password`, in the order the
      guard and the handler make them; `None` when the change goes ahead. */
  function ChangeRefusal(req: Request, sessions: set<string>, file: Option<Value>): (r: Option<Response>)
    ensures r.None? <==>
      Authorized(req, sessions) && LoadAdminConfig(file).Some? && PasswordCheck(req, LoadAdminConfig(file).value).None?
    ensures !Authorized(req, sessions) ==> r == Some(ErrorReply(401, Unauthorized))
    ensures Authorized(req, sessions) && LoadAdminConfig(file).None? ==> r == Some(ErrorReply(500, ConfigUnavailable))
    ensures r.Some? ==> r.value.Reply? && r.value.status in {400, 401, 500}
    ensures Authorized(req, sessions) && LoadAdminConfig(file).Some? && PasswordCheck(req, LoadAdminConfig(file).value).Some? ==>
      r == Some(ErrorReply(400, PasswordCheck(req, LoadAdminConfig(file).value).value))
  {
    if !Authorized(req, sessions) then Some(ErrorReply(401, Unauthorized))
    else match LoadAdminConfig(file)
      case None => Some(ErrorReply(500, ConfigUnavailable))
      case Some(config) =>
        match PasswordCheck(req, config)
        case Some(message) => Some(ErrorReply(400, message))
        case None => None
  }

  // -------------------------------------------------------------- backups

  /** The directory listing after `copyFileSync` writes `name`: a new name
      joins it, an existing one is overwritten in place. */
  function Listed(listing: seq<string>, name: string): seq<string> {
    if name in listing then listing else listing + [name]
  }

  /** The directory listing after `createBackup` wrote `name` and pruned. */
  function AfterBackup(listing: seq<string>, name: string): seq<string> {
    var listed := Listed(listing, name);
    Without(listed, PruneSelection(listed))
  }

  lemma ListedDistinct(listing: seq<string>, name: string)
    requires Distinct(listing)
    ensures Distinct(Listed(listing, name))
  {
    if name !in listing {
      assert multiset(listing + [name]) == multiset(listing) + multiset{name};
    }
  }

  /** Every name `createBackup` writes is one that pruning considers. */
  lemma BackupNameIsBackup(d: DateTime)
    ensures IsBackupName(BackupName(d))
  {
    var name := BackupName(d);
    assert name == Prefix + BackupTimestamp(d) + Suffix;
    assert name[..|Prefix|] == Prefix;
    assert name[|name| - |Suffix|..] == Suffix;
  }

  /** A backup whose name sorts after every backup already present survives
      its own pruning; at most 30 backups remain, and files that are not
      backups stay. */
  lemma NewBackupSurvives(listing: seq<string>, name: string)
    requires Distinct(listing) && IsBackupName(name)
    requires forall x :: x in listing && IsBackupName(x) ==> LexLe(x, name)
    ensures name in AfterBackup(listing, name)
    ensures |BackupFiles(AfterBackup(listing, name))| <= Retained
    ensures forall f :: f in listing && !IsBackupName(f) ==> f in AfterBackup(listing, name)
  {
    var listed := Listed(listing, name);
    ListedDistinct(listing, name);
    PruneOnlyBackups(listed);
    PruneCount(listed);
    var k := SomeKeptBackup(listed, name);
    LexLeRefl(name);
    KeptAbove(listed, k, name);
  }

  /** After pruning a listing that holds a backup, some backup remains. */
  lemma SomeKeptBackup(listed: seq<string>, name: string) returns (k: string)
    requires Distinct(listed) && name in listed && IsBackupName(name)
    ensures k in Without(listed, PruneSelection(listed)) && IsBackupName(k) && k in listed
  {
    PruneCount(listed);
    assert name in BackupFiles(listed);
    var left := BackupFiles(Without(listed, PruneSelection(listed)));
    k := left[0];
  }

  /** Local date-time form: when every backup present is named after a
      local date-time not later than `now`, the backup of `now` survives
      (one of the same name is the copy it overwrote). */
  lemma NewestBackupSurvives(listing: seq<string>, dates: seq<DateTime>, now: DateTime)
    requires Distinct(listing) && ValidDate(now)
    requires forall x :: x in listing && IsBackupName(x) ==>
      exists i :: 0 <= i < |dates| && ValidDate(dates[i]) && NotAfter(dates[i], now) && x == BackupName(dates[i])
    ensures BackupName(now) in AfterBackup(listing, BackupName(now))
  {
    BackupNameIsBackup(now);
    forall x | x in listing && IsBackupName(x) ensures LexLe(x, BackupName(now)) {
      var i :| 0 <= i < |dates| && ValidDate(dates[i]) && NotAfter(dates[i], now) && x == BackupName(dates[i]);
      BackupNameOrder(dates[i], now);
    }
    NewBackupSurvives(listing, BackupName(now));
  }

  /** Pruning a listing without repeated names leaves one without repeats. */
  lemma PrunedDistinct(listing: seq<string>)
    requires Distinct(listing)
    ensures Distinct(Without(listing, PruneSelection(listing)))
  {
    DistinctSub(Without(listing, PruneSelection(listing)), listing);
  }

  lemma {:induction false} WithoutNothing(files: seq<string>)
    ensures Without(files, []) == files
  {
    if files != [] {
      WithoutNothing(files[1..]);
    }
  }

  // ---------------------------------------------------------- the server

  /** `[...]` of the records, as `res.json` sends them. */
  function Records(subs: seq<Submission>): (v: Value)
    ensures v.Arr? && |v.items| == |subs|
    ensures forall i :: 0 <= i < |subs| ==> v.items[i] == Obj(subs[i])
  {
    Arr(seq(|subs|, i requires 0 <= i < |subs| => Obj(subs[i])))
  }

  /** The cell texts of each record, one row per record. */
  function Rows(subs: seq<Submission>): (rows: seq<seq<string>>)
    requires AllExportable(subs)
    ensures |rows| == |subs|
  {
    seq(|subs|, i requires 0 <= i < |subs| => CellTexts(subs[i]))
  }

  /** `req.query.trashed ?? req.query.archived` */
  function TrashedFilter(req: Request): Value {
    Coalesce(Get(Obj(req.query), "trashed"), Get(Obj(req.query), "archived"))
  }

  class Server {
    /** The records of `data/submissions.json`. */
    var submissions: seq<Submission>
    /** The tokens that are keys of `sessions`. */
    var sessions: set<string>
    /** `data/admin.json` parsed; `None` when it is unreadable or not JSON. */
    var adminFile: Option<Value>
    /** The names in `data/backups`, in directory order. */
    var backups: seq<string>

    ghost predicate Valid()
      reads this
    {
      Distinct(backups)
    }

    /** A server starting on the files it finds, with no sessions. */
    constructor(stored: seq<Submission>, admin: Option<Value>, listing: seq<string>)
      requires Distinct(listing)
      ensures Valid()
      ensures submissions == stored && sessions == {} && adminFile == admin && backups == listing
    {
      submissions := stored;
      sessions := {};
      adminFile := admin;
      backups := listing;
    }

    /** `pruneBackups()`: deletes the names `PruneSelection` picks, one by one. */
    method PruneBackups()
      requires Valid()
      modifies this
      ensures Valid()
      ensures backups == Without(old(backups), PruneSelection(old(backups)))
      ensures submissions == old(submissions) && sessions == old(sessions) && adminFile == old(adminFile)
    {
      var doomed := PruneSelection(backups);
      ghost var listed := backups;
      PrunedDistinct(listed);
      WithoutNothing(listed);
      assert doomed[..0] == [];
      for i := 0 to |doomed|
        invariant backups == Without(listed, doomed[..i])
        invariant submissions == old(submissions) && sessions == old(sessions) && adminFile == old(adminFile)
      {
        DeleteNext(listed, doomed, i);
        backups := Without(backups, [doomed[i]]);
      }
      assert doomed[..|doomed|] == doomed;
    }

    /** `createBackup()`: copies the data file to the name of `now`, prunes,
        and returns the name. */
    method CreateBackup(now: DateTime) returns (filename: string)
      requires Valid()
      modifies this
      ensures Valid()
      ensures filename == BackupName(now)
      ensures backups == AfterBackup(old(backups), filename)
      ensures submissions == old(submissions) && sessions == old(sessions) && adminFile == old(adminFile)
    {
      filename := BackupName(now);
      ListedDistinct(backups, filename);
      if filename !in backups {
        backups := backups + [filename];
      }
      PruneBackups();
    }

    /** `saveSubmissions(subs)`: a backup of the old data file, then the write. */
    method SaveSubmissions(subs: seq<Submission>, now: DateTime)
      requires Valid()
      modifies this
      ensures Valid()
      ensures submissions == subs && backups == AfterBackup(old(backups), BackupName(now))
      ensures sessions == old(sessions) && adminFile == old(adminFile)
    {
      var _ := CreateBackup(now);
      submissions := subs;
    }

    /** `POST /submit`: a checked payload becomes a new record at the end of
        the store; a refused one changes nothing. */
    method Submit(req: Request, uuid: string, now: Clock) returns (res: Response)
      requires Valid()
      modifies this
      ensures Valid()
      ensures sessions == old(sessions) && adminFile == old(adminFile)
      ensures match CheckPayload(req.body)
        case Rejected(message) =>
          res == ErrorReply(400, message) && submissions == old(submissions) && backups == old(backups)
        case Accepted(fields) =>
          && res == OkReply(map[])
          && submissions == old(submissions) + [FreshRecord(fields, uuid, now.iso)]
          && backups == AfterBackup(old(backups), BackupName(now.local))
      ensures UniqueIds(old(submissions)) && (forall k :: 0 <= k < |old(submissions)| ==> !HasId(old(submissions)[k], uuid)) ==>
        UniqueIds(submissions)
    {
      match CheckPayload(req.body)
      case Rejected(message) =>
        res := ErrorReply(400, message);
      case Accepted(fields) =>
        var record := FreshRecord(fields, uuid, now.iso);
        ghost var before := submissions;
        SaveSubmissions(submissions + [record], now.local);
        if UniqueIds(before) && forall k :: 0 <= k < |before| ==> !HasId(before[k], uuid) {
          AppendKeepsIdsUnique(before, fields, uuid, now.iso);
        }
        res := OkReply(map[]);
    }

    /** `POST /admin/login`: matching credentials open a session under the
        new token; otherwise no session is added. */
    method Login(req: Request, uuid: string) returns (res: Response)
      modifies this
      ensures submissions == old(submissions) && adminFile == old(adminFile) && backups == old(backups)
      ensures LoadAdminConfig(adminFile).None? ==>
        res == ErrorReply(500, ConfigUnavailable) && sessions == old(sessions)
      ensures LoadAdminConfig(adminFile).Some? && !CredentialsMatch(req, LoadAdminConfig(adminFile).value) ==>
        res == ErrorReply(401, InvalidCredentials) && sessions == old(sessions)
      ensures LoadAdminConfig(adminFile).Some? && CredentialsMatch(req, LoadAdminConfig(adminFile).value) ==>
        res == OkReply(map["token" := Str(uuid)]) && sessions == old(sessions) + {uuid}
    {
      var config := LoadAdminConfig(adminFile);
      if config.None? {
        return ErrorReply(500, ConfigUnavailable);
      }
      if !CredentialsMatch(req, config.value) {
        return ErrorReply(401, InvalidCredentials);
      }
      sessions := sessions + {uuid};
      res := OkReply(map["token" := Str(uuid)]);
    }

    /** `POST /admin/change-password`: on success the new password is saved
        with the old email, and the presenting token, and only it, is
        revoked; any failure changes nothing. */
    method ChangePassword(req: Request, now: DateTime) returns (res: Response)
      requires Valid()
      modifies this
      ensures Valid()
      ensures ChangeRefusal(req, old(sessions), old(adminFile)).Some? ==>
        res == ChangeRefusal(req, old(sessions), old(adminFile)).value && unchanged(this)
      ensures ChangeRefusal(req, old(sessions), old(adminFile)).None? ==>
        && res == OkReply(map[])
        && submissions == old(submissions)
        && adminFile == Some(SavedAdminFile(Admin(LoadAdminConfig(old(adminFile)).value.email, BodyField(req, "newPassword"))))
        && sessions == old(sessions) - {GetToken(req).value}
        && !Authorized(req, sessions)
        && backups == AfterBackup(old(backups), BackupName(now))
    {
      var refusal := ChangeRefusal(req, sessions, adminFile);
      if refusal.Some? {
        return refusal.value;
      }
      var config := LoadAdminConfig(adminFile).value;
      ReplacePassword(config.email, BodyField(req, "newPassword"), GetToken(req).value, now);
      res := OkReply(map[]);
    }

    /** The success path of a password change: a backup, the new admin file,
        and the presenting token revoked. */
    method ReplacePassword(email: Value, password: Value, token: string, now: DateTime)
      requires Valid()
      modifies this
      ensures Valid()
      ensures submissions == old(submissions)
      ensures adminFile == Some(SavedAdminFile(Admin(email, password)))
      ensures sessions == old(sessions) - {token}
      ensures backups == AfterBackup(old(backups), BackupName(now))
    {
      var _ := CreateBackup(now);
      SaveAdminAndRevoke(Admin(email, password), token);
    }

    /** `saveAdminConfig(config)` followed by `delete sessions[token]`. */
    method SaveAdminAndRevoke(config: Admin, token: string)
      modifies this
      ensures adminFile == Some(SavedAdminFile(config)) && sessions == old(sessions) - {token}
      ensures submissions == old(submissions) && backups == old(backups)
    {
      adminFile := Some(SavedAdminFile(config));
      sessions := sessions - {token};
    }

    /** `POST /admin/backup` */
    method Backup(req: Request, now: DateTime) returns (res: Response)
      requires Valid()
      modifies this
      ensures Valid()
      ensures submissions == old(submissions) && sessions == old(sessions) && adminFile == old(adminFile)
      ensures !Authorized(req, sessions) ==> res == ErrorReply(401, Unauthorized) && backups == old(backups)
      ensures Authorized(req, sessions) ==>
        && res == OkReply(map["filename" := Str(BackupName(now))])
        && backups == AfterBackup(old(backups), BackupName(now))
    {
      if !Authorized(req, sessions) {
        return ErrorReply(401, Unauthorized);
      }
      var filename := CreateBackup(now);
      res := OkReply(map["filename" := Str(filename)]);
    }

    /** `GET /admin/submissions`: the records the filter selects, newest first. */
    method List(req: Request, parse: Value -> Option<int>) returns (res: Response)
      ensures !Authorized(req, sessions) ==> res == ErrorReply(401, Unauthorized)
      ensures Authorized(req, sessions) ==> res == Reply(200, Records(ListView(submissions, TrashedFilter(req), parse)))
      ensures Authorized(req, sessions) ==> res.body.Arr?
      ensures Authorized(req, sessions) ==> forall x ::
        Obj(x) in res.body.items <==> x in submissions && Selected(TrashedFilter(req), x)
      ensures Authorized(req, sessions) ==> forall i, j :: 0 <= i < j < |res.body.items| ==>
        res.body.items[i].Obj? && res.body.items[j].Obj? &&
        Timestamp(res.body.items[i].fields, parse) >= Timestamp(res.body.items[j].fields, parse)
    {
      if !Authorized(req, sessions) {
        return ErrorReply(401, Unauthorized);
      }
      var view := ListView(submissions, TrashedFilter(req), parse);
      ListViewSpec(submissions, TrashedFilter(req), parse);
      res := Reply(200, Records(view));
      forall x ensures Obj(x) in res.body.items <==> x in view {
        if x in view {
          var i :| 0 <= i < |view| && view[i] == x;
          assert res.body.items[i] == Obj(x);
        }
      }
    }

    /** `GET /admin/submissions/:id`: the first record with the id. */
    method Get(req: Request, id: string) returns (res: Response)
      ensures !Authorized(req, sessions) ==> res == ErrorReply(401, Unauthorized)
      ensures Authorized(req, sessions) && FindById(submissions, id) == -1 ==> res == ErrorReply(404, NotFound)
      ensures Authorized(req, sessions) && FindById(submissions, id) >= 0 ==>
        res == Reply(200, Obj(submissions[FindById(submissions, id)])) && HasId(res.body.fields, id)
    {
      if !Authorized(req, sessions) {
        return ErrorReply(401, Unauthorized);
      }
      var i := FindById(submissions, id);
      if i == -1 {
        return ErrorReply(404, NotFound);
      }
      res := Reply(200, Obj(submissions[i]));
    }

    /** `DELETE /admin/submissions/:id`: trashes the first record with the
        id in place; every other record stays as it was. */
    method Trash(req: Request, id: string, now: Clock) returns (res: Response)
      requires Valid()
      modifies this
      ensures Valid()
      ensures sessions == old(sessions) && adminFile == old(adminFile)
      ensures !Authorized(req, sessions) ==>
        res == ErrorReply(401, Unauthorized) && submissions == old(submissions) && backups == old(backups)
      ensures Authorized(req, sessions) && FindById(old(submissions), id) == -1 ==>
        res == ErrorReply(404, NotFound) && submissions == old(submissions) && backups == old(backups)
      ensures Authorized(req, sessions) && FindById(old(submissions), id) >= 0 ==>
        var i := FindById(old(submissions), id);
        && res == OkReply(map["trashed" := Bool(true)])
        && submissions == old(submissions)[i := MarkTrashed(old(submissions)[i], now.iso)]
        && backups == AfterBackup(old(backups), BackupName(now.local))
      ensures UniqueIds(old(submissions)) ==> UniqueIds(submissions)
    {
      if !Authorized(req, sessions) {
        return ErrorReply(401, Unauthorized);
      }
      var i := FindById(submissions, id);
      if i == -1 {
        return ErrorReply(404, NotFound);
      }
      ghost var before := submissions;
      SaveSubmissions(submissions[i := MarkTrashed(submissions[i], now.iso)], now.local);
      if UniqueIds(before) {
        MarkKeepsIdsUnique(before, i, now.iso);
      }
      res := OkReply(map["trashed" := Bool(true)]);
    }

    /** `POST /admin/submissions/:id/restore`: restores the first record with
        the id in place; every other record stays as it was. */
    method Restore(req: Request, id: string, now: Clock) returns (res: Response)
      requires Valid()
      modifies this
      ensures Valid()
      ensures sessions == old(sessions) && adminFile == old(adminFile)
      ensures !Authorized(req, sessions) ==>
        res == ErrorReply(401, Unauthorized) && submissions == old(submissions) && backups == old(backups)
      ensures Authorized(req, sessions) && FindById(old(submissions), id) == -1 ==>
        res == ErrorReply(404, NotFound) && submissions == old(submissions) && backups == old(backups)
      ensures Authorized(req, sessions) && FindById(old(submissions), id) >= 0 ==>
        var i := FindById(old(submissions), id);
        && res == OkReply(map["restored" := Bool(true)])
        && submissions == old(submissions)[i := MarkRestored(old(submissions)[i])]
        && backups == AfterBackup(old(backups), BackupName(now.local))
      ensures UniqueIds(old(submissions)) ==> UniqueIds(submissions)
    {
      if !Authorized(req, sessions) {
        return ErrorReply(401, Unauthorized);
      }
      var i := FindById(submissions, id);
      if i == -1 {
        return ErrorReply(404, NotFound);
      }
      ghost var before := submissions;
      SaveSubmissions(submissions[i := MarkRestored(submissions[i])], now.local);
      if UniqueIds(before) {
        MarkKeepsIdsUnique(before, i, now.iso);
      }
      res := OkReply(map["restored" := Bool(true)]);
    }

    /** `DELETE /admin/submissions/:id/permanent`: removes the first record
        with the id; the others keep their order. */
    method PermanentDelete(req: Request, id: string, now: DateTime) returns (res: Response)
      requires Valid()
      modifies this
      ensures Valid()
      ensures sessions == old(sessions) && adminFile == old(adminFile)
      ensures !Authorized(req, sessions) ==>
        res == ErrorReply(401, Unauthorized) && submissions == old(submissions) && backups == old(backups)
      ensures Authorized(req, sessions) && FindById(old(submissions), id) == -1 ==>
        res == ErrorReply(404, NotFound) && submissions == old(submissions) && backups == old(backups)
      ensures Authorized(req, sessions) && FindById(old(submissions), id) >= 0 ==>
        && res == OkReply(map["deleted" := Bool(true)])
        && submissions == RemoveAt(old(submissions), FindById(old(submissions), id))
        && backups == AfterBackup(old(backups), BackupName(now))
      ensures UniqueIds(old(submissions)) ==> UniqueIds(submissions)
      ensures Authorized(req, sessions) && UniqueIds(old(submissions)) ==> FindById(submissions, id) == -1
    {
      if !Authorized(req, sessions) {
        return ErrorReply(401, Unauthorized);
      }
      var i := FindById(submissions, id);
      if i == -1 {
        return ErrorReply(404, NotFound);
      }
      ghost var before := submissions;
      SaveSubmissions(RemoveAt(submissions, i), now);
      if UniqueIds(before) {
        RemoveKeepsIdsUnique(before, i);
        RemovedIsGone(before, id);
      }
      res := OkReply(map["deleted" := Bool(true)]);
    }

    /** `GET /admin/export`: the CSV of every record, trashed ones included.
        `buildCsv` throws when any record holds a value `String` cannot
        convert, and the route then fails with status 500 whatever the
        other records hold. */
    method Export(req: Request) returns (res: Response)
      ensures !Authorized(req, sessions) ==> res == ErrorReply(401, Unauthorized)
      ensures Authorized(req, sessions) && !AllExportable(submissions) ==> res == Uncaught
      ensures Authorized(req, sessions) && AllExportable(submissions) ==>
        && res == Attachment("submissions.csv", BuildCsv(submissions))
        && ReadDocument(res.text) == [Headers] + Rows(submissions)
    {
      if !Authorized(req, sessions) {
        return ErrorReply(401, Unauthorized);
      }
      var subs := submissions;
      if !AllExportable(subs) {
        return Uncaught;
      }
      res := Attachment("submissions.csv", BuildCsv(subs));
      ExportReadsBack(subs);
      assert Rows(subs) == seq(|subs|, i requires 0 <= i < |subs| => CellTexts(subs[i]));
    }
  }
}
