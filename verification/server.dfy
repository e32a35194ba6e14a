/** The backend as a whole: the directory of database files that
    `DatabaseConfig` manages (backend/models/database.py), the database
    routes of backend/routes/databases.py, and the dispatch of every
    request to the route that serves it on the current database. */
module Server {
  import opened Base
  import opened Seqs
  import Store
  import Catalog
  import Translations
  import Tags
  import Languages
  import Export

  /** The `databases` directory: the `.db` files in creation order (the
      order `glob` lists them in is left to the file system), the database
      each file holds, and the file name of the current database. */
  datatype Server = Server(files: seq<string>, stores: map<string, Store.Store>, current: string)

  const DefaultName: string := "default.db"
  const Suffix: string := ".db"

  predicate EndsWith(s: string, suffix: string) {
    |s| >= |suffix| && s[|s| - |suffix|..] == suffix
  }

  /** Both `set_current_db` and `create_database` append ".db" unless the
      name already ends with it. */
  function Normalize(name: string): (n: string)
    ensures EndsWith(n, Suffix)
    ensures EndsWith(name, Suffix) ==> n == name
    ensures !EndsWith(name, Suffix) ==> |n| == |name| + 3 && n[..|name|] == name
  {
    if EndsWith(name, Suffix) then name else name + Suffix
  }

  lemma NormalizeIdempotent(name: string)
    ensures Normalize(Normalize(name)) == Normalize(name)
  {
  }

  /** `glob('*.db')` does not match names that start with a dot. */
  predicate Hidden(name: string) {
    |name| > 0 && name[0] == '.'
  }

  /** `get_available_databases`: the names of the existing files that
      `glob` lists. */
  function Available(sv: Server): (r: seq<string>)
    ensures Subseq(r, sv.files)
    ensures forall n :: n in r <==> n in sv.files && n in sv.stores && !Hidden(n)
  {
    var p := n => n in sv.stores && !Hidden(n);
    FilterSound(sv.files, p);
    Filter(sv.files, p)
  }

  /** Every file is a `.db` file holding a database, each listed once,
      and every database is one the server itself created and initialised. */
  predicate Valid(sv: Server) {
    && Store.Distinct(sv.files)
    && sv.stores.Keys == (set n | n in sv.files)
    && (forall i :: 0 <= i < |sv.files| ==> EndsWith(sv.files[i], Suffix))
    && AllValid(sv.stores)
  }

  predicate AllValid(stores: map<string, Store.Store>) {
    forall n :: n in stores ==> Store.Valid(stores[n])
  }

  /** Storing a valid database under any name keeps every database valid. */
  lemma AllValidAfterStore(stores: map<string, Store.Store>, name: string, db: Store.Store)
    requires AllValid(stores) && Store.Valid(db)
    ensures AllValid(stores[name := db])
  {
    var r := stores[name := db];
    forall n | n in r ensures Store.Valid(r[n]) {
      if n != name {
        assert r[n] == stores[n];
      }
    }
  }

  /** Adding a new valid database under a new ".db" name keeps the
      directory valid. */
  lemma ValidAfterCreate(sv: Server, name: string, db: Store.Store, current: string)
    requires Valid(sv) && Store.Valid(db) && name !in sv.stores && EndsWith(name, Suffix)
    ensures Valid(Server(sv.files + [name], sv.stores[name := db], current))
  {
    AllValidAfterStore(sv.stores, name, db);
    FilesAfterCreate(sv.files, sv.stores, name, db);
  }

  /** The file list after appending a new ".db" name still lists every
      database once and only ".db" files. */
  lemma FilesAfterCreate(files: seq<string>, stores: map<string, Store.Store>, name: string, db: Store.Store)
    requires Store.Distinct(files) && stores.Keys == (set n | n in files)
    requires forall i :: 0 <= i < |files| ==> EndsWith(files[i], Suffix)
    requires name !in stores && EndsWith(name, Suffix)
    ensures Store.Distinct(files + [name])
    ensures stores[name := db].Keys == (set n | n in files + [name])
    ensures forall i :: 0 <= i < |files + [name]| ==> EndsWith((files + [name])[i], Suffix)
  {
    assert name !in files;
    assert (set n | n in files + [name]) == (set n | n in files) + {name};
    var all := files + [name];
    forall i | 0 <= i < |all| ensures EndsWith(all[i], Suffix) {
      if i < |files| {
        assert all[i] == files[i];
      }
    }
  }

  /** Replacing an existing database by a valid one keeps the directory
      valid. */
  lemma ValidAfterReplace(sv: Server, name: string, db: Store.Store, current: string)
    requires Valid(sv) && Store.Valid(db) && name in sv.stores
    ensures Valid(Server(sv.files, sv.stores[name := db], current))
  {
    assert sv.stores[name := db].Keys == sv.stores.Keys;
    AllValidAfterStore(sv.stores, name, db);
  }

  /** Application start: `init_db()` on databases/default.db (creating the
      file when it is missing), with `default.db` as the current database. */
  function Boot(files: seq<string>, stores: map<string, Store.Store>): (sv: Server)
    ensures sv.current == DefaultName && DefaultName in sv.stores
    ensures DefaultName in stores ==> sv.files == files && sv.stores == stores[DefaultName := Store.InitStore(stores[DefaultName])]
    ensures DefaultName !in stores ==> sv.files == files + [DefaultName] && sv.stores == stores[DefaultName := Store.Fresh()]
  {
    if DefaultName in stores then Server(files, stores[DefaultName := Store.InitStore(stores[DefaultName])], DefaultName)
    else Server(files + [DefaultName], stores[DefaultName := Store.Fresh()], DefaultName)
  }

  /** A directory of valid databases stays valid when the application starts. */
  lemma BootValid(files: seq<string>, stores: map<string, Store.Store>)
    requires Valid(Server(files, stores, DefaultName))
    ensures Valid(Boot(files, stores))
  {
    var sv := Server(files, stores, DefaultName);
    if DefaultName in stores {
      Store.InitStoreIdempotent(stores[DefaultName]);
      ValidAfterReplace(sv, DefaultName, Store.InitStore(stores[DefaultName]), DefaultName);
    } else {
      Store.FreshIsValid();
      ValidAfterCreate(sv, DefaultName, Store.Fresh(), DefaultName);
    }
  }

  /** `get_current_db`: keep the current file while it exists; otherwise
      fall back to the first listed file; otherwise create and initialise
      `default.db`. Afterwards the current database always exists. */
  function CurrentDb(sv: Server): (r: Server)
    ensures r.current in r.stores
    ensures sv.stores.Keys <= r.stores.Keys
    ensures sv.current in sv.stores ==> r == sv
    ensures sv.current !in sv.stores && Available(sv) != [] ==>
              r == sv.(current := Available(sv)[0])
    ensures sv.current !in sv.stores && Available(sv) == [] && DefaultName !in sv.stores ==>
              r == Server(sv.files + [DefaultName], sv.stores[DefaultName := Store.Fresh()], DefaultName)
  {
    if sv.current in sv.stores then sv
    else
      var listed := Available(sv);
      if listed != [] then
        assert listed[0] in sv.files;
        sv.(current := listed[0])
      else if DefaultName in sv.stores then
        sv.(current := DefaultName, stores := sv.stores[DefaultName := Store.InitStore(sv.stores[DefaultName])])
      else
        Server(sv.files + [DefaultName], sv.stores[DefaultName := Store.Fresh()], DefaultName)
  }

  lemma CurrentDbValid(sv: Server)
    requires Valid(sv)
    ensures Valid(CurrentDb(sv))
  {
    if sv.current !in sv.stores && Available(sv) == [] {
      DefaultCreatedValid(sv);
    }
  }

  /** With nothing listed, a valid directory has no `default.db` either,
      so resolving creates it. */
  lemma DefaultCreatedValid(sv: Server)
    requires Valid(sv) && sv.current !in sv.stores && Available(sv) == []
    ensures Valid(CurrentDb(sv))
  {
    NothingListedNoDefault(sv);
    DefaultNameIsDb();
    Store.FreshIsValid();
    ValidAfterCreate(sv, DefaultName, Store.Fresh(), DefaultName);
  }

  lemma NothingListedNoDefault(sv: Server)
    requires sv.stores.Keys == (set n | n in sv.files) && Available(sv) == []
    ensures DefaultName !in sv.stores
  {
    assert !Hidden(DefaultName);
  }

  lemma DefaultNameIsDb()
    ensures EndsWith(DefaultName, Suffix)
  {
    assert DefaultName[|DefaultName| - |Suffix|..] == Suffix;
  }

  /** GET /api/databases: the listed files, plus the current one when it
      exists without being listed. The current database is always in the
      list. */
  function GetDatabases(sv: Server): (r: (Server, seq<string>))
    ensures r.0 == CurrentDb(sv)
    ensures r.0.current in r.1
    ensures forall n :: n in r.1 ==> n in r.0.stores
    ensures forall n :: n in Available(sv) ==> n in r.1
    ensures forall n :: n in r.1 <==> n in Available(sv) || n == r.0.current
  {
    var listed := Available(sv);
    var sv1 := CurrentDb(sv);
    if sv1.current !in listed then (sv1, listed + [sv1.current]) else (sv1, listed)
  }

  predicate AsciiAlnum(c: char) {
    ('a' <= c <= 'z') || ('A' <= c <= 'Z') || ('0' <= c <= '9')
  }

  /** `name.replace('_', '').replace('.', '')`. */
  function StripSeparators(name: string): (r: string)
    ensures |r| <= |name|
    ensures forall i :: 0 <= i < |r| ==> r[i] != '_' && r[i] != '.' && r[i] in name
    ensures forall i :: 0 <= i < |name| && name[i] != '_' && name[i] != '.' ==> name[i] in r
  {
    var p := c => c != '_' && c != '.';
    FilterSound(name, p);
    Filter(name, p)
  }

  /** The server's name check: `.isalnum()` of the name without its
      underscores and dots, which is false for the empty string. */
  predicate NameAccepted(name: string) {
    var core := StripSeparators(name);
    core != [] && forall i :: 0 <= i < |core| ==> AsciiAlnum(core[i])
  }

  /** An accepted name is made of letters, digits, underscores and dots
      and holds at least one letter or digit. */
  lemma NameAcceptedMeaning(name: string)
    ensures NameAccepted(name) <==>
      && (forall i :: 0 <= i < |name| ==> AsciiAlnum(name[i]) || name[i] == '_' || name[i] == '.')
      && (exists i :: 0 <= i < |name| && AsciiAlnum(name[i]))
  {
    var core := StripSeparators(name);
    if NameAccepted(name) {
      assert core[0] in name;
      forall i | 0 <= i < |name| ensures AsciiAlnum(name[i]) || name[i] == '_' || name[i] == '.' {
        if name[i] != '_' && name[i] != '.' {
          assert name[i] in core;
        }
      }
    }
    if (forall i :: 0 <= i < |name| ==> AsciiAlnum(name[i]) || name[i] == '_' || name[i] == '.')
       && (exists i :: 0 <= i < |name| && AsciiAlnum(name[i])) {
      var k :| 0 <= k < |name| && AsciiAlnum(name[k]);
      assert name[k] in core;
    }
  }

  function CreatedDescription(name: string): string {
    "创建新数据库: " + name
  }

  /** POST /api/databases: an empty or malformed name and a name whose
      file already exists are rejected with nothing changed; otherwise a
      new initialised database is added, holding one log entry, and the
      current database stays as it was. */
  function CreateDatabase(sv: Server, name: string, now: int): (r: (Server, Reply<()>))
    ensures name == "" ==> r == (sv, Fail(BadRequest, EmptyDatabaseName))
    ensures name != "" && !NameAccepted(name) ==> r == (sv, Fail(BadRequest, BadDatabaseName))
    ensures name != "" && NameAccepted(name) && Normalize(name) in sv.stores ==>
              r == (sv, Fail(BadRequest, DatabaseExists))
    ensures r.1.Ok? <==> name != "" && NameAccepted(name) && Normalize(name) !in sv.stores
    ensures r.1.Ok? ==>
      && r.0.files == sv.files + [Normalize(name)]
      && r.0.current == sv.current
      && r.0.stores == sv.stores[Normalize(name) := Store.AddLog(Store.Fresh(), Store.OpAdd, 1, CreatedDescription(name), now)]
  {
    if name == "" then (sv, Fail(BadRequest, EmptyDatabaseName))
    else if !NameAccepted(name) then (sv, Fail(BadRequest, BadDatabaseName))
    else
      var file := Normalize(name);
      if file in sv.stores then (sv, Fail(BadRequest, DatabaseExists))
      else
        var db := Store.AddLog(Store.Fresh(), Store.OpAdd, 1, CreatedDescription(name), now);
        (Server(sv.files + [file], sv.stores[file := db], sv.current), Ok(()))
  }

  /** A database whose name starts with a dot is created but never listed,
      so it can never be switched to. */
  lemma HiddenDatabaseUnlisted(sv: Server, now: int)
    requires ".x.db" !in sv.stores
    ensures CreateDatabase(sv, ".x", now).1.Ok?
    ensures ".x.db" in CreateDatabase(sv, ".x", now).0.stores
    ensures ".x.db" !in Available(CreateDatabase(sv, ".x", now).0)
  {
    DotXAccepted();
    assert Hidden(".x.db");
  }

  lemma DotXAccepted()
    ensures NameAccepted(".x") && Normalize(".x") == ".x.db"
  {
    NameAcceptedMeaning(".x");
    assert ".x"[0] == '.' && AsciiAlnum(".x"[1]);
    assert !EndsWith(".x", Suffix);
    var n := Normalize(".x");
    assert n[..2] == ".x" && n[2..] == Suffix;
    assert n == n[..2] + n[2..];
  }

  /** POST /api/databases/switch: the name must be listed exactly as given
      (with its ".db"); a name without the suffix is not found. */
  function SwitchDatabase(sv: Server, name: string): (r: (Server, Reply<()>))
    ensures name == "" ==> r == (sv, Fail(BadRequest, EmptyDatabaseName))
    ensures name != "" && name !in Available(sv) ==> r == (sv, Fail(NotFound, DatabaseMissing))
    ensures r.1.Ok? <==> name != "" && name in Available(sv)
    ensures r.1.Ok? ==> r.0 == sv.(current := Normalize(name)) && name in sv.stores
  {
    if name == "" then (sv, Fail(BadRequest, EmptyDatabaseName))
    else if name !in Available(sv) then (sv, Fail(NotFound, DatabaseMissing))
    else (sv.(current := Normalize(name)), Ok(()))
  }

  /** In a valid directory every listed name already ends with ".db", so
      switching makes exactly that file current. */
  lemma SwitchToListed(sv: Server, name: string)
    requires Valid(sv) && name in Available(sv)
    ensures SwitchDatabase(sv, name) == (sv.(current := name), Ok(()))
  {
    assert name in sv.files;
    ListedIsNormal(sv.files, name);
  }

  lemma ListedIsNormal(files: seq<string>, name: string)
    requires forall i :: 0 <= i < |files| ==> EndsWith(files[i], Suffix)
    requires name in files
    ensures name != "" && Normalize(name) == name
  {
    var i :| 0 <= i < |files| && files[i] == name;
    assert EndsWith(name, Suffix);
  }

  /** Switching to a listed database that exists and back returns to the
      same state. */
  lemma SwitchBack(sv: Server, name: string)
    requires Valid(sv) && sv.current in Available(sv) && name in Available(sv)
    ensures var sv1 := SwitchDatabase(sv, name).0;
      SwitchDatabase(sv1, sv.current) == (sv, Ok(()))
  {
    SwitchToListed(sv, name);
    SwitchToListed(sv.(current := name), sv.current);
  }

  /** Every request the backend serves on the current database. An absent
      or empty string parameter is the empty string. */
  datatype DbRequest =
    | ListTranslations(page: int, limit: int, tag: Option<string>, language: Option<string>)
    | SearchTranslations(query: string, tag: Option<string>, language: Option<string>)
    | AddTranslation(entry: Translations.Entry)
    | UpdateTranslation(id: Store.Id, entry: Translations.Entry)
    | DeleteTranslation(id: Store.Id)
    | GetLanguages
    | RemoveLanguage(code: string)
    | ToggleLanguage(code: string, active: Option<bool>)
    | GetTags
    | CreateTag(name: string)
    | GetTagInfo(name: string)
    | DeleteTag(name: string)
    | GetLogs(limit: int)
    | ExportLanguage(code: string)
    | ExportAll
    | Initialize

  /** The requests about the database directory itself. */
  datatype DirRequest =
    | GetDatabases
    | CreateDatabase(name: string)
    | SwitchDatabase(name: string)

  datatype Request = Directory(dir: DirRequest) | OnDatabase(req: DbRequest)

  /** Every successful response body. */
  datatype Response =
    | Done
    | Page(listing: Translations.Listing)
    | Results(items: seq<Translations.Item>)
    | LanguageNames(list: Languages.LanguageList)
    | TagNames(tags: seq<string>)
    | TagCount(count: nat)
    | LogRows(logs: seq<Store.LogEntry>)
    | Exported(data: Export.Export)
    | ExportedAll(bulk: Export.Bulk)
    | DatabaseNames(databases: seq<string>, current: string)

  /** The routes that only read the database. */
  predicate ReadOnly(req: DbRequest) {
    || req.ListTranslations? || req.SearchTranslations? || req.GetLanguages? || req.GetTags?
    || req.GetTagInfo? || req.GetLogs? || req.ExportLanguage? || req.ExportAll?
  }

  /** A route that works on the current database. */
  function Route(s: Store.Store, req: DbRequest, now: int): (r: Store.Step<Response>)
    ensures ReadOnly(req) ==> r.store == s
    ensures r.reply.Fail? && !req.Initialize? ==> r.store == s
  {
    if ReadOnly(req) then Store.Step(s, Read(s, req)) else Write(s, req, now)
  }

  /** The reply of a route that only reads the database. */
  function Read(s: Store.Store, req: DbRequest): Reply<Response>
    requires ReadOnly(req)
  {
    match req
    case ListTranslations(page, limit, tag, language) =>
      var reply := Translations.ListTranslations(s, page, limit, tag, language);
      if reply.Ok? then Ok(Page(reply.body)) else Fail(reply.status, reply.reason)
    case SearchTranslations(q, tag, language) =>
      var reply := Translations.Search(s, q, tag, language);
      if reply.Ok? then Ok(Results(reply.body)) else Fail(reply.status, reply.reason)
    case GetLanguages =>
      Ok(LanguageNames(Languages.GetLanguages(s)))
    case GetTags =>
      Ok(TagNames(Tags.GetTags(s)))
    case GetTagInfo(name) =>
      Ok(TagCount(Tags.TagInfo(s, name)))
    case GetLogs(limit) =>
      Ok(LogRows(Store.GetLogs(s, limit)))
    case ExportLanguage(lang) =>
      var reply := Export.ExportLanguage(s, lang);
      if reply.Ok? then Ok(Exported(reply.body)) else Fail(reply.status, reply.reason)
    case ExportAll =>
      var reply := Export.ExportAll(s);
      if reply.Ok? then Ok(ExportedAll(reply.body)) else Fail(reply.status, reply.reason)
  }

  /** A writing route: its new database and its reply. A refusal leaves
      the database as it was, except for `/api/init`, which cannot fail. */
  function Write(s: Store.Store, req: DbRequest, now: int): (r: Store.Step<Response>)
    requires !ReadOnly(req)
    ensures r.reply.Fail? && !req.Initialize? ==> r.store == s
  {
    match req
    case AddTranslation(e) => Acknowledge(Translations.Add(s, e, now))
    case UpdateTranslation(id, e) => Acknowledge(Translations.Update(s, id, e, now))
    case DeleteTranslation(id) => Acknowledge(Translations.Delete(s, id, now))
    case RemoveLanguage(lang) => Acknowledge(Languages.Remove(s, lang))
    case ToggleLanguage(lang, active) => Acknowledge(Languages.Toggle(s, lang, active))
    case CreateTag(name) => Acknowledge(Tags.CreateTag(s, name, now))
    case DeleteTag(name) => Acknowledge(Tags.DeleteTag(s, name, now))
    case Initialize => Store.Step(Store.InitStore(s), Ok(Done))
  }

  /** A write's outcome with `Done` as the success body. */
  function Acknowledge(st: Store.Step<()>): Store.Step<Response> {
    Store.Step(st.store, if st.reply.Ok? then Ok(Done) else Fail(st.reply.status, st.reply.reason))
  }

  /** Every route keeps a valid database valid. */
  lemma RoutePreservesValid(s: Store.Store, req: DbRequest, now: int)
    requires Store.Valid(s)
    ensures Store.Valid(Route(s, req, now).store)
  {
    if !ReadOnly(req) {
      WritePreservesValid(s, req, now);
    }
  }

  lemma WritePreservesValid(s: Store.Store, req: DbRequest, now: int)
    requires Store.Valid(s) && !ReadOnly(req)
    ensures Store.Valid(Write(s, req, now).store)
  {
    match req
    case AddTranslation(e) => Translations.AddPreservesValid(s, e, now);
    case UpdateTranslation(id, e) => Translations.UpdatePreservesValid(s, id, e, now);
    case DeleteTranslation(id) => Translations.DeletePreservesValid(s, id, now);
    case RemoveLanguage(lang) => Languages.RemovePreservesValid(s, lang);
    case ToggleLanguage(lang, active) => Languages.TogglePreservesValid(s, lang, active);
    case CreateTag(name) => Tags.CreateTagPreservesValid(s, name, now);
    case DeleteTag(name) => Tags.DeleteTagPreservesValid(s, name, now);
    case Initialize => Store.InitStoreIdempotent(s);
  }

  /** The refusals a route makes from the request alone, before it calls
      `get_current_db`: an empty english text, query, tag name or language,
      and english as the language to remove or toggle. */
  function EarlyRefusal(req: DbRequest): Option<Reason> {
    match req
    case SearchTranslations(q, _, _) => if q == "" then Some(EmptyQuery) else None
    case AddTranslation(e) => if e.english == "" then Some(EmptyEnglish) else None
    case UpdateTranslation(_, e) => if e.english == "" then Some(EmptyEnglish) else None
    case CreateTag(name) => if name == "" then Some(EmptyTagName) else None
    case RemoveLanguage(lang) =>
      if lang == "" then Some(EmptyLanguage)
      else if lang == Catalog.English then Some(EnglishProtected)
      else None
    case ToggleLanguage(lang, _) =>
      if lang == "" then Some(EmptyLanguage)
      else if lang == Catalog.English then Some(EnglishProtected)
      else None
    case _ => None
  }

  /** An early refusal is the reply the route itself gives on any database,
      with that database unchanged. */
  lemma EarlyRefusalMatchesRoute(s: Store.Store, req: DbRequest, now: int)
    requires EarlyRefusal(req).Some?
    ensures Route(s, req, now) == Store.Step(s, Fail(BadRequest, EarlyRefusal(req).value))
  {
    match req
    case SearchTranslations(q, tag, language) =>
      assert Read(s, req) == Fail(BadRequest, EmptyQuery);
    case AddTranslation(e) =>
    case UpdateTranslation(id, e) =>
    case CreateTag(name) =>
    case RemoveLanguage(lang) =>
    case ToggleLanguage(lang, active) =>
  }

  /** Serve a request on the current database: a request refused on its
      own face is answered before anything else; any other resolves the
      current database with `get_current_db`, runs the route on it and
      stores the result back. */
  function OnCurrent(sv: Server, req: DbRequest, now: int): (r: (Server, Reply<Response>))
    ensures EarlyRefusal(req).Some? ==> r.0 == sv && r.1.Fail?
    ensures EarlyRefusal(req).None? ==>
      && r.0.files == CurrentDb(sv).files && r.0.current == CurrentDb(sv).current
      && r.0.current in r.0.stores && r.0.stores.Keys == CurrentDb(sv).stores.Keys
      && (forall n :: n in r.0.stores && n != r.0.current ==> r.0.stores[n] == CurrentDb(sv).stores[n])
  {
    match EarlyRefusal(req)
    case Some(reason) => (sv, Fail(BadRequest, reason))
    case None => RunOnCurrent(sv, req, now)
  }

  /** `get_current_db`, then the route on that database, stored back. */
  function RunOnCurrent(sv: Server, req: DbRequest, now: int): (r: (Server, Reply<Response>))
    ensures r.0.files == CurrentDb(sv).files && r.0.current == CurrentDb(sv).current
    ensures r.0.current in r.0.stores && r.0.stores.Keys == CurrentDb(sv).stores.Keys
    ensures forall n :: n in r.0.stores && n != r.0.current ==> r.0.stores[n] == CurrentDb(sv).stores[n]
  {
    var sv1 := CurrentDb(sv);
    var step := Route(sv1.stores[sv1.current], req, now);
    (sv1.(stores := sv1.stores[sv1.current := step.store]), step.reply)
  }

  /** Answering early changes no reply: whatever the request, the client
      sees what the route would answer on the resolved current database. */
  lemma OnCurrentRepliesAsRoute(sv: Server, req: DbRequest, now: int)
    ensures var sv1 := CurrentDb(sv);
      OnCurrent(sv, req, now).1 == Route(sv1.stores[sv1.current], req, now).reply
  {
    var sv1 := CurrentDb(sv);
    if EarlyRefusal(req).Some? {
      EarlyRefusalMatchesRoute(sv1.stores[sv1.current], req, now);
    }
  }

  /** Serve one request: the listing resolves the current database, the
      create and switch routes act on the directory without resolving it,
      and every other route runs on the current database and leaves the
      others alone. */
  function Handle(sv: Server, req: Request, now: int): (r: (Server, Reply<Response>))
    ensures forall n :: n in sv.stores ==> n in r.0.stores
    ensures req == Directory(DirRequest.GetDatabases) ==> r.0 == CurrentDb(sv)
    ensures req.Directory? && req.dir.CreateDatabase? ==>
              r.0 == CreateDatabase(sv, req.dir.name, now).0 && r.0.current == sv.current
    ensures req.Directory? && req.dir.SwitchDatabase? ==> r.0 == SwitchDatabase(sv, req.dir.name).0
    ensures req.OnDatabase? ==> r == OnCurrent(sv, req.req, now)
  {
    match req
    case Directory(GetDatabases) =>
      var (sv1, names) := GetDatabases(sv);
      (sv1, Ok(DatabaseNames(names, sv1.current)))
    case Directory(CreateDatabase(name)) =>
      var (sv1, reply) := CreateDatabase(sv, name, now);
      (sv1, if reply.Ok? then Ok(Done) else Fail(reply.status, reply.reason))
    case Directory(SwitchDatabase(name)) =>
      var (sv1, reply) := SwitchDatabase(sv, name);
      (sv1, if reply.Ok? then Ok(Done) else Fail(reply.status, reply.reason))
    case OnDatabase(r) =>
      OnCurrent(sv, r, now)
  }

  lemma OnCurrentPreservesValid(sv: Server, req: DbRequest, now: int)
    requires Valid(sv)
    ensures Valid(OnCurrent(sv, req, now).0)
  {
    if EarlyRefusal(req).Some? {
      return;
    }
    CurrentDbValid(sv);
    var sv1 := CurrentDb(sv);
    RoutePreservesValid(sv1.stores[sv1.current], req, now);
    ValidAfterReplace(sv1, sv1.current, Route(sv1.stores[sv1.current], req, now).store, sv1.current);
  }

  lemma CreateDatabasePreservesValid(sv: Server, name: string, now: int)
    requires Valid(sv)
    ensures Valid(CreateDatabase(sv, name, now).0)
    ensures CreateDatabase(sv, name, now).0.current == sv.current
    ensures sv.stores.Keys <= CreateDatabase(sv, name, now).0.stores.Keys
  {
    if CreateDatabase(sv, name, now).1.Ok? {
      var db := Store.AddLog(Store.Fresh(), Store.OpAdd, 1, CreatedDescription(name), now);
      Store.FreshIsValid();
      ValidAfterCreate(sv, Normalize(name), db, sv.current);
    }
  }

  lemma SwitchDatabasePreservesValid(sv: Server, name: string)
    requires Valid(sv)
    ensures Valid(SwitchDatabase(sv, name).0)
    ensures sv.current in sv.stores || SwitchDatabase(sv, name).1.Ok? ==>
              SwitchDatabase(sv, name).0.current in SwitchDatabase(sv, name).0.stores
  {
    if name != "" && name in Available(sv) {
      SwitchToListed(sv, name);
    }
  }

  /** Every request keeps the server valid. A current database that exists
      still exists afterwards; a missing one is brought back by the listing
      and by every route that reaches `get_current_db`, while create,
      a failed switch and an early refusal leave it missing. */
  lemma HandlePreservesValid(sv: Server, req: Request, now: int)
    requires Valid(sv)
    ensures Valid(Handle(sv, req, now).0)
    ensures sv.current in sv.stores ==> Handle(sv, req, now).0.current in Handle(sv, req, now).0.stores
    ensures req == Directory(DirRequest.GetDatabases) || (req.OnDatabase? && EarlyRefusal(req.req).None?) ==>
              Handle(sv, req, now).0.current in Handle(sv, req, now).0.stores
  {
    match req
    case Directory(GetDatabases) =>
      CurrentDbValid(sv);
    case Directory(CreateDatabase(name)) =>
      CreateDatabasePreservesValid(sv, name, now);
    case Directory(SwitchDatabase(name)) =>
      SwitchDatabasePreservesValid(sv, name);
    case OnDatabase(q) =>
      OnCurrentPreservesValid(sv, q, now);
  }

  /** Creating a database while the current file is missing leaves it
      missing: only the next request that resolves the current database
      moves on, to the first listed file, so `default.db` is not created. */
  lemma CreateKeepsMissingCurrent(now: int)
    ensures var sv := Handle(Server([], map[], "gone.db"), Directory(DirRequest.CreateDatabase("x")), now).0;
      && sv.files == ["x.db"] && sv.current == "gone.db" && sv.current !in sv.stores
      && CurrentDb(sv).current == "x.db" && DefaultName !in CurrentDb(sv).stores
  {
    var sv0 := Server([], map[], "gone.db");
    var sv := Handle(sv0, Directory(DirRequest.CreateDatabase("x")), now).0;
    CreateX(now);
    ResolveX(sv);
  }

  lemma CreateX(now: int)
    ensures var r := Handle(Server([], map[], "gone.db"), Directory(DirRequest.CreateDatabase("x")), now);
      r.0.files == ["x.db"] && r.0.current == "gone.db" && r.0.stores.Keys == {"x.db"}
  {
    XAccepted();
  }

  lemma XAccepted()
    ensures NameAccepted("x") && Normalize("x") == "x.db"
  {
    NameAcceptedMeaning("x");
    assert AsciiAlnum("x"[0]);
    assert !EndsWith("x", Suffix);
    var n := Normalize("x");
    assert n[..1] == "x" && n[1..] == Suffix;
    assert n == n[..1] + n[1..];
  }

  lemma ResolveX(sv: Server)
    requires sv.files == ["x.db"] && sv.current == "gone.db" && sv.stores.Keys == {"x.db"}
    ensures sv.current !in sv.stores
    ensures CurrentDb(sv).current == "x.db" && DefaultName !in CurrentDb(sv).stores
  {
    assert "gone.db"[0] != "x.db"[0] && DefaultName[0] != "x.db"[0];
    assert !Hidden("x.db");
    assert Available(sv)[0] == "x.db";
  }

  /** In a valid server english is active and heads the language list of
      every database. */
  lemma EnglishFirstEverywhere(sv: Server)
    requires Valid(sv)
    ensures forall n :: n in sv.stores ==>
              Languages.GetLanguages(sv.stores[n]).languages[0] == Catalog.English
  {
  }
}
