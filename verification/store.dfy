/** One translation database (one SQLite file, backend/models/database.py)
    as an immutable value: the `english` table, one translation table per
    language, the `tags` table, the `language_activation` table and the
    `operation_logs` table. */
module Store {
  import opened Base
  import opened Seqs
  import Catalog

  type Id = nat

  /** A row of the `english` table. `key` and `tag` may be NULL. */
  datatype Record = Record(id: Id, english: string, key: Option<string>, tag: Option<string>)

  /** A per-language translation table: its rows (english id to text, the
      text itself possibly NULL) and whether the table was created with a
      `translation_key` column. */
  datatype LangTable = LangTable(hasKeyColumn: bool, rows: map<Id, Option<string>>)

  /** A row of `operation_logs`; `date` is the CURRENT_TIMESTAMP at insert. */
  datatype LogEntry = LogEntry(op: string, count: int, description: string, date: int)

  /** The database. `records` holds the `english` rows in rowid order and
      `nextId` is the next AUTOINCREMENT id; `tables` holds the translation
      tables that exist, by language; `tags` holds the `tags` rows;
      `activation` holds the `language_activation` rows; `logs` holds the
      log rows in insertion order. */
  datatype Store = Store(
    records: seq<Record>,
    nextId: Id,
    tables: map<string, LangTable>,
    tags: seq<string>,
    activation: map<string, bool>,
    logs: seq<LogEntry>)

  /** A route's effect: the database afterwards and the reply. */
  datatype Step<T> = Step(store: Store, reply: Reply<T>)

  /** The five operation types the routes write into the log. */
  const OpAdd: string := "新增"
  const OpUpdate: string := "更新"
  const OpDelete: string := "删除"
  const OpAddTag: string := "新增标签"
  const OpDeleteTag: string := "删除标签"

  predicate IdsIncreasing(recs: seq<Record>) {
    forall i, j :: 0 <= i < j < |recs| ==> recs[i].id < recs[j].id
  }

  predicate Distinct(s: seq<string>) {
    forall i, j :: 0 <= i < j < |s| ==> s[i] != s[j]
  }

  /** `get_language_activation_status`: the stored flag, or true when the
      language has no row. */
  predicate IsActive(s: Store, lang: string) {
    lang !in s.activation || s.activation[lang]
  }

  /** What every database the server creates satisfies and every route
      keeps: ids strictly increase and stay below `nextId`, tag names are
      unique, every catalog language has an activation row, english is
      active, and every active catalog language other than english has a
      translation table. */
  predicate Valid(s: Store) {
    && IdsIncreasing(s.records)
    && (forall i :: 0 <= i < |s.records| ==> s.records[i].id < s.nextId)
    && Distinct(s.tags)
    && (forall l :: l in Catalog.Languages ==> l in s.activation)
    && IsActive(s, Catalog.English)
    && (forall l :: l in Catalog.Languages && l != Catalog.English && IsActive(s, l) ==> l in s.tables)
  }

  /** A database file that `sqlite3.connect` has just created. */
  const Empty: Store := Store([], 1, map[], [], map[], [])

  /** `init_db` (with `init_language_activation_table`): every CREATE TABLE
      is IF NOT EXISTS and every activation row is INSERT OR IGNORE, so
      nothing that exists is touched; the translation tables it creates
      have no `translation_key` column. */
  function InitStore(s: Store): (r: Store)
    ensures r.records == s.records && r.nextId == s.nextId && r.tags == s.tags && r.logs == s.logs
    ensures forall l :: l in Catalog.Languages ==> l in r.activation
    ensures forall l :: l in s.activation ==> l in r.activation && r.activation[l] == s.activation[l]
    ensures forall l :: l in r.activation && l !in s.activation ==> r.activation[l] && l in Catalog.Languages
    ensures forall l :: l in s.tables ==> l in r.tables && r.tables[l] == s.tables[l]
    ensures forall l :: l in Catalog.Languages && l != Catalog.English ==> l in r.tables
    ensures forall l :: l in r.tables && l !in s.tables ==>
              r.tables[l] == LangTable(false, map[]) && l in Catalog.Languages
  {
    var catalog := set l | l in Catalog.Languages;
    s.(activation := map l | l in s.activation.Keys + catalog ::
                       if l in s.activation then s.activation[l] else true,
       tables := map l | l in s.tables.Keys + (catalog - {Catalog.English}) ::
                   if l in s.tables then s.tables[l] else LangTable(false, map[]))
  }

  /** A freshly created and initialised database. */
  function Fresh(): Store {
    InitStore(Empty)
  }

  lemma FreshIsValid()
    ensures Valid(Fresh())
    ensures Fresh().records == [] && Fresh().tags == [] && Fresh().logs == []
    ensures forall l :: l in Catalog.Languages ==> IsActive(Fresh(), l)
  {
  }

  /** Initialising twice is initialising once, and re-initialising a valid
      database keeps it valid. */
  lemma InitStoreIdempotent(s: Store)
    ensures InitStore(InitStore(s)) == InitStore(s)
    ensures Valid(s) ==> Valid(InitStore(s)) && InitStore(s).activation == s.activation
  {
    InitStoreTwice(s);
    if Valid(s) {
      InitStoreKeepsValid(s);
    }
  }

  lemma InitStoreTwice(s: Store)
    ensures InitStore(InitStore(s)) == InitStore(s)
  {
    var r := InitStore(s);
    var r2 := InitStore(r);
    assert r2.activation == r.activation by {
      assert r2.activation.Keys == r.activation.Keys;
    }
    assert r2.tables == r.tables by {
      assert r2.tables.Keys == r.tables.Keys;
    }
  }

  lemma InitStoreKeepsValid(s: Store)
    requires Valid(s)
    ensures Valid(InitStore(s)) && InitStore(s).activation == s.activation
  {
    var r := InitStore(s);
    assert r.activation == s.activation by {
      assert r.activation.Keys == s.activation.Keys;
    }
  }

  /** `set_language_activation_status`: an UPDATE, so a language without a
      row is left without one. */
  function SetActivation(s: Store, lang: string, active: bool): (r: Store)
    ensures r.records == s.records && r.nextId == s.nextId && r.tables == s.tables
    ensures r.tags == s.tags && r.logs == s.logs
    ensures r.activation.Keys == s.activation.Keys
    ensures lang in s.activation ==> IsActive(r, lang) == active
    ensures lang !in s.activation ==> r == s
    ensures forall l :: l != lang ==> IsActive(r, l) == IsActive(s, l)
  {
    if lang in s.activation then s.(activation := s.activation[lang := active]) else s
  }

  /** The active languages in catalog order (the loop over `LANGUAGES` that
      several routes repeat). */
  function ActiveLanguages(s: Store): (r: seq<string>)
    ensures Subseq(r, Catalog.Languages)
    ensures forall l :: l in r <==> l in Catalog.Languages && IsActive(s, l)
  {
    var p := l => IsActive(s, l);
    FilterSound(Catalog.Languages, p);
    Filter(Catalog.Languages, p)
  }

  /** While english is active it heads the active list, which is what the
      client's `languages.slice(1)` relies on to list the non-english
      columns. */
  lemma EnglishHeadsActiveLanguages(s: Store)
    requires IsActive(s, Catalog.English)
    ensures ActiveLanguages(s) != [] && ActiveLanguages(s)[0] == Catalog.English
    ensures forall i :: 0 < i < |ActiveLanguages(s)| ==> ActiveLanguages(s)[i] != Catalog.English
  {
    var p := (l: string) => IsActive(s, l);
    var c := Catalog.Languages;
    Catalog.EnglishOnlyFirst();
    var rest := Filter(c[1..], p);
    FilterSound(c[1..], p);
    assert Filter(c, p) == [c[0]] + rest;
    forall i | 0 <= i < |rest| ensures rest[i] != Catalog.English {
      assert rest[i] in c[1..];
    }
  }

  /** `add_operation_log`: one row appended, earlier rows untouched. */
  function AddLog(s: Store, op: string, count: int, description: string, now: int): (r: Store)
    ensures |r.logs| == |s.logs| + 1
    ensures r.logs[..|s.logs|] == s.logs
    ensures r.logs[|s.logs|] == LogEntry(op, count, description, now)
    ensures r.records == s.records && r.nextId == s.nextId && r.tables == s.tables
    ensures r.tags == s.tags && r.activation == s.activation
  {
    s.(logs := s.logs + [LogEntry(op, count, description, now)])
  }

  /** Log dates never decrease in insertion order (the clock is monotone). */
  predicate Chronological(logs: seq<LogEntry>) {
    forall i, j :: 0 <= i < j < |logs| ==> logs[i].date <= logs[j].date
  }

  /** `get_operation_logs`: newest first, at most `limit` rows; a negative
      LIMIT means no limit in SQLite. Entries with the same date come newest
      insertion first. */
  function GetLogs(s: Store, limit: int): (r: seq<LogEntry>)
    ensures limit >= 0 ==> |r| == if limit < |s.logs| then limit else |s.logs|
    ensures limit < 0 ==> |r| == |s.logs|
    ensures forall i :: 0 <= i < |r| ==> r[i] == s.logs[|s.logs| - 1 - i]
  {
    var newest := Reverse(s.logs);
    if limit < 0 || limit >= |newest| then newest else newest[..limit]
  }

  /** When dates follow insertion order, the listing is ordered by
      `operation_date` descending. */
  lemma GetLogsNewestFirst(s: Store, limit: int)
    requires Chronological(s.logs)
    ensures forall i, j :: 0 <= i < j < |GetLogs(s, limit)| ==>
              GetLogs(s, limit)[i].date >= GetLogs(s, limit)[j].date
  {
  }

  /** Logging at a time no earlier than the last entry keeps the log
      chronological. */
  lemma AddLogChronological(s: Store, op: string, count: int, description: string, now: int)
    requires Chronological(s.logs)
    requires s.logs != [] ==> s.logs[|s.logs| - 1].date <= now
    ensures Chronological(AddLog(s, op, count, description, now).logs)
  {
  }
}
