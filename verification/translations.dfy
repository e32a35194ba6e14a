/** The translation routes of backend/routes/translations.py: the paged,
    tag-filtered listing, substring search, and add / update / delete with
    their log entries. */
module Translations {
  import opened Base
  import opened Text
  import opened Seqs
  import opened Store
  import Catalog

  /** A record as the listing and the search return it. */
  datatype Item = Item(
    id: Id,
    english: string,
    key: Option<string>,
    tag: Option<string>,
    tags: seq<string>,
    translations: map<string, Option<string>>)

  /** The body of a successful listing, with its `pagination` fields. */
  datatype Listing = Listing(items: seq<Item>, page: int, limit: int, total: nat, hasMore: bool)

  /** The JSON body of add and update. An absent, null or empty `english`
      is the empty string; `key` and `tag` are None when sent as null. */
  datatype Entry = Entry(
    english: string,
    key: Option<string>,
    tag: Option<string>,
    translations: map<string, Option<string>>)

  /** The tag a request filters on: `tag and tag != 'all'`; None means no
      filter. */
  function TagFilter(tag: Option<string>): (f: Option<string>)
    ensures f.Some? <==> Truthy(tag) && tag.value != "all"
    ensures f.Some? ==> f == tag
  {
    if Truthy(tag) && tag.value != "all" then tag else None
  }

  predicate Matches(r: Record, f: Option<string>) {
    f.None? || r.tag == f
  }

  lemma {:induction false} FilterKeepsIdsIncreasing(recs: seq<Record>, p: Record -> bool)
    requires IdsIncreasing(recs)
    ensures IdsIncreasing(Filter(recs, p))
    decreases |recs|
  {
    if recs != [] {
      var tail := recs[1..];
      assert IdsIncreasing(tail) by {
        forall i, j | 0 <= i < j < |tail| ensures tail[i].id < tail[j].id {
          assert tail[i] == recs[i + 1] && tail[j] == recs[j + 1];
        }
      }
      FilterKeepsIdsIncreasing(tail, p);
      var rest := Filter(tail, p);
      if p(recs[0]) {
        var r := [recs[0]] + rest;
        assert Filter(recs, p) == r;
        forall i, j | 0 <= i < j < |r| ensures r[i].id < r[j].id {
          assert r[j] == rest[j - 1];
          if i == 0 {
            FilterSound(tail, p);
            assert rest[j - 1] in tail;
            var k :| 0 <= k < |tail| && tail[k] == rest[j - 1];
            assert tail[k] == recs[k + 1];
          } else {
            assert r[i] == rest[i - 1];
          }
        }
      } else {
        assert Filter(recs, p) == rest;
      }
    }
  }

  /** The filter of the listing and the search on the tag parameter. */
  function MatchesTag(tag: Option<string>): Record -> bool {
    (x: Record) => Matches(x, TagFilter(tag))
  }

  /** `WHERE e.tag = ? ORDER BY e.id DESC` without paging: the records that
      pass the tag filter, highest id first. */
  function Ranked(s: Store, tag: Option<string>): (r: seq<Record>)
    ensures forall i :: 0 <= i < |r| ==> r[i] in s.records && Matches(r[i], TagFilter(tag))
    ensures forall i :: 0 <= i < |s.records| && Matches(s.records[i], TagFilter(tag)) ==> s.records[i] in r
    ensures |r| == Count(s.records, MatchesTag(tag))
    ensures IdsIncreasing(s.records) ==> forall i, j :: 0 <= i < j < |r| ==> r[i].id > r[j].id
  {
    RankedFacts(s.records, tag);
    Reverse(Filter(s.records, MatchesTag(tag)))
  }

  lemma RankedFacts(recs: seq<Record>, tag: Option<string>)
    ensures var r := Reverse(Filter(recs, MatchesTag(tag)));
      && (forall i :: 0 <= i < |r| ==> r[i] in recs && Matches(r[i], TagFilter(tag)))
      && (forall i :: 0 <= i < |recs| && Matches(recs[i], TagFilter(tag)) ==> recs[i] in r)
      && |r| == Count(recs, MatchesTag(tag))
      && (IdsIncreasing(recs) ==> forall i, j :: 0 <= i < j < |r| ==> r[i].id > r[j].id)
  {
    var p := MatchesTag(tag);
    var kept := Filter(recs, p);
    CountIsFilterLength(recs, p);
    RankedSound(recs, tag);
    RankedComplete(recs, tag);
    if IdsIncreasing(recs) {
      FilterKeepsIdsIncreasing(recs, p);
      ReverseDecreasing(kept);
    }
  }

  lemma RankedSound(recs: seq<Record>, tag: Option<string>)
    ensures var r := Reverse(Filter(recs, MatchesTag(tag)));
      forall i :: 0 <= i < |r| ==> r[i] in recs && Matches(r[i], TagFilter(tag))
  {
    var p := MatchesTag(tag);
    var kept := Filter(recs, p);
    var r := Reverse(kept);
    FilterSound(recs, p);
    forall i | 0 <= i < |r| ensures r[i] in recs && Matches(r[i], TagFilter(tag)) {
      var k := |kept| - 1 - i;
      assert r[i] == kept[k];
      assert p(kept[k]) && kept[k] in kept;
    }
  }

  lemma RankedComplete(recs: seq<Record>, tag: Option<string>)
    ensures var r := Reverse(Filter(recs, MatchesTag(tag)));
      forall i :: 0 <= i < |recs| && Matches(recs[i], TagFilter(tag)) ==> recs[i] in r
  {
    var p := MatchesTag(tag);
    var kept := Filter(recs, p);
    var r := Reverse(kept);
    forall i | 0 <= i < |recs| && Matches(recs[i], TagFilter(tag)) ensures recs[i] in r {
      assert p(recs[i]);
      assert recs[i] in kept;
      assert recs[i] in multiset(kept);
    }
  }

  /** Reversing a list with increasing ids puts the highest id first. */
  lemma ReverseDecreasing(kept: seq<Record>)
    requires IdsIncreasing(kept)
    ensures var r := Reverse(kept); forall i, j :: 0 <= i < j < |r| ==> r[i].id > r[j].id
  {
    var r := Reverse(kept);
    forall i, j | 0 <= i < j < |r| ensures r[i].id > r[j].id {
      var a, b := |kept| - 1 - j, |kept| - 1 - i;
      assert r[i] == kept[b];
      assert r[j] == kept[a];
    }
  }

  /** First index of the page: the SQL OFFSET `(page - 1) * limit`, where a
      negative offset counts as zero. */
  function PageStart(n: nat, page: int, limit: int): (k: nat)
    ensures k <= n
  {
    var offset := (page - 1) * limit;
    if offset < 0 then 0 else if offset > n then n else offset
  }

  /** One past the last index of the page; a negative LIMIT means no
      limit. */
  function PageEnd(n: nat, page: int, limit: int): (k: nat)
    ensures PageStart(n, page, limit) <= k <= n
    ensures limit >= 0 ==> k - PageStart(n, page, limit) <= limit
  {
    var start := PageStart(n, page, limit);
    if limit < 0 || start + limit > n then n else start + limit
  }

  /** `has_more = page * limit < total` is false exactly when the page
      reaches the last record, for every page >= 1 and limit >= 0. */
  lemma HasMoreExact(n: nat, page: int, limit: int)
    requires page >= 1 && limit >= 0
    ensures (page * limit < n) <==> PageEnd(n, page, limit) < n
  {
    assert page * limit == (page - 1) * limit + limit;
    assert (page - 1) * limit >= 0;
  }

  /** The translation of record `r` into `lang` as the routes read it:
      english is the record's own text, any other language the row of its
      table, or NULL when there is no row. */
  function Cell(s: Store, lang: string, r: Record): Option<string> {
    if lang == Catalog.English then Some(r.english)
    else if lang in s.tables && r.id in s.tables[lang].rows then s.tables[lang].rows[r.id]
    else None
  }

  /** Every active language other than english has a table to read. */
  predicate TablesReady(s: Store) {
    forall l :: l in ActiveLanguages(s) && l != Catalog.English ==> l in s.tables
  }

  lemma ValidTablesReady(s: Store)
    requires Valid(s)
    ensures TablesReady(s)
  {
  }

  /** The listing's and search's view of one record: a translations map
      over exactly the active languages, narrowed to the requested language
      when that language is in the map. */
  function ItemOf(s: Store, r: Record, language: Option<string>): (it: Item)
    ensures it.id == r.id && it.english == r.english && it.key == r.key && it.tag == r.tag
    ensures it.tags == if Truthy(r.tag) then [r.tag.value] else []
    ensures Truthy(language) && language.value in ActiveLanguages(s) ==>
              it.translations.Keys == {language.value}
    ensures !(Truthy(language) && language.value in ActiveLanguages(s)) ==>
              forall l :: l in it.translations <==> l in Catalog.Languages && IsActive(s, l)
    ensures Catalog.English in it.translations ==> it.translations[Catalog.English] == Some(r.english)
    ensures forall l :: l in it.translations && l != Catalog.English ==>
              it.translations[l] ==
                if l in s.tables && r.id in s.tables[l].rows then s.tables[l].rows[r.id] else None
  {
    var full := map l | l in ActiveLanguages(s) :: Cell(s, l, r);
    var shown := if Truthy(language) && language.value in full
                 then map[language.value := full[language.value]]
                 else full;
    Item(r.id, r.english, r.key, r.tag, if Truthy(r.tag) then [r.tag.value] else [], shown)
  }

  function Items(s: Store, recs: seq<Record>, language: Option<string>): (items: seq<Item>)
    ensures |items| == |recs|
    ensures forall i :: 0 <= i < |recs| ==> items[i] == ItemOf(s, recs[i], language)
  {
    seq(|recs|, i requires 0 <= i < |recs| => ItemOf(s, recs[i], language))
  }

  /** GET /api/translations. Reading a missing language table raises, so
      the route fails with 500 when a non-empty page needs one. */
  function ListTranslations(s: Store, page: int, limit: int, tag: Option<string>, language: Option<string>)
    : (r: Reply<Listing>)
    ensures r.Fail? ==> r.status == ServerError && !TablesReady(s)
    ensures Valid(s) ==> r.Ok?
    ensures r.Ok? ==>
      var ranked := Ranked(s, tag);
      var start := PageStart(|ranked|, page, limit);
      && r.body.page == page && r.body.limit == limit
      && r.body.total == |ranked|
      && r.body.hasMore == (page * limit < |ranked|)
      && |r.body.items| == PageEnd(|ranked|, page, limit) - start
      && (limit >= 0 ==> |r.body.items| <= limit)
      && forall i :: 0 <= i < |r.body.items| ==> r.body.items[i] == ItemOf(s, ranked[start + i], language)
  {
    var ranked := Ranked(s, tag);
    var rows := ranked[PageStart(|ranked|, page, limit)..PageEnd(|ranked|, page, limit)];
    if rows != [] && !TablesReady(s) then Fail(ServerError, StorageError)
    else Ok(Listing(Items(s, rows, language), page, limit, |ranked|, page * limit < |ranked|))
  }

  /** A record matches a search when the query occurs in its english text
      or in its (non-NULL) key. */
  predicate SearchHit(r: Record, q: string) {
    Contains(r.english, q) || (r.key.Some? && Contains(r.key.value, q))
  }

  /** GET /api/search: an empty query is rejected; otherwise every record
      passing the tag filter whose text or key contains the query, highest
      id first, without paging. */
  function Search(s: Store, q: string, tag: Option<string>, language: Option<string>)
    : (r: Reply<seq<Item>>)
    ensures q == "" ==> r == Fail(BadRequest, EmptyQuery)
    ensures q != "" && Valid(s) ==> r.Ok?
    ensures r.Ok? ==>
      var hits := Filter(Ranked(s, tag), x => SearchHit(x, q));
      && |r.body| == |hits|
      && (forall i :: 0 <= i < |hits| ==> r.body[i] == ItemOf(s, hits[i], language))
  {
    if q == "" then Fail(BadRequest, EmptyQuery)
    else
      var hits := Filter(Ranked(s, tag), x => SearchHit(x, q));
      if hits != [] && !TablesReady(s) then Fail(ServerError, StorageError)
      else Ok(Items(s, hits, language))
  }

  /** Search results are exactly the matching records of the unpaged
      listing, in the listing's id-descending order. */
  lemma SearchResultsAreRankedHits(s: Store, q: string, tag: Option<string>, language: Option<string>)
    requires q != "" && Valid(s)
    ensures var hits := Filter(Ranked(s, tag), x => SearchHit(x, q));
      && Subseq(hits, Ranked(s, tag))
      && (forall i :: 0 <= i < |hits| ==> SearchHit(hits[i], q) && Matches(hits[i], TagFilter(tag)))
      && (forall i :: 0 <= i < |s.records| && Matches(s.records[i], TagFilter(tag)) && SearchHit(s.records[i], q)
            ==> s.records[i] in hits)
      && (forall i, j :: 0 <= i < j < |hits| ==> hits[i].id > hits[j].id)
  {
    var p := x => SearchHit(x, q);
    HitsPassTagFilter(s, tag, p);
    HitsComplete(s, tag, p);
    HitsOrdered(s, tag, p);
  }

  lemma HitsPassTagFilter(s: Store, tag: Option<string>, p: Record -> bool)
    ensures var hits := Filter(Ranked(s, tag), p);
      forall i :: 0 <= i < |hits| ==> Matches(hits[i], TagFilter(tag))
  {
    var ranked := Ranked(s, tag);
    var hits := Filter(ranked, p);
    forall i | 0 <= i < |hits| ensures Matches(hits[i], TagFilter(tag)) {
      SubseqMember(hits, ranked, i);
      var k :| 0 <= k < |ranked| && ranked[k] == hits[i];
    }
  }

  lemma HitsComplete(s: Store, tag: Option<string>, p: Record -> bool)
    ensures var hits := Filter(Ranked(s, tag), p);
      forall i :: 0 <= i < |s.records| && Matches(s.records[i], TagFilter(tag)) && p(s.records[i])
        ==> s.records[i] in hits
  {
    var ranked := Ranked(s, tag);
    var hits := Filter(ranked, p);
    forall i | 0 <= i < |s.records| && Matches(s.records[i], TagFilter(tag)) && p(s.records[i])
      ensures s.records[i] in hits
    {
      var k :| 0 <= k < |ranked| && ranked[k] == s.records[i];
      assert p(ranked[k]);
    }
  }

  lemma HitsOrdered(s: Store, tag: Option<string>, p: Record -> bool)
    requires Valid(s)
    ensures var hits := Filter(Ranked(s, tag), p);
      forall i, j :: 0 <= i < j < |hits| ==> hits[i].id > hits[j].id
  {
    var ranked := Ranked(s, tag);
    var hits := Filter(ranked, p);
    forall i, j | 0 <= i < j < |hits| ensures hits[i].id > hits[j].id {
      SubseqOrder(hits, ranked, i, j);
    }
  }

  /** Elements of a subsequence keep the relative order they have in a
      sequence with strictly decreasing ids. */
  lemma {:induction false} SubseqOrder(a: seq<Record>, b: seq<Record>, i: int, j: int)
    requires Subseq(a, b) && 0 <= i < j < |a|
    requires forall x, y :: 0 <= x < y < |b| ==> b[x].id > b[y].id
    ensures a[i].id > a[j].id
    decreases |b|
  {
    if a[0] == b[0] {
      if i == 0 {
        SubseqMember(a[1..], b[1..], j - 1);
        var k :| 0 <= k < |b[1..]| && b[1..][k] == a[j];
        assert b[k + 1] == a[j];
      } else {
        SubseqOrder(a[1..], b[1..], i - 1, j - 1);
      }
    } else {
      SubseqOrder(a, b[1..], i, j);
    }
  }

  lemma {:induction false} SubseqMember<T>(a: seq<T>, b: seq<T>, i: int)
    requires Subseq(a, b) && 0 <= i < |a|
    ensures a[i] in b
    decreases |b|
  {
    if a[0] == b[0] {
      if i > 0 {
        SubseqMember(a[1..], b[1..], i - 1);
      }
    } else {
      SubseqMember(a, b[1..], i);
    }
  }

  /** The languages add writes: the non-english entries with a non-empty
      text. */
  function AddTargets(e: Entry): set<string> {
    set l | l in e.translations && l != Catalog.English && Truthy(e.translations[l])
  }

  /** The languages update writes: every non-english entry. */
  function UpdateTargets(e: Entry): set<string> {
    set l | l in e.translations && l != Catalog.English
  }

  /** Every table to write exists and, when the INSERT/UPDATE statement
      names the `translation_key` column, has it. */
  predicate Writable(s: Store, langs: set<string>, needKeyColumn: bool) {
    forall l :: l in langs ==> l in s.tables && (!needKeyColumn || s.tables[l].hasKeyColumn)
  }

  /** The tables with row `id` set to the entry's text for every language
      in `langs`. */
  function WriteRows(s: Store, id: Id, e: Entry, langs: set<string>): (t: map<string, LangTable>)
    requires forall l :: l in langs ==> l in e.translations
    ensures t.Keys == s.tables.Keys
    ensures forall l :: l in s.tables && l !in langs ==> t[l] == s.tables[l]
    ensures forall l :: l in s.tables && l in langs ==>
              t[l] == s.tables[l].(rows := s.tables[l].rows[id := e.translations[l]])
  {
    map l | l in s.tables :: if l in langs then s.tables[l].(rows := s.tables[l].rows[id := e.translations[l]])
                             else s.tables[l]
  }

  function AddDescription(english: string): string {
    "新增翻译: " + Prefix(english, 50) + "..."
  }

  function UpdateDescription(english: string): string {
    "更新翻译: " + Prefix(english, 50) + "..."
  }

  function DeleteDescription(english: string): string {
    "删除翻译: " + Prefix(english, 50) + "..."
  }

  /** POST /api/translations with the column requirement as a parameter:
      an sqlite3 error rolls back the uncommitted inserts, so a failed write
      leaves the database as it was. */
  function AddWith(s: Store, e: Entry, now: int, needKeyColumn: bool): Step<()> {
    if e.english == "" then Step(s, Fail(BadRequest, EmptyEnglish))
    else if !Writable(s, AddTargets(e), needKeyColumn) then Step(s, Fail(ServerError, StorageError))
    else
      var id := s.nextId;
      var s1 := s.(records := s.records + [Record(id, e.english, e.key, e.tag)],
                   nextId := id + 1,
                   tables := WriteRows(s, id, e, AddTargets(e)));
      Step(AddLog(s1, OpAdd, 1, AddDescription(e.english), now), Ok(()))
  }

  /** POST /api/translations as written: the INSERT into a language table
      names `translation_key`, a column the tables `init_db` creates lack. */
  function AddAsWritten(s: Store, e: Entry, now: int): Step<()> {
    AddWith(s, e, now, true)
  }

  /** POST /api/translations as evidently intended: the translation rows
      are written whatever the table's schema. */
  function Add(s: Store, e: Entry, now: int): (r: Step<()>)
    ensures e.english == "" ==> r == Step(s, Fail(BadRequest, EmptyEnglish))
    ensures r.reply.Ok? <==> e.english != "" && forall l :: l in AddTargets(e) ==> l in s.tables
    ensures r.reply.Fail? ==> r.store == s
    ensures r.reply.Ok? ==>
      && r.store.records == s.records + [Record(s.nextId, e.english, e.key, e.tag)]
      && r.store.nextId == s.nextId + 1
      && r.store.tables.Keys == s.tables.Keys
      && (forall l :: l in s.tables && l !in AddTargets(e) ==> r.store.tables[l] == s.tables[l])
      && (forall l :: l in s.tables && l in AddTargets(e) ==>
            r.store.tables[l].rows == s.tables[l].rows[s.nextId := e.translations[l]])
      && r.store.tags == s.tags && r.store.activation == s.activation
      && r.store.logs == s.logs + [LogEntry(OpAdd, 1, AddDescription(e.english), now)]
  {
    AddWith(s, e, now, false)
  }

  /** The english row stored by add carries no translation: only
      non-empty, non-english texts reach the language tables. */
  lemma AddStoresOnlyNonEmptyTranslations(s: Store, e: Entry, now: int, l: string)
    requires Add(s, e, now).reply.Ok? && l in s.tables
    requires l == Catalog.English || l !in e.translations || !Truthy(e.translations[l])
    ensures Add(s, e, now).store.tables[l] == s.tables[l]
  {
  }

  /** Find the record with the given id. */
  function Find(recs: seq<Record>, id: Id): (r: Option<Record>)
    ensures r.Some? ==> r.value in recs && r.value.id == id
    ensures r.None? ==> forall i :: 0 <= i < |recs| ==> recs[i].id != id
  {
    if recs == [] then None
    else if recs[0].id == id then Some(recs[0])
    else Find(recs[1..], id)
  }

  /** The records with the one whose id is `id` replaced by the entry's
      english fields (no change when there is none). */
  function Rewrite(recs: seq<Record>, id: Id, e: Entry): (r: seq<Record>)
    ensures |r| == |recs|
    ensures forall i :: 0 <= i < |recs| ==> r[i].id == recs[i].id
    ensures forall i :: 0 <= i < |recs| && recs[i].id != id ==> r[i] == recs[i]
    ensures forall i :: 0 <= i < |recs| && recs[i].id == id ==> r[i] == Record(id, e.english, e.key, e.tag)
  {
    seq(|recs|, i requires 0 <= i < |recs| =>
      if recs[i].id == id then Record(id, e.english, e.key, e.tag) else recs[i])
  }

  /** PUT /api/translations/<id> with the column requirement as a
      parameter. The english UPDATE of a missing id changes no row, yet the
      translation rows are still written and the update is still logged. */
  function UpdateWith(s: Store, id: Id, e: Entry, now: int, needKeyColumn: bool): Step<()> {
    if e.english == "" then Step(s, Fail(BadRequest, EmptyEnglish))
    else if !Writable(s, UpdateTargets(e), needKeyColumn) then Step(s, Fail(ServerError, StorageError))
    else
      var s1 := s.(records := Rewrite(s.records, id, e),
                   tables := WriteRows(s, id, e, UpdateTargets(e)));
      Step(AddLog(s1, OpUpdate, 1, UpdateDescription(e.english), now), Ok(()))
  }

  /** PUT /api/translations/<id> as written: both the UPDATE and the INSERT
      into a language table name `translation_key`. */
  function UpdateAsWritten(s: Store, id: Id, e: Entry, now: int): Step<()> {
    UpdateWith(s, id, e, now, true)
  }

  /** PUT /api/translations/<id> as evidently intended: every supplied
      non-english entry is written, overwriting an existing row or inserting
      a new one. */
  function Update(s: Store, id: Id, e: Entry, now: int): (r: Step<()>)
    ensures e.english == "" ==> r == Step(s, Fail(BadRequest, EmptyEnglish))
    ensures r.reply.Ok? <==> e.english != "" && forall l :: l in UpdateTargets(e) ==> l in s.tables
    ensures r.reply.Fail? ==> r.store == s
    ensures r.reply.Ok? ==>
      && |r.store.records| == |s.records|
      && (forall i :: 0 <= i < |s.records| && s.records[i].id != id ==> r.store.records[i] == s.records[i])
      && (forall i :: 0 <= i < |s.records| && s.records[i].id == id ==>
            r.store.records[i] == Record(id, e.english, e.key, e.tag))
      && r.store.nextId == s.nextId
      && r.store.tables.Keys == s.tables.Keys
      && (forall l :: l in s.tables && l !in UpdateTargets(e) ==> r.store.tables[l] == s.tables[l])
      && (forall l :: l in s.tables && l in UpdateTargets(e) ==>
            r.store.tables[l].rows == s.tables[l].rows[id := e.translations[l]])
      && r.store.tags == s.tags && r.store.activation == s.activation
      && r.store.logs == s.logs + [LogEntry(OpUpdate, 1, UpdateDescription(e.english), now)]
  {
    UpdateWith(s, id, e, now, false)
  }

  /** An update of the id the next add will take changes no record, yet it
      leaves a translation row for that id behind: the next add's own row
      for the same language then meets an existing one. */
  lemma UpdateUnallocatedIdPreloadsRow(s: Store, e: Entry, now: int, l: string)
    requires Valid(s) && e.english != "" && l in UpdateTargets(e)
    requires forall t :: t in UpdateTargets(e) ==> t in s.tables
    ensures var r := Update(s, s.nextId, e, now);
      && r.reply.Ok?
      && r.store.records == s.records && r.store.nextId == s.nextId
      && s.nextId in r.store.tables[l].rows
  {
    var r := Update(s, s.nextId, e, now);
    assert r.store.records == s.records;
  }

  /** DELETE /api/translations/<id>: a missing id is a 404 without a log
      entry; otherwise the record goes and one entry is logged. Translation
      rows are left in place (SQLite does not enforce the cascade unless
      foreign keys are switched on), and ids are never reused. */
  function Delete(s: Store, id: Id, now: int): (r: Step<()>)
    ensures (forall i :: 0 <= i < |s.records| ==> s.records[i].id != id) <==>
              r == Step(s, Fail(NotFound, TranslationMissing))
    ensures (exists i :: 0 <= i < |s.records| && s.records[i].id == id) ==> r.reply.Ok?
    ensures r.reply.Ok? ==>
      && (exists i :: 0 <= i < |s.records| && s.records[i].id == id
            && r.store.logs == s.logs + [LogEntry(OpDelete, 1, DeleteDescription(s.records[i].english), now)])
      && (forall x :: x in r.store.records <==> x in s.records && x.id != id)
      && Subseq(r.store.records, s.records)
      && r.store.nextId == s.nextId && r.store.tables == s.tables
      && r.store.tags == s.tags && r.store.activation == s.activation
  {
    match Find(s.records, id)
    case None => Step(s, Fail(NotFound, TranslationMissing))
    case Some(rec) =>
      var p := (x: Record) => x.id != id;
      FilterSound(s.records, p);
      var s1 := s.(records := Filter(s.records, p));
      Step(AddLog(s1, OpDelete, 1, DeleteDescription(rec.english), now), Ok(()))
  }

  /** With unique ids, a successful delete removes exactly one record. */
  lemma {:induction false} DeleteRemovesOne(recs: seq<Record>, id: Id)
    requires IdsIncreasing(recs)
    requires exists i :: 0 <= i < |recs| && recs[i].id == id
    ensures |Filter(recs, (x: Record) => x.id != id)| == |recs| - 1
  {
    var p := (x: Record) => x.id != id;
    if recs[0].id == id {
      assert forall i :: 0 <= i < |recs[1..]| ==> p(recs[1..][i]);
      CountIsFilterLength(recs[1..], p);
    } else {
      var i :| 0 <= i < |recs| && recs[i].id == id;
      assert recs[1..][i - 1].id == id;
      DeleteRemovesOne(recs[1..], id);
    }
  }

  lemma AddPreservesValid(s: Store, e: Entry, now: int)
    requires Valid(s)
    ensures Valid(Add(s, e, now).store)
  {
  }

  lemma UpdatePreservesValid(s: Store, id: Id, e: Entry, now: int)
    requires Valid(s)
    ensures Valid(Update(s, id, e, now).store)
  {
  }

  lemma DeletePreservesValid(s: Store, id: Id, now: int)
    requires Valid(s)
    ensures Valid(Delete(s, id, now).store)
  {
    var r := Delete(s, id, now);
    if r.reply.Ok? {
      FilterKeepsIdsIncreasing(s.records, (x: Record) => x.id != id);
      forall i | 0 <= i < |r.store.records| ensures r.store.records[i].id < r.store.nextId {
        assert r.store.records[i] in s.records;
      }
    }
  }

  /** As written, add refuses with a storage error, changing nothing, as
      soon as one translation goes to a table without the key column; it
      agrees with the corrected add whenever every target table has it. */
  lemma AddAsWrittenAgainstAdd(s: Store, e: Entry, now: int)
    ensures e.english != "" && (exists l :: l in AddTargets(e) && l in s.tables && !s.tables[l].hasKeyColumn) ==>
              AddAsWritten(s, e, now) == Step(s, Fail(ServerError, StorageError))
    ensures Writable(s, AddTargets(e), true) ==> AddAsWritten(s, e, now) == Add(s, e, now)
  {
  }

  /** The same for update, whose targets include empty texts. */
  lemma UpdateAsWrittenAgainstUpdate(s: Store, id: Id, e: Entry, now: int)
    ensures e.english != "" && (exists l :: l in UpdateTargets(e) && l in s.tables && !s.tables[l].hasKeyColumn) ==>
              UpdateAsWritten(s, id, e, now) == Step(s, Fail(ServerError, StorageError))
    ensures Writable(s, UpdateTargets(e), true) ==> UpdateAsWritten(s, id, e, now) == Update(s, id, e, now)
  {
  }

  /** On a freshly initialised database, adding a record with a chinese
      translation fails as written and succeeds as intended. */
  lemma FreshChineseAdd()
    ensures var e := Entry("hello", None, None, map["chinese" := Some("你好")]);
      && AddAsWritten(Fresh(), e, 0) == Step(Fresh(), Fail(ServerError, StorageError))
      && Add(Fresh(), e, 0).reply.Ok?
  {
    var e := Entry("hello", None, None, map["chinese" := Some("你好")]);
    assert "chinese" in Catalog.Languages;
    assert AddTargets(e) == {"chinese"};
    assert !Fresh().tables["chinese"].hasKeyColumn;
    AddAsWrittenAgainstAdd(Fresh(), e, 0);
  }
}
