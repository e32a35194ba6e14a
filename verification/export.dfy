/** The export routes of backend/routes/export.py: one language's
    `key -> translation` map with its statistics, and the bulk export of
    every active language. */
module Export {
  import opened Base
  import opened Text
  import opened Seqs
  import opened Store
  import Catalog
  import Translations

  /** One scanned row: the record's key and its translation. */
  datatype Row = Row(key: Option<string>, translation: Option<string>)

  datatype Stats = Stats(total: nat, exported: nat, withKey: nat)

  /** The body of GET /api/export/<language>. */
  datatype Export = Export(data: map<string, string>, stats: Stats)

  /** The body of GET /api/export. */
  datatype Bulk = Bulk(data: map<string, map<string, string>>, languages: seq<string>)

  /** `x and x.strip()`: present and not blank in Python's sense. */
  predicate Present(o: Option<string>) {
    o.Some? && !PyBlank(o.value)
  }

  /** A row is exported iff both its translation and its key are present. */
  predicate Exportable(r: Row) {
    Present(r.translation) && Present(r.key)
  }

  /** The scan loop: rows in ascending id order, each exportable row
      writing `data[key] = translation`, so a later row with the same key
      overwrites an earlier one (see `ScanKeys` and `ScanLastWins`). */
  function Scan(rows: seq<Row>): (e: Export)
    ensures e.stats.total == |rows|
    ensures e.stats.exported == |Filter(rows, Exportable)|
    ensures e.stats.withKey == e.stats.exported <= e.stats.total
    ensures |e.data| <= e.stats.exported
    decreases |rows|
  {
    if rows == [] then Export(map[], Stats(0, 0, 0))
    else
      var init := rows[..|rows| - 1];
      var last := rows[|rows| - 1];
      var prev := Scan(init);
      assert rows == init + [last];
      FilterAppend(init, [last], Exportable);
      if Exportable(last) then
        var data := prev.data[last.key.value := last.translation.value];
        assert data.Keys == prev.data.Keys + {last.key.value};
        Export(data, Stats(prev.stats.total + 1, prev.stats.exported + 1, prev.stats.withKey + 1))
      else
        Export(prev.data, Stats(prev.stats.total + 1, prev.stats.exported, prev.stats.withKey))
  }

  /** `Scan` on `rows + [last]` is `Scan` on `rows` followed by one step. */
  lemma ScanSnoc(rows: seq<Row>, last: Row)
    ensures Exportable(last) ==>
              Scan(rows + [last]).data == Scan(rows).data[last.key.value := last.translation.value]
    ensures !Exportable(last) ==> Scan(rows + [last]).data == Scan(rows).data
  {
    assert (rows + [last])[..|rows|] == rows;
  }

  /** A key is exported iff some exportable row carries it. */
  lemma {:induction false} ScanKeys(rows: seq<Row>)
    ensures forall k :: k in Scan(rows).data <==>
              exists i :: 0 <= i < |rows| && Exportable(rows[i]) && rows[i].key.value == k
    decreases |rows|
  {
    if rows != [] {
      var init := rows[..|rows| - 1];
      var last := rows[|rows| - 1];
      assert rows == init + [last];
      ScanKeys(init);
      ScanSnoc(init, last);
      forall k ensures k in Scan(rows).data <==>
          exists i :: 0 <= i < |rows| && Exportable(rows[i]) && rows[i].key.value == k
      {
        if k in Scan(rows).data && !(Exportable(last) && last.key.value == k) {
          var i :| 0 <= i < |init| && Exportable(init[i]) && init[i].key.value == k;
          assert rows[i] == init[i];
        }
        if exists i :: 0 <= i < |rows| && Exportable(rows[i]) && rows[i].key.value == k {
          var i :| 0 <= i < |rows| && Exportable(rows[i]) && rows[i].key.value == k;
          if i < |init| {
            assert init[i] == rows[i];
          }
        }
      }
    }
  }

  /** Last wins: the exported translation of a key is that of the last
      exportable row carrying it. */
  lemma {:induction false} ScanLastWins(rows: seq<Row>, i: int)
    requires 0 <= i < |rows| && Exportable(rows[i]) && LastWithKey(rows, i)
    ensures rows[i].key.value in Scan(rows).data
    ensures Scan(rows).data[rows[i].key.value] == rows[i].translation.value
    decreases |rows|
  {
    var init := rows[..|rows| - 1];
    var last := rows[|rows| - 1];
    assert rows == init + [last];
    ScanSnoc(init, last);
    if i < |init| {
      assert LastWithKey(init, i);
      ScanLastWins(init, i);
    }
  }

  /** No exportable row after row `i` has the same key. */
  predicate LastWithKey(rows: seq<Row>, i: int)
    requires 0 <= i < |rows|
  {
    forall j :: i < j < |rows| && Exportable(rows[j]) ==> rows[j].key != rows[i].key
  }

  /** The rows the single-language query yields, in ascending id order. */
  function ExportRows(s: Store, lang: string): (rows: seq<Row>)
    ensures |rows| == |s.records|
    ensures forall i :: 0 <= i < |rows| ==> rows[i].key == s.records[i].key
    ensures lang == Catalog.English ==>
              forall i :: 0 <= i < |rows| ==> rows[i].translation == Some(s.records[i].english)
    ensures lang != Catalog.English ==> forall i :: 0 <= i < |rows| ==>
              (lang !in s.tables || s.records[i].id !in s.tables[lang].rows) ==> !Exportable(rows[i])
    ensures lang != Catalog.English ==> forall i :: 0 <= i < |rows| ==>
              rows[i].translation ==
                (if lang in s.tables && s.records[i].id in s.tables[lang].rows
                 then s.tables[lang].rows[s.records[i].id] else None)
  {
    seq(|s.records|, i requires 0 <= i < |s.records| =>
      Row(s.records[i].key, Translations.Cell(s, lang, s.records[i])))
  }

  /** GET /api/export/<language>: a language outside the catalog and an
      inactive language are refused before any row is read. */
  function ExportLanguage(s: Store, lang: string): (r: Reply<Export>)
    ensures !Catalog.InCatalog(lang) ==> r == Fail(BadRequest, UnsupportedLanguage)
    ensures Catalog.InCatalog(lang) && !IsActive(s, lang) ==> r == Fail(BadRequest, LanguageInactive)
    ensures Valid(s) && Catalog.InCatalog(lang) && IsActive(s, lang) ==> r.Ok?
    ensures r.Ok? ==> r.body == Scan(ExportRows(s, lang))
  {
    if !Catalog.InCatalog(lang) then Fail(BadRequest, UnsupportedLanguage)
    else if !IsActive(s, lang) then Fail(BadRequest, LanguageInactive)
    else if lang != Catalog.English && lang !in s.tables then Fail(ServerError, StorageError)
    else Ok(Scan(ExportRows(s, lang)))
  }

  predicate HasKey(r: Row) {
    Present(r.key)
  }

  /** Dropping the rows without a key before the scan changes nothing:
      such rows are never exported. */
  lemma {:induction false} ScanSkipsKeyless(rows: seq<Row>)
    ensures Scan(Filter(rows, HasKey)).data == Scan(rows).data
    decreases |rows|
  {
    if rows != [] {
      var init := rows[..|rows| - 1];
      var last := rows[|rows| - 1];
      assert rows == init + [last];
      FilterAppend(init, [last], HasKey);
      ScanSkipsKeyless(init);
      var kept := Filter(init, HasKey);
      ScanSnoc(init, last);
      if HasKey(last) {
        assert Filter(rows, HasKey) == kept + [last];
        ScanSnoc(kept, last);
      } else {
        assert Filter(rows, HasKey) == kept;
      }
    }
  }

  /** GET /api/export: records whose key is blank are skipped for every
      language; each active language gets a (possibly empty) map. */
  function ExportAll(s: Store): (r: Reply<Bulk>)
    ensures Valid(s) ==> r.Ok?
    ensures r.Ok? ==>
      && r.body.languages == ActiveLanguages(s)
      && (forall l :: l in r.body.data <==> l in Catalog.Languages && IsActive(s, l))
      && (forall l :: l in r.body.data ==> r.body.data[l] == Scan(Filter(ExportRows(s, l), HasKey)).data)
  {
    var langs := ActiveLanguages(s);
    var keyed := exists i :: 0 <= i < |s.records| && Present(s.records[i].key);
    if keyed && !Translations.TablesReady(s) then Fail(ServerError, StorageError)
    else Ok(Bulk(map l | l in langs :: Scan(Filter(ExportRows(s, l), HasKey)).data, langs))
  }

  /** For every active language the bulk export holds exactly what the
      single-language export of that language returns. */
  lemma BulkMatchesSingle(s: Store, lang: string)
    requires Valid(s) && Catalog.InCatalog(lang) && IsActive(s, lang)
    ensures ExportAll(s).Ok? && ExportLanguage(s, lang).Ok?
    ensures lang in ExportAll(s).body.data
    ensures ExportAll(s).body.data[lang] == ExportLanguage(s, lang).body.data
  {
    ScanSkipsKeyless(ExportRows(s, lang));
  }
}
