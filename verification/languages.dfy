/** The language routes of backend/routes/languages.py. */
module Languages {
  import opened Base
  import opened Store
  import Catalog
  import Seqs
  import Text

  /** The two full display-name tables, one per UI locale, each keyed by
      language code. */
  datatype NameTables = NameTables(zh: map<string, string>, en: map<string, string>)

  /** The body of GET /api/languages. `names` maps every catalog language
      to the same pair of full tables, not to that language's own names. */
  datatype LanguageList = LanguageList(languages: seq<string>, names: map<string, NameTables>)

  /** GET /api/languages: the active languages in catalog order, and under
      every catalog language, active or not, both whole name tables. */
  function GetLanguages(s: Store): (r: LanguageList)
    ensures r.languages == ActiveLanguages(s)
    ensures Seqs.Subseq(r.languages, Catalog.Languages)
    ensures forall l :: l in r.languages <==> l in Catalog.Languages && IsActive(s, l)
    ensures r.names.Keys == set l | l in Catalog.Languages
    ensures forall l :: l in r.names ==> r.names[l] == DisplayTables()
    ensures IsActive(s, Catalog.English) ==> r.languages != [] && r.languages[0] == Catalog.English
  {
    assert IsActive(s, Catalog.English) ==>
             ActiveLanguages(s) != [] && ActiveLanguages(s)[0] == Catalog.English by {
      if IsActive(s, Catalog.English) {
        EnglishHeadsActiveLanguages(s);
      }
    }
    LanguageList(ActiveLanguages(s), DisplayNames())
  }

  /** The pair of tables the route repeats under every language: the
      chinese and the english name of every catalog language. */
  function DisplayTables(): (t: NameTables)
    ensures t.zh.Keys == Catalog.NameTable.Keys && t.en.Keys == Catalog.NameTable.Keys
    ensures forall code :: code in Catalog.NameTable ==>
              t.zh[code] == Catalog.NameTable[code].zh && t.en[code] == Catalog.NameTable[code].en
  {
    NameTables(map code | code in Catalog.NameTable :: Catalog.NameTable[code].zh,
               map code | code in Catalog.NameTable :: Catalog.NameTable[code].en)
  }

  /** The `language_names` field: the full tables under every catalog
      language. */
  function DisplayNames(): (m: map<string, NameTables>)
    ensures m.Keys == set l | l in Catalog.Languages
    ensures forall l :: l in m ==> m[l] == DisplayTables()
  {
    map l | l in Catalog.Languages :: DisplayTables()
  }

  /** Whichever language one looks under, the listing names every catalog
      language, in both locales, as the catalog does. */
  lemma ListedNamesAgreeWithCatalog(s: Store, l: string, code: string)
    requires l in Catalog.Languages && code in Catalog.Languages
    ensures var names := GetLanguages(s).names;
      && l in names && code in names[l].zh && code in names[l].en
      && names[l].zh[code] == Catalog.NameTable[code].zh
      && names[l].en[code] == Catalog.NameTable[code].en
  {
    Catalog.CatalogShape();
  }

  /** POST /api/languages/remove: the table is dropped and the language
      marked inactive. An empty language and english are refused. */
  function Remove(s: Store, lang: string): (r: Step<()>)
    ensures lang == "" ==> r == Step(s, Fail(BadRequest, EmptyLanguage))
    ensures lang == Catalog.English ==> r == Step(s, Fail(BadRequest, EnglishProtected))
    ensures lang != "" && lang != Catalog.English ==>
      && r.reply.Ok?
      && r.store.tables == s.tables - {lang}
      && (lang in s.activation ==> !IsActive(r.store, lang))
      && (forall l :: l != lang ==> IsActive(r.store, l) == IsActive(s, l))
      && r.store.records == s.records && r.store.tags == s.tags && r.store.logs == s.logs
      && r.store.nextId == s.nextId && r.store.activation.Keys == s.activation.Keys
  {
    if lang == "" then Step(s, Fail(BadRequest, EmptyLanguage))
    else if lang == Catalog.English then Step(s, Fail(BadRequest, EnglishProtected))
    else Step(SetActivation(s.(tables := s.tables - {lang}), lang, false), Ok(()))
  }

  /** The SQL a toggle runs: a CREATE TABLE IF NOT EXISTS (`create`) or a
      DROP TABLE IF EXISTS of `table`, then the activation UPDATE of row
      `flag` to `on`. */
  datatype ToggleStatements = ToggleStatements(table: string, create: bool, flag: string, on: bool)

  /** POST /api/languages/toggle as written: the english guard compares the
      exact string, while SQLite resolves the table name without regard to
      ASCII case; the flag UPDATE matches the exact string. */
  function ToggleAsWritten(lang: string, active: Option<bool>): (r: Reply<ToggleStatements>)
    ensures r.Fail? <==> lang == "" || lang == Catalog.English
    ensures r.Ok? ==>
      && Text.Lower(r.body.table) == Text.Lower(lang) && r.body.flag == lang
      && r.body.create == r.body.on == active.GetOr(true)
  {
    if lang == "" then Fail(BadRequest, EmptyLanguage)
    else if lang == Catalog.English then Fail(BadRequest, EnglishProtected)
    else
      var on := active.GetOr(true);
      Ok(ToggleStatements(Text.Lower(lang), on, lang, on))
  }

  /** POST /api/languages/toggle as evidently intended: the language is
      named once, case folded, and the guard, the table and the flag all
      use that name. */
  function ToggleIntended(lang: string, active: Option<bool>): (r: Reply<ToggleStatements>)
    ensures lang == "" ==> r == Fail(BadRequest, EmptyLanguage)
    ensures lang != "" && Text.Lower(lang) == Catalog.English ==> r == Fail(BadRequest, EnglishProtected)
    ensures r.Ok? <==> lang != "" && Text.Lower(lang) != Catalog.English
    ensures r.Ok? ==>
      && r.body.table == r.body.flag == Text.Lower(lang)
      && r.body.table != Catalog.English
      && r.body.create == r.body.on == active.GetOr(true)
  {
    var name := Text.Lower(lang);
    if lang == "" then Fail(BadRequest, EmptyLanguage)
    else if name == Catalog.English then Fail(BadRequest, EnglishProtected)
    else
      var on := active.GetOr(true);
      Ok(ToggleStatements(name, on, name, on))
  }

  /** Runs the statements of a toggle on a translation table: creating
      adds an empty table with a `translation_key` column when none exists,
      dropping removes it, and the flag is updated. The `english` table is
      not among `tables`: it holds the records. */
  function Apply(s: Store, st: ToggleStatements): (r: Store)
    requires st.table != Catalog.English
    ensures st.create ==> st.table in r.tables
    ensures st.create && st.table in s.tables ==> r.tables == s.tables
    ensures !st.create ==> r.tables == s.tables - {st.table}
    ensures st.flag in s.activation ==> IsActive(r, st.flag) == st.on
    ensures forall l :: l != st.flag ==> IsActive(r, l) == IsActive(s, l)
    ensures r.records == s.records && r.nextId == s.nextId && r.tags == s.tags && r.logs == s.logs
    ensures r.activation.Keys == s.activation.Keys
  {
    var tables := if !st.create then s.tables - {st.table}
                  else if st.table in s.tables then s.tables
                  else s.tables[st.table := LangTable(true, map[])];
    SetActivation(s.(tables := tables), st.flag, st.on)
  }

  /** POST /api/languages/toggle, corrected: activating creates the table
      if it is missing (with a `translation_key` column), deactivating
      drops it; the flag becomes `active`, true when the field is omitted.
      An empty language and any spelling of english are refused. */
  function Toggle(s: Store, lang: string, active: Option<bool>): (r: Step<()>)
    ensures lang == "" ==> r == Step(s, Fail(BadRequest, EmptyLanguage))
    ensures lang != "" && Text.Lower(lang) == Catalog.English ==> r == Step(s, Fail(BadRequest, EnglishProtected))
    ensures r.store.records == s.records
    ensures lang != "" && Text.Lower(lang) != Catalog.English ==>
      var name := Text.Lower(lang);
      && r.reply.Ok?
      && (name in s.activation ==> IsActive(r.store, name) == active.GetOr(true))
      && (forall l :: l != name ==> IsActive(r.store, l) == IsActive(s, l))
      && (active.GetOr(true) ==> name in r.store.tables)
      && (active.GetOr(true) && name in s.tables ==> r.store.tables == s.tables)
      && (!active.GetOr(true) ==> r.store.tables == s.tables - {name})
      && r.store.tags == s.tags && r.store.logs == s.logs
      && r.store.nextId == s.nextId && r.store.activation.Keys == s.activation.Keys
  {
    match ToggleIntended(lang, active)
    case Fail(status, reason) => Step(s, Fail(status, reason))
    case Ok(st) => Step(Apply(s, st), Ok(()))
  }

  /** As written, "English" passes the guard and its DROP names the
      `english` table, which holds every record; the flag UPDATE names a
      row that is not english's. The corrected route refuses it. */
  lemma ToggleAsWrittenDropsRecords()
    ensures ToggleAsWritten("English", Some(false)) ==
              Ok(ToggleStatements(Catalog.English, false, "English", false))
    ensures ToggleIntended("English", Some(false)) == Fail(BadRequest, EnglishProtected)
  {
    CaseVariantsFold();
  }

  /** As written, switching "Chinese" off drops the `chinese` table but
      updates no flag, so a database where chinese is active (a fresh one,
      by `FreshHasNoCaseVariantRow`) loses the invariant. The corrected
      route keeps it (`TogglePreservesValid`). */
  lemma ToggleAsWrittenBreaksValid(s: Store)
    requires Valid(s) && IsActive(s, "chinese") && "Chinese" !in s.activation
    ensures var st := ToggleAsWritten("Chinese", Some(false));
      && st.Ok? && st.body.table == "chinese"
      && !Valid(Apply(s, st.body))
  {
    ChineseAsWritten();
    DropOnlyBreaksValid(s, ToggleStatements("chinese", false, "Chinese", false));
  }

  lemma ChineseAsWritten()
    ensures ToggleAsWritten("Chinese", Some(false)) == Ok(ToggleStatements("chinese", false, "Chinese", false))
  {
    CaseVariantsFold();
  }

  lemma DropOnlyBreaksValid(s: Store, st: ToggleStatements)
    requires IsActive(s, "chinese") && "chinese" in Catalog.Languages
    requires st.table == "chinese" && !st.create && st.flag == "Chinese"
    ensures !Valid(Apply(s, st))
  {
    assert "chinese"[0] != "Chinese"[0] && "chinese"[0] != Catalog.English[0];
    TablelessActiveInvalid(Apply(s, st), "chinese");
  }

  lemma TablelessActiveInvalid(s: Store, l: string)
    requires l in Catalog.Languages && l != Catalog.English && IsActive(s, l) && l !in s.tables
    ensures !Valid(s)
  {
  }

  /** Catalog codes are already lower case, so the corrected toggle acts
      on a catalog language under its own name. */
  lemma CatalogCodeFolded(l: string)
    requires l in Catalog.Languages
    ensures Text.Lower(l) == l
  {
    var k :| 0 <= k < |Catalog.Languages| && Catalog.Languages[k] == l;
    if k < 10 {
      HeadCodesWithoutCapitals(k);
    } else if k < 20 {
      MiddleCodesWithoutCapitals(k);
    } else {
      TailCodesWithoutCapitals(k);
    }
    Text.LowerOfLowercase(l);
  }

  lemma HeadCodesWithoutCapitals(k: int)
    requires 0 <= k < 10
    ensures Text.NoCapitals(Catalog.Languages[k])
  {
  }

  lemma MiddleCodesWithoutCapitals(k: int)
    requires 10 <= k < 20
    ensures Text.NoCapitals(Catalog.Languages[k])
  {
  }

  lemma TailCodesWithoutCapitals(k: int)
    requires 20 <= k < |Catalog.Languages|
    ensures Text.NoCapitals(Catalog.Languages[k])
  {
  }

  /** SQLite reads "English" and "Chinese" as `english` and `chinese`. */
  lemma CaseVariantsFold()
    ensures Text.Lower("English") == Catalog.English && Text.Lower("Chinese") == "chinese"
  {
    var e := Text.Lower("English");
    assert forall i :: 0 <= i < 7 ==> e[i] == Catalog.English[i];
    var c := Text.Lower("Chinese");
    assert forall i :: 0 <= i < 7 ==> c[i] == "chinese"[i];
  }

  /** A fresh database is valid, chinese is active in it, and it has no
      activation row spelled "Chinese". */
  lemma FreshHasNoCaseVariantRow()
    ensures Valid(Fresh()) && IsActive(Fresh(), "chinese") && "Chinese" !in Fresh().activation
  {
    FreshIsValid();
    InitAddsNoCaseVariantRow(Empty);
  }

  lemma InitAddsNoCaseVariantRow(s: Store)
    requires "Chinese" !in s.activation
    ensures "Chinese" !in InitStore(s).activation
  {
    assert "Chinese" !in Catalog.Languages;
  }

  /** No request to either route deactivates english or touches the
      records: the corrected toggle never names the `english` table. */
  lemma EnglishStaysActive(s: Store, lang: string, active: Option<bool>)
    requires IsActive(s, Catalog.English)
    ensures IsActive(Remove(s, lang).store, Catalog.English)
    ensures IsActive(Toggle(s, lang, active).store, Catalog.English)
    ensures Remove(s, lang).store.records == s.records && Toggle(s, lang, active).store.records == s.records
    ensures ToggleIntended(lang, active).Ok? ==> ToggleIntended(lang, active).body.table != Catalog.English
  {
  }

  /** Switching a language off and on again drops its translations: the
      table comes back empty. */
  lemma ToggleOffOnLosesTranslations(s: Store, lang: string)
    requires lang != "" && Text.Lower(lang) != Catalog.English
    ensures var back := Toggle(Toggle(s, lang, Some(false)).store, lang, Some(true)).store;
      var name := Text.Lower(lang);
      name in back.tables && back.tables[name] == LangTable(true, map[])
  {
  }

  lemma RemovePreservesValid(s: Store, lang: string)
    requires Valid(s)
    ensures Valid(Remove(s, lang).store)
  {
  }

  lemma TogglePreservesValid(s: Store, lang: string, active: Option<bool>)
    requires Valid(s)
    ensures Valid(Toggle(s, lang, active).store)
  {
    match ToggleIntended(lang, active)
    case Fail(_, _) =>
    case Ok(st) => ApplyPreservesValid(s, st);
  }

  /** Statements that name the same language for the table and the flag,
      creating exactly when activating, keep the invariant. */
  lemma ApplyPreservesValid(s: Store, st: ToggleStatements)
    requires Valid(s) && st.table == st.flag && st.table != Catalog.English && st.create == st.on
    ensures Valid(Apply(s, st))
  {
  }
}
