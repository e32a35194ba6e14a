/** The view helpers of the translation panel
    (src/components/Dashboard/TranslationContent/TranslationContent.js):
    the expanded-card set, the key filter and the key statistics shown
    above the list, the labels of the log panel, the language chips and
    the inline add-tag input. */
module View {
  import opened Base
  import opened Text
  import opened Seqs
  import Store
  import Catalog
  import Translations
  import Languages
  import Tags
  import Dashboard

  /** `toggleCardExpanded`: a copy of the set with exactly `id` flipped. */
  function ToggleCardExpanded(expanded: set<int>, id: int): (r: set<int>)
    ensures id in r <==> id !in expanded
    ensures forall x :: x != id ==> (x in r <==> x in expanded)
  {
    if id in expanded then expanded - {id} else expanded + {id}
  }

  /** Expanding and collapsing the same card restores the set. */
  lemma ToggleCardTwice(expanded: set<int>, id: int)
    ensures ToggleCardExpanded(ToggleCardExpanded(expanded, id), id) == expanded
  {
  }

  /** `t.key && t.key.trim() !== ''`. */
  predicate HasKey(t: Translations.Item) {
    t.key.Some? && !JsBlank(t.key.value)
  }

  predicate LacksKey(t: Translations.Item) {
    !HasKey(t)
  }

  /** The list the panel shows: with no filter (null or empty) every loaded
      record; with 'withKey' those with a key; with any other filter those
      without one. */
  function Filtered(items: seq<Translations.Item>, keyFilter: Option<string>): (r: seq<Translations.Item>)
    ensures keyFilter.None? || keyFilter == Some("") ==> r == items
    ensures Subseq(r, items)
    ensures keyFilter == Some("withKey") ==>
              (forall i :: 0 <= i < |r| ==> HasKey(r[i])) &&
              (forall i :: 0 <= i < |items| && HasKey(items[i]) ==> items[i] in r)
    ensures keyFilter.Some? && keyFilter.value != "" && keyFilter.value != "withKey" ==>
              (forall i :: 0 <= i < |r| ==> !HasKey(r[i])) &&
              (forall i :: 0 <= i < |items| && !HasKey(items[i]) ==> items[i] in r)
  {
    match keyFilter
    case None => SubseqRefl(items); items
    case Some(f) =>
      if f == "" then SubseqRefl(items); items
      else if f == "withKey" then Filter(items, HasKey)
      else Filter(items, LacksKey)
  }

  lemma {:induction false} SubseqRefl<T>(s: seq<T>)
    ensures Subseq(s, s)
    decreases |s|
  {
    if s != [] {
      SubseqRefl(s[1..]);
    }
  }

  /** `entriesWithKey`: the loaded records with a key. */
  function EntriesWithKey(items: seq<Translations.Item>): (n: nat)
    ensures n <= |items|
    ensures n == |Filtered(items, Some("withKey"))|
  {
    |Filter(items, HasKey)|
  }

  /** `totalCount || translations.length`. */
  function TotalEntries(totalCount: int, items: seq<Translations.Item>): (n: int)
    ensures totalCount != 0 ==> n == totalCount
    ensures totalCount == 0 ==> n == |items|
  {
    if totalCount != 0 then totalCount else |items|
  }

  /** `entriesWithoutKey`: the total less the loaded records with a key. */
  function EntriesWithoutKey(totalCount: int, items: seq<Translations.Item>): (n: int)
    ensures n + EntriesWithKey(items) == TotalEntries(totalCount, items)
  {
    TotalEntries(totalCount, items) - EntriesWithKey(items)
  }

  /** The two key filters split the loaded list: every record is shown by
      exactly one of them, so the two counts add up to the list length. */
  lemma {:induction false} KeyFiltersPartition(items: seq<Translations.Item>)
    ensures |Filtered(items, Some("withKey"))| + |Filtered(items, Some("withoutKey"))| == |items|
    ensures forall i :: 0 <= i < |items| ==>
              (items[i] in Filtered(items, Some("withKey")) <==> HasKey(items[i]))
    ensures forall i :: 0 <= i < |items| ==>
              (items[i] in Filtered(items, Some("withoutKey")) <==> !HasKey(items[i]))
  {
    FilterPartition(items, HasKey, LacksKey);
  }

  /** When everything is loaded (the total equals the list length, or is
      zero) the keyless count is the length of the 'withoutKey' list. */
  lemma WithoutKeyExactWhenLoaded(totalCount: int, items: seq<Translations.Item>)
    requires totalCount == 0 || totalCount == |items|
    ensures EntriesWithoutKey(totalCount, items) == |Filtered(items, Some("withoutKey"))|
  {
    KeyFiltersPartition(items);
  }

  /** With pages still to load, every record not loaded yet is counted as
      keyless, so the statistic exceeds what the 'withoutKey' filter shows. */
  lemma WithoutKeyCountsUnloaded(totalCount: int, items: seq<Translations.Item>)
    requires totalCount > |items|
    ensures EntriesWithoutKey(totalCount, items) ==
              |Filtered(items, Some("withoutKey"))| + (totalCount - |items|)
    ensures EntriesWithoutKey(totalCount, items) > |Filtered(items, Some("withoutKey"))|
  {
    KeyFiltersPartition(items);
  }

  /** For a dashboard synced with a database whose listing is exhausted
      the statistic is exact. */
  lemma SyncedExhaustedStatsExact(c: Dashboard.Client, s: Store.Store)
    requires Dashboard.Synced(c, s) && !c.hasMore
    ensures EntriesWithoutKey(c.totalCount, c.translations) ==
              |Filtered(c.translations, Some("withoutKey"))|
  {
    Dashboard.ExhaustedHoldsAll(c, s);
    WithoutKeyExactWhenLoaded(c.totalCount, c.translations);
  }

  /** The message key of each operation type the backend logs. */
  function LogMessageKey(op: string): (k: Option<string>)
    ensures k.Some? <==> op in {Store.OpAdd, Store.OpUpdate, Store.OpDelete, Store.OpAddTag, Store.OpDeleteTag}
  {
    if op == Store.OpAdd then Some("logAdd")
    else if op == Store.OpUpdate then Some("logUpdate")
    else if op == Store.OpDelete then Some("logDelete")
    else if op == Store.OpAddTag then Some("logAddTag")
    else if op == Store.OpDeleteTag then Some("logDeleteTag")
    else None
  }

  /** `translateLogOperation`, with `message` standing for `getMessage` in
      the current locale: a known type shows its message unless that is
      empty (`||` falls back), any other type is shown as it is. */
  function TranslateLogOperation(op: string, message: string -> string): (r: string)
    ensures LogMessageKey(op).None? ==> r == op
    ensures LogMessageKey(op).Some? && message(LogMessageKey(op).value) != "" ==>
              r == message(LogMessageKey(op).value)
    ensures r == "" ==> op == ""
  {
    match LogMessageKey(op)
    case None => op
    case Some(k) => if message(k) != "" then message(k) else op
  }

  /** The message keys of the log panel. */
  const LogKeys: set<string> := {"logAdd", "logUpdate", "logDelete", "logAddTag", "logDeleteTag"}

  /** The five operation types have five different message keys, so when
      the locale gives the five keys five different non-empty messages, no
      two log rows of different kinds read the same. */
  lemma LogLabelsDistinct(a: string, b: string, message: string -> string)
    requires LogMessageKey(a).Some? && LogMessageKey(b).Some? && a != b
    requires forall k :: k in LogKeys ==> message(k) != ""
    requires forall k, k' :: k in LogKeys && k' in LogKeys && message(k) == message(k') ==> k == k'
    ensures LogMessageKey(a) != LogMessageKey(b)
    ensures TranslateLogOperation(a, message) != TranslateLogOperation(b, message)
  {
    var ka, kb := LogMessageKey(a).value, LogMessageKey(b).value;
    assert ka in LogKeys && kb in LogKeys;
  }

  /** The chip click handler: the request it sends, if any, as the
      language and the activation wanted. The english chip sends none. */
  function ChipClick(lang: string, isActive: bool): (r: Option<(string, bool)>)
    ensures lang == Catalog.English <==> r.None?
    ensures r.Some? ==> r.value == (lang, !isActive)
  {
    if lang != Catalog.English then Some((lang, !isActive)) else None
  }

  /** A chip of a valid database flips its language and nothing else, and
      english stays active whatever chip is clicked. */
  lemma ChipClickFlips(s: Store.Store, lang: string)
    requires Store.Valid(s) && Catalog.InCatalog(lang)
    ensures var req := ChipClick(lang, Store.IsActive(s, lang));
      req.Some? ==>
        var st := Languages.Toggle(s, req.value.0, Some(req.value.1));
        && st.reply.Ok?
        && Store.IsActive(st.store, lang) == !Store.IsActive(s, lang)
        && (forall l :: l != lang ==> Store.IsActive(st.store, l) == Store.IsActive(s, l))
        && Store.IsActive(st.store, Catalog.English)
  {
    assert lang in Catalog.Languages;
    Catalog.CatalogShape();
    Languages.CatalogCodeFolded(lang);
  }

  /** The inline add-tag input on Enter: the trimmed value, or nothing for
      a blank one. */
  function AddTagInput(value: string): (r: Option<string>)
    ensures r.None? <==> JsBlank(value)
    ensures r.Some? ==> r.value != "" && !JsWhitespace(r.value[0]) && !JsWhitespace(r.value[|r.value| - 1])
    ensures r.Some? ==> Contains(value, r.value)
  {
    var name := JsTrim(value);
    if name != "" then Some(name) else None
  }

  /** The server never answers the inline input with an empty-name error. */
  lemma AddTagInputNeverEmpty(s: Store.Store, value: string, now: int)
    requires AddTagInput(value).Some?
    ensures Tags.CreateTag(s, AddTagInput(value).value, now).reply != Fail(BadRequest, EmptyTagName)
  {
  }
}
