/** The list-sync state of the dashboard (src/components/Dashboard/Dashboard.js):
    the loaded page list and its pagination, the filters, and the handlers
    that change them. Every server reply is a parameter; the lemmas at the
    end feed the handlers the replies the backend model gives. */
module Dashboard {
  import opened Base
  import opened Text
  import Store
  import Catalog
  import Translations
  import Tags
  import Languages

  /** The fixed page size (`pageSize`). */
  const PageSize: int := 10

  /** The tag selection that means "no tag filter". */
  const AllTags: string := "all"

  /** The dashboard state that the list handlers read and write. */
  datatype Client = Client(
    translations: seq<Translations.Item>,
    loading: bool,
    loadingMore: bool,
    currentPage: int,
    totalCount: int,
    hasMore: bool,
    currentTag: string,
    selectedLanguage: Option<string>,
    activeTab: string,
    searchQuery: string,
    currentDatabase: string,
    tags: seq<string>)

  /** The state on mount. */
  const Initial: Client := Client([], true, false, 1, 0, false, AllTags, None, "all", "", "", [])

  /** The `tag` parameter of a listing or search request: sent only for a
      selected tag other than 'all'. */
  function TagParam(c: Client): (t: Option<string>)
    ensures t.Some? <==> c.currentTag != "" && c.currentTag != AllTags
  {
    if c.currentTag != "" && c.currentTag != AllTags then Some(c.currentTag) else None
  }

  /** Leaving out 'all' asks for what sending it would: the server reads an
      absent tag and 'all' alike. */
  lemma TagParamAgreesWithServer(c: Client)
    ensures Translations.TagFilter(TagParam(c)) == Translations.TagFilter(Some(c.currentTag))
  {
  }

  /** `fetchTranslations` before the request: the flag of the kind of
      fetch is raised. */
  function BeginFetch(c: Client, append: bool): (r: Client)
    ensures append ==> r == c.(loadingMore := true)
    ensures !append ==> r == c.(loading := true)
  {
    if append then c.(loadingMore := true) else c.(loading := true)
  }

  /** `fetchTranslations` after the reply: an appended page goes after the
      loaded list, any other page replaces it, and the pagination is taken
      verbatim from the server. On failure the list and pagination stay.
      Both loading flags are down afterwards, whatever happened. */
  function FinishFetch(c: Client, append: bool, reply: Reply<Translations.Listing>): (r: Client)
    ensures !r.loading && !r.loadingMore
    ensures reply.Fail? ==> r == c.(loading := false, loadingMore := false)
    ensures reply.Ok? && append ==>
      && |r.translations| == |c.translations| + |reply.body.items|
      && r.translations[..|c.translations|] == c.translations
      && r.translations[|c.translations|..] == reply.body.items
    ensures reply.Ok? && !append ==> r.translations == reply.body.items
    ensures reply.Ok? ==>
      && r.currentPage == reply.body.page && r.totalCount == reply.body.total
      && r.hasMore == reply.body.hasMore
    ensures r.currentTag == c.currentTag && r.selectedLanguage == c.selectedLanguage
    ensures r.searchQuery == c.searchQuery && r.currentDatabase == c.currentDatabase && r.tags == c.tags
  {
    match reply
    case Fail(_, _) => c.(loading := false, loadingMore := false)
    case Ok(page) =>
      var list := if append then c.translations + page.items else page.items;
      c.(translations := list, currentPage := page.page, totalCount := page.total,
         hasMore := page.hasMore, loading := false, loadingMore := false)
  }

  /** One whole `fetchTranslations(page, append)` against database `s`. */
  function Fetch(c: Client, page: int, append: bool, s: Store.Store): (r: Client)
    ensures r == FinishFetch(BeginFetch(c, append), append,
                 Translations.ListTranslations(s, page, PageSize, TagParam(c), c.selectedLanguage))
  {
    var c1 := BeginFetch(c, append);
    FinishFetch(c1, append, Translations.ListTranslations(s, page, PageSize, TagParam(c1), c1.selectedLanguage))
  }

  /** `loadMoreTranslations`: the page it asks for, if any. */
  function LoadMoreRequest(c: Client): (p: Option<int>)
    ensures p.Some? <==> c.hasMore && !c.loadingMore
    ensures p.Some? ==> p.value == c.currentPage + 1
  {
    if c.hasMore && !c.loadingMore then Some(c.currentPage + 1) else None
  }

  /** `loadMoreTranslations` against database `s`: with nothing more to
      load, or a load already running, nothing happens. */
  function LoadMore(c: Client, s: Store.Store): (r: Client)
    ensures LoadMoreRequest(c).None? ==> r == c
    ensures LoadMoreRequest(c).Some? ==> r == Fetch(c, c.currentPage + 1, true, s)
  {
    match LoadMoreRequest(c)
    case None => c
    case Some(page) => Fetch(c, page, true, s)
  }

  /** The records matching the client's filters, as the server ranks them. */
  function Ranked(c: Client, s: Store.Store): seq<Store.Record> {
    Translations.Ranked(s, TagParam(c))
  }

  /** The loaded list is the first `currentPage` pages of the listing of
      `s`, and the pagination describes it. */
  predicate Synced(c: Client, s: Store.Store) {
    var ranked := Ranked(c, s);
    var end := Translations.PageEnd(|ranked|, c.currentPage, PageSize);
    && c.currentPage >= 1
    && !c.loading && !c.loadingMore
    && c.totalCount == |ranked|
    && c.hasMore == (c.currentPage * PageSize < |ranked|)
    && c.translations == Translations.Items(s, ranked[..end], c.selectedLanguage)
  }

  /** A page-1 replace fetch from a valid database leaves the client
      synced with it. */
  lemma FirstPageSynced(c: Client, s: Store.Store)
    requires Store.Valid(s)
    ensures Synced(Fetch(c, 1, false, s), s)
  {
    var ranked := Ranked(c, s);
    var r := Fetch(c, 1, false, s);
    assert Translations.PageStart(|ranked|, 1, PageSize) == 0;
    assert r.translations == Translations.Items(s, ranked[..Translations.PageEnd(|ranked|, 1, PageSize)], c.selectedLanguage);
  }

  lemma ItemsAppend(s: Store.Store, a: seq<Store.Record>, b: seq<Store.Record>, language: Option<string>)
    ensures Translations.Items(s, a + b, language) ==
            Translations.Items(s, a, language) + Translations.Items(s, b, language)
  {
    var l := Translations.Items(s, a + b, language);
    var r := Translations.Items(s, a, language) + Translations.Items(s, b, language);
    forall i | 0 <= i < |l| ensures l[i] == r[i] {
      if i < |a| {
        assert (a + b)[i] == a[i];
      } else {
        assert (a + b)[i] == b[i - |a|];
      }
    }
  }

  /** Loading more keeps a synced client synced: the appended page is
      exactly the next slice of the listing, with nothing skipped or
      repeated. */
  lemma LoadMoreKeepsSynced(c: Client, s: Store.Store)
    requires Store.Valid(s) && Synced(c, s)
    ensures Synced(LoadMore(c, s), s)
  {
    if LoadMoreRequest(c).Some? {
      var page := NextPage(c, s);
      Appended(c, s, page);
      AppendKeepsSynced(c, s, page);
    }
  }

  /** The step of `LoadMoreKeepsSynced`: appending the next listing page
      to a synced list and taking its pagination gives a synced list. */
  lemma AppendKeepsSynced(c: Client, s: Store.Store, page: Translations.Listing)
    requires Synced(c, s) && c.hasMore
    requires var ranked := Ranked(c, s);
      var n := |ranked|;
      && page.page == c.currentPage + 1 && page.total == n
      && page.hasMore == ((c.currentPage + 1) * PageSize < n)
      && page.items == Translations.Items(s,
           ranked[Translations.PageEnd(n, c.currentPage, PageSize)..Translations.PageEnd(n, c.currentPage + 1, PageSize)],
           c.selectedLanguage)
    ensures Synced(c.(translations := c.translations + page.items, currentPage := page.page,
              totalCount := page.total, hasMore := page.hasMore, loading := false, loadingMore := false), s)
  {
    var r := c.(translations := c.translations + page.items, currentPage := page.page,
              totalCount := page.total, hasMore := page.hasMore, loading := false, loadingMore := false);
    var ranked := Ranked(c, s);
    var n := |ranked|;
    var end := Translations.PageEnd(n, c.currentPage, PageSize);
    var end' := Translations.PageEnd(n, c.currentPage + 1, PageSize);
    var lang := c.selectedLanguage;
    SliceJoin(ranked, end, end');
    ItemsAppend(s, ranked[..end], ranked[end..end'], lang);
    assert TagParam(r) == TagParam(c);
    SyncedIntro(r, s, ranked);
  }

  lemma SyncedIntro(c: Client, s: Store.Store, ranked: seq<Store.Record>)
    requires ranked == Ranked(c, s) && c.currentPage >= 1 && !c.loading && !c.loadingMore
    requires c.totalCount == |ranked| && c.hasMore == (c.currentPage * PageSize < |ranked|)
    requires c.translations ==
               Translations.Items(s, ranked[..Translations.PageEnd(|ranked|, c.currentPage, PageSize)], c.selectedLanguage)
    ensures Synced(c, s)
  {
  }

  /** The listing page that loading more receives from `s`. */
  lemma NextPage(c: Client, s: Store.Store) returns (page: Translations.Listing)
    requires Store.Valid(s) && Synced(c, s) && c.hasMore
    ensures var ranked := Ranked(c, s);
      var n := |ranked|;
      && Translations.ListTranslations(s, c.currentPage + 1, PageSize, TagParam(c), c.selectedLanguage) == Ok(page)
      && page.page == c.currentPage + 1 && page.total == n
      && page.hasMore == ((c.currentPage + 1) * PageSize < n)
      && page.items == Translations.Items(s,
           ranked[Translations.PageEnd(n, c.currentPage, PageSize)..Translations.PageEnd(n, c.currentPage + 1, PageSize)],
           c.selectedLanguage)
  {
    var ranked := Ranked(c, s);
    NextPageStartsAtEnd(|ranked|, c.currentPage);
    var reply := Translations.ListTranslations(s, c.currentPage + 1, PageSize, TagParam(c), c.selectedLanguage);
    page := reply.body;
  }

  /** Loading more appends the reply's page and takes its pagination. */
  lemma Appended(c: Client, s: Store.Store, page: Translations.Listing)
    requires LoadMoreRequest(c).Some?
    requires Translations.ListTranslations(s, c.currentPage + 1, PageSize, TagParam(c), c.selectedLanguage) == Ok(page)
    ensures LoadMore(c, s) == c.(translations := c.translations + page.items, currentPage := page.page,
              totalCount := page.total, hasMore := page.hasMore, loading := false, loadingMore := false)
  {
    assert LoadMore(c, s) == Fetch(c, c.currentPage + 1, true, s);
    AppendedPage(c, page);
  }

  lemma AppendedPage(c: Client, page: Translations.Listing)
    ensures FinishFetch(BeginFetch(c, true), true, Ok(page))
         == c.(translations := c.translations + page.items, currentPage := page.page,
               totalCount := page.total, hasMore := page.hasMore, loading := false, loadingMore := false)
  {
  }

  lemma SliceJoin<T>(s: seq<T>, i: int, j: int)
    requires 0 <= i <= j <= |s|
    ensures s[..i] + s[i..j] == s[..j]
  {
  }

  /** The page after a page that does not reach the end starts where it
      ends. */
  lemma NextPageStartsAtEnd(n: nat, p: int)
    requires p >= 1 && p * PageSize < n
    ensures Translations.PageEnd(n, p, PageSize) == p * PageSize == Translations.PageStart(n, p + 1, PageSize)
  {
  }

  /** Once a synced client has nothing more to load it holds every
      matching record, highest id first. */
  lemma ExhaustedHoldsAll(c: Client, s: Store.Store)
    requires Synced(c, s) && !c.hasMore
    ensures c.translations == Translations.Items(s, Ranked(c, s), c.selectedLanguage)
  {
    var ranked := Ranked(c, s);
    Translations.HasMoreExact(|ranked|, c.currentPage, PageSize);
    assert ranked[..|ranked|] == ranked;
  }

  /** `handleSwitchDatabase`: on success the tag, language, tab and search
      filters are reset and the database recorded; on failure nothing
      changes. The list is refetched afterwards by the effect that watches
      the current database. */
  function SwitchDatabase(c: Client, name: string, reply: Reply<()>): (r: Client)
    ensures reply.Fail? ==> r == c
    ensures reply.Ok? ==>
      && r.currentTag == AllTags && r.selectedLanguage == None
      && r.activeTab == "all" && r.searchQuery == ""
      && r.currentDatabase == name
      && r.translations == c.translations && r.tags == c.tags
      && r.currentPage == c.currentPage && r.hasMore == c.hasMore
  {
    if reply.Ok? then
      c.(currentTag := AllTags, selectedLanguage := None, activeTab := "all", searchQuery := "",
         currentDatabase := name)
    else c
  }

  /** After a switch the next listing request carries no tag and no
      language. */
  lemma SwitchClearsFilters(c: Client, name: string)
    ensures TagParam(SwitchDatabase(c, name, Ok(()))) == None
    ensures SwitchDatabase(c, name, Ok(())).selectedLanguage == None
  {
  }

  /** `handleAddTag`: a name the client already lists is refused without
      a request; otherwise the tag is posted and, on success, the tag list
      refreshed. The second result says whether a request was sent. */
  function AddTag(c: Client, name: string, reply: Reply<()>, refreshed: seq<string>): (r: (Client, bool))
    ensures name in c.tags ==> r == (c, false)
    ensures name !in c.tags ==> r.1
    ensures name !in c.tags && reply.Ok? ==> r.0 == c.(tags := refreshed)
    ensures reply.Fail? ==> r.0 == c
  {
    if name in c.tags then (c, false)
    else if reply.Ok? then (c.(tags := refreshed), true)
    else (c, true)
  }

  /** Adding a tag through the client against database `s`, whose tags the
      client lists: the new tag is created and the refreshed list holds it. */
  lemma AddTagCreates(c: Client, s: Store.Store, name: string, now: int)
    requires name != "" && name !in c.tags && multiset(c.tags) == multiset(s.tags)
    ensures var st := Tags.CreateTag(s, name, now);
      var r := AddTag(c, name, st.reply, Tags.GetTags(st.store)).0;
      && st.reply.Ok?
      && name in r.tags
  {
    assert name !in s.tags;
    var st := Tags.CreateTag(s, name, now);
    assert name in multiset(Tags.GetTags(st.store));
  }

  /** The confirm step of `handleDeleteTag` against `s`, the database
      after the delete. Once the delete went through, a selection of the
      deleted tag falls back to 'all', the tag list is reloaded, and page 1
      of the listing is reloaded in place of the loaded list. That reload
      still filters on the tag selected when the dialog opened: the reset
      to 'all' has not reached it yet. A failed delete changes nothing. */
  function DeleteTagConfirmed(c: Client, name: string, reply: Reply<()>, s: Store.Store): (r: Client)
    ensures reply.Fail? ==> r == c
    ensures reply.Ok? && c.currentTag == name ==> r.currentTag == AllTags
    ensures reply.Ok? && c.currentTag != name ==> r.currentTag == c.currentTag
    ensures reply.Ok? ==> r.tags == Tags.GetTags(s) && !r.loading && !r.loadingMore
    ensures reply.Ok? ==>
      var listing := Translations.ListTranslations(s, 1, PageSize, TagParam(c), c.selectedLanguage);
      listing.Ok? ==>
        && r.translations == listing.body.items
        && r.currentPage == 1 && r.totalCount == listing.body.total
        && r.hasMore == listing.body.hasMore
    ensures reply.Ok? ==> r.selectedLanguage == c.selectedLanguage && r.searchQuery == c.searchQuery
  {
    if reply.Fail? then c
    else
      var reloaded := Fetch(c, 1, false, s).(tags := Tags.GetTags(s));
      if c.currentTag == name then reloaded.(currentTag := AllTags) else reloaded
  }

  /** After deleting the selected tag through the client, the next listing
      request filters on no tag and the reloaded tag list lacks it; but the
      reload the confirm step itself ran, still filtered on the deleted
      tag, comes back empty. */
  lemma DeleteSelectedTagUnfilters(c: Client, s: Store.Store, now: int)
    requires c.currentTag != "" && c.currentTag != AllTags
    ensures var st := Tags.DeleteTag(s, c.currentTag, now);
      var r := DeleteTagConfirmed(c, c.currentTag, st.reply, st.store);
      && TagParam(r) == None
      && c.currentTag !in r.tags
      && (Store.Valid(s) ==> r.translations == [] && r.totalCount == 0 && !r.hasMore)
  {
    var st := Tags.DeleteTag(s, c.currentTag, now);
    var refreshed := Tags.GetTags(st.store);
    assert c.currentTag !in multiset(st.store.tags);
    assert c.currentTag !in multiset(refreshed);
    if Store.Valid(s) {
      Tags.DeleteTagPreservesValid(s, c.currentTag, now);
      Tags.DeleteTagClearsAll(s, c.currentTag, now);
      UnusedTagReloadsEmpty(c, st.store);
    }
  }

  /** A page-1 reload filtered on a tag no record carries is empty. */
  lemma UnusedTagReloadsEmpty(c: Client, s: Store.Store)
    requires Store.Valid(s) && TagParam(c).Some?
    requires Tags.TagInfo(s, c.currentTag) == 0
    ensures var r := Fetch(c, 1, false, s);
      r.translations == [] && r.totalCount == 0 && !r.hasMore
  {
    UnusedTagRanksNothing(c, s);
    EmptyRankingReloadsEmpty(c, s);
  }

  lemma UnusedTagRanksNothing(c: Client, s: Store.Store)
    requires TagParam(c).Some? && Tags.TagInfo(s, c.currentTag) == 0
    ensures Ranked(c, s) == []
  {
    var ranked := Ranked(c, s);
    if |ranked| > 0 {
      assert ranked[0] in s.records;
      assert Tags.Carries(ranked[0], c.currentTag);
      assert false;
    }
  }

  lemma EmptyRankingReloadsEmpty(c: Client, s: Store.Store)
    requires Store.Valid(s) && Ranked(c, s) == []
    ensures var r := Fetch(c, 1, false, s);
      r.translations == [] && r.totalCount == 0 && !r.hasMore
  {
    var reply := Translations.ListTranslations(s, 1, PageSize, TagParam(c), c.selectedLanguage);
    assert reply.Ok? && reply.body.total == 0 && !reply.body.hasMore && reply.body.items == [];
  }

  /** Deleting a tag other than the selected one leaves the client synced
      with the database after the delete: the reload shows its first page. */
  lemma DeleteOtherTagSynced(c: Client, name: string, s: Store.Store, now: int)
    requires Store.Valid(s) && c.currentTag != name
    ensures var st := Tags.DeleteTag(s, name, now);
      var r := DeleteTagConfirmed(c, name, st.reply, st.store);
      && Synced(r, st.store)
      && name !in r.tags
  {
    var st := Tags.DeleteTag(s, name, now);
    Tags.DeleteTagPreservesValid(s, name, now);
    FirstPageSynced(c, st.store);
    assert name !in multiset(st.store.tags);
    assert name !in multiset(Tags.GetTags(st.store));
  }

  /** `handleSearch`: a query that is blank after trimming falls back to a
      page-1 replace fetch; otherwise the query goes to the search route
      as typed and a successful reply replaces the list, leaving the
      pagination as it was. */
  function Search(c: Client, s: Store.Store): (r: Client)
    ensures JsBlank(c.searchQuery) ==> r == Fetch(c, 1, false, s)
    ensures !JsBlank(c.searchQuery) ==>
      var reply := Translations.Search(s, c.searchQuery, TagParam(c), c.selectedLanguage);
      && !r.loading
      && (reply.Ok? ==> r.translations == reply.body)
      && (reply.Fail? ==> r.translations == c.translations)
      && r.currentPage == c.currentPage && r.totalCount == c.totalCount && r.hasMore == c.hasMore
      && r.loadingMore == c.loadingMore
  {
    if JsBlank(c.searchQuery) then Fetch(c, 1, false, s)
    else
      var reply := Translations.Search(s, c.searchQuery, TagParam(c), c.selectedLanguage);
      var c1 := if reply.Ok? then c.(translations := reply.body) else c;
      c1.(loading := false)
  }

  /** The client never sends a query the server refuses as empty, and on a
      valid database a non-blank search succeeds with the matching records. */
  lemma SearchNeverEmptyQuery(c: Client, s: Store.Store)
    requires !JsBlank(c.searchQuery) && Store.Valid(s)
    ensures Translations.Search(s, c.searchQuery, TagParam(c), c.selectedLanguage).Ok?
  {
    assert c.searchQuery != "";
  }

  /** A successful search keeps the listing's pagination, so "load more"
      can still append a listing page after the search results. */
  lemma SearchKeepsPagination(c: Client, s: Store.Store)
    requires Synced(c, s) && c.hasMore && !JsBlank(c.searchQuery)
    ensures Search(c, s).hasMore && LoadMoreRequest(Search(c, s)) == Some(c.currentPage + 1)
  {
    assert !c.loadingMore;
    SearchKeepsLoadMore(c, s);
  }

  lemma SearchKeepsLoadMore(c: Client, s: Store.Store)
    requires c.hasMore && !c.loadingMore && !JsBlank(c.searchQuery)
    ensures Search(c, s).hasMore && LoadMoreRequest(Search(c, s)) == Some(c.currentPage + 1)
  {
    var r := Search(c, s);
    assert r.hasMore && !r.loadingMore && r.currentPage == c.currentPage;
    var p := LoadMoreRequest(r);
    assert p.Some? && p.value == c.currentPage + 1;
  }

  /** `getBilingualLanguageName`: the catalog name in the UI locale, the
      Chinese name for any other locale, and an unknown code unchanged. */
  function BilingualName(code: string, locale: string): (r: string)
    ensures code in Catalog.NameTable && locale == "en" ==> r == Catalog.NameTable[code].en
    ensures code in Catalog.NameTable && locale != "en" ==> r == Catalog.NameTable[code].zh
    ensures code !in Catalog.NameTable ==> r == code
  {
    if code in Catalog.NameTable then
      var names := Catalog.NameTable[code];
      if locale == "en" then names.en else names.zh
    else code
  }

  /** Every catalog language gets the name the server's language listing
      gives it: under any catalog language `l` of `language_names`, the
      locale's table (the chinese one for any locale but 'en') at `code`. */
  lemma BilingualNameMatchesServer(s: Store.Store, l: string, code: string, locale: string)
    requires Catalog.InCatalog(l) && Catalog.InCatalog(code)
    ensures var names := Languages.GetLanguages(s).names;
      && l in names && code in names[l].en && code in names[l].zh
      && BilingualName(code, locale) == if locale == "en" then names[l].en[code] else names[l].zh[code]
  {
    Languages.ListedNamesAgreeWithCatalog(s, l, code);
  }
}
