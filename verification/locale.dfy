/** The UI locale context (src/contexts/LanguageContext.js): the locale,
    read once from the browser's storage and written back after every
    change. Storage is the `saved` field. */
module Locale {
  import opened Base

  const En: string := "en"
  const Zh: string := "zh"

  /** The locale in use and the `app_locale` value in storage. */
  datatype Context = Context(locale: string, saved: Option<string>)

  /** The stored value is the current locale. */
  predicate Persisted(c: Context) {
    c.saved == Some(c.locale)
  }

  /** The initial locale: the stored value unless it is missing or empty
      (`savedLocale || 'en'`). */
  function InitialLocale(saved: Option<string>): (l: string)
    ensures Truthy(saved) ==> l == saved.value
    ensures !Truthy(saved) ==> l == En
    ensures l != ""
  {
    if Truthy(saved) then saved.value else En
  }

  /** Mounting the provider: the initial locale, then the effect stores it. */
  function Mount(saved: Option<string>): (c: Context)
    ensures Persisted(c)
    ensures c.locale == InitialLocale(saved)
  {
    Persist(InitialLocale(saved))
  }

  /** A locale change followed by the effect that stores it. */
  function Persist(locale: string): (c: Context)
    ensures c.locale == locale && Persisted(c)
  {
    Context(locale, Some(locale))
  }

  /** `toggleLanguage`: english becomes chinese, anything else english. */
  function Toggle(c: Context): (r: Context)
    ensures c.locale == En ==> r.locale == Zh
    ensures c.locale != En ==> r.locale == En
    ensures Persisted(r)
  {
    Persist(if c.locale == En then Zh else En)
  }

  /** `changeLanguage`: exactly the given locale. */
  function Change(c: Context, locale: string): (r: Context)
    ensures r.locale == locale && Persisted(r)
  {
    Persist(locale)
  }

  /** Toggling twice returns to english or chinese; from any other locale
      it lands on chinese. */
  lemma ToggleTwice(c: Context)
    ensures c.locale == En || c.locale == Zh ==> Toggle(Toggle(c)).locale == c.locale
    ensures c.locale != En && c.locale != Zh ==> Toggle(Toggle(c)).locale == Zh
  {
  }

  /** A persisted context survives a reload: mounting from its storage
      gives back the same locale whenever that locale is not empty. */
  lemma ReloadKeepsLocale(c: Context)
    requires Persisted(c) && c.locale != ""
    ensures Mount(c.saved) == c
  {
  }
}
