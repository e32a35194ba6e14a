/** The form rules of the translation panel
    (src/components/Dashboard/TranslationContent/TranslationContent.js):
    the add-translation form, the new-database form and the new-tag form.
    A `pattern` rule only applies to a non-empty value; `required` rejects
    only the empty value; `maxLength` bounds what can be typed. */
module Validators {
  import opened Base
  import opened Text
  import Store
  import Translations
  import Tags
  import Server

  predicate AsciiLetter(c: char) {
    ('a' <= c <= 'z') || ('A' <= c <= 'Z')
  }

  predicate AsciiDigit(c: char) {
    '0' <= c <= '9'
  }

  /** `[a-zA-Z0-9_]`. */
  predicate WordChar(c: char) {
    AsciiLetter(c) || AsciiDigit(c) || c == '_'
  }

  /** `^[a-zA-Z_][a-zA-Z0-9_]*$`. */
  predicate Ident(s: string) {
    && |s| >= 1
    && (AsciiLetter(s[0]) || s[0] == '_')
    && forall i :: 1 <= i < |s| ==> WordChar(s[i])
  }

  /** `[a-zA-Z0-9_一-龥]`. */
  predicate TagChar(c: char) {
    WordChar(c) || ('\U{4E00}' <= c <= '\U{9FA5}')
  }

  /** The english field: required, at most 500 characters. */
  predicate EnglishAccepted(s: string) {
    s != "" && |s| <= 500
  }

  /** The key field: optional, and an identifier of at most 50
      characters when given. */
  predicate KeyAccepted(s: string) {
    |s| <= 50 && (s == "" || Ident(s))
  }

  /** The new-database name: required, an identifier, no whitespace, only
      word characters, at most 50 characters. */
  predicate DbNameAccepted(s: string) {
    && s != ""
    && Ident(s)
    && (forall i :: 0 <= i < |s| ==> !JsRegexSpace(s[i]))
    && (forall i :: 0 <= i < |s| ==> WordChar(s[i]))
    && |s| <= 50
  }

  /** The characters of the `\s` class (the same set `trim` removes). */
  predicate JsRegexSpace(c: char) {
    JsWhitespace(c)
  }

  /** The tag name: required, 1 to 20 word or CJK characters. */
  predicate TagNameAccepted(s: string) {
    && s != ""
    && |s| <= 20
    && forall i :: 0 <= i < |s| ==> TagChar(s[i])
  }

  /** The database-name rules beyond the pattern can never fire: an
      identifier is made of word characters only, none of them a space. */
  lemma DbNameRulesFromPattern(s: string)
    ensures DbNameAccepted(s) <==> Ident(s) && |s| <= 50
  {
  }

  /** Matching `^[a-zA-Z_][a-zA-Z0-9_]*$` in one left-to-right pass. */
  method MatchIdent(s: string) returns (ok: bool)
    ensures ok <==> Ident(s)
  {
    if |s| == 0 || !(AsciiLetter(s[0]) || s[0] == '_') {
      return false;
    }
    var i := 1;
    while i < |s|
      invariant 1 <= i <= |s|
      invariant forall k :: 1 <= k < i ==> WordChar(s[k])
    {
      if !WordChar(s[i]) {
        return false;
      }
      i := i + 1;
    }
    return true;
  }

  /** Matching `^[a-zA-Z0-9_一-龥]+$` within the length bound. */
  method MatchTagName(s: string) returns (ok: bool)
    ensures ok <==> TagNameAccepted(s)
  {
    if |s| == 0 || |s| > 20 {
      return false;
    }
    var i := 0;
    while i < |s|
      invariant 0 <= i <= |s|
      invariant forall k :: 0 <= k < i ==> TagChar(s[k])
    {
      if !TagChar(s[i]) {
        return false;
      }
      i := i + 1;
    }
    return true;
  }

  /** The client's database-name rules against the server's: a name the
      client accepts is accepted by the server exactly when it is not all
      underscores, and it becomes a visible `.db` file. */
  lemma {:induction false} DbNameClientAgainstServer(s: string)
    requires DbNameAccepted(s)
    ensures Server.NameAccepted(s) <==> exists i :: 0 <= i < |s| && s[i] != '_'
    ensures Server.Normalize(s) == s + Server.Suffix
    ensures !Server.Hidden(Server.Normalize(s))
  {
    Server.NameAcceptedMeaning(s);
    if exists i :: 0 <= i < |s| && s[i] != '_' {
      var k :| 0 <= k < |s| && s[k] != '_';
      assert Server.AsciiAlnum(s[k]);
    }
    assert !Server.EndsWith(s, Server.Suffix) by {
      if |s| >= 3 {
        assert s[|s| - 3..] != Server.Suffix by {
          assert s[|s| - 3..][0] == s[|s| - 3];
          assert WordChar(s[|s| - 3]);
        }
      }
    }
  }

  /** The all-underscore name `_` passes every client rule and is refused
      by the server. */
  lemma UnderscoreNameRefused()
    ensures DbNameAccepted("_")
    ensures !Server.NameAccepted("_")
  {
    assert Server.StripSeparators("_") == [];
  }

  /** What the forms let through is never refused by the server as empty:
      neither the english text of a new translation nor a new tag name. */
  lemma FormsPassEmptinessChecks(s: Store.Store, e: Translations.Entry, tag: string, now: int)
    requires EnglishAccepted(e.english) && TagNameAccepted(tag)
    ensures Translations.Add(s, e, now).reply != Fail(BadRequest, EmptyEnglish)
    ensures Tags.CreateTag(s, tag, now).reply != Fail(BadRequest, EmptyTagName)
  {
  }
}
