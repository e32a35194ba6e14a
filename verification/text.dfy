/** String helpers with the exact semantics of the two runtimes involved:
    Python's `str.strip`/`str.isspace` on the server and JavaScript's
    `String.prototype.trim` on the client, plain substring search, and the
    code-point ordering SQLite's BINARY collation gives to UTF-8 text. */
module Text {

  /** The characters Python's `str.isspace` accepts (and `str.strip`
      removes when called without arguments). */
  predicate PyWhitespace(c: char) {
    || c == ' ' || c == '\t' || c == '\n' || c == '\r'
    || c == '\U{B}' || c == '\U{C}'
    || ('\U{1C}' <= c <= '\U{1F}')
    || c == '\U{85}' || c == '\U{A0}' || c == '\U{1680}'
    || ('\U{2000}' <= c <= '\U{200A}')
    || c == '\U{2028}' || c == '\U{2029}' || c == '\U{202F}' || c == '\U{205F}'
    || c == '\U{3000}'
  }

  /** The characters JavaScript's `trim` removes (WhiteSpace and
      LineTerminator of ECMA-262). Unlike Python it removes U+FEFF and keeps
      U+001C..U+001F and U+0085. */
  predicate JsWhitespace(c: char) {
    || c == ' ' || c == '\t' || c == '\n' || c == '\r'
    || c == '\U{B}' || c == '\U{C}'
    || c == '\U{A0}' || c == '\U{1680}'
    || ('\U{2000}' <= c <= '\U{200A}')
    || c == '\U{2028}' || c == '\U{2029}' || c == '\U{202F}' || c == '\U{205F}'
    || c == '\U{3000}' || c == '\U{FEFF}'
  }

  /** `s.strip()` is empty in Python: every character is whitespace. */
  predicate PyBlank(s: string) {
    s == [] || (PyWhitespace(s[0]) && PyBlank(s[1..]))
  }

  /** `s.trim()` is empty in JavaScript. */
  predicate JsBlank(s: string) {
    forall i :: 0 <= i < |s| ==> JsWhitespace(s[i])
  }

  /** JavaScript's `s.trim()`. */
  function JsTrim(s: string): (r: string)
    ensures |r| <= |s|
    ensures r == "" <==> JsBlank(s)
    ensures r != "" ==> !JsWhitespace(r[0]) && !JsWhitespace(r[|r| - 1])
    ensures Contains(s, r)
  {
    var t := TrimStart(s);
    var r := TrimEnd(t);
    assert OccursAt(s, r, |s| - |t|) by {
      assert r == t[..|r|];
    }
    r
  }

  function TrimStart(s: string): (r: string)
    ensures |r| <= |s| && r == s[|s| - |r|..]
    ensures r == "" <==> JsBlank(s)
    ensures r != "" ==> !JsWhitespace(r[0])
  {
    if s == [] then []
    else if JsWhitespace(s[0]) then
      var r := TrimStart(s[1..]);
      assert JsBlank(s[1..]) ==> JsBlank(s) by {
        if JsBlank(s[1..]) {
          forall i | 0 <= i < |s| ensures JsWhitespace(s[i]) {
            if i > 0 { assert s[i] == s[1..][i - 1]; }
          }
        }
      }
      r
    else s
  }

  function TrimEnd(s: string): (r: string)
    ensures |r| <= |s| && r == s[..|r|]
    ensures r == "" <==> JsBlank(s)
    ensures r != "" ==> !JsWhitespace(r[|r| - 1])
    ensures s != "" && !JsWhitespace(s[0]) ==> r != "" && r[0] == s[0]
  {
    if s == [] then []
    else if JsWhitespace(s[|s| - 1]) then
      var r := TrimEnd(s[..|s| - 1]);
      assert JsBlank(s[..|s| - 1]) ==> JsBlank(s) by {
        if JsBlank(s[..|s| - 1]) {
          forall i | 0 <= i < |s| ensures JsWhitespace(s[i]) {
            if i < |s| - 1 { assert s[i] == s[..|s| - 1][i]; }
          }
        }
      }
      r
    else s
  }

  /** `q` occurs in `s` as a contiguous substring (SQL `LIKE '%q%'` without
      wildcards or case folding). */
  predicate Contains(s: string, q: string) {
    exists i :: 0 <= i <= |s| && OccursAt(s, q, i)
  }

  /** `q` occurs in `s` starting at index `i`. */
  predicate OccursAt(s: string, q: string, i: int) {
    0 <= i <= |s| - |q| && s[i..i + |q|] == q
  }

  /** Python's `s[:n]` for n >= 0. */
  function Prefix(s: string, n: nat): (r: string)
    ensures |r| <= n && |r| <= |s|
    ensures |s| <= n ==> r == s
    ensures s == r + s[|r|..]
  {
    if |s| <= n then s else s[..n]
  }

  predicate AsciiUpper(c: char) {
    'A' <= c <= 'Z'
  }

  /** SQLite's case folding of identifiers: ASCII letters only. */
  function AsciiLower(c: char): (r: char)
    ensures AsciiUpper(c) ==> r as int == c as int + 32
    ensures !AsciiUpper(c) ==> r == c
    ensures !AsciiUpper(r)
  {
    if AsciiUpper(c) then (c as int + 32) as char else c
  }

  /** The name SQLite resolves an identifier to: table names compare
      without regard to ASCII case. */
  function Lower(s: string): (r: string)
    ensures |r| == |s|
    ensures forall i :: 0 <= i < |s| ==> r[i] == AsciiLower(s[i])
  {
    seq(|s|, i requires 0 <= i < |s| => AsciiLower(s[i]))
  }

  /** `s` has no ASCII capital letter. */
  predicate NoCapitals(s: string) {
    forall i :: 0 <= i < |s| ==> !AsciiUpper(s[i])
  }

  /** A name with no ASCII capital is its own folding. */
  lemma LowerOfLowercase(s: string)
    requires NoCapitals(s)
    ensures Lower(s) == s
  {
  }

  /** Code-point lexicographic order; for valid Unicode text it coincides
      with the byte order of the UTF-8 encoding that SQLite compares. */
  predicate LexLe(a: string, b: string) {
    if a == [] then true
    else if b == [] then false
    else if a[0] != b[0] then a[0] < b[0]
    else LexLe(a[1..], b[1..])
  }

  lemma {:induction false} LexLeTotal(a: string, b: string)
    ensures LexLe(a, b) || LexLe(b, a)
  {
    if a != [] && b != [] && a[0] == b[0] {
      LexLeTotal(a[1..], b[1..]);
    }
  }

  lemma {:induction false} LexLeAntisymmetric(a: string, b: string)
    requires LexLe(a, b) && LexLe(b, a)
    ensures a == b
  {
    if a != [] && b != [] {
      LexLeAntisymmetric(a[1..], b[1..]);
      assert a == [a[0]] + a[1..] && b == [b[0]] + b[1..];
    }
  }

  lemma {:induction false} LexLeTransitive(a: string, b: string, c: string)
    requires LexLe(a, b) && LexLe(b, c)
    ensures LexLe(a, c)
  {
    if a != [] && b != [] && c != [] && a[0] == b[0] && b[0] == c[0] {
      LexLeTransitive(a[1..], b[1..], c[1..]);
    }
  }

  predicate Sorted(s: seq<string>) {
    forall i :: 0 < i < |s| ==> LexLe(s[i - 1], s[i])
  }

  /** Inserts `x` into the sorted sequence `s` before the first element it
      precedes. */
  function Insert(x: string, s: seq<string>): (r: seq<string>)
    requires Sorted(s)
    ensures Sorted(r)
    ensures multiset(r) == multiset(s) + multiset{x}
    ensures |r| == |s| + 1
    ensures r[0] == x || (s != [] && r[0] == s[0])
  {
    if s == [] then [x]
    else if LexLe(x, s[0]) then [x] + s
    else
      var t := Insert(x, s[1..]);
      LexLeTotal(x, s[0]);
      assert s == [s[0]] + s[1..];
      [s[0]] + t
  }

  /** `ORDER BY name` over the rows of a table. */
  function Sort(s: seq<string>): (r: seq<string>)
    ensures Sorted(r)
    ensures multiset(r) == multiset(s)
    ensures |r| == |s|
  {
    if s == [] then []
    else
      assert s == s[..|s| - 1] + [s[|s| - 1]];
      Insert(s[|s| - 1], Sort(s[..|s| - 1]))
  }
}
