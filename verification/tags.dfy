/** The tag and log routes of backend/routes/tags.py. */
module Tags {
  import opened Base
  import opened Text
  import opened Seqs
  import opened Store

  /** GET /api/tags: every tag name, `ORDER BY name`. */
  function GetTags(s: Store): (r: seq<string>)
    ensures Sorted(r)
    ensures multiset(r) == multiset(s.tags)
  {
    Sort(s.tags)
  }

  function CreateDescription(name: string): string {
    "创建标签: " + name
  }

  function DeleteDescription(name: string): string {
    "删除标签: " + name
  }

  /** POST /api/tags: an empty (or absent) name and an existing name are
      rejected with the tags unchanged; otherwise one tag and one log entry
      are added. */
  function CreateTag(s: Store, name: string, now: int): (r: Step<()>)
    ensures name == "" ==> r == Step(s, Fail(BadRequest, EmptyTagName))
    ensures name != "" && name in s.tags ==> r == Step(s, Fail(BadRequest, TagExists))
    ensures name != "" && name !in s.tags ==>
      && r.reply.Ok?
      && r.store.tags == s.tags + [name]
      && r.store.logs == s.logs + [LogEntry(OpAddTag, 1, CreateDescription(name), now)]
      && r.store.records == s.records && r.store.nextId == s.nextId
      && r.store.tables == s.tables && r.store.activation == s.activation
  {
    if name == "" then Step(s, Fail(BadRequest, EmptyTagName))
    else if name in s.tags then Step(s, Fail(BadRequest, TagExists))
    else
      var s1 := s.(tags := s.tags + [name]);
      Step(AddLog(s1, OpAddTag, 1, CreateDescription(name), now), Ok(()))
  }

  predicate Carries(r: Record, name: string) {
    r.tag == Some(name)
  }

  /** GET /api/tags/<name>/info: the number of translations whose tag is
      `name` (the tag need not exist). */
  function TagInfo(s: Store, name: string): (n: nat)
    ensures n <= |s.records|
    ensures n == |Filter(s.records, (x: Record) => Carries(x, name))|
    ensures n == 0 <==> forall i :: 0 <= i < |s.records| ==> !Carries(s.records[i], name)
  {
    var p := (x: Record) => Carries(x, name);
    CountIsFilterLength(s.records, p);
    FilterSound(s.records, p);
    assert Count(s.records, p) == 0 ==> forall i :: 0 <= i < |s.records| ==> !Carries(s.records[i], name) by {
      if Count(s.records, p) == 0 {
        forall i | 0 <= i < |s.records| ensures !Carries(s.records[i], name) {
        }
      }
    }
    assert (forall i :: 0 <= i < |s.records| ==> !Carries(s.records[i], name)) ==> Count(s.records, p) == 0 by {
      var kept := Filter(s.records, p);
      if kept != [] {
        assert kept[0] in s.records && p(kept[0]);
      }
    }
    Count(s.records, p)
  }

  /** `UPDATE english SET tag = NULL WHERE tag = ?`. */
  function ClearTag(recs: seq<Record>, name: string): (r: seq<Record>)
    ensures |r| == |recs|
    ensures forall i :: 0 <= i < |recs| ==>
              r[i] == if Carries(recs[i], name) then recs[i].(tag := None) else recs[i]
  {
    seq(|recs|, i requires 0 <= i < |recs| =>
      if Carries(recs[i], name) then recs[i].(tag := None) else recs[i])
  }

  /** DELETE /api/tags/<name>: there is no existence check, so it always
      succeeds. The tag row goes, exactly the translations carrying it lose
      their tag, and the log entry counts them as they were before. */
  function DeleteTag(s: Store, name: string, now: int): (r: Step<()>)
    ensures r.reply.Ok?
    ensures forall t :: t in r.store.tags <==> t in s.tags && t != name
    ensures |r.store.records| == |s.records|
    ensures forall i :: 0 <= i < |s.records| && Carries(s.records[i], name) ==>
              r.store.records[i] == s.records[i].(tag := None)
    ensures forall i :: 0 <= i < |s.records| && !Carries(s.records[i], name) ==>
              r.store.records[i] == s.records[i]
    ensures r.store.logs == s.logs + [LogEntry(OpDeleteTag, TagInfo(s, name), DeleteDescription(name), now)]
    ensures r.store.nextId == s.nextId && r.store.tables == s.tables && r.store.activation == s.activation
  {
    var count := TagInfo(s, name);
    var p := (t: string) => t != name;
    FilterSound(s.tags, p);
    var s1 := s.(tags := Filter(s.tags, p),
                 records := ClearTag(s.records, name));
    Step(AddLog(s1, OpDeleteTag, count, DeleteDescription(name), now), Ok(()))
  }

  /** After a delete nothing carries the tag any more. */
  lemma DeleteTagClearsAll(s: Store, name: string, now: int)
    ensures TagInfo(DeleteTag(s, name, now).store, name) == 0
  {
    var r := DeleteTag(s, name, now).store;
    assert forall i :: 0 <= i < |r.records| ==> !Carries(r.records[i], name);
  }

  lemma {:induction false} FilterKeepsDistinct(s: seq<string>, p: string -> bool)
    requires Distinct(s)
    ensures Distinct(Filter(s, p))
  {
    if s != [] {
      var rest := Filter(s[1..], p);
      FilterKeepsDistinct(s[1..], p);
      FilterSound(s[1..], p);
      if p(s[0]) {
        var r := [s[0]] + rest;
        forall i, j | 0 <= i < j < |r| ensures r[i] != r[j] {
          if i == 0 {
            assert r[j] == rest[j - 1] && rest[j - 1] in s[1..];
            var k :| 0 <= k < |s[1..]| && s[1..][k] == r[j];
            assert s[k + 1] == r[j];
          } else {
            assert r[i] == rest[i - 1] && r[j] == rest[j - 1];
          }
        }
      }
    }
  }

  lemma CreateTagPreservesValid(s: Store, name: string, now: int)
    requires Valid(s)
    ensures Valid(CreateTag(s, name, now).store)
  {
  }

  lemma DeleteTagPreservesValid(s: Store, name: string, now: int)
    requires Valid(s)
    ensures Valid(DeleteTag(s, name, now).store)
  {
    FilterKeepsDistinct(s.tags, (t: string) => t != name);
  }
}
