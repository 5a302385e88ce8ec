/** Stored records of the "items" and "users" collections, and the order in
    which `find({}).sort({ createdAt: -1 })` lists them. */
module Documents {
  import opened Js

  /** A stored record: its other fields, its creation time (milliseconds),
      which is `None` for a record that has none, such as one replaced
      wholesale by a later update, and its update time. */
  datatype Document = Document(props: map<string, JsValue>, createdAt: Option<int>, updatedAt: int)

  /** The body keys the timestamps overwrite in `{ ...body, createdAt, updatedAt }`. */
  const TimestampKeys: set<string> := {"createdAt", "updatedAt"}

  /** `{ ...body, createdAt: now, updatedAt: now }` for an object body: every
      own property of the body is copied, except that the two timestamps
      take the value `now`. */
  function Stamp(body: map<string, JsValue>, now: int): (d: Document)
    ensures d.createdAt == Some(now) && d.updatedAt == now
    ensures d.props.Keys == body.Keys - TimestampKeys
    ensures forall k :: k in d.props ==> d.props[k] == body[k]
  {
    Document(map k | k in body && k !in TimestampKeys :: body[k], Some(now), now)
  }

  /** The answer of a create handler: 400 with the validation messages, or
      201 with the stored record. */
  datatype CreateResponse = BadRequest(errors: seq<string>) | Created(record: Document)
  {
    function Status(): int
    {
      if BadRequest? then 400 else 201
    }
  }

  /** `a` may precede `b` in `sort({ createdAt: -1 })`: a dated record goes
      before an older one, and every record goes before an undated one (the
      database orders a missing field below every date). */
  predicate NoOlder(a: Document, b: Document)
  {
    b.createdAt.None? || (a.createdAt.Some? && a.createdAt.value >= b.createdAt.value)
  }

  /** Newest first: no record precedes one that is newer than it. */
  ghost predicate NewestFirst(s: seq<Document>)
  {
    forall i, j :: 0 <= i < j < |s| ==> NoOlder(s[i], s[j])
  }

  /** In a newest-first sequence the dated records come first, the undated
      ones last. */
  lemma DatedBeforeUndated(s: seq<Document>, i: int, j: int)
    requires NewestFirst(s) && 0 <= i < j < |s|
    ensures s[i].createdAt.None? ==> s[j].createdAt.None?
    ensures s[j].createdAt.Some? ==> s[i].createdAt.Some? && s[i].createdAt.value >= s[j].createdAt.value
  {
    assert NoOlder(s[i], s[j]);
  }

  /** `ranked` is what the database may answer to `sort({ createdAt: -1 })`
      over the collection `stored`: the same records, newest first. The
      order among records with equal `createdAt` is left to the database. */
  ghost predicate IsRanking(ranked: seq<Document>, stored: seq<Document>)
  {
    multiset(ranked) == multiset(stored) && NewestFirst(ranked)
  }

  /** Putting a record at least as new as the head in front keeps the order. */
  lemma ConsNewestFirst(d: Document, s: seq<Document>)
    requires NewestFirst(s)
    requires s == [] || NoOlder(d, s[0])
    ensures NewestFirst([d] + s)
  {
    var r := [d] + s;
    forall i, j | 0 <= i < j < |r| ensures NoOlder(r[i], r[j]) {
      if i == 0 {
        assert r[j] == s[j - 1];
        if j > 1 {
          assert NoOlder(s[0], s[j - 1]);
        }
      } else {
        assert r[i] == s[i - 1] && r[j] == s[j - 1];
      }
    }
  }

  /** Places `d` into a newest-first sequence in front of the first record
      it may precede. */
  function InsertByCreatedAt(d: Document, s: seq<Document>): (r: seq<Document>)
    requires NewestFirst(s)
    ensures multiset(r) == multiset(s) + multiset{d}
    ensures NewestFirst(r)
    ensures r != [] && (r[0] == d || (s != [] && r[0] == s[0]))
  {
    if s == [] || NoOlder(d, s[0]) then
      ConsNewestFirst(d, s);
      [d] + s
    else
      assert NewestFirst(s[1..]) by {
        forall i, j | 0 <= i < j < |s[1..]| ensures NoOlder(s[1..][i], s[1..][j]) {
          assert s[1..][i] == s[i + 1] && s[1..][j] == s[j + 1];
        }
      }
      var rest := InsertByCreatedAt(d, s[1..]);
      assert NoOlder(s[0], rest[0]) by {
        if rest[0] != d {
          assert |s| > 1 && rest[0] == s[1];
          assert NoOlder(s[0], s[1]);
        }
      }
      ConsNewestFirst(s[0], rest);
      assert s == [s[0]] + s[1..];
      assert multiset([s[0]] + rest) == multiset{s[0]} + multiset(rest);
      [s[0]] + rest
  }

  /** A stable insertion sort by descending `createdAt`. */
  function SortNewestFirst(s: seq<Document>): (r: seq<Document>)
    ensures IsRanking(r, s)
  {
    if s == [] then []
    else
      assert s == [s[0]] + s[1..];
      InsertByCreatedAt(s[0], SortNewestFirst(s[1..]))
  }

  /** Every collection has at least one newest-first ranking, so the list
      handlers' assumption about the database's answer excludes no collection. */
  lemma RankingExists(stored: seq<Document>)
    ensures exists ranked :: IsRanking(ranked, stored)
  {
    var ranked := SortNewestFirst(stored);
    assert IsRanking(ranked, stored);
  }

  /** A ranking has as many records as the collection it ranks. */
  lemma RankingSize(ranked: seq<Document>, stored: seq<Document>)
    requires IsRanking(ranked, stored)
    ensures |ranked| == |stored|
  {
    assert |multiset(ranked)| == |multiset(stored)|;
  }
}
