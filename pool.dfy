/**
 * The candidate pool of `get_recommendations`: remote catalog results for each
 * topic (and, when those are fewer than five, for the first two keywords), then
 * the local dataset's shows that score at least 0.3, merged with the first
 * occurrence of each name kept, and stably sorted by score, highest first.
 * The functions here are the reference definitions; the loops that compute
 * them are methods of `ShmaliBot`.
 */
module Pool {

  import opened Wrappers
  import opened Text
  import opened Records
  import opened Scorer

  /** One catalog query (`search_podcasts` with the request's duration and language):
      the shows found, or None when the call raised. */
  type Search = string -> Option<seq<Show>>

  /** The local admission threshold of `search_local_dataset`. */
  const LocalThreshold: real := 0.3

  /** The shows of one query, each tagged and scored, in the order the query returned them. */
  function ScoreAll(ratio: RatioFn, a: Analysis, shows: seq<Show>, origin: Origin): (r: seq<Item>)
    ensures |r| == |shows|
    ensures forall i :: 0 <= i < |r| ==> r[i] == Item(shows[i], origin, Score(ratio, a, shows[i]))
  {
    if shows == [] then []
    else
      var last := shows[|shows| - 1];
      ScoreAll(ratio, a, shows[..|shows| - 1], origin) + [Item(last, origin, Score(ratio, a, last))]
  }

  /** Scoring one more show appends its item. */
  lemma ScoreAllSnoc(ratio: RatioFn, a: Analysis, shows: seq<Show>, j: nat, origin: Origin)
    requires j < |shows|
    ensures ScoreAll(ratio, a, shows[..j + 1], origin)
            == ScoreAll(ratio, a, shows[..j], origin) + [Item(shows[j], origin, Score(ratio, a, shows[j]))]
  {
    assert shows[..j + 1][..j] == shows[..j];
  }

  /** The shows a query contributes: none when it failed. */
  function Found(result: Option<seq<Show>>): seq<Show> {
    result.GetOr([])
  }

  /** The items of one query's shows are exactly those shows, tagged and scored. */
  lemma ScoreAllMembers(ratio: RatioFn, a: Analysis, shows: seq<Show>, origin: Origin)
    ensures forall x :: x in ScoreAll(ratio, a, shows, origin) <==>
                          x.show in shows && x.origin == origin && x.score == Score(ratio, a, x.show)
  {
    var r := ScoreAll(ratio, a, shows, origin);
    forall x: Item | x.show in shows && x.origin == origin && x.score == Score(ratio, a, x.show)
      ensures x in r
    {
      var i :| 0 <= i < |shows| && shows[i] == x.show;
      assert r[i] == x;
    }
  }

  /** The results of the per-topic queries, concatenated in topic order. */
  function TopicResults(ratio: RatioFn, a: Analysis, search: Search, topics: seq<string>): seq<Item> {
    if topics == [] then []
    else
      TopicResults(ratio, a, search, topics[..|topics| - 1])
      + ScoreAll(ratio, a, Found(search(topics[|topics| - 1])), Remote)
  }

  /** `s` is among the shows that a successful query for one of `queries` returned. */
  predicate ReturnedFor(search: Search, queries: seq<string>, s: Show) {
    exists k :: 0 <= k < |queries| && s in Found(search(queries[k]))
  }

  /** The queries so far, then one more. */
  lemma ReturnedForSnoc(search: Search, queries: seq<string>, q: string, s: Show)
    ensures ReturnedFor(search, queries + [q], s) <==> ReturnedFor(search, queries, s) || s in Found(search(q))
  {
    var qs := queries + [q];
    assert qs[|queries|] == q;
    if ReturnedFor(search, queries, s) {
      var k :| 0 <= k < |queries| && s in Found(search(queries[k]));
      assert qs[k] == queries[k];
    }
    if ReturnedFor(search, qs, s) && s !in Found(search(q)) {
      var k :| 0 <= k < |qs| && s in Found(search(qs[k]));
      assert queries[k] == qs[k];
    }
  }

  /** The per-topic results are exactly the shows the topic queries returned, each tagged as
      remote and carrying its own score. */
  lemma {:induction false} TopicResultsMembers(ratio: RatioFn, a: Analysis, search: Search, topics: seq<string>)
    ensures forall x :: x in TopicResults(ratio, a, search, topics) <==>
                          x.origin == Remote && x.score == Score(ratio, a, x.show) && ReturnedFor(search, topics, x.show)
  {
    if topics != [] {
      var n := |topics| - 1;
      TopicResultsMembers(ratio, a, search, topics[..n]);
      ScoreAllMembers(ratio, a, Found(search(topics[n])), Remote);
      assert topics == topics[..n] + [topics[n]];
      forall s: Show ensures ReturnedFor(search, topics, s)
                             <==> ReturnedFor(search, topics[..n], s) || s in Found(search(topics[n])) {
        ReturnedForSnoc(search, topics[..n], topics[n], s);
      }
    }
  }

  /** The keyword query: the first two keywords joined by a space. */
  function KeywordQuery(keywords: seq<string>): string {
    Join(" ", if |keywords| <= 2 then keywords else keywords[..2])
  }

  /** Whether the keyword query runs after the topic queries: fewer than five results so far
      and at least one keyword. */
  predicate NeedsKeywordQuery(sofar: seq<Item>, a: Analysis) {
    |sofar| < 5 && a.keywords != []
  }

  /** The catalog queries a rebuild issues: one per topic, in order, then the keyword query
      only when the topic queries returned fewer than five shows and there are keywords. */
  function IssuedQueries(ratio: RatioFn, a: Analysis, search: Search): (qs: seq<string>)
    ensures a.topics <= qs
    ensures |qs| == |a.topics| + 1 <==> |TopicResults(ratio, a, search, a.topics)| < 5 && a.keywords != []
    ensures |qs| != |a.topics| + 1 ==> qs == a.topics
    ensures |qs| == |a.topics| + 1 ==> qs[|a.topics|] == KeywordQuery(a.keywords)
  {
    if NeedsKeywordQuery(TopicResults(ratio, a, search, a.topics), a) then a.topics + [KeywordQuery(a.keywords)]
    else a.topics
  }

  /** Everything the remote catalog contributes, in query order. */
  function RemoteResults(ratio: RatioFn, a: Analysis, search: Search): (r: seq<Item>)
    ensures TopicResults(ratio, a, search, a.topics) <= r
  {
    var fromTopics := TopicResults(ratio, a, search, a.topics);
    if NeedsKeywordQuery(fromTopics, a) then
      fromTopics + ScoreAll(ratio, a, Found(search(KeywordQuery(a.keywords))), Remote)
    else fromTopics
  }

  /** The remote results are exactly the shows the issued queries returned, each tagged as
      remote and carrying its own score: no remote show is filtered by its score. */
  lemma RemoteResultsMembers(ratio: RatioFn, a: Analysis, search: Search)
    ensures forall x :: x in RemoteResults(ratio, a, search) <==>
                          && x.origin == Remote && x.score == Score(ratio, a, x.show)
                          && ReturnedFor(search, IssuedQueries(ratio, a, search), x.show)
  {
    TopicResultsMembers(ratio, a, search, a.topics);
    if NeedsKeywordQuery(TopicResults(ratio, a, search, a.topics), a) {
      var q := KeywordQuery(a.keywords);
      ScoreAllMembers(ratio, a, Found(search(q)), Remote);
      forall s: Show ensures ReturnedFor(search, a.topics + [q], s)
                             <==> ReturnedFor(search, a.topics, s) || s in Found(search(q)) {
        ReturnedForSnoc(search, a.topics, q, s);
      }
    }
  }

  /** The dataset rows, normalised and scored, that reach the threshold, in row order. */
  function Admitted(ratio: RatioFn, a: Analysis, rows: seq<LocalRecord>): (r: seq<Item>)
    ensures |r| <= |rows|
    ensures forall x :: x in r ==> (x.origin == Local && x.score >= LocalThreshold
                                    && x.score == Score(ratio, a, x.show))
  {
    if rows == [] then []
    else
      var prefix := Admitted(ratio, a, rows[..|rows| - 1]);
      var s := ToShow(rows[|rows| - 1]);
      var score := Score(ratio, a, s);
      if score >= LocalThreshold then prefix + [Item(s, Local, score)] else prefix
  }

  /** One step of the dataset loop: the next row is appended when it reaches the threshold. */
  lemma AdmittedSnoc(ratio: RatioFn, a: Analysis, rows: seq<LocalRecord>, i: nat)
    requires i < |rows|
    ensures var s := ToShow(rows[i]);
            var score := Score(ratio, a, s);
            Admitted(ratio, a, rows[..i + 1])
            == Admitted(ratio, a, rows[..i]) + (if score >= LocalThreshold then [Item(s, Local, score)] else [])
  {
    assert rows[..i + 1][..i] == rows[..i];
  }

  /** Every admitted item is the normalised show of some dataset row. */
  lemma {:induction false} AdmittedFromRows(ratio: RatioFn, a: Analysis, rows: seq<LocalRecord>, x: Item)
    requires x in Admitted(ratio, a, rows)
    ensures exists k :: 0 <= k < |rows| && x.show == ToShow(rows[k])
  {
    var n := |rows| - 1;
    if x in Admitted(ratio, a, rows[..n]) {
      AdmittedFromRows(ratio, a, rows[..n], x);
      var k :| 0 <= k < n && x.show == ToShow(rows[..n][k]);
      assert rows[..n][k] == rows[k];
    } else {
      assert x.show == ToShow(rows[n]);
    }
  }

  /** A dataset row is admitted exactly when its show scores at least 0.3. */
  lemma {:induction false} AdmittedIff(ratio: RatioFn, a: Analysis, rows: seq<LocalRecord>, k: nat)
    requires k < |rows|
    ensures Item(ToShow(rows[k]), Local, Score(ratio, a, ToShow(rows[k]))) in Admitted(ratio, a, rows)
            <==> Score(ratio, a, ToShow(rows[k])) >= LocalThreshold
  {
    if k < |rows| - 1 {
      assert rows[..|rows| - 1][k] == rows[k];
      AdmittedIff(ratio, a, rows[..|rows| - 1], k);
    }
  }

  /** `search_local_dataset`: the admitted rows, sorted by score, highest first. */
  function LocalResults(ratio: RatioFn, a: Analysis, rows: seq<LocalRecord>): (r: seq<Item>)
    ensures forall x :: x in r ==> x.origin == Local && x.score >= LocalThreshold
    ensures SortedDesc(r)
    ensures multiset(r) == multiset(Admitted(ratio, a, rows))
    ensures forall v :: WithScore(r, v) == WithScore(Admitted(ratio, a, rows), v)
  {
    var admitted := Admitted(ratio, a, rows);
    SortedMembers(admitted);
    SortDesc(admitted)
  }

  // ----- Deduplication by name -----

  /** The item at position `k` is the first with its name. */
  predicate FirstOccurrence(items: seq<Item>, k: int)
    requires 0 <= k < |items|
  {
    forall j :: 0 <= j < k ==> items[j].show.name != items[k].show.name
  }

  /** The items that are the first with their name, in their original order:
      the reference definition of the `seen`/`unique_recommendations` loop. */
  function Dedup(items: seq<Item>): (r: seq<Item>)
    ensures |r| <= |items|
  {
    if items == [] then []
    else
      Dedup(items[..|items| - 1])
      + (if FirstOccurrence(items, |items| - 1) then [items[|items| - 1]] else [])
  }

  /** The positions of the first occurrences of the names, in increasing order. */
  function FirstPositions(items: seq<Item>): (ps: seq<nat>)
    ensures forall j :: 0 <= j < |ps| ==> ps[j] < |items| && FirstOccurrence(items, ps[j])
    ensures forall i, j :: 0 <= i < j < |ps| ==> ps[i] < ps[j]
    ensures forall k :: 0 <= k < |items| && FirstOccurrence(items, k) ==> k in ps
  {
    if items == [] then []
    else
      var n := |items| - 1;
      var prev := FirstPositions(items[..n]);
      FirstOccurrencesOfPrefix(items, n);
      prev + (if FirstOccurrence(items, n) then [n] else [])
  }

  lemma FirstOccurrencesOfPrefix(items: seq<Item>, n: int)
    requires 0 <= n <= |items|
    ensures forall k :: 0 <= k < n ==> (FirstOccurrence(items[..n], k) <==> FirstOccurrence(items, k))
  {
    forall k | 0 <= k < n ensures FirstOccurrence(items[..n], k) <==> FirstOccurrence(items, k) {
      FirstOccurrencePrefix(items, n, k);
    }
  }

  /** The deduplicated list is the input read at the first-occurrence positions, in order: the
      kept items keep their input order. */
  lemma {:induction false} DedupKeepsOrder(items: seq<Item>)
    ensures |Dedup(items)| == |FirstPositions(items)|
    ensures forall j :: 0 <= j < |Dedup(items)| ==> Dedup(items)[j] == items[FirstPositions(items)[j]]
  {
    if items != [] {
      var n := |items| - 1;
      DedupKeepsOrder(items[..n]);
      var d := Dedup(items[..n]);
      var ps := FirstPositions(items[..n]);
      forall j | 0 <= j < |d| ensures d[j] == items[ps[j]] {
        assert items[..n][ps[j]] == items[ps[j]];
      }
    }
  }

  /** Some entry carries the name. */
  predicate HasName(items: seq<Item>, n: string) {
    exists i :: 0 <= i < |items| && items[i].show.name == n
  }

  /** A name occurs in the deduplicated list exactly when it occurs in the input. */
  lemma {:induction false} DedupNames(items: seq<Item>, n: string)
    ensures HasName(Dedup(items), n) <==> HasName(items, n)
  {
    if items != [] {
      var k := |items| - 1;
      var prefix := items[..k];
      DedupNames(prefix, n);
      HasNameSnoc(items, k, n);
      assert items[..k + 1] == items;
      var tail := if FirstOccurrence(items, k) then [items[k]] else [];
      HasNameAppend(Dedup(prefix), tail, n);
      if !HasName(prefix, n) && items[k].show.name == n {
        forall j | 0 <= j < k ensures items[j].show.name != n {
          assert prefix[j] == items[j];
        }
        assert FirstOccurrence(items, k);
        assert tail[0].show.name == n;
      }
    }
  }

  lemma HasNameAppend(xs: seq<Item>, ys: seq<Item>, n: string)
    ensures HasName(xs + ys, n) <==> HasName(xs, n) || HasName(ys, n)
  {
    var r := xs + ys;
    if HasName(xs, n) {
      var i :| 0 <= i < |xs| && xs[i].show.name == n;
      assert r[i] == xs[i];
    }
    if HasName(ys, n) {
      var i :| 0 <= i < |ys| && ys[i].show.name == n;
      assert r[|xs| + i] == ys[i];
    }
    if HasName(r, n) {
      var i :| 0 <= i < |r| && r[i].show.name == n;
      if i < |xs| { assert xs[i] == r[i]; } else { assert ys[i - |xs|] == r[i]; }
    }
  }

  /** No two entries of the deduplicated list share a name. */
  lemma {:induction false} DedupUnique(items: seq<Item>)
    ensures UniqueNames(Dedup(items))
  {
    if items != [] {
      var k := |items| - 1;
      var prefix := items[..k];
      var last := items[k];
      DedupUnique(prefix);
      if FirstOccurrence(items, k) {
        var d := Dedup(prefix);
        DedupNames(prefix, last.show.name);
        assert !HasName(prefix, last.show.name) by {
          forall i | 0 <= i < |prefix| ensures prefix[i].show.name != last.show.name {
            assert prefix[i] == items[i];
          }
        }
        assert !HasName(d, last.show.name);
        var r := d + [last];
        assert Dedup(items) == r;
        forall i, j | 0 <= i < j < |r| ensures r[i].show.name != r[j].show.name {
          if j == |d| { assert r[i] == d[i]; }
        }
      }
    }
  }

  /** A name occurs in a one-longer prefix when it occurs in the prefix or is the new entry's. */
  lemma HasNameSnoc(items: seq<Item>, i: int, n: string)
    requires 0 <= i < |items|
    ensures HasName(items[..i + 1], n) <==> HasName(items[..i], n) || items[i].show.name == n
  {
    var p := items[..i + 1];
    assert p[i] == items[i];
    if HasName(items[..i], n) {
      var j :| 0 <= j < i && items[..i][j].show.name == n;
      assert p[j] == items[..i][j];
    }
    if HasName(p, n) && items[i].show.name != n {
      var j :| 0 <= j < i + 1 && p[j].show.name == n;
      assert items[..i][j] == p[j];
    }
  }

  /** One step of the `seen`-set loop: the next entry is kept exactly when its name is unseen. */
  lemma DedupSnoc(items: seq<Item>, i: int, seen: set<string>)
    requires 0 <= i < |items|
    requires forall n :: n in seen <==> HasName(items[..i], n)
    ensures Dedup(items[..i + 1])
            == Dedup(items[..i]) + (if items[i].show.name in seen then [] else [items[i]])
  {
    var p := items[..i + 1];
    assert p[..i] == items[..i];
    assert FirstOccurrence(p, i) <==> items[i].show.name !in seen by {
      if items[i].show.name in seen {
        var j :| 0 <= j < i && items[..i][j].show.name == items[i].show.name;
        assert p[j].show.name == p[i].show.name;
      } else {
        forall j | 0 <= j < i ensures p[j].show.name != p[i].show.name {
          assert items[..i][j] == p[j];
        }
      }
    }
  }

  /** Every entry of the deduplicated list is the first occurrence of its name in the input,
      and every first occurrence is kept. */
  lemma {:induction false} DedupKeepsFirst(items: seq<Item>)
    ensures forall x :: x in Dedup(items) ==> exists k :: 0 <= k < |items| && items[k] == x && FirstOccurrence(items, k)
    ensures forall k :: 0 <= k < |items| && FirstOccurrence(items, k) ==> items[k] in Dedup(items)
  {
    if items != [] {
      var n := |items| - 1;
      var prefix := items[..n];
      DedupKeepsFirst(prefix);
      forall x | x in Dedup(items)
        ensures exists k :: 0 <= k < |items| && items[k] == x && FirstOccurrence(items, k)
      {
        if x in Dedup(prefix) {
          var k :| 0 <= k < |prefix| && prefix[k] == x && FirstOccurrence(prefix, k);
          FirstOccurrencePrefix(items, n, k);
        } else {
          assert items[n] == x && FirstOccurrence(items, n);
        }
      }
      forall k | 0 <= k < |items| && FirstOccurrence(items, k) ensures items[k] in Dedup(items) {
        if k < n {
          FirstOccurrencePrefix(items, n, k);
        }
      }
    }
  }

  /** Whether an entry is the first with its name does not depend on what follows it. */
  lemma FirstOccurrencePrefix(items: seq<Item>, n: int, k: int)
    requires 0 <= k < n <= |items|
    ensures items[..n][k] == items[k]
    ensures FirstOccurrence(items[..n], k) <==> FirstOccurrence(items, k)
  {
    var p := items[..n];
    assert forall j :: 0 <= j < k ==> p[j] == items[j];
  }

  // ----- The stable sort by score, highest first -----

  predicate SortedDesc(items: seq<Item>) {
    forall i, j :: 0 <= i < j < |items| ==> items[i].score >= items[j].score
  }

  /** Places `x` before the first entry that does not score more than it. */
  function Insert(x: Item, sorted: seq<Item>): (r: seq<Item>)
    ensures |r| == |sorted| + 1
  {
    if sorted == [] || x.score >= sorted[0].score then [x] + sorted
    else [sorted[0]] + Insert(x, sorted[1..])
  }

  /** `list.sort(key=score, reverse=True)`: a stable sort, highest score first. The result is
      descending, holds the same entries, and entries with equal scores keep their original
      relative order. */
  function SortDesc(items: seq<Item>): (r: seq<Item>)
    ensures |r| == |items|
    ensures SortedDesc(r)
    ensures multiset(r) == multiset(items)
    ensures forall v :: WithScore(r, v) == WithScore(items, v)
  {
    if items == [] then []
    else
      var rest := SortDesc(items[1..]);
      InsertStep(items, rest);
      Insert(items[0], rest)
  }

  /** The entries with the given score, in order. */
  function WithScore(items: seq<Item>, v: real): seq<Item> {
    if items == [] then []
    else (if items[0].score == v then [items[0]] else []) + WithScore(items[1..], v)
  }

  /** Inserting adds exactly `x` to the entries. */
  lemma {:induction false} InsertMultiset(x: Item, sorted: seq<Item>)
    ensures multiset(Insert(x, sorted)) == multiset(sorted) + multiset{x}
  {
    if !(sorted == [] || x.score >= sorted[0].score) {
      InsertMultiset(x, sorted[1..]);
      assert sorted == [sorted[0]] + sorted[1..];
    }
  }

  /** Sorting keeps exactly the entries it was given. */
  lemma SortedMembers(items: seq<Item>)
    ensures forall x :: x in SortDesc(items) <==> x in items
  {
    forall x ensures x in SortDesc(items) <==> x in items {
      assert x in SortDesc(items) <==> x in multiset(SortDesc(items));
      assert x in items <==> x in multiset(items);
    }
  }

  /** Inserting into a descending list keeps it descending. */
  lemma {:induction false} InsertSorted(x: Item, sorted: seq<Item>)
    requires SortedDesc(sorted)
    ensures SortedDesc(Insert(x, sorted))
  {
    if sorted == [] || x.score >= sorted[0].score {
      ConsSorted(x, sorted);
    } else {
      var rest := sorted[1..];
      SortedTail(sorted);
      InsertSorted(x, rest);
      InsertMultiset(x, rest);
      forall y | y in Insert(x, rest) ensures sorted[0].score >= y.score {
        assert y in multiset(Insert(x, rest));
      }
      ConsSorted(sorted[0], Insert(x, rest));
    }
  }

  /** A descending list stays descending under a head that scores at least as much as every entry. */
  lemma ConsSorted(h: Item, t: seq<Item>)
    requires SortedDesc(t)
    requires forall y :: y in t ==> h.score >= y.score
    ensures SortedDesc([h] + t)
  {
    var r := [h] + t;
    forall i, j | 0 <= i < j < |r| ensures r[i].score >= r[j].score {
      assert r[j] == t[j - 1];
      if i > 0 { assert r[i] == t[i - 1]; }
    }
  }

  /** The tail of a descending list is descending and bounded by its head. */
  lemma SortedTail(s: seq<Item>)
    requires SortedDesc(s) && s != []
    ensures SortedDesc(s[1..])
    ensures forall y :: y in s[1..] ==> s[0].score >= y.score
  {
    forall y | y in s[1..] ensures s[0].score >= y.score {
      var k :| 0 <= k < |s| - 1 && s[1..][k] == y;
      assert s[k + 1] == y;
    }
  }

  /** The entries of a list with a given score are those of its head, then of its tail. */
  lemma WithScoreCons(y: Item, rest: seq<Item>, v: real)
    ensures WithScore([y] + rest, v) == (if y.score == v then [y] else []) + WithScore(rest, v)
  {
    assert ([y] + rest)[1..] == rest;
  }

  /** Inserting `x` into a descending list puts it before every entry with its score. */
  lemma {:induction false} InsertStable(x: Item, sorted: seq<Item>, v: real)
    requires SortedDesc(sorted)
    ensures WithScore(Insert(x, sorted), v) == (if x.score == v then [x] else []) + WithScore(sorted, v)
  {
    if sorted == [] || x.score >= sorted[0].score {
      WithScoreCons(x, sorted, v);
    } else {
      var rest := sorted[1..];
      var ins := Insert(x, rest);
      assert sorted == [sorted[0]] + rest;
      assert Insert(x, sorted) == [sorted[0]] + ins;
      assert SortedDesc(rest) by {
        forall i, j | 0 <= i < j < |rest| ensures rest[i].score >= rest[j].score {
          assert rest[i] == sorted[i + 1] && rest[j] == sorted[j + 1];
        }
      }
      InsertStable(x, rest, v);
      WithScoreCons(sorted[0], ins, v);
      WithScoreCons(sorted[0], rest, v);
      assert x.score == v ==> sorted[0].score != v;
    }
  }

  /** Inserting the head into the sorted tail sorts the whole list. */
  lemma InsertStep(items: seq<Item>, rest: seq<Item>)
    requires items != []
    requires SortedDesc(rest) && multiset(rest) == multiset(items[1..])
    requires forall v :: WithScore(rest, v) == WithScore(items[1..], v)
    ensures SortedDesc(Insert(items[0], rest))
    ensures multiset(Insert(items[0], rest)) == multiset(items)
    ensures forall v :: WithScore(Insert(items[0], rest), v) == WithScore(items, v)
  {
    InsertSorted(items[0], rest);
    InsertMultiset(items[0], rest);
    assert items == [items[0]] + items[1..];
    forall v ensures WithScore(Insert(items[0], rest), v) == WithScore(items, v) {
      InsertStable(items[0], rest, v);
      WithScoreCons(items[0], items[1..], v);
    }
  }

  // ----- The pool -----

  /** The remote results followed by the local results: the encounter order of the merge.
      Every remote item comes before every local one. */
  function Merged(ratio: RatioFn, a: Analysis, search: Search, rows: seq<LocalRecord>): (r: seq<Item>)
    ensures forall i, j :: 0 <= i < j < |r| && r[j].origin == Remote ==> r[i].origin == Remote
  {
    var remote := RemoteResults(ratio, a, search);
    var local := LocalResults(ratio, a, rows);
    RemoteResultsMembers(ratio, a, search);
    var r := remote + local;
    assert forall j :: |remote| <= j < |r| ==> r[j] in local;
    assert forall i :: 0 <= i < |remote| ==> r[i] in remote;
    r
  }

  /** The rebuilt pool: the merged results, deduplicated by name, stably sorted by score. Its
      names are unique and its scores do not increase. */
  function BuildPool(ratio: RatioFn, a: Analysis, search: Search, rows: seq<LocalRecord>): (pool: seq<Item>)
    ensures UniqueNames(pool)
    ensures SortedDesc(pool)
  {
    var d := Dedup(Merged(ratio, a, search, rows));
    DedupUnique(Merged(ratio, a, search, rows));
    SortKeepsUnique(d);
    SortDesc(d)
  }

  /** Every pool entry is the first occurrence of its name in remote-then-local order; equal
      scores keep that order; and every name either source found is in the pool. */
  lemma PoolIsFirstOccurrences(ratio: RatioFn, a: Analysis, search: Search, rows: seq<LocalRecord>)
    ensures var merged := Merged(ratio, a, search, rows);
            var pool := BuildPool(ratio, a, search, rows);
            && (forall x :: x in pool ==> exists k :: 0 <= k < |merged| && merged[k] == x && FirstOccurrence(merged, k))
            && (forall k :: 0 <= k < |merged| && FirstOccurrence(merged, k) ==> merged[k] in pool)
            && (forall v :: WithScore(pool, v) == WithScore(Dedup(merged), v))
            && (forall n :: HasName(merged, n) ==> HasName(pool, n))
  {
    var merged := Merged(ratio, a, search, rows);
    var d := Dedup(merged);
    DedupKeepsFirst(merged);
    SortedMembers(d);
    forall n | HasName(merged, n) ensures HasName(BuildPool(ratio, a, search, rows), n) {
      DedupNames(merged, n);
      var i :| 0 <= i < |d| && d[i].show.name == n;
      assert d[i] in SortDesc(d);
    }
  }

  /** Only local shows that reach the threshold are in the pool; remote shows are not filtered. */
  lemma PoolLocalThreshold(ratio: RatioFn, a: Analysis, search: Search, rows: seq<LocalRecord>)
    ensures forall x :: x in BuildPool(ratio, a, search, rows) && x.origin == Local ==> x.score >= LocalThreshold
  {
    RemoteResultsMembers(ratio, a, search);
    MergeKeepsThreshold(RemoteResults(ratio, a, search), LocalResults(ratio, a, rows));
  }

  /** Every show a successful catalog query returned has its name in the pool, whatever its
      score: the remote half of the pool is not filtered. */
  lemma RemoteShowsReachPool(ratio: RatioFn, a: Analysis, search: Search, rows: seq<LocalRecord>, s: Show)
    requires ReturnedFor(search, IssuedQueries(ratio, a, search), s)
    ensures HasName(BuildPool(ratio, a, search, rows), s.name)
  {
    var remote := RemoteResults(ratio, a, search);
    var merged := Merged(ratio, a, search, rows);
    RemoteResultsMembers(ratio, a, search);
    var x := Item(s, Remote, Score(ratio, a, s));
    assert x in remote;
    var i :| 0 <= i < |remote| && remote[i] == x;
    assert merged[i] == x;
    PoolIsFirstOccurrences(ratio, a, search, rows);
  }

  lemma MergeKeepsThreshold(remote: seq<Item>, local: seq<Item>)
    requires forall x :: x in remote ==> x.origin == Remote
    requires forall x :: x in local ==> x.score >= LocalThreshold
    ensures forall x :: x in SortDesc(Dedup(remote + local)) && x.origin == Local ==> x.score >= LocalThreshold
  {
    var merged := remote + local;
    var d := Dedup(merged);
    DedupKeepsFirst(merged);
    SortedMembers(d);
    forall x | x in SortDesc(d) && x.origin == Local ensures x.score >= LocalThreshold {
      assert x in d;
      var k :| 0 <= k < |merged| && merged[k] == x && FirstOccurrence(merged, k);
      assert x in merged;
    }
  }

  /** Sorting a list with unique names keeps the names unique. */
  lemma {:induction false} SortKeepsUnique(items: seq<Item>)
    requires UniqueNames(items)
    ensures UniqueNames(SortDesc(items))
  {
    if items != [] {
      var rest := items[1..];
      SortKeepsUnique(rest);
      SortedMembers(rest);
      forall y | y in SortDesc(rest) ensures y.show.name != items[0].show.name {
        var k :| 0 <= k < |rest| && rest[k] == y;
        assert items[k + 1] == y;
      }
      InsertKeepsUnique(items[0], SortDesc(rest));
    }
  }

  lemma {:induction false} InsertKeepsUnique(x: Item, sorted: seq<Item>)
    requires UniqueNames(sorted)
    requires forall y :: y in sorted ==> y.show.name != x.show.name
    ensures UniqueNames(Insert(x, sorted))
  {
    if sorted == [] || x.score >= sorted[0].score {
      ConsUnique(x, sorted);
    } else {
      var rest := sorted[1..];
      UniqueTail(sorted);
      InsertKeepsUnique(x, rest);
      InsertMultiset(x, rest);
      forall y | y in Insert(x, rest) ensures y.show.name != sorted[0].show.name {
        assert y in multiset(Insert(x, rest));
      }
      ConsUnique(sorted[0], Insert(x, rest));
    }
  }

  /** Unique names survive putting an entry of a new name in front. */
  lemma ConsUnique(h: Item, t: seq<Item>)
    requires UniqueNames(t)
    requires forall y :: y in t ==> y.show.name != h.show.name
    ensures UniqueNames([h] + t)
  {
    var r := [h] + t;
    forall i, j | 0 <= i < j < |r| ensures r[i].show.name != r[j].show.name {
      assert r[j] == t[j - 1];
      if i > 0 { assert r[i] == t[i - 1]; }
    }
  }

  /** The tail of a list with unique names has unique names, none of them the head's. */
  lemma UniqueTail(s: seq<Item>)
    requires UniqueNames(s) && s != []
    ensures UniqueNames(s[1..])
    ensures forall y :: y in s[1..] ==> y.show.name != s[0].show.name
  {
    forall y | y in s[1..] ensures y.show.name != s[0].show.name {
      var k :| 0 <= k < |s| - 1 && s[1..][k] == y;
      assert s[k + 1] == y;
    }
  }
}
