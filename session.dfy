/**
 * The per-user session rules of `ShmaliBot`, as functions of explicit state:
 * when the pool is rebuilt (`is_new_topic` and the first-use test of
 * `get_recommendations`), which item is delivered next, and how the bounded
 * conversation log of `GPTAnalyzer` grows. The classes in module Bot apply
 * these to their fields.
 */
module Session {

  import opened Wrappers
  import opened Records
  import opened Pool

  /** The number of exchanges kept per user. */
  const HistoryLimit: nat := 5

  /** The topics of an analysis as a set: order and repetition do not matter. */
  function TopicSet(a: Analysis): set<string> {
    set t | t in a.topics
  }

  /** `is_new_topic`: true for a user without a log; false while the log has fewer than two
      exchanges; otherwise whether the topics differ, as sets, from those of the second-to-last
      exchange. */
  function IsNewTopic(a: Analysis, history: map<UserId, seq<Exchange>>, user: UserId): (b: bool)
    ensures user !in history ==> b
    ensures user in history && |history[user]| < 2 ==> !b
    ensures user in history && |history[user]| >= 2 ==>
              (b <==> TopicSet(a) != TopicSet(history[user][|history[user]| - 2].analysis))
  {
    if user !in history then true
    else
      var log := history[user];
      if |log| < 2 then false
      else TopicSet(a) != TopicSet(log[|log| - 2].analysis)
  }

  /** Only which topics occur matters, not their order or repetition: with two or more logged
      exchanges, a request is a new topic exactly when some topic occurs in it but not in the
      second-to-last exchange, or the other way round. */
  lemma NewTopicIff(a: Analysis, history: map<UserId, seq<Exchange>>, user: UserId)
    requires user in history && |history[user]| >= 2
    ensures var prev := history[user][|history[user]| - 2].analysis;
            IsNewTopic(a, history, user) <==> exists t :: (t in a.topics) != (t in prev.topics)
  {
    var prev := history[user][|history[user]| - 2].analysis;
    if forall t :: (t in a.topics) == (t in prev.topics) {
      assert TopicSet(a) == TopicSet(prev) by {
        forall t ensures t in TopicSet(a) <==> t in TopicSet(prev) {
          assert (t in a.topics) == (t in prev.topics);
        }
      }
    } else {
      var t :| (t in a.topics) != (t in prev.topics);
      assert (t in TopicSet(a)) != (t in TopicSet(prev));
    }
  }

  /** The conversation log after recording an exchange: appended, then cut to the newest five. */
  function Remember(log: seq<Exchange>, e: Exchange): (r: seq<Exchange>)
    ensures 0 < |r| <= HistoryLimit && r[|r| - 1] == e
    ensures |log| < HistoryLimit ==> r == log + [e]
    ensures r == (log + [e])[|log| + 1 - |r|..]
    ensures |log| >= HistoryLimit ==> |r| == HistoryLimit
  {
    var l := log + [e];
    assert l[|l| - 1] == e && |l| == |log| + 1;
    if |l| > HistoryLimit then
      l[|l| - HistoryLimit..]
    else
      assert l[0..] == l;
      l
  }

  /** The first pool item whose name has not been shown. */
  function NextUnshown(pool: seq<Item>, shown: seq<string>): (r: Option<Item>)
    ensures r.Some? ==> exists k :: 0 <= k < |pool| && pool[k] == r.value && r.value.show.name !in shown
                                 && forall j :: 0 <= j < k ==> pool[j].show.name in shown
    ensures r.None? <==> forall k :: 0 <= k < |pool| ==> pool[k].show.name in shown
  {
    if pool == [] then None
    else if pool[0].show.name !in shown then Some(pool[0])
    else
      assert forall j :: 1 <= j < |pool| ==> pool[j] == pool[1..][j - 1];
      NextUnshown(pool[1..], shown)
  }

  /** With unique names, once the first `k` pool items have been shown the next one is item `k`,
      and nothing once the pool is used up. */
  lemma DeliversInOrder(pool: seq<Item>, k: nat)
    requires UniqueNames(pool) && k <= |pool|
    ensures NextUnshown(pool, Names(pool[..k])) == if k < |pool| then Some(pool[k]) else None
  {
    var shown := Names(pool[..k]);
    forall j | 0 <= j < k ensures pool[j].show.name in shown {
      assert shown[j] == pool[j].show.name;
    }
    if k < |pool| {
      assert pool[k].show.name !in shown by {
        forall j | 0 <= j < k ensures shown[j] != pool[k].show.name {
          assert shown[j] == pool[j].show.name;
        }
      }
      var r := NextUnshown(pool, shown);
      var m :| 0 <= m < |pool| && pool[m] == r.value && r.value.show.name !in shown
               && forall j :: 0 <= j < m ==> pool[j].show.name in shown;
      assert m == k;
    }
  }

  /** One delivery from a pool whose first items have been shown: the next item, whose name
      extends the shown prefix by one. */
  lemma DeliverStep(pool: seq<Item>, before: seq<string>)
    requires UniqueNames(pool) && |before| <= |pool| && before == Names(pool[..|before|])
    ensures NextUnshown(pool, before).Some? <==> |before| < |pool|
    ensures NextUnshown(pool, before).Some? ==>
              NextUnshown(pool, before).value == pool[|before|]
              && before + [pool[|before|].show.name] == Names(pool[..|before| + 1])
  {
    var k := |before|;
    DeliversInOrder(pool, k);
    if k < |pool| {
      NamesSnoc(pool, k);
    }
  }

  /** The names of one more item of the pool. */
  lemma NamesSnoc(items: seq<Item>, k: nat)
    requires k < |items|
    ensures Names(items[..k + 1]) == Names(items[..k]) + [items[k].show.name]
  {
    var l := Names(items[..k + 1]);
    var r := Names(items[..k]) + [items[k].show.name];
    assert |l| == |r|;
    forall i | 0 <= i < |l| ensures l[i] == r[i] {
      assert items[..k + 1][i] == items[i];
    }
  }

  /** Writing back a key's own value leaves a map as it was. */
  lemma UpdateSame<K, V>(m: map<K, V>, k: K)
    requires k in m
    ensures m[k := m[k]] == m
  {
  }

  /** A second write to a key replaces the first. */
  lemma UpdateTwice<K, V>(m: map<K, V>, k: K, v: V, w: V)
    ensures m[k := v][k := w] == m[k := w]
  {
  }

  /** The per-user maps `available_recommendations` and `shown_recommendations`. */
  datatype Sessions = Sessions(available: map<UserId, seq<Item>>, shown: map<UserId, seq<string>>)

  /** The maps hold the same users; each pool has unique names; and what a user has been shown
      is exactly the names of a prefix of their pool, since items are handed out in order. */
  predicate Consistent(s: Sessions) {
    && s.available.Keys == s.shown.Keys
    && forall u :: u in s.available ==>
         && UniqueNames(s.available[u])
         && |s.shown[u]| <= |s.available[u]|
         && s.shown[u] == Names(s.available[u][..|s.shown[u]|])
  }

  /** `get_recommendations` rebuilds the pool for a user without one, or on a new topic: for a
      user with no log, or with two or more logged exchanges the second-to-last of which has
      other topics. */
  function Rebuilds(s: Sessions, history: map<UserId, seq<Exchange>>, a: Analysis, user: UserId): (b: bool)
    ensures b <==> || user !in s.available || user !in history
                   || (|history[user]| >= 2 && TopicSet(a) != TopicSet(history[user][|history[user]| - 2].analysis))
  {
    user !in s.available || IsNewTopic(a, history, user)
  }

  /** One call of `get_recommendations`, with `rebuilt` the pool a rebuild would produce: the new
      maps and the delivered list (one item, or none when everything has been shown). */
  function Serve(s: Sessions, history: map<UserId, seq<Exchange>>, a: Analysis, user: UserId, rebuilt: seq<Item>)
    : (result: (Sessions, seq<Item>))
    requires s.available.Keys == s.shown.Keys
    ensures |result.1| <= 1
    ensures result.0.available.Keys == s.available.Keys + {user}
    ensures result.0.shown.Keys == s.shown.Keys + {user}
    ensures forall u :: u != user && u in s.available ==>
              result.0.available[u] == s.available[u] && result.0.shown[u] == s.shown[u]
  {
    var rebuild := Rebuilds(s, history, a, user);
    var pool := if rebuild then rebuilt else s.available[user];
    var before := if rebuild then [] else s.shown[user];
    match NextUnshown(pool, before)
    case Some(x) => (Sessions(s.available[user := pool], s.shown[user := before + [x.show.name]]), [x])
    case None => (Sessions(s.available[user := pool], s.shown[user := before]), [])
  }

  /** A call keeps the maps consistent when the rebuilt pool has unique names; a delivered item
      is new to the user and its name is what gets recorded. */
  lemma ServeKeepsConsistent(s: Sessions, history: map<UserId, seq<Exchange>>, a: Analysis, user: UserId, rebuilt: seq<Item>)
    requires Consistent(s) && UniqueNames(rebuilt)
    ensures Consistent(Serve(s, history, a, user, rebuilt).0)
    ensures var (s2, recs) := Serve(s, history, a, user, rebuilt);
            var before := if Rebuilds(s, history, a, user) then [] else s.shown[user];
            recs != [] ==> (&& recs[0] in s2.available[user]
                            && recs[0].show.name !in before
                            && s2.shown[user] == before + [recs[0].show.name])
  {
    var rebuild := Rebuilds(s, history, a, user);
    var pool := if rebuild then rebuilt else s.available[user];
    var before := if rebuild then [] else s.shown[user];
    assert before == Names(pool[..|before|]);
    DeliverStep(pool, before);
    var s2 := Serve(s, history, a, user, rebuilt).0;
    assert s2.available == s.available[user := pool];
    match NextUnshown(pool, before)
    case Some(x) =>
      assert s2.shown == s.shown[user := before + [x.show.name]];
    case None =>
      assert s2.shown == s.shown[user := before];
    forall u | u in s2.available
      ensures && UniqueNames(s2.available[u])
              && |s2.shown[u]| <= |s2.available[u]|
              && s2.shown[u] == Names(s2.available[u][..|s2.shown[u]|])
    {
      if u != user {
        assert s2.available[u] == s.available[u] && s2.shown[u] == s.shown[u];
      }
    }
  }

  /** Exhaustion: once every pool name has been shown, a call on the same topic delivers nothing
      and changes nothing, so repeated calls stay empty until a rebuild. */
  lemma ExhaustedStaysEmpty(s: Sessions, history: map<UserId, seq<Exchange>>, a: Analysis, user: UserId, rebuilt: seq<Item>)
    requires Consistent(s) && !Rebuilds(s, history, a, user)
    requires |s.shown[user]| == |s.available[user]|
    ensures Serve(s, history, a, user, rebuilt) == (s, [])
  {
    var pool := s.available[user];
    DeliversInOrder(pool, |pool|);
    assert pool[..|pool|] == pool;
    assert s.available[user := pool] == s.available;
    assert s.shown[user := s.shown[user]] == s.shown;
  }

  /** Without a rebuild, the item delivered is the pool item right after those already shown. */
  lemma ContinuesInOrder(s: Sessions, history: map<UserId, seq<Exchange>>, a: Analysis, user: UserId, rebuilt: seq<Item>)
    requires Consistent(s) && !Rebuilds(s, history, a, user)
    requires |s.shown[user]| < |s.available[user]|
    ensures Serve(s, history, a, user, rebuilt).1 == [s.available[user][|s.shown[user]|]]
  {
    DeliversInOrder(s.available[user], |s.shown[user]|);
  }

  /** A rebuild starts from an empty shown list: the delivered item is the top of the rebuilt pool
      and the user's shown list holds exactly its name. */
  lemma RebuildStartsOver(s: Sessions, history: map<UserId, seq<Exchange>>, a: Analysis, user: UserId, rebuilt: seq<Item>)
    requires s.available.Keys == s.shown.Keys && Rebuilds(s, history, a, user)
    ensures var (s2, recs) := Serve(s, history, a, user, rebuilt);
            && s2.available[user] == rebuilt
            && recs == (if rebuilt == [] then [] else [rebuilt[0]])
            && s2.shown[user] == (if rebuilt == [] then [] else [rebuilt[0].show.name])
  {
  }

  /** A "more" request analyses nothing new: it passes the newest logged analysis, while
      `is_new_topic` compares against the one before it. So right after a change of topic, a
      "more" request rebuilds again, clears what was shown and hands out the same item as the
      request before it. */
  lemma MoreAfterTopicChangeRepeats(s: Sessions, history: map<UserId, seq<Exchange>>, user: UserId, rebuilt: seq<Item>)
    requires s.available.Keys == s.shown.Keys
    requires user in history && |history[user]| >= 2
    requires var log := history[user];
             TopicSet(log[|log| - 1].analysis) != TopicSet(log[|log| - 2].analysis)
    ensures var a := history[user][|history[user]| - 1].analysis;
            var (s1, first) := Serve(s, history, a, user, rebuilt);
            var (s2, second) := Serve(s1, history, a, user, rebuilt);
            second == first && s2 == s1
  {
    var a := history[user][|history[user]| - 1].analysis;
    var (s1, first) := Serve(s, history, a, user, rebuilt);
    assert Rebuilds(s, history, a, user) && Rebuilds(s1, history, a, user);
    UpdateTwice(s.available, user, rebuilt, rebuilt);
    UpdateTwice(s.shown, user, s1.shown[user], s1.shown[user]);
  }

  /** When the newest two logged analyses have the same topic set, a "more" request continues
      the session instead: after a first delivery from a pool of two or more, it delivers the
      second item. */
  lemma MoreOnSameTopicContinues(s: Sessions, history: map<UserId, seq<Exchange>>, user: UserId, rebuilt: seq<Item>)
    requires Consistent(s) && UniqueNames(rebuilt) && |rebuilt| >= 2
    requires user in history && |history[user]| >= 2
    requires var log := history[user];
             TopicSet(log[|log| - 1].analysis) == TopicSet(log[|log| - 2].analysis)
    requires user !in s.available
    ensures var a := history[user][|history[user]| - 1].analysis;
            var (s1, first) := Serve(s, history, a, user, rebuilt);
            var (s2, second) := Serve(s1, history, a, user, rebuilt);
            first == [rebuilt[0]] && second == [rebuilt[1]]
  {
    var a := history[user][|history[user]| - 1].analysis;
    var (s1, first) := Serve(s, history, a, user, rebuilt);
    ServeKeepsConsistent(s, history, a, user, rebuilt);
    assert s1.available[user] == rebuilt && s1.shown[user] == [rebuilt[0].show.name];
    ContinuesInOrder(s1, history, a, user, rebuilt);
  }

  /** With "sports" as the topic of the next-to-last logged exchange, "sports" keeps the
      session and "tech" starts a new one. */
  lemma TopicChangeExamples(history: map<UserId, seq<Exchange>>, user: UserId, sports: Analysis, tech: Analysis)
    requires sports.topics == ["sports"] && tech.topics == ["tech"]
    requires user in history && |history[user]| >= 2
    requires history[user][|history[user]| - 2].analysis.topics == ["sports"]
    ensures !IsNewTopic(sports, history, user)
    ensures IsNewTopic(tech, history, user)
  {
    assert "tech" in TopicSet(tech);
    assert "tech" !in TopicSet(sports);
  }
}
