/**
 * The two stateful objects of the bot: `GPTAnalyzer`, which owns the per-user
 * conversation log, and `ShmaliBot`, which owns the per-user pools and shown
 * lists. Their methods update the fields step by step as the source does and
 * are proved against the reference functions of modules Classifier, Fallback,
 * Pool and Session. The language model's analysis, the external classifier's
 * verdict and the remote catalog are inputs.
 */
module Bot {

  import opened Wrappers
  import opened Records
  import opened Scorer
  import opened Classifier
  import opened Fallback
  import opened Pool
  import opened Session

  /** What `analyze_request` returns: a refusal carrying the gate's verdict, or an analysis. */
  datatype Outcome = OffTopic(verdict: Verdict) | OnTopic(analysis: Analysis)

  /** The user's log, empty when there is none. */
  function LogOf(history: map<UserId, seq<Exchange>>, user: UserId): seq<Exchange> {
    if user in history then history[user] else []
  }

  /** `GPTAnalyzer` with its `conversation_history`. */
  class Analyzer {
    var history: map<UserId, seq<Exchange>>

    /** Every stored log is within the bound and non-empty. */
    predicate Bounded()
      reads this
    {
      forall u :: u in history ==> 0 < |history[u]| <= HistoryLimit
    }

    constructor()
      ensures history == map[] && Bounded()
    {
      history := map[];
    }

    /** The history update of `analyze_request`: append, then keep the newest five. */
    method Record(user: UserId, e: Exchange)
      requires Bounded()
      modifies this
      ensures Bounded()
      ensures history == old(history)[user := Remember(LogOf(old(history), user), e)]
    {
      var log := if user in history then history[user] else [];
      ghost var before := log;
      log := log + [e];
      if |log| > HistoryLimit {
        log := log[|log| - HistoryLimit..];
      }
      assert log == Remember(before, e);
      assert 0 < |log| <= HistoryLimit;
      ghost var h := history;
      history := history[user := log];
      forall u | u in history ensures 0 < |history[u]| <= HistoryLimit {
        if u != user { assert history[u] == h[u]; }
      }
    }

    /** `analyze_request`, with `external` the classifier's answer (None when it failed) and
        `model` the language model's analysis (None when the call or its JSON failed). A request
        the gate turns away changes nothing; a model analysis is appended to the user's log,
        which is then cut to the newest five; the fallback analysis is not recorded. */
    method AnalyzeRequest(text: string, user: UserId, external: Option<Verdict>, model: Option<Analysis>)
      returns (outcome: Outcome)
      requires Bounded()
      modifies this
      ensures Bounded()
      ensures TurnedAway(CheckRelevance(text, external)) ==>
                outcome == OffTopic(CheckRelevance(text, external)) && history == old(history)
      ensures !TurnedAway(CheckRelevance(text, external)) && model.Some? ==>
                && outcome == OnTopic(model.value)
                && history == old(history)[user := Remember(LogOf(old(history), user), Exchange(text, model.value))]
      ensures !TurnedAway(CheckRelevance(text, external)) && model.None? ==>
                outcome == OnTopic(BasicAnalysis(text)) && history == old(history)
    {
      var verdict := CheckRelevance(text, external);
      if !verdict.related && verdict.confidence > 0.7 {
        return OffTopic(verdict);
      }
      match model {
        case None =>
          outcome := OnTopic(BasicAnalysis(text));
        case Some(result) =>
          Record(user, Exchange(text, result));
          outcome := OnTopic(result);
      }
    }
  }

  /** `ShmaliBot` with its dataset, its scorer's ratio function, its analyzer and the per-user
      maps `available_recommendations` and `shown_recommendations`. */
  class ShmaliBot {
    const analyzer: Analyzer
    const dataset: seq<LocalRecord>
    const ratio: RatioFn
    var available: map<UserId, seq<Item>>
    var shown: map<UserId, seq<string>>

    /** The session maps are consistent (module Session). */
    predicate Valid()
      reads this
    {
      Consistent(Sessions(available, shown))
    }

    constructor(analyzer: Analyzer, dataset: seq<LocalRecord>, ratio: RatioFn)
      ensures this.analyzer == analyzer && this.dataset == dataset && this.ratio == ratio
      ensures available == map[] && shown == map[] && Valid()
    {
      this.analyzer := analyzer;
      this.dataset := dataset;
      this.ratio := ratio;
      available := map[];
      shown := map[];
    }

    /** `search_local_dataset`: the admission loop over the rows, then the stable sort. */
    method SearchLocalDataset(a: Analysis) returns (results: seq<Item>)
      ensures results == LocalResults(ratio, a, dataset)
    {
      var found: seq<Item> := [];
      var i := 0;
      while i < |dataset|
        invariant 0 <= i <= |dataset|
        invariant found == Admitted(ratio, a, dataset[..i])
      {
        var s := ToShow(dataset[i]);
        var score := Score(ratio, a, s);
        AdmittedSnoc(ratio, a, dataset, i);
        if score >= LocalThreshold {
          found := found + [Item(s, Local, score)];
        }
        i := i + 1;
      }
      assert dataset[..i] == dataset;
      results := SortDesc(found);
    }

    /** The scoring loop over one query's results. */
    method ScoreResults(a: Analysis, shows: seq<Show>, origin: Origin) returns (scored: seq<Item>)
      ensures scored == ScoreAll(ratio, a, shows, origin)
    {
      scored := [];
      var j := 0;
      while j < |shows|
        invariant 0 <= j <= |shows|
        invariant scored == ScoreAll(ratio, a, shows[..j], origin)
      {
        ScoreAllSnoc(ratio, a, shows, j, origin);
        scored := scored + [Item(shows[j], origin, Score(ratio, a, shows[j]))];
        j := j + 1;
      }
      assert shows[..j] == shows;
    }

    /** The remote part of a rebuild: one query per topic, then the keyword query when fewer
        than five results came back and there are keywords. */
    method CollectRemote(a: Analysis, search: Search) returns (all: seq<Item>)
      ensures all == RemoteResults(ratio, a, search)
    {
      all := [];
      var i := 0;
      while i < |a.topics|
        invariant 0 <= i <= |a.topics|
        invariant all == TopicResults(ratio, a, search, a.topics[..i])
      {
        var scored := ScoreResults(a, Found(search(a.topics[i])), Remote);
        assert a.topics[..i + 1][..i] == a.topics[..i];
        all := all + scored;
        i := i + 1;
      }
      assert a.topics[..i] == a.topics;
      if |all| < 5 && a.keywords != [] {
        var scored := ScoreResults(a, Found(search(KeywordQuery(a.keywords))), Remote);
        all := all + scored;
      }
    }

    /** The `seen`/`unique_recommendations` loop: the first item of each name, in order. */
    method Deduplicate(items: seq<Item>) returns (unique: seq<Item>)
      ensures unique == Dedup(items)
    {
      var seen: set<string> := {};
      unique := [];
      var i := 0;
      while i < |items|
        invariant 0 <= i <= |items|
        invariant unique == Dedup(items[..i])
        invariant forall n :: n in seen <==> HasName(items[..i], n)
      {
        DedupSnoc(items, i, seen);
        if items[i].show.name !in seen {
          seen := seen + {items[i].show.name};
          unique := unique + [items[i]];
        }
        forall n ensures n in seen <==> HasName(items[..i + 1], n) {
          HasNameSnoc(items, i, n);
        }
        i := i + 1;
      }
      assert items[..i] == items;
    }

    /** The rebuild branch of `get_recommendations`: remote results, then local results, the
        first of each name kept, sorted by score. */
    method RebuildPool(a: Analysis, search: Search) returns (pool: seq<Item>)
      ensures pool == BuildPool(ratio, a, search, dataset)
      ensures UniqueNames(pool) && SortedDesc(pool)
    {
      var remote := CollectRemote(a, search);
      var local := SearchLocalDataset(a);
      var unique := Deduplicate(remote + local);
      pool := SortDesc(unique);
    }

    /** `get_recommendations`: on first use or a new topic, rebuild the pool (remote, then local,
        deduplicated, sorted) and clear the shown list; then hand out the first item not yet
        shown and record its name. The new maps and the result are those of `Serve` with the
        pool `BuildPool` would produce, so the maps stay consistent. */
    method GetRecommendations(a: Analysis, user: UserId, search: Search) returns (recs: seq<Item>)
      requires Valid()
      modifies this
      ensures Valid()
      ensures (Sessions(available, shown), recs)
              == Serve(Sessions(old(available), old(shown)), analyzer.history, a, user,
                       BuildPool(ratio, a, search, dataset))
    {
      ghost var s0 := Sessions(available, shown);
      ghost var rebuilt := BuildPool(ratio, a, search, dataset);
      var rebuild := user !in available || IsNewTopic(a, analyzer.history, user);
      if rebuild {
        shown := shown[user := []];
        available := available[user := []];
        var pool := RebuildPool(a, search);
        available := available[user := pool];
        UpdateTwice(s0.shown, user, [], []);
        UpdateTwice(s0.available, user, [], pool);
      } else {
        UpdateSame(s0.shown, user);
        UpdateSame(s0.available, user);
      }
      var pool := available[user];
      var before := shown[user];
      assert available == s0.available[user := pool];
      assert shown == s0.shown[user := before];
      assert rebuild == Rebuilds(s0, analyzer.history, a, user);
      assert pool == if rebuild then rebuilt else s0.available[user];
      assert before == if rebuild then [] else s0.shown[user];
      var next := FirstUnshown(pool, before);
      match next {
        case Some(x) =>
          shown := shown[user := before + [x.show.name]];
          UpdateTwice(s0.shown, user, before, before + [x.show.name]);
          recs := [x];
        case None =>
          recs := [];
      }
      ghost var served := Serve(s0, analyzer.history, a, user, rebuilt);
      assert (Sessions(available, shown), recs) == served;
      ServeKeepsConsistent(s0, analyzer.history, a, user, rebuilt);
      assert Consistent(served.0);
    }

    /** `reset`: the user is removed from the conversation log, the shown lists and the pools;
        every other user keeps their entries. */
    method Reset(user: UserId)
      requires Valid()
      modifies this, analyzer
      ensures Valid()
      ensures available == old(available) - {user} && shown == old(shown) - {user}
      ensures analyzer.history == old(analyzer.history) - {user}
    {
      if user in analyzer.history {
        analyzer.history := analyzer.history - {user};
      }
      if user in shown {
        shown := shown - {user};
      }
      if user in available {
        available := available - {user};
      }
    }
  }

  /** The delivery loop of `get_recommendations`: the first pool item whose name is not in
      the shown list. */
  method FirstUnshown(pool: seq<Item>, shown: seq<string>) returns (next: Option<Item>)
    ensures next == NextUnshown(pool, shown)
  {
    var i := 0;
    while i < |pool|
      invariant 0 <= i <= |pool|
      invariant NextUnshown(pool, shown) == NextUnshown(pool[i..], shown)
    {
      if pool[i].show.name !in shown {
        return Some(pool[i]);
      }
      assert pool[i..][1..] == pool[i + 1..];
      i := i + 1;
    }
    next := None;
  }

  /** After a reset the next call rebuilds, and delivers the top of the rebuilt pool. */
  lemma AfterResetStartsOver(s: Sessions, history: map<UserId, seq<Exchange>>, a: Analysis,
                             user: UserId, rebuilt: seq<Item>)
    requires Consistent(s)
    ensures var cleared := Sessions(s.available - {user}, s.shown - {user});
            var (s2, recs) := Serve(cleared, history - {user}, a, user, rebuilt);
            && recs == (if rebuilt == [] then [] else [rebuilt[0]])
            && s2.available[user] == rebuilt
            && s2.shown[user] == Names(recs)
  {
    var cleared := Sessions(s.available - {user}, s.shown - {user});
    assert Rebuilds(cleared, history - {user}, a, user);
  }
}
