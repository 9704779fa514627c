/**
 * `SimilarityScorer`: the deterministic relevance score of a show for a request,
 * 70% topic fit and 30% metadata fit. Scores are real numbers; the final
 * rounding to three decimals is not part of this model.
 */
module Scorer {

  import opened Wrappers
  import opened Text
  import opened Records

  /** `SequenceMatcher(None, a, b).ratio()`, kept abstract: any function whose values lie in [0, 1]. */
  type RatioFn = f: (string, string) -> real | forall a, b :: 0.0 <= f(a, b) <= 1.0
    witness (a: string, b: string) => 0.0

  function Min(x: real, y: real): real { if x <= y then x else y }

  function Max(x: real, y: real): real { if x >= y then x else y }

  /** `calculate_text_similarity`: the ratio of the two texts, both lower-cased. */
  function TextSimilarity(ratio: RatioFn, t1: string, t2: string): (r: real)
    ensures 0.0 <= r <= 1.0
  {
    ratio(Lower(t1), Lower(t2))
  }

  /** A term hits a show when, lower-cased, it occurs in the lower-cased name, description or publisher. */
  predicate Hit(term: string, s: Show) {
    var t := Lower(term);
    Contains(Lower(s.name), t) || Contains(Lower(s.description), t) || Contains(Lower(s.publisher), t)
  }

  /** How many of the terms hit the show. */
  function CountHits(terms: seq<string>, s: Show): (n: nat)
    ensures n <= |terms|
    ensures n == |terms| <==> forall i :: 0 <= i < |terms| ==> Hit(terms[i], s)
    ensures n == 0 <==> forall i :: 0 <= i < |terms| ==> !Hit(terms[i], s)
  {
    if terms == [] then 0
    else
      var rest := CountHits(terms[1..], s);
      assert forall i :: 1 <= i < |terms| ==> terms[i] == terms[1..][i - 1];
      (if Hit(terms[0], s) then 1 else 0) + rest
  }

  /** `direct_matches`: 2 for every topic that hits, 1 for every keyword that hits. */
  function DirectMatches(a: Analysis, s: Show): (m: nat)
    ensures m <= 2 * |a.topics| + |a.keywords|
    ensures m == 0 <==> ((forall i :: 0 <= i < |a.topics| ==> !Hit(a.topics[i], s))
                         && (forall i :: 0 <= i < |a.keywords| ==> !Hit(a.keywords[i], s)))
    ensures m == 2 * |a.topics| + |a.keywords| <==>
              ((forall i :: 0 <= i < |a.topics| ==> Hit(a.topics[i], s))
               && (forall i :: 0 <= i < |a.keywords| ==> Hit(a.keywords[i], s)))
  {
    2 * CountHits(a.topics, s) + CountHits(a.keywords, s)
  }

  /** One more term counts one more hit exactly when it hits. */
  lemma {:induction false} CountHitsSnoc(terms: seq<string>, t: string, s: Show)
    ensures CountHits(terms + [t], s) == CountHits(terms, s) + (if Hit(t, s) then 1 else 0)
  {
    if terms != [] {
      assert (terms + [t])[1..] == terms[1..] + [t];
      CountHitsSnoc(terms[1..], t, s);
    } else {
      assert terms + [t] == [t];
      assert CountHits([t][1..], s) == 0;
    }
  }

  /** Another topic adds 2 to the matches when it hits the show, and nothing otherwise. */
  lemma TopicHitAddsTwo(a: Analysis, t: string, s: Show)
    ensures DirectMatches(a.(topics := a.topics + [t]), s) == DirectMatches(a, s) + (if Hit(t, s) then 2 else 0)
  {
    CountHitsSnoc(a.topics, t, s);
  }

  /** Another keyword adds 1 to the matches when it hits the show, and nothing otherwise. */
  lemma KeywordHitAddsOne(a: Analysis, k: string, s: Show)
    ensures DirectMatches(a.(keywords := a.keywords + [k]), s) == DirectMatches(a, s) + (if Hit(k, s) then 1 else 0)
  {
    CountHitsSnoc(a.keywords, k, s);
  }

  /** A count over a larger positive count is a fraction in [0, 1], equal to 1 only when the counts agree. */
  lemma FractionInUnit(m: nat, k: nat)
    requires 0 < k && m <= k
    ensures 0.0 <= m as real / k as real <= 1.0
    ensures m as real / k as real == 1.0 <==> m == k
  {
    QuotientBounds(m as real, k as real);
  }

  lemma QuotientBounds(x: real, y: real)
    requires 0.0 <= x <= y && 0.0 < y
    ensures 0.0 <= x / y <= 1.0
    ensures x / y == 1.0 <==> x == y
  {
    var q := x / y;
    assert q * y == x;
    assert (1.0 - q) * y == y - x;
  }

  /** `direct_score`: the matches over twice the number of terms, capped at 1. */
  function DirectScore(a: Analysis, s: Show): (d: real)
    requires |a.topics| + |a.keywords| > 0
    ensures 0.0 <= d <= 1.0
    ensures d == 1.0 <==> DirectMatches(a, s) == 2 * (|a.topics| + |a.keywords|)
  {
    var m := DirectMatches(a, s);
    var k := (|a.topics| + |a.keywords|) * 2;
    FractionInUnit(m, k);
    Min(m as real / k as real, 1.0)
  }

  /** `similarity_score` inside the topic score: the better of the name and description ratios
      against all topics and keywords joined by spaces. */
  function FuzzyScore(ratio: RatioFn, a: Analysis, s: Show): (f: real)
    ensures 0.0 <= f <= 1.0
  {
    var terms := Join(" ", a.topics + a.keywords);
    Max(TextSimilarity(ratio, terms, Lower(s.name)), TextSimilarity(ratio, terms, Lower(s.description)))
  }

  /** `calculate_topic_similarity`: neutral 0.5 without any terms, otherwise
      0.7 * direct + 0.3 * fuzzy, capped at 1. */
  function TopicScore(ratio: RatioFn, a: Analysis, s: Show): (t: real)
    ensures 0.0 <= t <= 1.0
    ensures |a.topics| + |a.keywords| == 0 ==> t == 0.5
    ensures |a.topics| + |a.keywords| > 0 ==> 0.7 * DirectScore(a, s) <= t <= 0.7 * DirectScore(a, s) + 0.3
  {
    if |a.topics| + |a.keywords| == 0 then 0.5
    else Min(DirectScore(a, s) * 0.7 + FuzzyScore(ratio, a, s) * 0.3, 1.0)
  }

  /** The direct score reaches 1 exactly when there are no keywords and every topic hits:
      a keyword adds 1 to the matches but 2 to the denominator, so any keyword keeps it below 1. */
  lemma DirectScoreFullIff(a: Analysis, s: Show)
    requires |a.topics| + |a.keywords| > 0
    ensures DirectScore(a, s) == 1.0 <==>
            (a.keywords == [] && forall i :: 0 <= i < |a.topics| ==> Hit(a.topics[i], s))
  {
    var m := DirectMatches(a, s);
    var tk := CountHits(a.topics, s);
    var kk := CountHits(a.keywords, s);
    if m == 2 * (|a.topics| + |a.keywords|) {
      assert kk == 2 * |a.keywords| + 2 * (|a.topics| - tk);
      assert a.keywords == [];
    }
  }

  /** The language check: None when no language was requested, otherwise 0.5 for a match and 0 for none.
      Hebrew matches a `he` or `iw` tag exactly; English matches any tag containing `en`. */
  function LanguageFit(pref: Language, languages: seq<string>): (w: Option<real>)
    ensures w.None? <==> pref == Unspecified
    ensures w.Some? ==> w.value == 0.0 || w.value == 0.5
    ensures pref == Hebrew ==> (w == Some(0.5) <==> "he" in languages || "iw" in languages)
    ensures pref == English ==> (w == Some(0.5) <==> exists l :: l in languages && Contains(l, "en"))
    ensures pref == OtherLanguage ==> w == Some(0.0)
  {
    match pref
    case Unspecified => None
    case Hebrew => Some(if "he" in languages || "iw" in languages then 0.5 else 0.0)
    case English => Some(if exists l :: l in languages && Contains(l, "en") then 0.5 else 0.0)
    case OtherLanguage => Some(0.0)
  }

  /** A duration Python counts as true: NaN, or a non-zero number of minutes. */
  predicate Truthy(d: Duration) {
    d.NaNDuration? || (d.Minutes? && d.minutes != 0.0)
  }

  /** The duration check: it applies only when the cap is present and non-zero and the show's
      duration is truthy; a show within the cap gets 0.3 * (0.5 + 0.5 * (1 - duration / cap)),
      a longer one 0, and a NaN duration 0, since `NaN <= cap` is false. */
  function DurationFit(cap: Option<int>, duration: Duration): (w: Option<real>)
    ensures w.Some? <==> cap.Some? && cap.value != 0 && Truthy(duration)
    ensures w.Some? && duration.NaNDuration? ==> w.value == 0.0
    ensures w.Some? && duration.Minutes? && duration.minutes > cap.value as real ==> w.value == 0.0
  {
    if cap.Some? && cap.value != 0 && Truthy(duration) then
      var c := cap.value as real;
      match duration
      case Minutes(d) => Some(if d <= c then 0.3 * (0.5 + 0.5 * (1.0 - d / c)) else 0.0)
      case _ => Some(0.0)
    else None
  }

  /** The episode-count check: it applies to a positive count; 5..100 episodes give 0.2,
      more than 100 give 0.1, fewer than 5 give 0. */
  function EpisodeFit(episodes: int): (w: Option<real>)
    ensures w.Some? <==> episodes > 0
    ensures w == Some(0.2) <==> 5 <= episodes <= 100
    ensures w == Some(0.1) <==> episodes > 100
    ensures w == Some(0.0) <==> 0 < episodes < 5
  {
    if episodes > 0 then Some(if 5 <= episodes <= 100 then 0.2 else if episodes > 100 then 0.1 else 0.0)
    else None
  }

  /** The contribution of a check that applied; nothing for one that did not. */
  function Weight(w: Option<real>): real {
    match w case Some(v) => v case None => 0.0
  }

  /** Whether any of the three metadata checks applies. */
  predicate AnyCheckApplies(a: Analysis, s: Show) {
    LanguageFit(a.language, s.languages).Some?
    || DurationFit(a.durationMax, s.durationMinutes).Some?
    || EpisodeFit(s.totalEpisodes).Some?
  }

  /** `calculate_metadata_similarity`: the sum of the weights of the checks that applied,
      or the neutral 0.5 when none did. */
  function MetadataScore(a: Analysis, s: Show): (m: real)
    ensures !AnyCheckApplies(a, s) ==> m == 0.5
  {
    if AnyCheckApplies(a, s) then
      Weight(LanguageFit(a.language, s.languages))
      + Weight(DurationFit(a.durationMax, s.durationMinutes))
      + Weight(EpisodeFit(s.totalEpisodes))
    else 0.5
  }

  /** Durations are never negative: the precondition of the score bounds. */
  predicate DurationsNonNegative(a: Analysis, s: Show) {
    (a.durationMax.Some? ==> a.durationMax.value >= 0)
    && (s.durationMinutes.Minutes? ==> s.durationMinutes.minutes >= 0.0)
  }

  /** A show within the cap earns between 0.15 and 0.3 for duration, more the shorter it is. */
  lemma DurationFitRange(cap: int, d: real)
    requires cap > 0 && 0.0 < d <= cap as real
    ensures var w := DurationFit(Some(cap), Minutes(d)).value;
            0.15 <= w < 0.3
  {
    var c := cap as real;
    assert 0.0 < d / c <= 1.0 by {
      assert d / c * c == d;
    }
  }

  /** Within the cap, the shorter of two shows gets the larger duration weight. */
  lemma DurationFitPrefersShorter(cap: int, d1: real, d2: real)
    requires cap > 0 && 0.0 < d1 < d2 <= cap as real
    ensures DurationFit(Some(cap), Minutes(d1)).value > DurationFit(Some(cap), Minutes(d2)).value
  {
    var c := cap as real;
    assert d1 / c < d2 / c by {
      assert d1 / c * c == d1 && d2 / c * c == d2;
    }
  }

  /** The metadata score lies in [0, 1] when durations are not negative. */
  lemma MetadataScoreBounds(a: Analysis, s: Show)
    requires DurationsNonNegative(a, s)
    ensures 0.0 <= MetadataScore(a, s) <= 1.0
  {
    var dw := DurationFit(a.durationMax, s.durationMinutes);
    if dw.Some? && s.durationMinutes.Minutes? {
      var c := a.durationMax.value;
      var d := s.durationMinutes.minutes;
      if d <= c as real {
        DurationFitRange(c, d);
      }
    }
    assert 0.0 <= Weight(dw) <= 0.3;
  }

  /** `calculate_similarity_score` before rounding: 70% topic score, 30% metadata score. */
  function Score(ratio: RatioFn, a: Analysis, s: Show): real {
    TopicScore(ratio, a, s) * 0.7 + MetadataScore(a, s) * 0.3
  }

  /** The score lies in [0, 1] when durations are not negative. */
  lemma ScoreBounds(ratio: RatioFn, a: Analysis, s: Show)
    requires DurationsNonNegative(a, s)
    ensures 0.0 <= Score(ratio, a, s) <= 1.0
  {
    MetadataScoreBounds(a, s);
  }

  /** Without topics, keywords or any applicable metadata check, every show scores the neutral 0.5. */
  lemma ScoreNeutral(ratio: RatioFn, a: Analysis, s: Show)
    requires a.topics == [] && a.keywords == [] && !AnyCheckApplies(a, s)
    ensures Score(ratio, a, s) == 0.5
  {
  }

  /** An empty duration cell (NaN) still counts as a duration check that applied, and earns
      nothing: with no language and no episode count the metadata score is 0, not the neutral 0.5. */
  lemma NaNDurationScoresZero(a: Analysis, s: Show)
    requires a.language == Unspecified && a.durationMax.Some? && a.durationMax.value != 0
    requires s.durationMinutes == NaNDuration && s.totalEpisodes <= 0
    ensures MetadataScore(a, s) == 0.0
  {
    assert DurationFit(a.durationMax, s.durationMinutes) == Some(0.0);
  }

  /** A worked case: a Hebrew technology show of 20 minutes and 40 episodes, requested as
      "technology, in Hebrew, up to 30 minutes". The topic hits the name, so the direct score is 1;
      the metadata is 0.5 + 0.2 + 0.2 = 0.9; whatever the text ratio, the score lies in [0.75, 1]. */
  lemma WorkedExample(ratio: RatioFn)
    ensures var a := Analysis(["טכנולוגיה"], [], Some(30), Hebrew, "");
            var s := Show("טכנולוגיה", "", "", "", Minutes(20.0), ["he"], 40);
            MetadataScore(a, s) == 0.9 && 0.75 <= Score(ratio, a, s) <= 1.0
  {
    var a := Analysis(["טכנולוגיה"], [], Some(30), Hebrew, "");
    var s := Show("טכנולוגיה", "", "", "", Minutes(20.0), ["he"], 40);
    TopicInNameScoresHigh(ratio, a, s);
    ExampleMetadata(a, s);
  }

  lemma TopicInNameScoresHigh(ratio: RatioFn, a: Analysis, s: Show)
    requires a.topics == [s.name] && a.keywords == []
    ensures TopicScore(ratio, a, s) >= 0.7
  {
    ExampleHit(a.topics[0], s.name);
    assert Hit(a.topics[0], s);
    assert CountHits(a.topics, s) == 1;
    assert CountHits(a.keywords, s) == 0;
    assert DirectMatches(a, s) == 2;
    assert DirectScore(a, s) == 1.0;
  }

  lemma ExampleMetadata(a: Analysis, s: Show)
    requires a.language == Hebrew && a.durationMax == Some(30)
    requires s.languages == ["he"] && s.durationMinutes == Minutes(20.0) && s.totalEpisodes == 40
    ensures MetadataScore(a, s) == 0.9
  {
    assert LanguageFit(a.language, s.languages) == Some(0.5);
    assert DurationFit(a.durationMax, s.durationMinutes) == Some(0.2);
    assert EpisodeFit(s.totalEpisodes) == Some(0.2);
  }

  lemma ExampleHit(t: string, name: string)
    requires name == t
    ensures Contains(Lower(name), Lower(t))
  {
    assert OccursAt(Lower(name), Lower(t), 0);
  }
}
