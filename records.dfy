/**
 * The values the recommendation engine passes around: the structured request
 * produced by the language model (or by the keyword fallback), a show as the
 * catalog search or the local dataset describes it, and a show once it has been
 * scored and tagged with where it came from.
 */
module Records {

  import opened Wrappers

  type UserId = int

  /**
   * `language_preference`: absent (`None`), `"hebrew"`, `"english"`, or any other
   * non-empty string the language model may return, which counts as a preference
   * that matches nothing.
   */
  datatype Language = Unspecified | Hebrew | English | OtherLanguage

  /** The request analysis: `topics`, `keywords`, `duration_max`, `language_preference`, `user_intent`. */
  datatype Analysis = Analysis(
    topics: seq<string>,
    keywords: seq<string>,
    durationMax: Option<int>,
    language: Language,
    intent: string)

  /** One entry of the per-user conversation log: the text the user sent and its analysis. */
  datatype Exchange = Exchange(userInput: string, analysis: Analysis)

  /** `duration_minutes` of a show: absent (`None`), pandas' NaN for an empty dataset cell, or a
      number of minutes. NaN is truthy but fails every comparison, so it differs from both others. */
  datatype Duration = NoDuration | NaNDuration | Minutes(minutes: real)

  /** A show record as both sources deliver it: `name`, `publisher`, `description`, `url`,
      `duration_minutes`, `languages` and `total_episodes`. */
  datatype Show = Show(
    name: string,
    publisher: string,
    description: string,
    url: string,
    durationMinutes: Duration,
    languages: seq<string>,
    totalEpisodes: int)

  /** The `source` tag: the remote catalog (`'spotify'`) or the local dataset (`'local_dataset'`). */
  datatype Origin = Remote | Local

  /** A show in a candidate pool, carrying its `source` and `similarity_score`. */
  datatype Item = Item(show: Show, origin: Origin, score: real)

  /** One row of the local dataset, before it is normalised to a show: None for a column the
      dataset lacks; the description is the cell's text as `str` renders it; the duration cell
      may be NaN. */
  datatype LocalRecord = LocalRecord(
    name: Option<string>,
    publisher: Option<string>,
    description: string,
    url: Option<string>,
    durationMinutes: Duration,
    language: Option<string>,
    totalEpisodes: Option<int>)

  /** The normalisation of a dataset row: missing name and publisher read "Unknown", a missing
      url reads "#", a missing language gives no languages, missing episodes count as 0. */
  function ToShow(r: LocalRecord): (s: Show)
    ensures r.language.Some? ==> s.languages == [r.language.value]
    ensures r.language.None? <==> s.languages == []
    ensures r.name.Some? ==> s.name == r.name.value
    ensures r.name.None? ==> s.name == "Unknown"
    ensures s.publisher == if r.publisher.Some? then r.publisher.value else "Unknown"
    ensures s.url == if r.url.Some? then r.url.value else "#"
    ensures s.totalEpisodes == if r.totalEpisodes.Some? then r.totalEpisodes.value else 0
    ensures s.description == r.description && s.durationMinutes == r.durationMinutes
  {
    Show(
      r.name.GetOr("Unknown"),
      r.publisher.GetOr("Unknown"),
      r.description,
      r.url.GetOr("#"),
      r.durationMinutes,
      match r.language case Some(l) => [l] case None => [],
      r.totalEpisodes.GetOr(0))
  }

  /** The names of the items of a pool, in order. */
  function Names(items: seq<Item>): (ns: seq<string>)
    ensures |ns| == |items|
    ensures forall i :: 0 <= i < |items| ==> ns[i] == items[i].show.name
  {
    if items == [] then [] else [items[0].show.name] + Names(items[1..])
  }

  /** No two items of the pool share a name. */
  predicate UniqueNames(items: seq<Item>) {
    forall i, j :: 0 <= i < j < |items| ==> items[i].show.name != items[j].show.name
  }
}
