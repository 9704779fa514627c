/**
 * `create_personalized_intro`: the line placed before a recommendation. A
 * "more" request gets a fixed line; otherwise the line names the topics, the
 * duration cap (when set and non-zero) and the language preference.
 */
module Intro {

  import opened Wrappers
  import opened Text
  import opened Records

  const MoreOpening: string := "הנה עוד המלצה"
  const FirstOpening: string := "הנה מה שמצאתי בשבילך"
  const TopicsLead: string := " - פודקאסט על "
  const DurationLead: string := " עד "
  const DurationUnit: string := " דקות"
  const InEnglish: string := " באנגלית"
  const InHebrew: string := " בעברית"

  /** The topic part: empty without topics. */
  function TopicsPart(a: Analysis): (p: string)
    ensures a.topics == [] <==> p == []
  {
    if a.topics == [] then [] else TopicsLead + Join(", ", a.topics)
  }

  /** The duration part: empty when there is no cap or the cap is zero (a falsy value). */
  function DurationPart(a: Analysis): (p: string)
    ensures (a.durationMax.None? || a.durationMax == Some(0)) <==> p == []
  {
    match a.durationMax
    case Some(d) => if d != 0 then DurationLead + IntToString(d) + DurationUnit else []
    case None => []
  }

  /** The language part: only an English or Hebrew preference is mentioned. */
  function LanguagePart(a: Analysis): (p: string)
    ensures a.language == English ==> p == InEnglish
    ensures a.language == Hebrew ==> p == InHebrew
    ensures a.language != English && a.language != Hebrew ==> p == []
  {
    match a.language
    case English => InEnglish
    case Hebrew => InHebrew
    case _ => []
  }

  /** Everything between the opening and the colon of a first answer. */
  function Details(a: Analysis): (d: string)
    ensures d == [] <==> TopicsPart(a) == [] && DurationPart(a) == [] && LanguagePart(a) == []
  {
    TopicsPart(a) + DurationPart(a) + LanguagePart(a)
  }

  /** `create_personalized_intro`. */
  function CreatePersonalizedIntro(a: Analysis, isMore: bool): (r: string)
    ensures isMore ==> r == MoreOpening + ":"
    ensures !isMore ==> FirstOpening <= r
    ensures |r| > 0 && r[|r| - 1] == ':'
  {
    if isMore then MoreOpening + ":"
    else FirstOpening + Details(a) + ":"
  }

  /** A "more" request ignores the analysis entirely. */
  lemma MoreIntroIgnoresAnalysis(a1: Analysis, a2: Analysis)
    ensures CreatePersonalizedIntro(a1, true) == CreatePersonalizedIntro(a2, true)
  {
  }

  /** The plain opening alone is used exactly when there is nothing to mention. */
  lemma PlainIntroIff(a: Analysis)
    ensures CreatePersonalizedIntro(a, false) == FirstOpening + ":"
            <==> (&& a.topics == []
                  && (a.durationMax.None? || a.durationMax == Some(0))
                  && a.language != English && a.language != Hebrew)
  {
    var d := Details(a);
    var r := CreatePersonalizedIntro(a, false);
    assert |r| == |FirstOpening| + |d| + 1;
  }

  /** The topic list comes right after the opening, led by its first topic. */
  lemma IntroNamesFirstTopic(a: Analysis)
    requires a.topics != []
    ensures FirstOpening + TopicsLead + a.topics[0] <= CreatePersonalizedIntro(a, false)
  {
    PrefixThroughNesting(FirstOpening, TopicsLead, a.topics[0], Join(", ", a.topics),
                         DurationPart(a), LanguagePart(a), ":");
  }

  lemma PrefixThroughNesting(o: string, lead: string, t: string, j: string, d: string, l: string, c: string)
    requires t <= j
    ensures o + lead + t <= o + (lead + j + d + l) + c
  {
    var r := o + (lead + j + d + l) + c;
    var p := o + lead;
    assert r == p + j + (d + l + c);
    assert r[..|p| + |t|] == p + t;
  }

  /** A request for sports content of at most 10 minutes in Hebrew. */
  lemma SportsExample(a: Analysis)
    requires a.topics == ["ספורט"] && a.durationMax == Some(10) && a.language == Hebrew
    ensures CreatePersonalizedIntro(a, false)
            == FirstOpening + TopicsLead + "ספורט" + DurationLead + "10" + DurationUnit + InHebrew + ":"
  {
    assert TopicsPart(a) == TopicsLead + "ספורט";
    assert Decimal(1) == "1";
    assert Decimal(10) == Decimal(1) + "0";
    assert DurationPart(a) == DurationLead + "10" + DurationUnit;
  }
}
