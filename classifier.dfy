/**
 * The relevance gate of `GPTAnalyzer`: the strict rule check that runs first, the
 * older rule check kept beside it, and `check_podcast_relevance`, which consults
 * the external classifier only when the strict rules are unsure. The external
 * classifier's answer is an input: None when the call or its JSON failed.
 */
module Classifier {

  import opened Wrappers
  import opened Text

  /** Why a verdict was reached; the source carries this as a Hebrew sentence. */
  datatype Reason =
    | OffTopicPhrase(phrase: string)   // the strict check found an out-of-domain phrase
    | ShortWithoutPodcastWord          // three words or fewer and no podcast word
    | NoClearReason                    // nothing to reject on: a low-confidence yes
    | OffTopicKeywords                 // the older check found an out-of-domain word
    | PodcastKeywords                  // the older check found a podcast word
    | NotRecognised                    // the older check found neither
    | ClassifierSaid(text: string)     // the reason the external classifier gave

  /** `{"is_podcast_related", "confidence", "reason"}`. */
  datatype Verdict = Verdict(related: bool, confidence: real, reason: Reason)

  /** `definitely_not_podcast` of `strict_manual_check`, group by group in the source's order
      (the duplicate "מתי" kept). */
  const StrictOffTopic: seq<string> :=
    WeatherPhrases + TimePhrases + GreetingPhrases + ThanksPhrases + IdentityPhrases
    + PlacePhrases + HolidayPhrases + QuestionPhrases + FaultPhrases

  const WeatherPhrases: seq<string> := [
    "מה מזג האוויר", "מזג האוויר", "weather", "טמפרטורה",
    "גשם", "שמש", "שלג", "רוח", "עננים", "חם", "קר"]
  const TimePhrases: seq<string> := [
    "מה השעה", "איזה שעה", "מה הזמן", "מתי", "תאריך",
    "יום", "חודש", "שנה", "מחר", "אתמול"]
  const GreetingPhrases: seq<string> := [
    "היי", "שלום", "hello", "hi", "בוקר טוב", "לילה טוב",
    "מה שלומך", "איך הולך", "מה נשמע"]
  const ThanksPhrases: seq<string> := ["תודה", "thanks", "תודה רבה", "אין בעד מה"]
  const IdentityPhrases: seq<string> := ["איך קוראים לך", "מי אתה", "מה השם שלך", "מה אתה"]
  const PlacePhrases: seq<string> := ["איך מגיעים", "איפה נמצא", "דרך", "נסיעה", "כתובת"]
  const HolidayPhrases: seq<string> := ["מתי פסח", "מתי ראש השנה", "חג", "חגים"]
  const QuestionPhrases: seq<string> := ["למה", "איך", "מתי", "איפה", "מי", "מה זה"]
  const FaultPhrases: seq<string> := ["לא עובד", "שגיאה", "בעיה", "תקלה"]

  /** `podcast_keywords` of `strict_manual_check`. */
  const StrictPodcastWords: seq<string> := [
    "פודקאסט", "podcast", "לשמוע", "האזנה", "תוכנית",
    "שיחות", "ראיונות", "תוכן", "אודיו", "רדיו", "עניין"]

  /** `non_podcast_keywords` of `manual_relevance_check`. */
  const ManualOffTopic: seq<string> := [
    "מזג האוויר", "weather", "טמפרטורה", "גשם", "שמש",
    "מה השעה", "זמן", "תאריך", "יום",
    "היי", "שלום", "hello", "hi",
    "תודה", "thanks", "בוקר טוב", "לילה טוב",
    "איך קוראים לך", "מי אתה", "מה זה",
    "איך מגיעים", "נסיעה", "דרך", "מיקום"]

  /** `podcast_keywords` of `manual_relevance_check`. */
  const ManualPodcastWords: seq<string> := [
    "פודקאסט", "podcast", "לשמוע", "האזנה", "תוכנית",
    "שיחות", "ראיונות", "תוכן אודיו", "רדיו"]

  /** The text the strict rules look at: lower-cased, then stripped. */
  function StrictText(text: string): string {
    Strip(Lower(text))
  }

  /** `strict_manual_check`: an out-of-domain phrase rejects with 0.95; otherwise three words or
      fewer without a podcast word reject with 0.85; otherwise a low-confidence (0.3) acceptance. */
  function StrictManualCheck(text: string): (v: Verdict)
    ensures var t := StrictText(text);
            (v.confidence == 0.95 <==> AnyIn(StrictOffTopic, t))
            && (v.confidence == 0.85 <==> !AnyIn(StrictOffTopic, t) && |Words(t)| <= 3 && !AnyIn(StrictPodcastWords, t))
    ensures v.confidence == 0.95 || v.confidence == 0.85 || v.confidence == 0.3
    ensures v.related <==> v.confidence == 0.3
    ensures v.reason.OffTopicPhrase? ==> v.reason.phrase in StrictOffTopic && Contains(StrictText(text), v.reason.phrase)
    ensures v.reason.OffTopicPhrase? <==> FirstIn(StrictOffTopic, StrictText(text)).Some?
    ensures v.reason.OffTopicPhrase? ==> Some(v.reason.phrase) == FirstIn(StrictOffTopic, StrictText(text))
  {
    var t := StrictText(text);
    match FirstIn(StrictOffTopic, t)
    case Some(p) => Verdict(false, 0.95, OffTopicPhrase(p))
    case None =>
      if |Words(t)| <= 3 && !AnyIn(StrictPodcastWords, t) then Verdict(false, 0.85, ShortWithoutPodcastWord)
      else Verdict(true, 0.3, NoClearReason)
  }

  /** `manual_relevance_check` (defined in the source but not called by it): an out-of-domain word
      rejects with 0.9, otherwise a podcast word accepts with 0.9, otherwise a rejection with 0.6. */
  function ManualRelevanceCheck(text: string): (v: Verdict)
    ensures var t := Lower(text);
            (AnyIn(ManualOffTopic, t) ==> v == Verdict(false, 0.9, OffTopicKeywords))
            && (!AnyIn(ManualOffTopic, t) && AnyIn(ManualPodcastWords, t) ==> v == Verdict(true, 0.9, PodcastKeywords))
            && (!AnyIn(ManualOffTopic, t) && !AnyIn(ManualPodcastWords, t) ==> v == Verdict(false, 0.6, NotRecognised))
    ensures v.related ==> v.confidence == 0.9
  {
    var t := Lower(text);
    if AnyIn(ManualOffTopic, t) then Verdict(false, 0.9, OffTopicKeywords)
    else if AnyIn(ManualPodcastWords, t) then Verdict(true, 0.9, PodcastKeywords)
    else Verdict(false, 0.6, NotRecognised)
  }

  /** `check_podcast_relevance`: the strict verdict when its confidence exceeds 0.8, else the
      external classifier's verdict, or the strict verdict again when that call failed. */
  function CheckRelevance(text: string, external: Option<Verdict>): (v: Verdict)
    ensures StrictManualCheck(text).confidence > 0.8 ==> v == StrictManualCheck(text)
    ensures StrictManualCheck(text).confidence <= 0.8 && external.Some? ==> v == external.value
    ensures external.None? ==> v == StrictManualCheck(text)
  {
    var manual := StrictManualCheck(text);
    if manual.confidence > 0.8 then manual
    else match external
      case Some(answer) => answer
      case None => manual
  }

  /** The gate of `analyze_request`: a request is turned away only when it is judged unrelated
      with confidence above 0.7; a related verdict, or an unrelated one of confidence 0.7 or
      less, lets it through. */
  function TurnedAway(v: Verdict): (b: bool)
    ensures v.related ==> !b
    ensures v.confidence <= 0.7 ==> !b
    ensures !v.related && v.confidence > 0.7 ==> b
  {
    !v.related && v.confidence > 0.7
  }

  /** When the strict rules are unsure, their verdict is always the in-domain one. */
  lemma UnsureMeansInDomain(text: string)
    ensures StrictManualCheck(text).confidence <= 0.8 <==> StrictManualCheck(text) == Verdict(true, 0.3, NoClearReason)
  {
  }

  /** The short circuit: whenever the strict rules are sure, the external answer makes no difference. */
  lemma ShortCircuitIgnoresClassifier(text: string, e1: Option<Verdict>, e2: Option<Verdict>)
    requires StrictManualCheck(text).confidence > 0.8
    ensures CheckRelevance(text, e1) == CheckRelevance(text, e2)
    ensures TurnedAway(CheckRelevance(text, e1))
  {
  }

  /** Fail-open: with the external classifier unavailable, a request is turned away exactly when
      the strict rules reject it, and otherwise it is in domain. */
  lemma ClassifierDownFailsOpen(text: string)
    ensures TurnedAway(CheckRelevance(text, None)) <==> !StrictManualCheck(text).related
    ensures !TurnedAway(CheckRelevance(text, None)) ==> CheckRelevance(text, None).related
  {
  }

  /** Text with an out-of-domain phrase is rejected with 0.95 whatever the external classifier says. */
  lemma OffTopicPhraseTurnsAway(text: string, p: string, e: Option<Verdict>)
    requires p in StrictOffTopic && Contains(StrictText(text), p)
    ensures var v := CheckRelevance(text, e);
            !v.related && v.confidence == 0.95 && v == StrictManualCheck(text)
  {
  }

  /** "What time is it?" is turned away by the rules alone, with confidence 0.95. */
  lemma WhatTimeIsItTurnedAway(text: string, e: Option<Verdict>)
    requires text == "מה השעה?"
    ensures var v := CheckRelevance(text, e);
            !v.related && v.confidence == 0.95 && v == StrictManualCheck(text)
  {
    WhatTimeHasPhrase(text);
    assert "מה השעה" in TimePhrases;
    OffTopicPhraseTurnsAway(text, "מה השעה", e);
  }

  lemma WhatTimeHasPhrase(text: string)
    requires text == "מה השעה?"
    ensures OccursAt(StrictText(text), "מה השעה", 0)
  {
    UncasedTrimmedIsStrictText(text);
    assert text[0..7] == "מה השעה";
  }

  /** A podcast request about finance ("מימון") is turned away: the word contains "מי" ("who"),
      one of the out-of-domain phrases, and a podcast word does not rescue it. */
  lemma FinanceRequestTurnedAway(text: string, e: Option<Verdict>)
    requires text == "פודקאסט על מימון"
    ensures var v := CheckRelevance(text, e);
            !v.related && v.confidence == 0.95
  {
    FinanceTextHasWho(text);
    assert "מי" in QuestionPhrases;
    OffTopicPhraseTurnsAway(text, "מי", e);
  }

  lemma FinanceTextHasWho(text: string)
    requires text == "פודקאסט על מימון"
    ensures OccursAt(StrictText(text), "מי", 11)
  {
    UncasedTrimmedIsStrictText(text);
    assert text[11..13] == "מי";
  }

  /** Text with no ASCII capitals and no outer whitespace is what the strict rules look at. */
  lemma UncasedTrimmedIsStrictText(text: string)
    requires text != [] && !IsSpace(text[0]) && !IsSpace(text[|text| - 1])
    requires forall i :: 0 <= i < |text| ==> !('A' <= text[i] <= 'Z')
    ensures StrictText(text) == text
  {
    LowerKeepsUncased(text);
    StripKeepsTrimmed(text);
  }
}
