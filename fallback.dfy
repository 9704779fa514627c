/**
 * `basic_analysis`: the keyword-table analysis used when the language model call
 * fails. It picks topics from a fixed table, detects a language preference and
 * reads a duration from the first digit run followed (after optional whitespace)
 * by "דק", as the regular expression `(\d+)\s*דק` finds it.
 */
module Fallback {

  import opened Wrappers
  import opened Text
  import opened Records

  /** Words that ask for English; anything else defaults to Hebrew. */
  const EnglishMarkers: seq<string> := ["באנגלית", "אנגלית", "english", "in english"]

  /** A row of `topic_keywords`: the topic and the words that signal it. */
  datatype TopicRule = TopicRule(topic: string, words: seq<string>)

  /** `topic_keywords`, in the source's order. */
  const TopicTable: seq<TopicRule> := [
    TopicRule("ספורט", ["ספורט", "כדורגל", "כדורסל", "אימון"]),
    TopicRule("טכנולוגיה", ["טכנולוגיה", "מחשב", "תכנות", "אפליקציה"]),
    TopicRule("בריאות", ["בריאות", "תזונה", "דיאטה", "רפואה"]),
    TopicRule("קומדיה", ["קומדיה", "מצחיק", "הומור", "צחוק"]),
    TopicRule("חדשות", ["חדשות", "פוליטיקה", "אקטואליה"]),
    TopicRule("עסקים", ["עסקים", "כסף", "יזמות", "השקעות"])]

  /** The language preference: English when an English marker occurs, Hebrew otherwise
      (the explicit Hebrew markers and the default give the same answer). */
  function DetectLanguage(lower: string): (l: Language)
    ensures l == English <==> AnyIn(EnglishMarkers, lower)
    ensures l == Hebrew <==> !AnyIn(EnglishMarkers, lower)
  {
    if AnyIn(EnglishMarkers, lower) then English else Hebrew
  }

  /** The topics of the table rows with a word occurring in the text, in table order. */
  function TopicsFound(table: seq<TopicRule>, lower: string): (ts: seq<string>)
    ensures |ts| <= |table|
    ensures forall t :: t in ts <==> exists k :: 0 <= k < |table| && table[k].topic == t && AnyIn(table[k].words, lower)
  {
    if table == [] then []
    else
      var rest := TopicsFound(table[1..], lower);
      assert forall k :: 1 <= k < |table| ==> table[k] == table[1..][k - 1];
      if AnyIn(table[0].words, lower) then [table[0].topic] + rest else rest
  }

  /** The indices, from `from` on and in increasing order, of the table rows with a word
      occurring in the text. */
  function MatchingRows(table: seq<TopicRule>, lower: string, from: nat): (rows: seq<nat>)
    requires from <= |table|
    ensures forall j :: 0 <= j < |rows| ==> from <= rows[j] < |table|
    ensures forall i, j :: 0 <= i < j < |rows| ==> rows[i] < rows[j]
    ensures forall k :: from <= k < |table| ==> (k in rows <==> AnyIn(table[k].words, lower))
    decreases |table| - from
  {
    if from == |table| then []
    else (if AnyIn(table[from].words, lower) then [from] else []) + MatchingRows(table, lower, from + 1)
  }

  /** `ts` lists the topics of the rows at the indices `rows`, position by position. */
  predicate TopicsOf(table: seq<TopicRule>, ts: seq<string>, rows: seq<nat>) {
    |ts| == |rows| && forall j :: 0 <= j < |rows| ==> rows[j] < |table| && ts[j] == table[rows[j]].topic
  }

  /** The reported topics are those of the matching rows, in row order. */
  lemma TopicsFoundInOrder(table: seq<TopicRule>, lower: string)
    ensures TopicsOf(table, TopicsFound(table, lower), MatchingRows(table, lower, 0))
  {
    TopicsFoundRows(table, lower, 0);
    assert table[0..] == table;
  }

  lemma {:induction false} TopicsFoundRows(table: seq<TopicRule>, lower: string, from: nat)
    requires from <= |table|
    ensures TopicsOf(table, TopicsFound(table[from..], lower), MatchingRows(table, lower, from))
    decreases |table| - from
  {
    if from < |table| {
      TopicsFoundRows(table, lower, from + 1);
      var t := table[from..];
      assert t[1..] == table[from + 1..];
      assert t[0] == table[from];
      TopicsFoundCons(t, lower);
      var hit := AnyIn(table[from].words, lower);
      var head := if hit then [table[from].topic] else [];
      var headRows: seq<nat> := if hit then [from] else [];
      assert TopicsOf(table, head, headRows);
      TopicsOfAppend(table, head, headRows, TopicsFound(table[from + 1..], lower), MatchingRows(table, lower, from + 1));
    }
  }

  lemma TopicsOfAppend(table: seq<TopicRule>, h: seq<string>, hr: seq<nat>, ts: seq<string>, rows: seq<nat>)
    requires TopicsOf(table, h, hr) && TopicsOf(table, ts, rows)
    ensures TopicsOf(table, h + ts, hr + rows)
  {
    forall j | 0 <= j < |hr + rows| ensures (hr + rows)[j] < |table| && (h + ts)[j] == table[(hr + rows)[j]].topic {
      if j >= |hr| {
        assert (h + ts)[j] == ts[j - |h|] && (hr + rows)[j] == rows[j - |hr|];
      }
    }
  }

  /** One row of the table: its topic, when a word occurs, comes before the rest's. */
  lemma TopicsFoundCons(table: seq<TopicRule>, lower: string)
    requires table != []
    ensures TopicsFound(table, lower)
            == (if AnyIn(table[0].words, lower) then [table[0].topic] else []) + TopicsFound(table[1..], lower)
  {
  }

  /** No entry occurs twice. */
  predicate Distinct(xs: seq<string>) {
    forall i, j :: 0 <= i < j < |xs| ==> xs[i] != xs[j]
  }

  /** No topic is reported twice when the table's topics are distinct. */
  lemma {:induction false} TopicsFoundDistinct(table: seq<TopicRule>, lower: string)
    requires forall i, j :: 0 <= i < j < |table| ==> table[i].topic != table[j].topic
    ensures Distinct(TopicsFound(table, lower))
  {
    if table != [] {
      var tail := table[1..];
      assert forall i, j :: 0 <= i < j < |tail| ==> tail[i].topic != tail[j].topic by {
        forall i, j | 0 <= i < j < |tail| ensures tail[i].topic != tail[j].topic {
          assert tail[i] == table[i + 1] && tail[j] == table[j + 1];
        }
      }
      var rest := TopicsFound(tail, lower);
      TopicsFoundDistinct(tail, lower);
      if AnyIn(table[0].words, lower) {
        forall k | 0 <= k < |tail| ensures tail[k].topic != table[0].topic {
          assert tail[k] == table[k + 1];
        }
        assert table[0].topic !in rest;
        var ts := [table[0].topic] + rest;
        assert TopicsFound(table, lower) == ts;
        forall i, j | 0 <= i < j < |ts| ensures ts[i] != ts[j] {
          if i == 0 {
            assert ts[j] == rest[j - 1];
          } else {
            assert ts[i] == rest[i - 1] && ts[j] == rest[j - 1];
          }
        }
      } else {
        assert TopicsFound(table, lower) == rest;
      }
    }
  }

  /** The length of the run of ASCII digits `s` starts with. */
  function DigitRun(s: string): (n: nat)
    ensures n <= |s|
  {
    if s != [] && IsDigit(s[0]) then 1 + DigitRun(s[1..]) else 0
  }

  /** The run `DigitRun` counts is all digits, and the character after it is not a digit. */
  lemma {:induction false} DigitRunIsMaximal(s: string)
    ensures forall i :: 0 <= i < DigitRun(s) ==> IsDigit(s[i])
    ensures DigitRun(s) < |s| ==> !IsDigit(s[DigitRun(s)])
  {
    if s != [] && IsDigit(s[0]) {
      DigitRunIsMaximal(s[1..]);
      forall i | 0 < i < DigitRun(s) ensures IsDigit(s[i]) {
        assert s[i] == s[1..][i - 1];
      }
    }
  }

  /** A run of digits followed by a non-digit (or by nothing) is read in full. */
  lemma {:induction false} DigitRunOf(ds: string, rest: string)
    requires AllDigits(ds)
    requires rest == [] || !IsDigit(rest[0])
    ensures DigitRun(ds + rest) == |ds|
  {
    if ds != [] {
      assert (ds + rest)[1..] == ds[1..] + rest;
      DigitRunOf(ds[1..], rest);
    } else {
      assert ds + rest == rest;
    }
  }

  /** The digit run at offset `i` is a string of digits, so it has a value. */
  lemma DigitRunDigits(s: string, i: nat)
    requires i <= |s|
    ensures AllDigits(s[i..i + DigitRun(s[i..])])
  {
    var d := DigitRun(s[i..]);
    DigitRunIsMaximal(s[i..]);
    var ds := s[i..i + d];
    forall k | 0 <= k < d ensures IsDigit(ds[k]) {
      assert ds[k] == s[i..][k];
    }
  }

  /** The pattern `(\d+)\s*דק` matches at offset `i` with `d` digits and `w` whitespace characters. */
  predicate RegexMatch(s: string, i: nat, d: nat, w: nat) {
    0 < d && i + d + w <= |s| && AllDigits(s[i..i + d]) && AllSpaces(s[i + d..i + d + w]) && "דק" <= s[i + d + w..]
  }

  /** A match can only take the longest digit run and the longest whitespace run after it:
      backing off either leaves a digit or whitespace where "ד" must stand. */
  lemma MatchIsGreedy(s: string, i: nat, d: nat, w: nat)
    requires RegexMatch(s, i, d, w)
    ensures DigitRun(s[i..]) == d && LeadingSpaces(s[i + d..]) == w
  {
    var t := s[i..];
    var u := s[i + d..];
    assert u[w] == 'ד' by {
      assert u[w] == s[i + d + w..][0];
    }
    assert forall k :: 0 <= k < d ==> IsDigit(t[k]) by {
      forall k | 0 <= k < d ensures IsDigit(t[k]) {
        assert t[k] == s[i..i + d][k];
      }
    }
    assert forall k :: 0 <= k < w ==> IsSpace(u[k]) by {
      forall k | 0 <= k < w ensures IsSpace(u[k]) {
        assert u[k] == s[i + d..i + d + w][k];
      }
    }
    assert !IsDigit(t[d]) by {
      assert t[d] == u[0];
    }
    DigitRunIsMaximal(t);
    LeadingSpacesRun(u);
  }

  /** Every match at `i` is the greedy one. */
  lemma MatchesAreGreedy(s: string, i: nat)
    ensures forall d: nat, w: nat :: RegexMatch(s, i, d, w) ==>
              d == DigitRun(s[i..]) && w == LeadingSpaces(s[i + d..])
  {
    forall d: nat, w: nat | RegexMatch(s, i, d, w)
      ensures d == DigitRun(s[i..]) && w == LeadingSpaces(s[i + d..])
    {
      MatchIsGreedy(s, i, d, w);
    }
  }

  /** The longest digit run, when non-empty and followed by whitespace and "דק", is a match. */
  lemma GreedyRunMatches(s: string, i: nat)
    requires i <= |s|
    requires var d := DigitRun(s[i..]);
             d > 0 && "דק" <= s[i + d + LeadingSpaces(s[i + d..])..]
    ensures RegexMatch(s, i, DigitRun(s[i..]), LeadingSpaces(s[i + DigitRun(s[i..])..]))
  {
    var d := DigitRun(s[i..]);
    var w := LeadingSpaces(s[i + d..]);
    var ds, sp := s[i..i + d], s[i + d..i + d + w];
    DigitRunIsMaximal(s[i..]);
    LeadingSpacesRun(s[i + d..]);
    forall k | 0 <= k < d ensures IsDigit(ds[k]) {
      assert ds[k] == s[i..][k];
    }
    forall k | 0 <= k < w ensures IsSpace(sp[k]) {
      assert sp[k] == s[i + d..][k];
    }
  }

  /** The pattern `(\d+)\s*דק` tried at offset `i`: the digits there (greedy, at least one), then
      whitespace (greedy), then "דק"; the minutes of the digit run, or None. */
  function MatchAt(s: string, i: nat): Option<nat>
    requires i <= |s|
  {
    var d := DigitRun(s[i..]);
    DigitRunDigits(s, i);
    if d == 0 then None
    else
      var w := LeadingSpaces(s[i + d..]);
      if "דק" <= s[i + d + w..] then Some(DigitsValue(s[i..i + d])) else None
  }

  /** The greedy scan is the regular expression: it finds a match at `i` exactly when the pattern
      matches there in some way. */
  lemma MatchAtIsRegex(s: string, i: nat)
    requires i <= |s|
    ensures MatchAt(s, i).Some? <==> exists d: nat, w: nat :: RegexMatch(s, i, d, w)
  {
    if MatchAt(s, i).Some? {
      GreedyRunMatches(s, i);
      var d := DigitRun(s[i..]);
      assert RegexMatch(s, i, d, LeadingSpaces(s[i + d..]));
    } else {
      forall d: nat, w: nat ensures !RegexMatch(s, i, d, w) {
        if RegexMatch(s, i, d, w) {
          MatchAtValue(s, i, d, w);
        }
      }
    }
  }

  /** Whichever way the pattern matches at `i`, the scan reads the value of that match's digits. */
  lemma MatchAtValue(s: string, i: nat, d: nat, w: nat)
    requires RegexMatch(s, i, d, w)
    ensures MatchAt(s, i) == Some(DigitsValue(s[i..i + d]))
  {
    MatchIsGreedy(s, i, d, w);
  }

  /** Where `re.search` finds its match when scanning from offset `i`: the leftmost offset at
      which the pattern matches, or |s| + 1 when it matches nowhere. */
  function MatchOffset(s: string, i: nat): (k: nat)
    requires i <= |s|
    ensures i <= k <= |s| + 1
    ensures k <= |s| ==> MatchAt(s, k).Some?
    ensures forall j :: i <= j < k && j <= |s| ==> MatchAt(s, j).None?
    decreases |s| - i
  {
    if MatchAt(s, i).Some? then i
    else if i == |s| then |s| + 1
    else MatchOffset(s, i + 1)
  }

  /** The leftmost match at offset `i` or later, as `re.search` scans. */
  function SearchFrom(s: string, i: nat): (r: Option<nat>)
    requires i <= |s|
    ensures r.Some? ==> exists k :: i <= k <= |s| && MatchAt(s, k) == r
                                 && forall j :: i <= j < k ==> MatchAt(s, j).None?
    ensures r.None? <==> forall k :: i <= k <= |s| ==> MatchAt(s, k).None?
  {
    var k := MatchOffset(s, i);
    if k <= |s| then MatchAt(s, k) else None
  }

  /** `re.search(r'(\d+)\s*דק', text)` with `int(group(1))`: the minutes of the leftmost match. */
  function ParseDuration(text: string): (r: Option<nat>)
    ensures r.Some? ==> exists k :: 0 <= k <= |text| && MatchAt(text, k) == r
                                 && forall j :: 0 <= j < k ==> MatchAt(text, j).None?
    ensures r.None? <==> forall k :: 0 <= k <= |text| ==> MatchAt(text, k).None?
  {
    SearchFrom(text, 0)
  }

  /** A text without digits mentions no duration. */
  lemma NoDigitsNoDuration(text: string)
    requires forall i :: 0 <= i < |text| ==> !IsDigit(text[i])
    ensures ParseDuration(text) == None
  {
    forall k | 0 <= k <= |text| ensures MatchAt(text, k).None? {
      assert k < |text| ==> text[k..][0] == text[k];
    }
  }

  /** A rendered number followed by whitespace and a word starting "דק" ("דקות", minutes)
      reads back as that number. */
  lemma DurationRoundTrip(n: nat, spaces: string, unit: string)
    requires AllSpaces(spaces)
    requires "דק" <= unit
    ensures ParseDuration(Decimal(n) + spaces + unit) == Some(n)
  {
    MatchAtStart(Decimal(n), spaces, unit);
    DigitsValueOfDecimal(n);
  }

  /** Digits, then whitespace, then a word starting "דק" match at offset 0. */
  lemma MatchAtStart(ds: string, spaces: string, unit: string)
    requires ds != [] && AllDigits(ds)
    requires AllSpaces(spaces)
    requires "דק" <= unit
    ensures MatchAt(ds + spaces + unit, 0) == Some(DigitsValue(ds))
  {
    var rest := spaces + unit;
    var s := ds + rest;
    assert s == ds + spaces + unit;
    assert DigitRun(s[0..]) == |ds| by {
      assert unit[0] == 'ד';
      assert rest[0] == if spaces == [] then unit[0] else spaces[0];
      DigitRunOf(ds, rest);
      assert s[0..] == s;
    }
    assert LeadingSpaces(s[|ds|..]) == |spaces| by {
      assert unit[0] == 'ד';
      SpacesThenWord(spaces, unit);
      assert s[|ds|..] == rest;
    }
    assert "דק" <= s[|ds| + |spaces|..] by {
      assert s[|ds| + |spaces|..] == unit;
    }
    assert s[0..|ds|] == ds;
    MatchAtOffsets(s, |ds|, |spaces|);
  }

  /** The match at the start, read off the lengths of its digit run and its whitespace. */
  lemma MatchAtOffsets(s: string, d: nat, w: nat)
    requires 0 < d <= |s| && DigitRun(s[0..]) == d
    requires d + w <= |s| && LeadingSpaces(s[d..]) == w
    requires "דק" <= s[d + w..]
    requires AllDigits(s[0..d])
    ensures MatchAt(s, 0) == Some(DigitsValue(s[0..d]))
  {
  }

  /** Whitespace followed by a word that starts with a letter is skipped exactly. */
  lemma {:induction false} SpacesThenWord(spaces: string, word: string)
    requires AllSpaces(spaces)
    requires word != [] && !IsSpace(word[0])
    ensures LeadingSpaces(spaces + word) == |spaces|
  {
    if spaces != [] {
      assert (spaces + word)[1..] == spaces[1..] + word;
      SpacesThenWord(spaces[1..], word);
    } else {
      assert spaces + word == word;
    }
  }

  /** The first `n` elements, or all of them when there are fewer (`xs[:n]`). */
  function Take<T>(xs: seq<T>, n: nat): (r: seq<T>)
    ensures r <= xs
    ensures |r| == if |xs| < n then |xs| else n
  {
    if |xs| <= n then xs else xs[..n]
  }

  /** `basic_analysis`: topics from the table, the first three words as keywords, the parsed
      duration, the detected language and the first hundred characters as the intent. */
  function BasicAnalysis(text: string): (a: Analysis)
    ensures a.language == if AnyIn(EnglishMarkers, Lower(text)) then English else Hebrew
    ensures a.keywords <= Words(Lower(text))
    ensures |a.keywords| == if |Words(Lower(text))| < 3 then |Words(Lower(text))| else 3
    ensures forall t :: t in a.topics <==> exists k :: 0 <= k < |TopicTable| && TopicTable[k].topic == t
                                                      && AnyIn(TopicTable[k].words, Lower(text))
    ensures Distinct(a.topics)
    ensures TopicsOf(TopicTable, a.topics, MatchingRows(TopicTable, Lower(text), 0))
    ensures a.durationMax.Some? <==> ParseDuration(text).Some?
    ensures a.durationMax.Some? ==> a.durationMax.value == ParseDuration(text).value
    ensures a.intent <= text && |a.intent| == if |text| < 100 then |text| else 100
  {
    var lower := Lower(text);
    TopicsFoundDistinct(TopicTable, lower);
    TopicsFoundInOrder(TopicTable, lower);
    Analysis(
      TopicsFound(TopicTable, lower),
      Take(Words(lower), 3),
      match ParseDuration(text) case Some(n) => Some(n as int) case None => None,
      DetectLanguage(lower),
      Take(text, 100))
  }
}
