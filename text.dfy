/**
 * The string operations the engine relies on: `str.lower`, `str.strip`,
 * `str.split()`, the `in` substring test, `str.join` and decimal rendering.
 * Strings are sequences of characters.
 */
module Text {

  import opened Wrappers

  /** Python's `str.isspace`, which `str.split()` and `str.strip()` also use: the ASCII
      controls 9-13 and 28-31, the space, and the Unicode separators. */
  predicate IsSpace(c: char) {
    || '\U{09}' <= c <= '\U{0D}' || '\U{1C}' <= c <= '\U{20}'
    || c == '\U{85}' || c == '\U{A0}' || c == '\U{1680}'
    || '\U{2000}' <= c <= '\U{200A}' || c == '\U{2028}' || c == '\U{2029}'
    || c == '\U{202F}' || c == '\U{205F}' || c == '\U{3000}'
  }

  predicate IsDigit(c: char) {
    '0' <= c <= '9'
  }

  /** `str.lower` on one character: ASCII capitals become small letters, everything else is kept. */
  function LowerChar(c: char): (r: char)
    ensures 'A' <= c <= 'Z' ==> 'a' <= r <= 'z' && r as int - c as int == 32
    ensures !('A' <= c <= 'Z') ==> r == c
  {
    if 'A' <= c <= 'Z' then (c as int + 32) as char else c
  }

  /** `str.lower`. */
  function Lower(s: string): (r: string)
    ensures |r| == |s|
    ensures forall i :: 0 <= i < |s| ==> r[i] == LowerChar(s[i])
  {
    if s == [] then [] else [LowerChar(s[0])] + Lower(s[1..])
  }

  /** The number of whitespace characters `s` starts with. */
  function LeadingSpaces(s: string): (n: nat)
    ensures n <= |s|
  {
    if s != [] && IsSpace(s[0]) then 1 + LeadingSpaces(s[1..]) else 0
  }

  /** The run `LeadingSpaces` counts is all whitespace, and the character after it is not. */
  lemma {:induction false} LeadingSpacesRun(s: string)
    ensures forall i :: 0 <= i < LeadingSpaces(s) ==> IsSpace(s[i])
    ensures LeadingSpaces(s) < |s| ==> !IsSpace(s[LeadingSpaces(s)])
  {
    if s != [] && IsSpace(s[0]) {
      LeadingSpacesRun(s[1..]);
      forall i | 0 < i < LeadingSpaces(s) ensures IsSpace(s[i]) {
        assert s[i] == s[1..][i - 1];
      }
    }
  }

  /** The number of whitespace characters `s` ends with. */
  function TrailingSpaces(s: string): (n: nat)
    ensures n <= |s|
    ensures forall i :: |s| - n <= i < |s| ==> IsSpace(s[i])
    ensures n < |s| ==> !IsSpace(s[|s| - n - 1])
  {
    if s != [] && IsSpace(s[|s| - 1]) then 1 + TrailingSpaces(s[..|s| - 1]) else 0
  }

  /** Text without ASCII capitals, Hebrew text among it, is its own lower-case form. */
  lemma LowerKeepsUncased(s: string)
    requires forall i :: 0 <= i < |s| ==> !('A' <= s[i] <= 'Z')
    ensures Lower(s) == s
  {
  }

  /** `s.strip()`: leading and trailing whitespace removed, the middle kept as it is. */
  function Strip(s: string): (r: string)
    ensures r == s[LeadingSpaces(s)..|s| - TrailingSpaces(s[LeadingSpaces(s)..])]
    ensures r != [] ==> !IsSpace(r[0]) && !IsSpace(r[|r| - 1])
  {
    LeadingSpacesRun(s);
    var t := s[LeadingSpaces(s)..];
    t[..|t| - TrailingSpaces(t)]
  }

  /** Text that neither starts nor ends with whitespace is unchanged by `strip`. */
  lemma StripKeepsTrimmed(s: string)
    requires s != [] && !IsSpace(s[0]) && !IsSpace(s[|s| - 1])
    ensures Strip(s) == s
  {
    assert LeadingSpaces(s) == 0;
    assert TrailingSpaces(s) == 0;
  }

  /** `p` occurs in `s` starting at offset `i`. */
  predicate OccursAt(s: string, p: string, i: int) {
    0 <= i && i + |p| <= |s| && s[i..i + |p|] == p
  }

  /** `p in s` for strings: `p` occurs in `s` at some offset. */
  function Contains(s: string, p: string): (b: bool)
    ensures b <==> exists i :: OccursAt(s, p, i)
    decreases |s|
  {
    if |p| > |s| then false
    else if p <= s then
      assert OccursAt(s, p, 0);
      true
    else
      var b := Contains(s[1..], p);
      if b then
        var i :| OccursAt(s[1..], p, i);
        assert OccursAt(s, p, i + 1);
        b
      else
        forall i | OccursAt(s, p, i) && i > 0 ensures OccursAt(s[1..], p, i - 1) {
          assert s[1..][i - 1..i - 1 + |p|] == s[i..i + |p|];
        }
        assert !OccursAt(s, p, 0);
        b
  }

  /** `any(k in s for k in keys)`. */
  predicate AnyIn(keys: seq<string>, s: string) {
    exists k :: k in keys && Contains(s, k)
  }

  /** The first entry of `keys` that occurs in `s`, as the source's `for … if phrase in s: return` loops find it. */
  function FirstIn(keys: seq<string>, s: string): (r: Option<string>)
    ensures r.None? <==> !AnyIn(keys, s)
    ensures r.Some? ==> r.value in keys && Contains(s, r.value)
    ensures r.Some? ==> exists i :: 0 <= i < |keys| && keys[i] == r.value
                                  && forall j :: 0 <= j < i ==> !Contains(s, keys[j])
  {
    if keys == [] then None
    else if Contains(s, keys[0]) then Some(keys[0])
    else
      var r := FirstIn(keys[1..], s);
      if r.Some? then
        var i :| 0 <= i < |keys[1..]| && keys[1..][i] == r.value
                 && forall j :: 0 <= j < i ==> !Contains(s, keys[1..][j]);
        assert keys[i + 1] == r.value;
        assert forall j :: 0 <= j < i + 1 ==> !Contains(s, keys[j]) by {
          forall j | 0 <= j < i + 1 ensures !Contains(s, keys[j]) {
            if j > 0 { assert keys[j] == keys[1..][j - 1]; }
          }
        }
        r
      else
        r
  }

  /** The longest leading run of characters that are not whitespace. */
  function WordPrefix(s: string): (w: string)
    ensures |w| <= |s|
  {
    if s == [] || IsSpace(s[0]) then [] else [s[0]] + WordPrefix(s[1..])
  }

  /** `WordPrefix` takes the longest run: a prefix free of whitespace, followed by whitespace or
      by the end of the text. */
  lemma {:induction false} WordPrefixIsRun(s: string)
    ensures WordPrefix(s) <= s
    ensures forall i :: 0 <= i < |WordPrefix(s)| ==> !IsSpace(s[i])
    ensures |WordPrefix(s)| < |s| ==> IsSpace(s[|WordPrefix(s)|])
  {
    if s != [] && !IsSpace(s[0]) {
      WordPrefixIsRun(s[1..]);
      var w := WordPrefix(s[1..]);
      assert WordPrefix(s) == [s[0]] + w;
      forall i | 0 < i < |w| + 1 ensures !IsSpace(s[i]) {
        assert s[i] == s[1..][i - 1];
      }
      if |w| + 1 < |s| {
        assert s[|w| + 1] == s[1..][|w|];
      }
    }
  }

  /** `s.split()`: the maximal runs of non-whitespace characters, in order. */
  function Words(s: string): seq<string>
    decreases |s|
  {
    if s == [] then []
    else if IsSpace(s[0]) then Words(s[1..])
    else
      var w := WordPrefix(s);
      [w] + Words(s[|w|..])
  }

  /** The words are non-empty and free of whitespace, and there are none exactly when the text
      is all whitespace. */
  lemma {:induction false} WordsShape(s: string)
    ensures forall k :: 0 <= k < |Words(s)| ==> Words(s)[k] != [] && forall i :: 0 <= i < |Words(s)[k]| ==> !IsSpace(Words(s)[k][i])
    ensures (forall i :: 0 <= i < |s| ==> IsSpace(s[i])) <==> Words(s) == []
    decreases |s|
  {
    if s != [] {
      if IsSpace(s[0]) {
        WordsShape(s[1..]);
        assert (forall i :: 0 <= i < |s| ==> IsSpace(s[i])) <==> (forall i :: 0 <= i < |s[1..]| ==> IsSpace(s[1..][i]));
      } else {
        var w := WordPrefix(s);
        WordPrefixIsRun(s);
        WordsShape(s[|w|..]);
        var ws := Words(s);
        assert ws == [w] + Words(s[|w|..]);
        forall k | 0 <= k < |ws| ensures ws[k] != [] && forall i :: 0 <= i < |ws[k]| ==> !IsSpace(ws[k][i]) {
          if k == 0 {
            forall i | 0 <= i < |w| ensures !IsSpace(w[i]) {
              assert w[i] == s[i];
            }
          } else {
            assert ws[k] == Words(s[|w|..])[k - 1];
          }
        }
      }
    }
  }

  /** A word of `s` starts at `i`: a character that is not whitespace, first or after whitespace. */
  predicate StartsWord(s: string, i: int)
    requires 0 <= i < |s|
  {
    !IsSpace(s[i]) && (i == 0 || IsSpace(s[i - 1]))
  }

  /** The reference reading of `split()` from offset `k` on: at each position where a word
      starts, in order, the longest run of characters that are not whitespace beginning there. */
  function WordsFrom(s: string, k: nat): seq<string>
    requires k <= |s|
    decreases |s| - k
  {
    if k == |s| then []
    else (if StartsWord(s, k) then [WordPrefix(s[k..])] else []) + WordsFrom(s, k + 1)
  }

  /** `split()` agrees with the reference reading: one word per word start, in order, each the
      maximal run of characters that are not whitespace beginning there. */
  lemma WordsAtStarts(s: string)
    ensures Words(s) == WordsFrom(s, 0)
  {
    WordsAtFrom(s, 0);
    assert s[0..] == s;
  }

  lemma {:induction false} WordsAtFrom(s: string, k: nat)
    requires k <= |s|
    requires k == 0 || k == |s| || IsSpace(s[k - 1]) || IsSpace(s[k])
    ensures Words(s[k..]) == WordsFrom(s, k)
    decreases |s| - k
  {
    if k < |s| {
      if IsSpace(s[k]) {
        assert s[k..][0] == s[k] && s[k..][1..] == s[k + 1..];
        WordsAtFrom(s, k + 1);
      } else {
        var m := WordAt(s, k);
        assert StartsWord(s, k);
        NoStartsInWord(s, k, m);
        WordsAtFrom(s, k + m);
      }
    }
  }

  /** The word starting at `k`: its length `m`, the whitespace (or end) after it, and the split
      of the rest of the text. */
  lemma WordAt(s: string, k: nat) returns (m: nat)
    requires k < |s| && !IsSpace(s[k])
    ensures 1 <= m && k + m <= |s|
    ensures forall i :: k <= i < k + m ==> !IsSpace(s[i])
    ensures k + m < |s| ==> IsSpace(s[k + m])
    ensures Words(s[k..]) == [WordPrefix(s[k..])] + Words(s[k + m..])
  {
    var t := s[k..];
    var w := WordPrefix(t);
    WordPrefixIsRun(t);
    m := |w|;
    assert t[0] == s[k];
    assert t[..m] == w;
    assert t[m..] == s[k + m..];
    forall i | k <= i < k + m ensures !IsSpace(s[i]) {
      assert s[i] == t[i - k];
    }
    if k + m < |s| {
      assert s[k + m] == t[m];
    }
  }

  /** No word starts inside a run of characters that are not whitespace. */
  lemma {:induction false} NoStartsInWord(s: string, k: nat, m: nat)
    requires 1 <= m && k + m <= |s|
    requires forall i :: k <= i < k + m ==> !IsSpace(s[i])
    ensures WordsFrom(s, k + 1) == WordsFrom(s, k + m)
    decreases m
  {
    if m > 1 {
      NoStartsInWord(s, k + 1, m - 1);
      assert !StartsWord(s, k + 1);
    }
  }

  /** `sep.join(parts)`. */
  function Join(sep: string, parts: seq<string>): (r: string)
    ensures parts == [] ==> r == []
    ensures |parts| == 1 ==> r == parts[0]
    ensures |parts| > 0 ==> parts[0] <= r
  {
    if parts == [] then []
    else if |parts| == 1 then parts[0]
    else parts[0] + sep + Join(sep, parts[1..])
  }

  /** Joining one more part adds the separator and that part at the end. */
  lemma {:induction false} JoinSnoc(sep: string, parts: seq<string>, p: string)
    requires parts != []
    ensures Join(sep, parts + [p]) == Join(sep, parts) + sep + p
    decreases |parts|
  {
    if |parts| > 1 {
      assert (parts + [p])[1..] == parts[1..] + [p];
      JoinSnoc(sep, parts[1..], p);
    } else {
      assert parts + [p] == [parts[0], p];
      assert [parts[0], p][1..] == [p];
    }
  }

  /** Every character is a decimal digit. */
  predicate AllDigits(s: string) {
    forall i :: 0 <= i < |s| ==> IsDigit(s[i])
  }

  /** Every character is whitespace. */
  predicate AllSpaces(s: string) {
    forall i :: 0 <= i < |s| ==> IsSpace(s[i])
  }

  /** Decimal digits of a natural number, most significant first, without leading zeros. */
  function Decimal(n: nat): (r: string)
    ensures r != []
    ensures forall i :: 0 <= i < |r| ==> IsDigit(r[i])
    decreases n
  {
    if n < 10 then [('0' as int + n) as char]
    else Decimal(n / 10) + [('0' as int + n % 10) as char]
  }

  /** The number a run of decimal digits denotes (Python's `int` on such a run). */
  function DigitsValue(ds: string): nat
    requires AllDigits(ds)
  {
    assert ds != [] ==> IsDigit(ds[|ds| - 1]);
    if ds == [] then 0
    else DigitsValue(ds[..|ds| - 1]) * 10 + (ds[|ds| - 1] as int - '0' as int)
  }

  /** Reading back a rendered number gives the number. */
  lemma {:induction false} DigitsValueOfDecimal(n: nat)
    ensures DigitsValue(Decimal(n)) == n
    decreases n
  {
    if n >= 10 {
      var d := Decimal(n);
      assert d[..|d| - 1] == Decimal(n / 10);
      DigitsValueOfDecimal(n / 10);
    }
  }

  /** `str(n)` for a Python `int`. */
  function IntToString(n: int): (r: string)
    ensures n >= 0 ==> r == Decimal(n)
    ensures n < 0 ==> r == "-" + Decimal(-n)
  {
    if n >= 0 then Decimal(n) else "-" + Decimal(-n)
  }
}
