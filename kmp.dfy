/** Knuth-Morris-Pratt substring search (searching/knuth_morris_pratt.go).
    Both strings are sequences of code points (Go runes) of valid UTF-8 text;
    offsets count code points, and the early exit compares lengths in bytes,
    as Go's len does. */
module KnuthMorrisPratt {

  // ---------------------------------------------------------------------
  // Occurrences
  // ---------------------------------------------------------------------

  /** `pattern` occurs in `text` starting at offset `p`. */
  ghost predicate MatchAt(text: seq<char>, pattern: seq<char>, p: int) {
    0 <= p && p + |pattern| <= |text| && forall k :: 0 <= k < |pattern| ==> text[p + k] == pattern[k]
  }

  /** The offsets below `n` at which `pattern` occurs, in increasing order. */
  ghost function OccurrencesBelow(text: seq<char>, pattern: seq<char>, n: int): seq<int>
    decreases n
  {
    if n <= 0 then []
    else OccurrencesBelow(text, pattern, n - 1) + (if MatchAt(text, pattern, n - 1) then [n - 1] else [])
  }

  /** What KmpSearch returns: every offset at which a non-empty pattern occurs,
      in increasing order; nothing for an empty pattern. */
  ghost function Occurrences(text: seq<char>, pattern: seq<char>): seq<int> {
    if |pattern| == 0 then [] else OccurrencesBelow(text, pattern, |text|)
  }

  /** OccurrencesBelow lists exactly the matches below `n`. */
  lemma {:induction false} OccurrencesBelowExact(text: seq<char>, pattern: seq<char>, n: int)
    ensures forall p :: p in OccurrencesBelow(text, pattern, n) <==> p < n && MatchAt(text, pattern, p)
    decreases n
  {
    if n > 0 {
      OccurrencesBelowExact(text, pattern, n - 1);
      var prev := OccurrencesBelow(text, pattern, n - 1);
      var last: seq<int> := if MatchAt(text, pattern, n - 1) then [n - 1] else [];
      assert OccurrencesBelow(text, pattern, n) == prev + last;
      forall p ensures p in prev + last <==> p < n && MatchAt(text, pattern, p) {
        assert p in prev + last <==> p in prev || p in last;
      }
    }
  }

  /** OccurrencesBelow is strictly increasing. */
  lemma {:induction false} OccurrencesBelowIncreasing(text: seq<char>, pattern: seq<char>, n: int)
    ensures forall a, b :: 0 <= a < b < |OccurrencesBelow(text, pattern, n)| ==>
      OccurrencesBelow(text, pattern, n)[a] < OccurrencesBelow(text, pattern, n)[b]
    decreases n
  {
    if n > 0 {
      OccurrencesBelowIncreasing(text, pattern, n - 1);
      OccurrencesBelowExact(text, pattern, n - 1);
      var prev := OccurrencesBelow(text, pattern, n - 1);
      forall a | 0 <= a < |prev| ensures prev[a] < n - 1 {
        assert prev[a] in prev;
      }
    }
  }

  /** Offsets in [a, b) with no match add nothing. */
  lemma {:induction false} OccurrencesSkip(text: seq<char>, pattern: seq<char>, a: int, b: int)
    requires a <= b
    requires forall p :: a <= p < b ==> !MatchAt(text, pattern, p)
    ensures OccurrencesBelow(text, pattern, a) == OccurrencesBelow(text, pattern, b)
    decreases b - a
  {
    if a < b {
      OccurrencesSkip(text, pattern, a, b - 1);
    }
  }

  /** Every returned offset is a match, every match is returned, and the
      offsets are strictly increasing. */
  lemma OccurrencesCorrect(text: seq<char>, pattern: seq<char>)
    ensures forall p :: p in Occurrences(text, pattern) <==> |pattern| > 0 && MatchAt(text, pattern, p)
    ensures forall a, b :: 0 <= a < b < |Occurrences(text, pattern)| ==>
      Occurrences(text, pattern)[a] < Occurrences(text, pattern)[b]
  {
    if |pattern| > 0 {
      OccurrencesBelowExact(text, pattern, |text|);
      OccurrencesBelowIncreasing(text, pattern, |text|);
    }
  }

  // ---------------------------------------------------------------------
  // Lengths in bytes
  // ---------------------------------------------------------------------

  /** The number of bytes the UTF-8 encoding of the code point `ch` takes. */
  function Utf8Width(ch: char): (w: int)
    ensures 1 <= w <= 4
  {
    if ch as int < 0x80 then 1
    else if ch as int < 0x800 then 2
    else if ch as int < 0x1_0000 then 3
    else 4
  }

  /** The length in bytes of the UTF-8 encoding of `s`: what Go's len gives
      for a string that holds valid UTF-8. */
  function Utf8Length(s: seq<char>): (n: int)
    ensures |s| <= n <= 4 * |s|
  {
    if s == [] then 0 else Utf8Width(s[0]) + Utf8Length(s[1..])
  }

  /** The encoding of a concatenation is as long as the two encodings together. */
  lemma {:induction false} Utf8LengthAppend(a: seq<char>, b: seq<char>)
    ensures Utf8Length(a + b) == Utf8Length(a) + Utf8Length(b)
  {
    if a == [] {
      assert a + b == b;
    } else {
      assert (a + b)[1..] == a[1..] + b;
      Utf8LengthAppend(a[1..], b);
    }
  }

  /** A pattern that occurs in the text takes no more bytes than the text. */
  lemma MatchFitsEncoding(text: seq<char>, pattern: seq<char>, p: int)
    ensures MatchAt(text, pattern, p) ==> Utf8Length(pattern) <= Utf8Length(text)
  {
    if MatchAt(text, pattern, p) {
      var q := p + |pattern|;
      assert text[p..q] == pattern;
      assert text == text[..p] + pattern + text[q..];
      Utf8LengthAppend(text[..p], pattern);
      Utf8LengthAppend(text[..p] + pattern, text[q..]);
    }
  }

  /** A pattern whose encoding is longer than the text's occurs nowhere in it,
      so the source's early exit on byte lengths loses no occurrence. */
  lemma LongEncodingNeverOccurs(text: seq<char>, pattern: seq<char>)
    requires Utf8Length(text) < Utf8Length(pattern)
    ensures Occurrences(text, pattern) == []
  {
    forall p | 0 <= p < |text| ensures !MatchAt(text, pattern, p) {
      MatchFitsEncoding(text, pattern, p);
    }
    OccurrencesSkip(text, pattern, 0, |text|);
  }

  // ---------------------------------------------------------------------
  // Borders and the longest-prefix-suffix table
  // ---------------------------------------------------------------------

  /** pattern[..b] is a proper border of pattern[..len]: both a prefix and a
      suffix of it, and shorter than it. */
  ghost predicate IsBorder(pattern: seq<char>, len: int, b: int) {
    0 <= b < len <= |pattern| && pattern[..b] == pattern[len - b..len]
  }

  /** b is the length of the longest proper border of pattern[..len]. */
  ghost predicate LongestBorder(pattern: seq<char>, len: int, b: int) {
    IsBorder(pattern, len, b) && forall c :: IsBorder(pattern, len, c) ==> c <= b
  }

  /** lps[k] is the longest proper border of pattern[..k+1], for k < n. */
  ghost predicate LpsUpTo(pattern: seq<char>, lps: seq<int>, n: int) {
    n <= |lps| && forall k :: 0 <= k < n ==> LongestBorder(pattern, k + 1, lps[k])
  }

  /** A border of a border is a border. */
  lemma BorderOfBorder(pattern: seq<char>, len: int, b: int, c: int)
    requires IsBorder(pattern, len, b) && IsBorder(pattern, b, c)
    ensures IsBorder(pattern, len, c)
  {
    assert pattern[len - c..len] == pattern[len - b..len][b - c..];
    assert pattern[b - c..b] == pattern[..b][b - c..];
  }

  /** A shorter border is a border of the longer one. */
  lemma ShorterBorder(pattern: seq<char>, len: int, b: int, c: int)
    requires IsBorder(pattern, len, b) && IsBorder(pattern, len, c) && c < b
    ensures IsBorder(pattern, b, c)
  {
    assert pattern[b - c..b] == pattern[..b][b - c..];
    assert pattern[len - c..len] == pattern[len - b..len][b - c..];
  }

  /** A border followed by a matching character is a border one longer. */
  lemma ExtendBorder(pattern: seq<char>, i: int, b: int)
    requires IsBorder(pattern, i, b) && i < |pattern| && pattern[b] == pattern[i]
    ensures IsBorder(pattern, i + 1, b + 1)
  {
    assert pattern[..b + 1] == pattern[..b] + [pattern[b]];
    assert pattern[i - b..i + 1] == pattern[i - b..i] + [pattern[i]];
  }

  /** A non-empty border of pattern[..i+1] is a border of pattern[..i]
      extended by the character pattern[i]. */
  lemma ShrinkBorder(pattern: seq<char>, i: int, b: int)
    requires IsBorder(pattern, i + 1, b) && b > 0
    ensures IsBorder(pattern, i, b - 1) && pattern[b - 1] == pattern[i]
  {
    assert pattern[..b - 1] == pattern[..b][..b - 1];
    assert pattern[i + 1 - b..i] == pattern[i + 1 - b..i + 1][..b - 1];
    assert pattern[b - 1] == pattern[..b][b - 1];
    assert pattern[i] == pattern[i + 1 - b..i + 1][b - 1];
  }

  /** The state of createLps at the head of its loop: lps[..i] is filled in,
      j is a border of pattern[..i], and no longer border of pattern[..i] can
      be extended by pattern[i]. */
  ghost predicate LpsLoopState(pattern: seq<char>, lps: seq<int>, i: int, j: int) {
    1 <= i <= |pattern| == |lps| && LpsUpTo(pattern, lps, i) && IsBorder(pattern, i, j) &&
    (i < |pattern| ==> forall b :: IsBorder(pattern, i, b) && b > j ==> pattern[b] != pattern[i])
  }

  /** A match extends j: lps[i] = j+1 is the longest border of pattern[..i+1]. */
  lemma LpsMatchStep(pattern: seq<char>, lps: seq<int>, i: int, j: int)
    requires LpsLoopState(pattern, lps, i, j) && i < |pattern| && pattern[i] == pattern[j]
    ensures LpsLoopState(pattern, lps[i := j + 1], i + 1, j + 1)
  {
    var lps' := lps[i := j + 1];
    var len := i + 1;
    ExtendBorder(pattern, i, j);
    forall c | IsBorder(pattern, len, c) ensures c <= j + 1 {
      if c > 0 {
        ShrinkBorder(pattern, i, c);
      }
    }
    forall k | 0 <= k < i + 1 ensures LongestBorder(pattern, k + 1, lps'[k]) {
      if k < i {
        assert lps'[k] == lps[k];
      }
    }
  }

  /** A mismatch with j > 0 falls back to j' = lps[j-1]: no border between j'
      and j can be extended either. */
  lemma LpsFallbackStep(pattern: seq<char>, lps: seq<int>, i: int, j: int)
    requires LpsLoopState(pattern, lps, i, j) && i < |pattern| && pattern[i] != pattern[j] && j > 0
    ensures lps[j - 1] < j && LpsLoopState(pattern, lps, i, lps[j - 1])
  {
    var j' := lps[j - 1];
    assert LongestBorder(pattern, j, j');
    BorderOfBorder(pattern, i, j, j');
    forall b | IsBorder(pattern, i, b) && b > j' ensures pattern[b] != pattern[i] {
      if b < j {
        ShorterBorder(pattern, i, j, b);
      }
    }
  }

  /** A mismatch with j = 0: pattern[..i+1] has no non-empty border. */
  lemma LpsZeroStep(pattern: seq<char>, lps: seq<int>, i: int)
    requires LpsLoopState(pattern, lps, i, 0) && i < |pattern| && pattern[i] != pattern[0]
    ensures LpsLoopState(pattern, lps[i := 0], i + 1, 0)
  {
    var lps' := lps[i := 0];
    var len := i + 1;
    assert IsBorder(pattern, len, 0);
    forall c | IsBorder(pattern, len, c) ensures c <= 0 {
      if c > 0 {
        ShrinkBorder(pattern, i, c);
      }
    }
    forall k | 0 <= k < i + 1 ensures LongestBorder(pattern, k + 1, lps'[k]) {
      if k < i {
        assert lps'[k] == lps[k];
      }
    }
  }

  /** createLps: the table of longest proper borders of every prefix. */
  method CreateLps(subString: seq<char>) returns (lps: seq<int>)
    ensures |lps| == |subString|
    ensures forall k :: 0 <= k < |subString| ==> LongestBorder(subString, k + 1, lps[k])
  {
    var table := new int[|subString|];
    if |subString| == 0 {
      return table[..];
    }
    table[0] := 0;
    var j := 0;
    var i := 1;
    forall c | IsBorder(subString, 1, c) ensures c <= 0 {
    }
    while i < |subString|
      invariant LpsLoopState(subString, table[..], i, j)
      decreases |subString| - i, j
    {
      if subString[i] == subString[j] {
        LpsMatchStep(subString, table[..], i, j);
        j := j + 1;
        table[i] := j;
        i := i + 1;
      } else {
        if j != 0 {
          LpsFallbackStep(subString, table[..], i, j);
          j := table[j - 1];
        } else {
          LpsZeroStep(subString, table[..], i);
          table[i] := 0;
          i := i + 1;
        }
      }
    }
    lps := table[..];
  }

  // ---------------------------------------------------------------------
  // The search
  // ---------------------------------------------------------------------

  /** The text just before offset i spells pattern[..j]. */
  ghost predicate Aligned(text: seq<char>, pattern: seq<char>, i: int, j: int) {
    0 <= j <= i <= |text| && j <= |pattern| &&
    forall k :: 0 <= k < j ==> text[i - j + k] == pattern[k]
  }

  /** A match starting at p inside a partial match pattern[..j] that ends at
      i makes pattern[..i-p] a proper border of pattern[..j]. */
  lemma MatchGivesBorder(text: seq<char>, pattern: seq<char>, i: int, j: int, p: int)
    requires Aligned(text, pattern, i, j) && i - j < p <= i && MatchAt(text, pattern, p)
    ensures IsBorder(pattern, j, i - p)
  {
    var b := i - p;
    forall k | 0 <= k < b ensures pattern[..b][k] == pattern[j - b..j][k] {
      assert text[p + k] == pattern[k];
      assert text[i - j + (j - b + k)] == pattern[j - b + k];
    }
    assert pattern[..b] == pattern[j - b..j];
  }

  /** When the text before i spells pattern[..j] and j' is the longest proper
      border of pattern[..j], no match of the pattern starts strictly between
      i-j and i-j'. */
  lemma NoMatchInSkip(text: seq<char>, pattern: seq<char>, i: int, j: int, j': int)
    requires Aligned(text, pattern, i, j) && LongestBorder(pattern, j, j')
    ensures forall p :: i - j < p < i - j' ==> !MatchAt(text, pattern, p)
  {
    forall p | i - j < p < i - j' ensures !MatchAt(text, pattern, p) {
      if MatchAt(text, pattern, p) {
        MatchGivesBorder(text, pattern, i, j, p);
      }
    }
  }

  /** A mismatch right after a partial match rules out a match at its start. */
  lemma MismatchRulesOut(text: seq<char>, pattern: seq<char>, i: int, j: int)
    requires 0 <= j <= i < |text| && j < |pattern| && text[i] != pattern[j]
    ensures !MatchAt(text, pattern, i - j)
  {
  }

  /** The search has matched pattern[..j] against the text ending at i, and
      `found` holds every match that starts before i-j. */
  ghost predicate Matched(text: seq<char>, pattern: seq<char>, lps: seq<int>, i: int, j: int, found: seq<int>) {
    |pattern| == |lps| && LpsUpTo(pattern, lps, |pattern|) &&
    Aligned(text, pattern, i, j) &&
    found == OccurrencesBelow(text, pattern, i - j)
  }

  /** The state of the search at the head of its loop: a partial match only. */
  ghost predicate SearchState(text: seq<char>, pattern: seq<char>, lps: seq<int>, i: int, j: int, found: seq<int>) {
    Matched(text, pattern, lps, i, j, found) && j < |pattern|
  }

  /** Comparing text[i] with pattern[j] and, on a match, advancing both. */
  lemma SearchAdvance(text: seq<char>, pattern: seq<char>, lps: seq<int>, i: int, j: int, found: seq<int>)
    requires SearchState(text, pattern, lps, i, j, found) && i < |text| && text[i] == pattern[j]
    ensures Matched(text, pattern, lps, i + 1, j + 1, found)
  {
  }

  /** After a full match at i-m, recording it and falling back to lps[m-1]
      restores the search state. */
  lemma SearchFoundStep(text: seq<char>, pattern: seq<char>, lps: seq<int>, i: int, found: seq<int>)
    requires Matched(text, pattern, lps, i, |pattern|, found) && |pattern| > 0
    ensures lps[|pattern| - 1] < |pattern|
    ensures SearchState(text, pattern, lps, i, lps[|pattern| - 1], found + [i - |pattern|])
  {
    var m := |pattern|;
    var j' := lps[m - 1];
    assert LongestBorder(pattern, m, j');
    RecordMatch(text, pattern, i, found);
    NoMatchInSkip(text, pattern, i, m, j');
    OccurrencesSkip(text, pattern, i - m + 1, i - j');
    BorderSuffix(text, pattern, i, m, j');
  }

  /** A whole match ending at i, recorded after the matches below its start p,
      gives the matches below p+1. */
  lemma RecordMatch(text: seq<char>, pattern: seq<char>, i: int, found: seq<int>)
    requires Aligned(text, pattern, i, |pattern|)
    requires found == OccurrencesBelow(text, pattern, i - |pattern|)
    ensures found + [i - |pattern|] == OccurrencesBelow(text, pattern, i - |pattern| + 1)
  {
    assert MatchAt(text, pattern, i - |pattern|);
  }

  /** When the text before i spells pattern[..j], it also ends in every border
      of pattern[..j]. */
  lemma BorderSuffix(text: seq<char>, pattern: seq<char>, i: int, j: int, j': int)
    requires Aligned(text, pattern, i, j) && IsBorder(pattern, j, j')
    ensures Aligned(text, pattern, i, j')
  {
    forall k | 0 <= k < j' ensures text[i - j' + k] == pattern[k] {
      assert text[i - j + (j - j' + k)] == pattern[j - j' + k];
      assert pattern[..j'][k] == pattern[j - j'..j][k];
    }
  }

  /** A mismatch at text[i] against pattern[j] with j > 0: falling back to
      lps[j-1] restores the search state. */
  lemma SearchFallbackStep(text: seq<char>, pattern: seq<char>, lps: seq<int>, i: int, j: int, found: seq<int>)
    requires Matched(text, pattern, lps, i, j, found) && j < |pattern|
    requires i < |text| && text[i] != pattern[j] && j > 0
    ensures lps[j - 1] < j && SearchState(text, pattern, lps, i, lps[j - 1], found)
  {
    var j' := lps[j - 1];
    assert LongestBorder(pattern, j, j');
    MismatchRulesOut(text, pattern, i, j);
    NoMatchInSkip(text, pattern, i, j, j');
    OccurrencesSkip(text, pattern, i - j, i - j');
    BorderSuffix(text, pattern, i, j, j');
  }

  /** A mismatch at text[i] against pattern[0]: the search moves on to i+1. */
  lemma SearchSkipStep(text: seq<char>, pattern: seq<char>, lps: seq<int>, i: int, found: seq<int>)
    requires SearchState(text, pattern, lps, i, 0, found) && i < |text| && text[i] != pattern[0]
    ensures SearchState(text, pattern, lps, i + 1, 0, found)
  {
    MismatchRulesOut(text, pattern, i, 0);
    assert OccurrencesBelow(text, pattern, i + 1) == OccurrencesBelow(text, pattern, i) + [];
  }

  /** At the end of the text no match can start in the last j < m offsets. */
  lemma SearchEnd(text: seq<char>, pattern: seq<char>, lps: seq<int>, j: int, found: seq<int>)
    requires SearchState(text, pattern, lps, |text|, j, found)
    ensures found == OccurrencesBelow(text, pattern, |text|)
  {
    OccurrencesSkip(text, pattern, |text| - j, |text|);
  }

  /** KmpSearch: every offset of `text` at which `subString` occurs, in
      increasing order; nothing when the pattern is empty or takes more bytes
      than the text. */
  method KmpSearch(text: seq<char>, subString: seq<char>) returns (patternStartIndices: seq<int>)
    ensures patternStartIndices == Occurrences(text, subString)
  {
    patternStartIndices := [];
    if Utf8Length(text) < Utf8Length(subString) || |subString| == 0 {
      if |subString| > 0 {
        LongEncodingNeverOccurs(text, subString);
      }
      return;
    }
    var lps := CreateLps(subString);
    var m := |subString|;
    var i, j := 0, 0;
    while i < |text|
      invariant SearchState(text, subString, lps, i, j, patternStartIndices)
      decreases 2 * (|text| - i) + j
    {
      if text[i] == subString[j] {
        SearchAdvance(text, subString, lps, i, j, patternStartIndices);
        i := i + 1;
        j := j + 1;
      }
      if j == m {
        SearchFoundStep(text, subString, lps, i, patternStartIndices);
        patternStartIndices := patternStartIndices + [i - j];
        j := lps[j - 1];
      } else if i < |text| && text[i] != subString[j] {
        if j != 0 {
          SearchFallbackStep(text, subString, lps, i, j, patternStartIndices);
          j := lps[j - 1];
        } else {
          SearchSkipStep(text, subString, lps, i, patternStartIndices);
          i := i + 1;
        }
      }
    }
    SearchEnd(text, subString, lps, j, patternStartIndices);
  }
}
