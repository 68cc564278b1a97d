/** `SetsAndMaps`: symmetric two-letter word pairs found with a set of words, a case- and
    whitespace-insensitive anagram test that counts characters in a dictionary, and the per-line
    counting of degrees in comma-separated records. */
module SetsAndMaps {
  import opened Text

  datatype Option<T> = None | Some(value: T)

  // ---------------------------------------------------------------------------
  // FindPairs

  /** Every word can be indexed at 0 and 1. */
  predicate AllPairable(words: seq<string>) {
    forall i :: 0 <= i < |words| ==> |words[i]| >= 2
  }

  function WordSet(words: seq<string>): set<string> {
    set i | 0 <= i < |words| :: words[i]
  }

  /** The word made of the second letter followed by the first. */
  function Swapped(w: string): string
    requires |w| >= 2
  {
    [w[1], w[0]]
  }

  /** The text "r & w" reported for word `w` with reversal `r`. */
  function PairText(w: string): string
    requires |w| >= 2
  {
    Swapped(w) + " & " + w
  }

  /** Whether word `w` reports a pair: its letters differ, its reversal is one of the words and
      `w` sorts before its reversal. */
  predicate Reports(wordSet: set<string>, w: string)
    requires |w| >= 2
  {
    w[0] != w[1] && Swapped(w) in wordSet && LexLess(w, Swapped(w))
  }

  /** The pairs reported by the words, in the order of the words. */
  function Pairs(wordSet: set<string>, words: seq<string>): seq<string>
    requires AllPairable(words)
  {
    if words == [] then []
    else
      var init, w := Pairs(wordSet, words[..|words| - 1]), words[|words| - 1];
      if Reports(wordSet, w) then init + [PairText(w)] else init
  }

  method FindPairs(words: seq<string>) returns (pairs: seq<string>)
    requires AllPairable(words)
    ensures pairs == Pairs(WordSet(words), words)
  {
    var wordSet := WordSet(words);
    pairs := [];
    for i := 0 to |words|
      invariant pairs == Pairs(wordSet, words[..i])
    {
      var word := words[i];
      assert words[..i + 1][..i] == words[..i];
      if word[0] == word[1] {
        continue;
      }
      var reversed := [word[1], word[0]];
      if reversed in wordSet {
        if LexLess(word, reversed) {
          pairs := pairs + [reversed + " & " + word];
        }
      }
    }
    assert words[..|words|] == words;
  }

  /** A text is reported exactly when some word reports it. */
  lemma {:induction false} PairsMembership(wordSet: set<string>, words: seq<string>, t: string)
    requires AllPairable(words)
    ensures t in Pairs(wordSet, words) <==>
      exists i :: 0 <= i < |words| && Reports(wordSet, words[i]) && t == PairText(words[i])
  {
    if words != [] {
      var init := words[..|words| - 1];
      PairsMembership(wordSet, init, t);
      assert forall i :: 0 <= i < |init| ==> init[i] == words[i];
    }
  }

  /** The word can be read back from its pair text. */
  lemma PairTextInjective(w: string, w2: string)
    requires |w| >= 2 && |w2| >= 2
    ensures PairText(w) == PairText(w2) <==> w == w2
  {
    if PairText(w) == PairText(w2) {
      assert w == PairText(w)[5..] && w2 == PairText(w2)[5..];
    }
  }

  /** "r & w" is reported only when `w` and `r` are both words and `w` sorts before `r`. */
  lemma PairsSound(words: seq<string>, w: string)
    requires AllPairable(words) && |w| >= 2
    requires PairText(w) in Pairs(WordSet(words), words)
    ensures w in words && Swapped(w) in words && LexLess(w, Swapped(w))
  {
    PairsMembership(WordSet(words), words, PairText(w));
    var i :| 0 <= i < |words| && Reports(WordSet(words), words[i]) && PairText(w) == PairText(words[i]);
    PairTextInjective(w, words[i]);
  }

  /** Every two-letter word with different letters whose reversal is also a word has its pair
      reported, under its own name or under its reversal's. */
  lemma PairsComplete(words: seq<string>, i: nat)
    requires AllPairable(words) && i < |words| && |words[i]| == 2
    requires words[i][0] != words[i][1] && Swapped(words[i]) in words
    ensures PairText(words[i]) in Pairs(WordSet(words), words) ||
      PairText(Swapped(words[i])) in Pairs(WordSet(words), words)
  {
    var ws := WordSet(words);
    var w := words[i];
    var r := Swapped(w);
    var j :| 0 <= j < |words| && words[j] == r;
    assert r in ws;
    if LexLess(w, r) {
      assert Reports(ws, words[i]);
      PairsMembership(ws, words, PairText(w));
    } else {
      assert w == [w[0], w[1]];
      assert w in ws && Swapped(r) == w;
      LexLessTotal(w, r);
      assert Reports(ws, words[j]);
      PairsMembership(ws, words, PairText(r));
    }
  }

  /** Of a word and its reversal, at most one reports a pair, so a pair is not reported under
      both of its words. */
  lemma ReportsOnce(wordSet: set<string>, w: string)
    requires |w| == 2
    ensures !(Reports(wordSet, w) && Reports(wordSet, Swapped(w)))
  {
    assert Swapped(Swapped(w)) == w;
    LexLessTotal(w, Swapped(w));
  }

  /** A pair text occurs in the output once for every occurrence of the word that reports it,
      and not at all when that word does not report: with no repeated words, each pair is
      reported at most once. */
  lemma {:induction false} PairsCount(wordSet: set<string>, words: seq<string>, w: string)
    requires AllPairable(words) && |w| >= 2
    ensures multiset(Pairs(wordSet, words))[PairText(w)] ==
      if Reports(wordSet, w) then multiset(words)[w] else 0
  {
    if words != [] {
      var init, last := words[..|words| - 1], words[|words| - 1];
      assert words == init + [last];
      assert AllPairable(init) by {
        forall i | 0 <= i < |init|
          ensures |init[i]| >= 2
        {
          assert init[i] == words[i];
        }
      }
      PairsCount(wordSet, init, w);
      PairTextInjective(w, last);
    }
  }

  /** A repeated word reports its pair as often as it occurs: ["am", "ma", "am"] gives
      "ma & am" twice. */
  lemma PairsRepeatedWord()
    ensures multiset(Pairs(WordSet(["am", "ma", "am"]), ["am", "ma", "am"]))["ma & am"] == 2
  {
    var words := ["am", "ma", "am"];
    var ws := WordSet(words);
    assert words[0] in ws && words[1] in ws;
    assert Swapped("am") == "ma" && LexLess("am", "ma");
    assert Reports(ws, "am");
    assert PairText("am") == "ma & am";
    assert multiset(words)["am"] == 2;
    PairsCount(ws, words, "am");
  }

  /** A word of two equal letters is never reported. */
  lemma PairsSkipSameLetters(words: seq<string>, w: string)
    requires AllPairable(words) && |w| >= 2 && w[0] == w[1]
    ensures PairText(w) !in Pairs(WordSet(words), words)
  {
    if PairText(w) in Pairs(WordSet(words), words) {
      PairsSound(words, w);
      assert !LexLess(w, Swapped(w)) by {
        assert Swapped(w) == w[..2];
        LexLessTotal(w, Swapped(w));
        LexLessPrefix(w);
      }
    }
  }

  /** A word starting with a doubled letter does not sort before those two letters. */
  lemma LexLessPrefix(w: string)
    requires |w| >= 2 && w[0] == w[1]
    ensures !LexLess(w, [w[1], w[0]])
  {
    var r := [w[1], w[0]];
    assert r[1..] == [w[0]] && [w[0]][1..] == [];
    assert w[1..][0] == w[0] && w[1..][1..] == w[2..];
    assert !LexLess(w[2..], []);
    assert LexLess(w[1..], r[1..]) == LexLess(w[2..], []);
    assert LexLess(w, r) == LexLess(w[1..], r[1..]);
  }

  /** The example of the exercise: ["am", "ma"] gives ["ma & am"]. */
  lemma PairsExample()
    ensures Pairs(WordSet(["am", "ma"]), ["am", "ma"]) == ["ma & am"]
  {
    var words := ["am", "ma"];
    var ws := WordSet(words);
    assert words[0] in ws && words[1] in ws;
    assert Swapped("am") == "ma" && Swapped("ma") == "am";
    assert LexLess("am", "ma");
    assert !LexLess("ma", "am");
    assert Reports(ws, "am") && !Reports(ws, "ma");
    assert PairText("am") == "ma & am";
    assert words[..1] == ["am"] && ["am"][..0] == [];
    assert Pairs(ws, []) == [];
    assert Pairs(ws, ["am"]) == ["ma & am"];
  }

  // ---------------------------------------------------------------------------
  // IsAnagram

  /** The characters of `s` that are not whitespace, in order. */
  function NonWhiteSpace(s: string): (r: string)
    ensures forall i :: 0 <= i < |r| ==> !IsWhiteSpace(r[i])
  {
    if s == [] then []
    else NonWhiteSpace(s[..|s| - 1]) + (if IsWhiteSpace(s[|s| - 1]) then [] else [s[|s| - 1]])
  }

  /** Removing whitespace keeps every other character, as often as it occurs. */
  lemma {:induction false} NonWhiteSpaceCounts(s: string)
    ensures forall ch :: !IsWhiteSpace(ch) ==> multiset(NonWhiteSpace(s))[ch] == multiset(s)[ch]
    ensures forall ch :: IsWhiteSpace(ch) ==> multiset(NonWhiteSpace(s))[ch] == 0
  {
    if s != [] {
      NonWhiteSpaceCounts(s[..|s| - 1]);
      assert s == s[..|s| - 1] + [s[|s| - 1]];
    }
  }

  /** The text an anagram test compares: lower-cased, with whitespace removed. */
  function Clean(s: string): (r: string)
    ensures forall i :: 0 <= i < |r| ==> !IsWhiteSpace(r[i]) && !('A' <= r[i] <= 'Z')
  {
    var lower := ToLower(s);
    var r := NonWhiteSpace(lower);
    NonWhiteSpaceCounts(lower);
    assert forall i :: 0 <= i < |r| ==> multiset(r)[r[i]] > 0;
    assert forall i :: 0 <= i < |r| ==> r[i] in lower;
    r
  }

  /** The count of `ch` recorded in a dictionary of counters; a missing key counts zero. */
  function CountOf(counts: map<char, int>, ch: char): int {
    if ch in counts then counts[ch] else 0
  }

  /** Counts the letters of `s` in a dictionary of counters. */
  method LetterCounts(s: string) returns (letterCount: map<char, int>)
    ensures forall ch :: CountOf(letterCount, ch) == multiset(s)[ch]
  {
    letterCount := map[];
    for i := 0 to |s|
      invariant forall ch :: CountOf(letterCount, ch) == multiset(s[..i])[ch]
    {
      var c := s[i];
      assert s[..i + 1] == s[..i] + [c];
      if c !in letterCount {
        letterCount := letterCount[c := 0];
      }
      letterCount := letterCount[c := letterCount[c] + 1];
    }
    assert s[..|s|] == s;
  }

  /** Takes the letters of `s` off the counters, failing as soon as a counter would drop below
      zero; succeeds exactly when `s` holds no letter more often than the counters say. */
  method TakeLetters(letterCount: map<char, int>, s: string, ghost counts: multiset<char>) returns (ok: bool)
    requires forall ch :: CountOf(letterCount, ch) == counts[ch]
    ensures ok <==> multiset(s) <= counts
  {
    var remaining := letterCount;
    for j := 0 to |s|
      invariant multiset(s[..j]) <= counts
      invariant forall ch :: CountOf(remaining, ch) == counts[ch] - multiset(s[..j])[ch]
    {
      var c := s[j];
      assert multiset(s[..j + 1]) == multiset(s[..j]) + multiset{c} by {
        assert s[..j + 1] == s[..j] + [c];
      }
      if c !in remaining || remaining[c] == 0 {
        TakeTooMany(remaining, counts, multiset(s[..j]), c);
        PrefixMultiset(s, j + 1);
        return false;
      }
      TakeOne(remaining, counts, multiset(s[..j]), c);
      remaining := remaining[c := remaining[c] - 1];
    }
    assert s[..|s|] == s;
    return true;
  }

  /** Taking a letter whose counter is positive keeps the counters in step with what was taken. */
  lemma TakeOne(remaining: map<char, int>, counts: multiset<char>, seen: multiset<char>, c: char)
    requires seen <= counts
    requires forall ch :: CountOf(remaining, ch) == counts[ch] - seen[ch]
    requires c in remaining && remaining[c] != 0
    ensures seen + multiset{c} <= counts
    ensures forall ch :: CountOf(remaining[c := remaining[c] - 1], ch) == counts[ch] - (seen + multiset{c})[ch]
  {
    assert CountOf(remaining, c) == counts[c] - seen[c];
  }

  /** Taking a letter whose counter is zero or missing takes more of it than the counters hold. */
  lemma TakeTooMany(remaining: map<char, int>, counts: multiset<char>, seen: multiset<char>, c: char)
    requires seen <= counts
    requires forall ch :: CountOf(remaining, ch) == counts[ch] - seen[ch]
    requires c !in remaining || remaining[c] == 0
    ensures !(seen + multiset{c} <= counts)
  {
    assert CountOf(remaining, c) == 0;
    assert (seen + multiset{c})[c] > counts[c];
  }

  /** The cleaned texts are anagrams exactly when they hold every character equally often. */
  method IsAnagram(a: string, b: string) returns (r: bool)
    ensures r <==> multiset(Clean(a)) == multiset(Clean(b))
    ensures |Clean(a)| != |Clean(b)| ==> !r
  {
    var cleanA := NonWhiteSpace(ToLower(a));
    var cleanB := NonWhiteSpace(ToLower(b));
    if |cleanA| != |cleanB| {
      assert |multiset(cleanA)| != |multiset(cleanB)|;
      return false;
    }
    var letterCount := LetterCounts(cleanA);
    r := TakeLetters(letterCount, cleanB, multiset(cleanA));
    if r {
      SubMultisetSameSize(multiset(cleanB), multiset(cleanA));
    }
  }

  lemma PrefixMultiset(s: string, k: nat)
    requires k <= |s|
    ensures multiset(s[..k]) <= multiset(s)
  {
    assert s == s[..k] + s[k..];
  }

  /** A sub-multiset of the same size is the whole multiset. */
  lemma SubMultisetSameSize(m1: multiset<char>, m2: multiset<char>)
    requires m1 <= m2 && |m1| == |m2|
    ensures m1 == m2
  {
    var d := m2 - m1;
    assert m2 == m1 + d;
    assert |d| == 0;
  }

  lemma {:induction false} NonWhiteSpaceAppend(s: string, t: string)
    ensures NonWhiteSpace(s + t) == NonWhiteSpace(s) + NonWhiteSpace(t)
  {
    if t != [] {
      var t0 := t[..|t| - 1];
      assert (s + t)[..|s + t| - 1] == s + t0;
      NonWhiteSpaceAppend(s, t0);
    } else {
      assert s + t == s;
    }
  }

  lemma ToLowerAppend(s: string, t: string)
    ensures ToLower(s + t) == ToLower(s) + ToLower(t)
  {
  }

  /** Cleaning does not see whitespace: dropping a whitespace character changes nothing. */
  lemma CleanIgnoresWhiteSpace(s: string, ch: char, t: string)
    requires IsWhiteSpace(ch)
    ensures Clean(s + [ch] + t) == Clean(s + t)
  {
    var ls, lt := ToLower(s), ToLower(t);
    assert ToLower([ch]) == [ch];
    ToLowerAppend(s + [ch], t);
    ToLowerAppend(s, [ch]);
    ToLowerAppend(s, t);
    assert ToLower(s + [ch] + t) == ls + [ch] + lt;
    NonWhiteSpaceAppend(ls + [ch], lt);
    NonWhiteSpaceAppend(ls, [ch]);
    NonWhiteSpaceAppend(ls, lt);
    assert NonWhiteSpace([ch]) == NonWhiteSpace([]) + [];
    assert NonWhiteSpace(ls + [ch] + lt) == NonWhiteSpace(ls + lt);
  }

  /** Cleaning does not see letter case: lower-casing first changes nothing. */
  lemma CleanIgnoresCase(s: string)
    ensures Clean(ToLower(s)) == Clean(s)
  {
    assert ToLower(ToLower(s)) == ToLower(s);
  }

  // ---------------------------------------------------------------------------
  // SummarizeDegrees

  /** The trimmed fourth comma-separated field of a line, if the line has at least four fields. */
  function Degree(line: string): (r: Option<string>)
    ensures r == None <==> |Split(line, ',')| < 4
    ensures r.Some? ==> r.value == [] || (!IsWhiteSpace(r.value[0]) && !IsWhiteSpace(r.value[|r.value| - 1]))
  {
    var columns := Split(line, ',');
    if |columns| < 4 then None else Some(Trim(columns[3]))
  }

  /** The number of lines whose degree is `degree`. */
  function Count(lines: seq<string>, degree: string): nat {
    if lines == [] then 0
    else Count(lines[..|lines| - 1], degree) + (if Degree(lines[|lines| - 1]) == Some(degree) then 1 else 0)
  }

  /** The degree counts of the lines: exactly the degrees that occur, each with its number of lines. */
  method SummarizeDegrees(lines: seq<string>) returns (degreeCount: map<string, int>)
    ensures forall d :: d in degreeCount <==> Count(lines, d) > 0
    ensures forall d :: d in degreeCount ==> degreeCount[d] == Count(lines, d)
  {
    degreeCount := map[];
    for i := 0 to |lines|
      invariant forall d :: d in degreeCount <==> Count(lines[..i], d) > 0
      invariant forall d :: d in degreeCount ==> degreeCount[d] == Count(lines[..i], d)
    {
      var line := lines[i];
      assert lines[..i + 1][..i] == lines[..i];
      var columns := Split(line, ',');
      if |columns| < 4 {
        continue;
      }
      var degree := Trim(columns[3]);
      if degree in degreeCount {
        degreeCount := degreeCount[degree := degreeCount[degree] + 1];
      } else {
        degreeCount := degreeCount[degree := 1];
      }
    }
    assert lines[..|lines|] == lines;
  }

  /** Counting is additive over the lines, so the order in which lines are read does not matter. */
  lemma {:induction false} CountAppend(lines: seq<string>, more: seq<string>, degree: string)
    ensures Count(lines + more, degree) == Count(lines, degree) + Count(more, degree)
  {
    if more == [] {
      assert lines + more == lines;
    } else {
      var init := more[..|more| - 1];
      assert (lines + more)[..|lines + more| - 1] == lines + init;
      CountAppend(lines, init, degree);
    }
  }

  /** A line with fewer than four fields is not counted. */
  lemma CountSkipsShortLines(lines: seq<string>, line: string, degree: string)
    requires |Split(line, ',')| < 4
    ensures Count(lines + [line], degree) == Count(lines, degree)
  {
    assert (lines + [line])[..|lines|] == lines;
  }

  /** A line counts towards the degree written, up to surrounding whitespace, in its fourth field. */
  lemma CountOneLine(fields: seq<string>, degree: string)
    requires |fields| >= 4
    requires forall i :: 0 <= i < |fields| ==> ',' !in fields[i]
    ensures Count([Join(fields, [','])], degree) == if Trim(fields[3]) == degree then 1 else 0
  {
    SplitJoin(fields, ',');
    assert [Join(fields, [','])][..0] == [];
  }

  /** Splitting a join of fields free of the separator gives the fields back. */
  lemma {:induction false} SplitJoin(fields: seq<string>, c: char)
    requires |fields| >= 1
    requires forall i :: 0 <= i < |fields| ==> c !in fields[i]
    ensures Split(Join(fields, [c]), c) == fields
  {
    if |fields| == 1 {
      SplitField(fields[0], c);
    } else {
      var init, last := fields[..|fields| - 1], fields[|fields| - 1];
      SplitJoin(init, c);
      SplitAfter(Join(init, [c]), c, last);
      assert fields == init + [last];
    }
  }

  lemma {:induction false} SplitField(s: string, c: char)
    requires c !in s
    ensures Split(s, c) == [s]
  {
    if s != [] {
      SplitField(s[..|s| - 1], c);
      assert s[..|s| - 1] + [s[|s| - 1]] == s;
    }
  }

  /** Appending a separator and a field free of it adds that field to the split. */
  lemma {:induction false} SplitAfter(s: string, c: char, t: string)
    requires c !in t
    ensures Split(s + [c] + t, c) == Split(s, c) + [t]
  {
    if t == [] {
      assert (s + [c] + t)[..|s + [c] + t| - 1] == s;
    } else {
      var t0 := t[..|t| - 1];
      assert (s + [c] + t)[..|s + [c] + t| - 1] == s + [c] + t0;
      SplitAfter(s, c, t0);
      assert t0 + [t[|t| - 1]] == t;
    }
  }
}
