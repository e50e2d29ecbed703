/** What the matcher's statistics count, said of the text and the words alone. */
module Coverage {
  import opened Suffixes

  ghost function WordEndsBefore(words: set<Text>, text: Text, n: nat): set<nat>
    requires n <= |text|
  {
    set p: nat | p < n && WordLen(words, text, p) > 0
  }

  /** The positions where some word ends. */
  ghost function WordEnds(words: set<Text>, text: Text): set<nat> {
    WordEndsBefore(words, text, |text|)
  }

  /** p is the first position at or after k where a word ends. */
  ghost predicate FirstEnd(words: set<Text>, text: Text, k: nat, p: nat) {
    && k <= p < |text|
    && WordLen(words, text, p) > 0
    && (forall q: nat :: k <= q < p ==> WordLen(words, text, q) == 0)
  }

  /** The first word end at or after letter k belongs to a word that covers k. */
  ghost predicate Counted(words: set<Text>, text: Text, k: nat) {
    exists p: nat :: FirstEnd(words, text, k, p) && p < k + WordLen(words, text, p)
  }

  ghost function CountedBefore(words: set<Text>, text: Text, n: nat): set<nat> {
    set k: nat | k < n && Counted(words, text, k)
  }

  ghost function CountedLetters(words: set<Text>, text: Text): set<nat> {
    CountedBefore(words, text, |text|)
  }

  lemma FirstEndUnique(words: set<Text>, text: Text, k: nat, p: nat, q: nat)
    requires FirstEnd(words, text, k, p) && FirstEnd(words, text, k, q)
    ensures p == q
  {
  }

  /** A word occurrence text[i..p + 1] around letter k, and no word ends between k and p. */
  ghost predicate FirstCover(words: set<Text>, text: Text, k: nat, i: nat, p: nat) {
    i <= k && FirstEnd(words, text, k, p) && Occurs(words, text, i, p + 1)
  }

  /** A letter is counted exactly when the first word end at or after it ends an occurrence that contains it. */
  lemma CountedIffFirstCover(words: set<Text>, text: Text, k: nat)
    ensures Counted(words, text, k) <==> exists i: nat, p: nat :: FirstCover(words, text, k, i, p)
  {
    if Counted(words, text, k) {
      var p: nat :| FirstEnd(words, text, k, p) && p < k + WordLen(words, text, p);
      WordLenOccurs(words, text, p);
      assert FirstCover(words, text, k, p + 1 - WordLen(words, text, p), p);
    }
    if i: nat, p: nat :| FirstCover(words, text, k, i, p) {
      OccursWordLen(words, text, i, p);
    }
  }

  /** A letter inside an occurrence is missed exactly when the first word ending at or after it starts after it:
      then a word that ends sooner hides the longer one. */
  lemma MissedIffHidden(words: set<Text>, text: Text, k: nat, i: nat, j: nat)
    requires Occurs(words, text, i, j) && i <= k < j
    ensures !Counted(words, text, k) <==>
            exists p: nat :: FirstEnd(words, text, k, p) && p + 1 < j && k + WordLen(words, text, p) <= p
  {
    OccursWordLen(words, text, i, j - 1);
    var p := FirstEndExists(words, text, k, j - 1);
    if p == j - 1 {
      assert Counted(words, text, k);
    }
    forall q: nat | FirstEnd(words, text, k, q)
      ensures q == p
    {
      FirstEndUnique(words, text, k, p, q);
    }
  }

  lemma {:induction false} FirstEndExists(words: set<Text>, text: Text, k: nat, q: nat) returns (p: nat)
    requires k <= q < |text| && WordLen(words, text, q) > 0
    ensures p <= q && FirstEnd(words, text, k, p)
    decreases q - k
  {
    if WordLen(words, text, k) > 0 {
      p := k;
    } else {
      p := FirstEndExists(words, text, k + 1, q);
    }
  }

  /** A word that would end at p but is not in the dictionary does not end there. */
  lemma NoWord(words: set<Text>, text: Text, p: nat, n: nat)
    requires p < |text| && 0 < n <= p + 1 && text[p + 1 - n..p + 1] !in words
    ensures WordLen(words, text, p) != n
  {
    WordLenOccurs(words, text, p);
  }

  lemma NothingEndsAtFirst(text: Text, words: set<Text>)
    requires text == [97, 98, 99] && words == {[98], [97, 98, 99]}
    ensures WordLen(words, text, 0) == 0
  {
    var a := text[0..1];
    assert |a| == 1 && a[0] == 97;
    NoWord(words, text, 0, 1);
    WordLenOccurs(words, text, 0);
  }

  lemma ShortWordEndsAtSecond(text: Text, words: set<Text>)
    requires text == [97, 98, 99] && words == {[98], [97, 98, 99]}
    ensures WordLen(words, text, 1) == 1
  {
    var b, ab := text[1..2], text[0..2];
    assert b == [98] && |ab| == 2;
    NoWord(words, text, 1, 2);
    OccursWordLen(words, text, 1, 1);
    WordLenOccurs(words, text, 1);
  }

  /** Letters can be missed: in "abc" with the words "b" and "abc", "a" lies in an occurrence and is not counted. */
  lemma CoveredLetterCanBeMissed(text: Text, words: set<Text>)
    requires text == [97, 98, 99] && words == {[98], [97, 98, 99]}
    ensures Occurs(words, text, 0, 3) && !Counted(words, text, 0)
  {
    assert text[0..3] == text;
    NothingEndsAtFirst(text, words);
    ShortWordEndsAtSecond(text, words);
    assert FirstEnd(words, text, 0, 1);
    MissedIffHidden(words, text, 0, 0, 3);
  }

  lemma WordEndsStep(words: set<Text>, text: Text, n: nat)
    requires n < |text|
    ensures |WordEndsBefore(words, text, n + 1)| ==
            |WordEndsBefore(words, text, n)| + if WordLen(words, text, n) > 0 then 1 else 0
  {
    var before, after := WordEndsBefore(words, text, n), WordEndsBefore(words, text, n + 1);
    assert n !in before;
    forall p
      ensures p in after <==> p in before || (p == n && WordLen(words, text, n) > 0)
    {
    }
    assert after == if WordLen(words, text, n) > 0 then before + {n} else before;
  }

  predicate Between(lo: nat, k: nat, hi: nat) {
    lo <= k < hi
  }

  ghost function Interval(lo: nat, hi: nat): set<nat> {
    set k: nat | k < hi && Between(lo, k, hi)
  }

  lemma {:induction false} IntervalSize(lo: nat, hi: nat)
    requires lo <= hi
    ensures |Interval(lo, hi)| == hi - lo
    decreases hi - lo
  {
    if lo < hi {
      IntervalSize(lo, hi - 1);
      assert Interval(lo, hi) == Interval(lo, hi - 1) + {hi - 1};
    } else {
      assert Interval(lo, hi) == {};
    }
  }

  /** Letters n..p, where p is the first word end from n on: the counted ones are those the word at p covers. */
  lemma CountedStep(words: set<Text>, text: Text, n: nat, p: nat)
    requires n <= p && FirstEnd(words, text, n, p)
    ensures WordLen(words, text, p) <= p + 1
    ensures |CountedBefore(words, text, p + 1)| == |CountedBefore(words, text, n)| +
              (p + 1 - if p + 1 - WordLen(words, text, p) > n then p + 1 - WordLen(words, text, p) else n)
  {
    WordLenOccurs(words, text, p);
    var start: nat := p + 1 - WordLen(words, text, p);
    var from := if start > n then start else n;
    forall k: nat | n <= k <= p
      ensures Counted(words, text, k) <==> start <= k
    {
      assert FirstEnd(words, text, k, p);
      forall q: nat | FirstEnd(words, text, k, q)
        ensures q == p
      {
        FirstEndUnique(words, text, k, p, q);
      }
    }
    AddedLetters(words, text, n, from, p);
  }

  /** Where exactly the letters from `from` on are counted between n and p, there are so many more. */
  lemma AddedLetters(words: set<Text>, text: Text, n: nat, from: nat, p: nat)
    requires n <= from <= p + 1 && forall k: nat :: n <= k <= p ==> (Counted(words, text, k) <==> from <= k)
    ensures |CountedBefore(words, text, p + 1)| == |CountedBefore(words, text, n)| + (p + 1 - from)
  {
    var before, added := CountedBefore(words, text, n), Interval(from, p + 1);
    forall k: nat
      ensures k in CountedBefore(words, text, p + 1) <==> k in before || k in added
    {
      assert n <= k <= p ==> (Counted(words, text, k) <==> from <= k);
    }
    assert CountedBefore(words, text, p + 1) == before + added;
    IntervalSize(from, p + 1);
    assert before !! added;
  }

  /** The running counts of analyze after i letters. */
  ghost predicate Tally(words: set<Text>, text: Text, i: nat, lastEnd: int, coveredChars: nat, wordCount: nat) {
    && i <= |text| && -1 <= lastEnd < i
    && (lastEnd >= 0 ==> WordLen(words, text, lastEnd) > 0)
    && (forall p: nat :: lastEnd < p < i ==> WordLen(words, text, p) == 0)
    && wordCount == |WordEndsBefore(words, text, i)|
    && coveredChars == |CountedBefore(words, text, lastEnd + 1)|
  }

  lemma TallyStep(words: set<Text>, text: Text, i: nat, lastEnd: int, coveredChars: nat, wordCount: nat)
    requires i < |text| && Tally(words, text, i, lastEnd, coveredChars, wordCount)
    ensures WordLen(words, text, i) <= i + 1
    ensures WordLen(words, text, i) == 0 ==> Tally(words, text, i + 1, lastEnd, coveredChars, wordCount)
    ensures WordLen(words, text, i) > 0 ==>
              var start := i + 1 - WordLen(words, text, i);
              var from := if start > lastEnd + 1 then start else lastEnd + 1;
              from <= i && Tally(words, text, i + 1, i, coveredChars + (i - from + 1), wordCount + 1)
  {
    WordLenOccurs(words, text, i);
    if WordLen(words, text, i) > 0 {
      TallyWord(words, text, i, lastEnd, coveredChars, wordCount);
    } else {
      TallyNothing(words, text, i, lastEnd, coveredChars, wordCount);
    }
  }

  lemma TallyNothing(words: set<Text>, text: Text, i: nat, lastEnd: int, coveredChars: nat, wordCount: nat)
    requires i < |text| && Tally(words, text, i, lastEnd, coveredChars, wordCount) && WordLen(words, text, i) == 0
    ensures Tally(words, text, i + 1, lastEnd, coveredChars, wordCount)
  {
    WordEndsStep(words, text, i);
  }

  lemma TallyWord(words: set<Text>, text: Text, i: nat, lastEnd: int, coveredChars: nat, wordCount: nat)
    requires i < |text| && Tally(words, text, i, lastEnd, coveredChars, wordCount)
    requires 0 < WordLen(words, text, i) <= i + 1
    ensures var start := i + 1 - WordLen(words, text, i);
            var from := if start > lastEnd + 1 then start else lastEnd + 1;
            from <= i && Tally(words, text, i + 1, i, coveredChars + (i - from + 1), wordCount + 1)
  {
    WordEndsStep(words, text, i);
    CountedStep(words, text, lastEnd + 1, i);
  }

  /** No letter after the last word end is counted. */
  lemma CountedEnds(words: set<Text>, text: Text, n: nat)
    requires n <= |text|
    requires forall p: nat :: n <= p < |text| ==> WordLen(words, text, p) == 0
    ensures CountedLetters(words, text) == CountedBefore(words, text, n)
    ensures |CountedBefore(words, text, n)| <= n
  {
    IntervalSize(0, n);
    SubsetSize(CountedBefore(words, text, n), Interval(0, n));
  }

  lemma {:induction false} SubsetSize(s: set<nat>, t: set<nat>)
    requires s <= t
    ensures |s| <= |t|
  {
    assert t == s + (t - s);
  }

  lemma RatioBounds(k: nat, n: nat)
    requires k <= n && n > 0
    ensures 0.0 <= k as real / n as real <= 1.0
  {
  }
}
