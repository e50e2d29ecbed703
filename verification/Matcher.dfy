/** The matcher from list of words to answer, said of the words and the text as they were given. */
module Matcher {
  import opened AhoCorasick
  import opened Coverage
  import opened Suffixes

  /** A listed word of at most 65535 letters stands in the text from letter i to letter p. */
  ghost predicate Stands(input: seq<Text>, text: Text, i: nat, p: nat) {
    i <= p < |text| && p + 1 - i <= 65535 && text[i..p + 1] in input
  }

  lemma OccursStands(input: seq<Text>, text: Text, i: nat, p: nat)
    ensures Occurs(Dictionary(input), text, i, p + 1) <==> Stands(input, text, i, p)
  {
    if i <= p < |text| {
      assert text[i..p + 1] in Dictionary(input) <==> text[i..p + 1] in input && |text[i..p + 1]| <= 65535;
    }
  }

  /** Does any listed word stand anywhere in the text? */
  method FindAny(input: seq<Text>, text: Text) returns (found: bool)
    ensures found <==> exists i: nat, p: nat :: Stands(input, text, i, p)
  {
    var matcher := new AhoCorasick(input);
    found := matcher.HasMatch(text);
    if found {
      ghost var i, j :| Occurs(Dictionary(input), text, i, j);
      OccursStands(input, text, i, j - 1);
    }
    forall i: nat, p: nat | Stands(input, text, i, p)
      ensures Occurs(Dictionary(input), text, i, p + 1)
    {
      OccursStands(input, text, i, p);
    }
  }

  /** Some listed word ends with letter p. */
  ghost predicate EndsWith(input: seq<Text>, text: Text, p: nat) {
    exists i: nat :: Stands(input, text, i, p)
  }

  /** The first letter from k on that ends a listed word is p, and one that ends there contains letter k. */
  ghost predicate CoveredBy(input: seq<Text>, text: Text, k: nat, p: nat) {
    && k <= p < |text| && (exists i: nat :: i <= k && Stands(input, text, i, p))
    && forall q: nat :: k <= q < p ==> !EndsWith(input, text, q)
  }

  ghost predicate IsCovered(input: seq<Text>, text: Text, k: nat) {
    exists p: nat :: CoveredBy(input, text, k, p)
  }

  ghost function Ends(input: seq<Text>, text: Text): set<nat> {
    set p: nat | p < |text| && EndsWith(input, text, p)
  }

  ghost function Covered(input: seq<Text>, text: Text): set<nat> {
    set k: nat | k < |text| && IsCovered(input, text, k)
  }

  lemma EndsWithIff(input: seq<Text>, text: Text, p: nat)
    requires p < |text|
    ensures WordLen(Dictionary(input), text, p) > 0 <==> EndsWith(input, text, p)
  {
    var words := Dictionary(input);
    WordLenOccurs(words, text, p);
    if WordLen(words, text, p) > 0 {
      OccursStands(input, text, p + 1 - WordLen(words, text, p), p);
    }
    if i: nat :| Stands(input, text, i, p) {
      OccursStands(input, text, i, p);
      OccursWordLen(words, text, i, p);
    }
  }

  lemma FirstEndIff(input: seq<Text>, text: Text, k: nat, p: nat)
    ensures FirstEnd(Dictionary(input), text, k, p) <==>
              k <= p < |text| && EndsWith(input, text, p) && forall q: nat :: k <= q < p ==> !EndsWith(input, text, q)
  {
    if k <= p < |text| {
      EndsWithIff(input, text, p);
      forall q: nat | k <= q < p
        ensures WordLen(Dictionary(input), text, q) == 0 <==> !EndsWith(input, text, q)
      {
        EndsWithIff(input, text, q);
      }
    }
  }

  lemma CountedIff(input: seq<Text>, text: Text, k: nat)
    ensures Counted(Dictionary(input), text, k) <==> IsCovered(input, text, k)
  {
    var words := Dictionary(input);
    CountedIffFirstCover(words, text, k);
    if i: nat, p: nat :| FirstCover(words, text, k, i, p) {
      FirstEndIff(input, text, k, p);
      OccursStands(input, text, i, p);
      assert CoveredBy(input, text, k, p);
    }
    if p: nat :| CoveredBy(input, text, k, p) {
      var i: nat :| i <= k && Stands(input, text, i, p);
      FirstEndIff(input, text, k, p);
      OccursStands(input, text, i, p);
      assert FirstCover(words, text, k, i, p);
    }
  }

  /** How many letters end a listed word, and which part of the text the counted words cover. */
  method Measure(input: seq<Text>, text: Text) returns (coverageRatio: real, wordCount: nat)
    ensures wordCount == |Ends(input, text)|
    ensures |text| > 0 ==> coverageRatio == |Covered(input, text)| as real / |text| as real
    ensures |text| == 0 ==> coverageRatio == 0.0
  {
    var matcher := new AhoCorasick(input);
    coverageRatio, wordCount := matcher.Analyze(text);
    SameCounts(input, text);
  }

  lemma SameCounts(input: seq<Text>, text: Text)
    ensures Ends(input, text) == WordEnds(Dictionary(input), text)
    ensures Covered(input, text) == CountedLetters(Dictionary(input), text)
  {
    forall p: nat | p < |text|
      ensures p in Ends(input, text) <==> p in WordEnds(Dictionary(input), text)
      ensures p in Covered(input, text) <==> p in CountedLetters(Dictionary(input), text)
    {
      EndsWithIff(input, text, p);
      CountedIff(input, text, p);
    }
  }
}
