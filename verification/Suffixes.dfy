/** Suffixes of texts, and which words end at the end of a text. */
module Suffixes {

  // A UTF-16 code unit: what charCodeAt returns and what a Uint16Array holds.
  type Unit = u: int | 0 <= u < 0x1_0000

  type Text = seq<Unit>

  const MAX_WORD := 0xffff

  predicate IsSuffix(s: Text, t: Text) {
    |s| <= |t| && s == t[|t| - |s|..]
  }

  /** Does some word of the dictionary start with s? */
  ghost predicate IsWordPrefix(words: set<Text>, s: Text) {
    exists w :: w in words && s <= w
  }

  /** k is the length of the longest word that ends exactly at the end of s, 0 if there is none. */
  ghost predicate IsLongestWordEnd(words: set<Text>, s: Text, k: nat) {
    && (k == 0 || (k <= |s| && s[|s| - k..] in words))
    && (forall w {:trigger IsSuffix(w, s)} :: w in words && IsSuffix(w, s) ==> |w| <= k)
  }

  /** s is the longest suffix of t that is empty or starts some word. */
  ghost predicate IsLongestLiveSuffix(words: set<Text>, t: Text, s: Text) {
    && IsSuffix(s, t)
    && (s == [] || IsWordPrefix(words, s))
    && (forall u {:trigger IsSuffix(u, t)} :: IsSuffix(u, t) && IsWordPrefix(words, u) ==> |u| <= |s|)
  }

  lemma SuffixOfSuffix(u: Text, v: Text, t: Text)
    requires IsSuffix(u, t) && IsSuffix(v, t) && |u| <= |v|
    ensures IsSuffix(u, v)
  {
    assert v[|v| - |u|..] == t[|t| - |u|..];
  }

  lemma SuffixTransitive(u: Text, v: Text, t: Text)
    requires IsSuffix(u, v) && IsSuffix(v, t)
    ensures IsSuffix(u, t)
  {
    assert t[|t| - |u|..] == v[|v| - |u|..];
  }

  lemma SuffixSnoc(u: Text, t: Text, c: Unit)
    requires IsSuffix(u, t)
    ensures IsSuffix(u + [c], t + [c])
  {
    assert (t + [c])[|t| - |u|..] == t[|t| - |u|..] + [c];
  }

  /** A non-empty suffix of t + [c] is a suffix of t followed by c. */
  lemma SuffixUnsnoc(v: Text, t: Text, c: Unit)
    requires IsSuffix(v, t + [c]) && v != []
    ensures v == v[..|v| - 1] + [c]
    ensures IsSuffix(v[..|v| - 1], t)
  {
    var u := v[..|v| - 1];
    assert v == (t + [c])[|t| + 1 - |v|..];
    assert v[|v| - 1] == c;
    assert u == t[|t| - |u|..];
  }

  /** Every word ending at the end of t also ends at the end of its longest live suffix. */
  lemma LongestWordEndOfLiveSuffix(words: set<Text>, t: Text, s: Text, k: nat)
    requires IsLongestLiveSuffix(words, t, s)
    requires IsLongestWordEnd(words, s, k)
    ensures IsLongestWordEnd(words, t, k)
  {
    if k > 0 {
      assert s[|s| - k..] == t[|t| - k..];
    }
    forall w | w in words && IsSuffix(w, t)
      ensures |w| <= k
    {
      assert IsWordPrefix(words, w) by { assert w <= w; }
      SuffixOfSuffix(w, s, t);
    }
  }

  ghost function LongestWordEndFrom(words: set<Text>, s: Text, k: nat): nat
    requires k <= |s|
  {
    if k == 0 || s[|s| - k..] in words then k else LongestWordEndFrom(words, s, k - 1)
  }

  /** The length of the longest word that ends exactly at the end of s, 0 if there is none. */
  ghost function LongestWordEnd(words: set<Text>, s: Text): nat {
    LongestWordEndFrom(words, s, |s|)
  }

  lemma {:induction false} LongestWordEndFromIs(words: set<Text>, s: Text, k: nat, n: nat)
    requires n <= |s| && IsLongestWordEnd(words, s, k) && k <= n
    ensures LongestWordEndFrom(words, s, n) == k
    decreases n
  {
    if n == k {
    } else {
      assert s[|s| - n..] !in words by {
        assert IsSuffix(s[|s| - n..], s);
      }
      LongestWordEndFromIs(words, s, k, n - 1);
    }
  }

  lemma LongestWordEndIs(words: set<Text>, s: Text, k: nat)
    requires IsLongestWordEnd(words, s, k)
    ensures LongestWordEnd(words, s) == k
  {
    LongestWordEndFromIs(words, s, k, |s|);
  }

  lemma {:induction false} LongestWordEndFromHolds(words: set<Text>, s: Text, n: nat)
    requires n <= |s|
    requires forall w :: w in words && IsSuffix(w, s) ==> |w| <= n
    ensures IsLongestWordEnd(words, s, LongestWordEndFrom(words, s, n))
    decreases n
  {
    if n != 0 && s[|s| - n..] !in words {
      forall w | w in words && IsSuffix(w, s)
        ensures |w| <= n - 1
      {
        assert w != s[|s| - n..];
      }
      LongestWordEndFromHolds(words, s, n - 1);
    }
  }

  lemma LongestWordEndHolds(words: set<Text>, s: Text)
    ensures IsLongestWordEnd(words, s, LongestWordEnd(words, s))
  {
    LongestWordEndFromHolds(words, s, |s|);
  }

  /** A word stands at text[i..j]. */
  ghost predicate Occurs(words: set<Text>, text: Text, i: int, j: int) {
    0 <= i < j <= |text| && text[i..j] in words
  }

  /** The length of the longest word whose last letter is at position p, 0 if there is none. */
  ghost function WordLen(words: set<Text>, text: Text, p: nat): nat
    requires p < |text|
  {
    LongestWordEnd(words, text[..p + 1])
  }

  lemma WordLenOccurs(words: set<Text>, text: Text, p: nat)
    requires p < |text|
    ensures WordLen(words, text, p) <= p + 1
    ensures WordLen(words, text, p) > 0 ==> Occurs(words, text, p + 1 - WordLen(words, text, p), p + 1)
  {
    var s := text[..p + 1];
    LongestWordEndHolds(words, s);
    var k := LongestWordEnd(words, s);
    assert k > 0 ==> s[|s| - k..] == text[p + 1 - k..p + 1];
  }

  lemma OccursWordLen(words: set<Text>, text: Text, i: nat, p: nat)
    requires p < |text| && Occurs(words, text, i, p + 1)
    ensures WordLen(words, text, p) >= p + 1 - i
  {
    var s := text[..p + 1];
    LongestWordEndHolds(words, s);
    assert IsSuffix(text[i..p + 1], s);
  }
}
