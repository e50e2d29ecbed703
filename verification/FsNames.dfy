/** File names as the kernel sees them, and the numbered names given to entries whose name is taken. */
module FsNames {
  import opened Octets

  type Name = Bytes

  const FS_NAME_MAX := 255
  const DOT: Byte := 46
  const SPACE: Byte := 32
  const OPEN: Byte := 40
  const CLOSE: Byte := 41
  const ZERO: Byte := 48

  predicate IsDigit(b: Byte) {
    48 <= b <= 57
  }

  /** n in decimal. */
  function Digits(n: nat): Name {
    if n < 10 then [ZERO + n] else Digits(n / 10) + [ZERO + n % 10]
  }

  lemma {:induction false} DigitsAreDigits(n: nat)
    ensures |Digits(n)| > 0 && forall i :: 0 <= i < |Digits(n)| ==> IsDigit(Digits(n)[i])
  {
    if n < 10 {
    } else {
      DigitsAreDigits(n / 10);
    }
  }

  lemma {:induction false} DigitsInjective(m: nat, n: nat)
    requires Digits(m) == Digits(n)
    ensures m == n
  {
    DigitsAreDigits(m / 10);
    DigitsAreDigits(n / 10);
    var d, e := Digits(m), Digits(n);
    assert d[|d| - 1] == e[|e| - 1];
    if m < 10 || n < 10 {
    } else {
      assert d[..|d| - 1] == e[..|e| - 1];
      DigitsInjective(m / 10, n / 10);
    }
  }

  /** The index of the last dot, -1 if there is none. */
  function LastDot(name: Name): (i: int)
    ensures -1 <= i < |name|
    ensures i >= 0 ==> name[i] == DOT
    ensures forall j :: i < j < |name| ==> name[j] != DOT
  {
    if name == [] then -1
    else if name[|name| - 1] == DOT then |name| - 1
    else LastDot(name[..|name| - 1])
  }

  /** Stem and extension; a dot that starts or ends the name starts no extension. */
  function SplitExt(name: Name): (r: (Name, Name))
    ensures r.0 + r.1 == name
    ensures r.1 != [] ==> r.0 != [] && r.1[0] == DOT && |r.1| > 1 && DOT !in r.1[1..]
    ensures r.1 == [] <==> LastDot(name) <= 0 || LastDot(name) + 1 == |name|
  {
    var i := LastDot(name);
    if i > 0 && i + 1 < |name| then (name[..i], name[i..]) else (name, [])
  }

  /** Does a character of the UTF-8 text start or end before byte i? */
  predicate IsBoundary(s: Name, i: nat) {
    i == 0 || i == |s| || (i < |s| && !(0x80 <= s[i] < 0xC0))
  }

  /** The last character boundary at or before cut. */
  function FloorBoundary(s: Name, cut: nat): (c: nat)
    requires cut <= |s|
    ensures c <= cut && IsBoundary(s, c)
    ensures forall j :: c < j <= cut ==> !IsBoundary(s, j)
  {
    if IsBoundary(s, cut) then cut else FloorBoundary(s, cut - 1)
  }

  function Suffix(ext: Name, n: nat): Name {
    [SPACE, OPEN] + Digits(n) + [CLOSE] + ext
  }

  /** cut is the last place at or before room where a character of the UTF-8 text starts; such a byte is no
      continuation byte. */
  ghost predicate IsCut(stem: Name, room: nat, cut: nat) {
    && cut <= room < |stem|
    && (cut == 0 || !(128 <= stem[cut] < 192))
    && (forall j :: cut < j <= room ==> 128 <= stem[j] < 192)
  }

  /** What is kept of the stem in front of a suffix of k bytes. */
  function Kept(stem: Name, k: nat): (kept: Name)
    ensures kept <= stem && (k <= FS_NAME_MAX ==> |kept| + k <= FS_NAME_MAX)
  {
    var room := if k > FS_NAME_MAX then 0 else FS_NAME_MAX - k;
    stem[..FloorBoundary(stem, if |stem| < room then |stem| else room)]
  }

  lemma KeptIs(stem: Name, k: nat)
    ensures |stem| + k <= 255 ==> Kept(stem, k) == stem
    ensures k <= 255 < |stem| + k ==>
              Kept(stem, k) == stem[..|Kept(stem, k)|] && IsCut(stem, 255 - k, |Kept(stem, k)|)
    ensures k > 255 ==> Kept(stem, k) == []
  {
    if k <= 255 < |stem| + k {
      var cut := FloorBoundary(stem, 255 - k);
      assert IsBoundary(stem, cut);
      forall j | cut < j <= 255 - k
        ensures 128 <= stem[j] < 192
      {
        assert !IsBoundary(stem, j);
      }
    }
  }

  /** "stem (n).ext", the stem cut so that the name fits, but never inside a character. */
  function NumberedName(base: Name, n: nat): Name {
    var (stem, ext) := SplitExt(base);
    var suffix := Suffix(ext, n);
    Kept(stem, |suffix|) + suffix
  }

  /** A name that fits is the whole stem, " (n)" and the extension; otherwise the stem ends where its last character
      that leaves room for the rest does. */
  lemma NumberedNameIs(base: Name, n: nat)
    ensures var (stem, ext) := SplitExt(base);
            var tail := [32, 40] + Digits(n) + [41] + ext;
            && stem + ext == base
            && (|stem| + |tail| <= 255 ==> NumberedName(base, n) == stem + tail)
            && (|tail| <= 255 < |stem| + |tail| ==>
                  exists cut: nat :: IsCut(stem, 255 - |tail|, cut) && NumberedName(base, n) == stem[..cut] + tail)
            && (|tail| > 255 ==> NumberedName(base, n) == tail)
  {
    var (stem, ext) := SplitExt(base);
    var tail := [32, 40] + Digits(n) + [41] + ext;
    assert tail == Suffix(ext, n);
    KeptIs(stem, |tail|);
  }

  /** The number that decimal digits stand for. */
  ghost function ValueOf(d: Name): int {
    if d == [] then 0 else 10 * ValueOf(d[..|d| - 1]) + d[|d| - 1] - 48
  }

  /** The digits stand for the number, and do not start with a zero. */
  lemma {:induction false} DigitsAreDecimal(n: nat)
    ensures ValueOf(Digits(n)) == n
    ensures Digits(n) != [] && (n > 0 ==> Digits(n)[0] != 48)
    ensures forall i :: 0 <= i < |Digits(n)| ==> 48 <= Digits(n)[i] <= 57
  {
    DigitsAreDigits(n);
    if n < 10 {
    } else {
      DigitsAreDecimal(n / 10);
      assert Digits(n)[..|Digits(n)| - 1] == Digits(n / 10);
      assert Digits(n)[0] == Digits(n / 10)[0];
    }
  }

  /** Cutting the stem never makes two numbers share a name. */
  lemma NumberedNameInjective(base: Name, m: nat, n: nat)
    requires NumberedName(base, m) == NumberedName(base, n)
    ensures m == n
  {
    var r := NumberedName(base, m);
    var end := |r| - |SplitExt(base).1| - 1;
    NumberedNameEnds(base, m);
    NumberedNameEnds(base, n);
    DigitsAreDigits(m);
    DigitsAreDigits(n);
    NumberRunsBack(r, end, Digits(m), Digits(n));
    DigitsInjective(m, n);
  }

  ghost predicate IsNumberAt(r: Name, end: int, d: Name) {
    && |d| < end <= |r|
    && r[end - |d|..end] == d
    && r[end - |d| - 1] == OPEN
    && (forall i :: 0 <= i < |d| ==> IsDigit(d[i]))
  }

  /** Read backwards from the closing bracket, the number ends at the first byte that is no digit. */
  lemma NumberRunsBack(r: Name, end: int, d: Name, e: Name)
    requires IsNumberAt(r, end, d) && IsNumberAt(r, end, e)
    ensures d == e
  {
    forall i | end - |d| <= i < end
      ensures IsDigit(r[i])
    {
      assert r[i] == d[i - (end - |d|)];
    }
    forall i | end - |e| <= i < end
      ensures IsDigit(r[i])
    {
      assert r[i] == e[i - (end - |e|)];
    }
    assert |d| == |e|;
  }

  lemma NumberedNameEnds(base: Name, n: nat)
    ensures |SplitExt(base).1| + 1 <= |NumberedName(base, n)|
    ensures IsNumberAt(NumberedName(base, n), |NumberedName(base, n)| - |SplitExt(base).1| - 1, Digits(n))
  {
    DigitsAreDigits(n);
    var (stem, ext) := SplitExt(base);
    var head := Kept(stem, |Suffix(ext, n)|);
    NumberInMiddle(head, Digits(n), ext);
    assert NumberedName(base, n) == head + Suffix(ext, n);
  }

  lemma NumberInMiddle(head: Name, d: Name, ext: Name)
    requires forall i :: 0 <= i < |d| ==> IsDigit(d[i])
    ensures var r := head + ([SPACE, OPEN] + d + [CLOSE] + ext);
            |ext| + 1 <= |r| && IsNumberAt(r, |r| - |ext| - 1, d)
  {
  }

  /** A numbered name fits whenever its number and extension do. */
  lemma NumberedNameFits(base: Name, n: nat)
    requires |Suffix(SplitExt(base).1, n)| <= FS_NAME_MAX
    ensures |NumberedName(base, n)| <= FS_NAME_MAX
  {
  }

  ghost function NumberedNames(base: Name, n: nat): set<Name>
    requires n >= 2
  {
    if n == 2 then {} else NumberedNames(base, n - 1) + {NumberedName(base, n - 1)}
  }

  lemma {:induction false} NumberedNamesDiffer(base: Name, n: nat)
    requires n >= 2
    ensures |NumberedNames(base, n)| == n - 2
    ensures forall k: nat :: k >= n ==> NumberedName(base, k) !in NumberedNames(base, n)
  {
    if n == 2 {
    } else {
      NumberedNamesDiffer(base, n - 1);
      forall k: nat | k >= n
        ensures NumberedName(base, k) != NumberedName(base, n - 1)
      {
        if NumberedName(base, k) == NumberedName(base, n - 1) {
          NumberedNameInjective(base, k, n - 1);
        }
      }
    }
  }

  /** The first number from 2 on whose name is free; the search ends because no two numbers share a name. */
  method FreeNumber(taken: set<Name>, base: Name) returns (name: Name, n: nat)
    ensures n >= 2 && name == NumberedName(base, n) && name !in taken
    ensures forall k: nat :: 2 <= k < n ==> NumberedName(base, k) in taken
  {
    n := 2;
    name := NumberedName(base, n);
    while name in taken
      invariant n >= 2 && name == NumberedName(base, n)
      invariant forall k: nat :: 2 <= k < n ==> NumberedName(base, k) in taken
      invariant NumberedNames(base, n) <= taken
      decreases |taken| + 2 - n
    {
      NumberedNamesDiffer(base, n);
      SubsetSmaller(NumberedNames(base, n), taken, name);
      n := n + 1;
      name := NumberedName(base, n);
    }
  }

  lemma SubsetSmaller(s: set<Name>, t: set<Name>, x: Name)
    requires s <= t && x in t && x !in s
    ensures |s| < |t|
  {
    assert t == s + (t - s);
    assert x in t - s;
  }
}
