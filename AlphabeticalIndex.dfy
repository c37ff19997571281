/**
 * Relative alphabetical index (RAI) encoding: every character of a word is replaced by its
 * 1-based position in the alphabetically sorted word, modulo 10, equal characters taking their
 * positions from left to right. "IHRNAHTEUC" becomes 6487159302.
 */
module AlphabeticalIndex {
  import opened Text

  /** Number of characters of `s` strictly before `c` in ordinal order. */
  function CountLess(s: string, c: char): nat
  {
    if s == [] then 0 else (if s[0] < c then 1 else 0) + CountLess(s[1..], c)
  }

  /** Number of occurrences of `c` in `s`. */
  function CountEq(s: string, c: char): nat
  {
    if s == [] then 0 else (if s[0] == c then 1 else 0) + CountEq(s[1..], c)
  }

  /**
   * 0-based position of `s[p]` in the stably sorted `s`: the characters smaller than it,
   * plus the equal characters to its left.
   */
  function Rank(s: string, p: nat): nat
    requires p < |s|
  {
    CountLess(s, s[p]) + CountEq(s[..p], s[p])
  }

  /** The specification of the RAI encoding: each position's rank plus one, modulo 10. */
  function AlphabeticalRanks(s: string): (r: seq<Digit>)
    ensures |r| == |s|
  {
    seq(|s|, p requires 0 <= p < |s| => (Rank(s, p) + 1) % 10)
  }

  /** The text the encoding ranks: spaces removed, then upper-cased. */
  function RaiInput(text: string): string
  {
    Upper(RemoveSpaces(text))
  }

  // ---------------------------------------------------------------------------------------------
  // Sorting (`Array.Sort` over the characters), as an insertion sort on values

  predicate Sorted(t: string) {
    forall i, j :: 0 <= i < j < |t| ==> t[i] <= t[j]
  }

  function InsertChar(c: char, t: string): (r: string)
    requires Sorted(t)
    ensures |r| == |t| + 1
    ensures forall x :: x in r ==> x == c || x in t
    ensures Sorted(r)
  {
    if t == [] || c <= t[0] then [c] + t
    else
      var rest := InsertChar(c, t[1..]);
      assert forall i :: 0 <= i < |rest| ==> t[0] <= rest[i] by {
        forall i | 0 <= i < |rest| ensures t[0] <= rest[i] {
          assert rest[i] in rest;
        }
      }
      [t[0]] + rest
  }

  /** The characters of `s` in ascending ordinal order. */
  function SortedChars(s: string): (t: string)
    ensures |t| == |s|
    ensures Sorted(t)
  {
    if s == [] then [] else InsertChar(s[0], SortedChars(s[1..]))
  }

  // ---------------------------------------------------------------------------------------------
  // Counting

  lemma {:induction false} CountAppend(a: string, b: string, c: char)
    ensures CountLess(a + b, c) == CountLess(a, c) + CountLess(b, c)
    ensures CountEq(a + b, c) == CountEq(a, c) + CountEq(b, c)
  {
    if a == [] {
      assert a + b == b;
    } else {
      assert (a + b)[1..] == a[1..] + b;
      CountAppend(a[1..], b, c);
    }
  }

  lemma {:induction false} CountInsert(c: char, t: string, x: char)
    requires Sorted(t)
    ensures CountLess(InsertChar(c, t), x) == CountLess(t, x) + (if c < x then 1 else 0)
    ensures CountEq(InsertChar(c, t), x) == CountEq(t, x) + (if c == x then 1 else 0)
  {
    if t == [] || c <= t[0] {
      assert InsertChar(c, t)[1..] == t;
    } else {
      CountInsert(c, t[1..], x);
      assert InsertChar(c, t)[1..] == InsertChar(c, t[1..]);
    }
  }

  /** Sorting keeps every count. */
  lemma {:induction false} SortedCounts(s: string, x: char)
    ensures CountLess(SortedChars(s), x) == CountLess(s, x)
    ensures CountEq(SortedChars(s), x) == CountEq(s, x)
  {
    if s != [] {
      SortedCounts(s[1..], x);
      CountInsert(s[0], SortedChars(s[1..]), x);
    }
  }

  lemma {:induction false} CountsBounded(s: string, c: char)
    ensures CountLess(s, c) + CountEq(s, c) <= |s|
  {
    if s != [] { CountsBounded(s[1..], c); }
  }

  lemma {:induction false} CountsOrdered(s: string, a: char, b: char)
    requires a < b
    ensures CountLess(s, a) + CountEq(s, a) <= CountLess(s, b)
  {
    if s != [] { CountsOrdered(s[1..], a, b); }
  }

  lemma {:induction false} CountLessOfSortedHead(t: string)
    requires Sorted(t) && t != []
    ensures CountLess(t, t[0]) == 0
  {
    if |t| > 1 {
      assert Sorted(t[1..]);
      assert t[1..][0] == t[1];
      CountLessZero(t[1..], t[0]);
    }
  }

  lemma {:induction false} CountLessZero(t: string, c: char)
    requires forall i :: 0 <= i < |t| ==> c <= t[i]
    ensures CountLess(t, c) == 0
  {
    if t != [] { CountLessZero(t[1..], c); }
  }

  /** In a sorted string the character at `k` occupies the window of its smaller and equal characters. */
  lemma {:induction false} SortedWindow(t: string, k: nat)
    requires Sorted(t) && k < |t|
    ensures CountLess(t, t[k]) <= k < CountLess(t, t[k]) + CountEq(t, t[k])
  {
    if k == 0 {
      CountLessOfSortedHead(t);
    } else {
      var rest := t[1..];
      assert Sorted(rest);
      assert rest[k - 1] == t[k];
      SortedWindow(rest, k - 1);
      if t[0] == t[k] {
        CountLessZero(rest, t[0]);
      }
    }
  }

  /** The occurrence of `c` that has exactly `m` occurrences of `c` before it. */
  lemma {:induction false} EqOccurrence(s: string, c: char, m: nat) returns (p: nat)
    requires m < CountEq(s, c)
    ensures p < |s| && s[p] == c && CountEq(s[..p], c) == m
  {
    if s[0] == c && m == 0 {
      p := 0;
      assert s[..0] == [];
    } else {
      var q := EqOccurrence(s[1..], c, if s[0] == c then m - 1 else m);
      p := q + 1;
      assert s[..p] == [s[0]] + s[1..][..q];
    }
  }

  // ---------------------------------------------------------------------------------------------
  // Ranks

  lemma RankBelowCount(s: string, p: nat)
    requires p < |s|
    ensures CountEq(s[..p], s[p]) < CountEq(s, s[p])
  {
    assert s == s[..p] + s[p..];
    CountAppend(s[..p], s[p..], s[p]);
  }

  lemma RankBound(s: string, p: nat)
    requires p < |s|
    ensures Rank(s, p) < |s|
  {
    RankBelowCount(s, p);
    CountsBounded(s, s[p]);
  }

  lemma RankMonotone(s: string, p: nat, q: nat)
    requires p < q < |s| && s[p] == s[q]
    ensures Rank(s, p) < Rank(s, q)
  {
    assert s[..q] == s[..p] + s[p..q];
    CountAppend(s[..p], s[p..q], s[p]);
    assert s[p..q] == [s[p]] + s[p + 1..q];
  }

  /** Distinct positions get distinct ranks. */
  lemma RankInjective(s: string, p: nat, q: nat)
    requires p < |s| && q < |s| && p != q
    ensures Rank(s, p) != Rank(s, q)
  {
    if s[p] == s[q] {
      if p < q { RankMonotone(s, p, q); } else { RankMonotone(s, q, p); }
    } else if s[p] < s[q] {
      RankBelowCount(s, p);
      CountsOrdered(s, s[p], s[q]);
    } else {
      RankBelowCount(s, q);
      CountsOrdered(s, s[q], s[p]);
    }
  }

  /** Every rank below |s| is taken, by a position holding the sorted character of that rank. */
  lemma RankAtSorted(s: string, k: nat) returns (p: nat)
    requires k < |s|
    ensures p < |s| && Rank(s, p) == k && s[p] == SortedChars(s)[k]
  {
    var t := SortedChars(s);
    var c := t[k];
    SortedWindow(t, k);
    SortedCounts(s, c);
    p := EqOccurrence(s, c, k - CountLess(s, c));
  }

  /** A word of at most ten characters gets pairwise-distinct digits. */
  lemma RanksDistinct(s: string)
    requires |s| <= 10
    ensures Distinct(AlphabeticalRanks(s))
  {
    var r := AlphabeticalRanks(s);
    forall i, j | 0 <= i < j < |r| ensures r[i] != r[j] {
      RankInjective(s, i, j);
      RankBound(s, i);
      RankBound(s, j);
    }
  }

  /** A word of exactly ten characters is encoded to a permutation of the ten digits. */
  lemma RanksArePermutation(s: string)
    requires |s| == 10
    ensures Distinct(AlphabeticalRanks(s))
    ensures forall d :: 0 <= d <= 9 ==> d in AlphabeticalRanks(s)
  {
    RanksDistinct(s);
    var r := AlphabeticalRanks(s);
    forall d | 0 <= d <= 9 ensures d in r {
      var p := RankAtSorted(s, (d + 9) % 10);
      assert r[p] == (Rank(s, p) + 1) % 10 == d;
    }
  }

  // ---------------------------------------------------------------------------------------------
  // The encoding as the source runs it

  /** The working string after the characters of sorted positions below `k` have been replaced. */
  function PartlyRanked(s: string, k: nat): (w: string)
    ensures |w| == |s|
  {
    seq(|s|, p requires 0 <= p < |s| => if Rank(s, p) < k then DigitChar((Rank(s, p) + 1) % 10) else s[p])
  }

  /** The first position still holding the sorted character of rank `k` is the position of rank `k`. */
  lemma FirstUnranked(s: string, k: nat) returns (p: nat)
    requires NoDecimalDigits(s) && k < |s|
    ensures p < |s| && Rank(s, p) == k
    ensures PartlyRanked(s, k)[p] == SortedChars(s)[k]
    ensures forall q :: 0 <= q < p ==> PartlyRanked(s, k)[q] != SortedChars(s)[k]
  {
    p := RankAtSorted(s, k);
    var w := PartlyRanked(s, k);
    forall q | 0 <= q < p ensures w[q] != s[p] {
      if s[q] == s[p] { RankMonotone(s, q, p); }
    }
  }

  lemma RankStep(s: string, k: nat, p: nat)
    requires p < |s| && Rank(s, p) == k
    ensures PartlyRanked(s, k)[p := DigitChar((k + 1) % 10)] == PartlyRanked(s, k + 1)
  {
    forall q | 0 <= q < |s| && q != p ensures Rank(s, q) != k {
      RankInjective(s, q, p);
    }
  }

  lemma FullyRanked(s: string, ranked: string)
    requires ranked == PartlyRanked(s, |s|)
    ensures forall p :: 0 <= p < |s| ==>
      IsDecimalDigitChar(ranked[p]) && DigitValue(ranked[p]) == AlphabeticalRanks(s)[p]
  {
    forall p | 0 <= p < |s| ensures ranked[p] == DigitChar(AlphabeticalRanks(s)[p]) {
      RankBound(s, p);
    }
  }

  /** Key A holds no decimal digits, and neither does the text the encoding ranks. */
  lemma RaiInputNoDigits(text: string)
    requires KeyAText(text)
    ensures NoDecimalDigits(RaiInput(text))
  {
    var s := RaiInput(text);
    forall i | 0 <= i < |s| ensures !IsDecimalDigitChar(s[i]) {
      var c := RemoveSpaces(text)[i];
      assert c in text;
      var j :| 0 <= j < |text| && text[j] == c;
      assert IsKeyAChar(text[j]);
    }
  }

  /** The value of a decimal digit character (`CharUnicodeInfo.GetDecimalDigitValue` on '0'..'9'). */
  function DigitValue(c: char): (d: Digit)
    requires IsDecimalDigitChar(c)
    ensures DigitChar(d) == c
  {
    c as int - '0' as int
  }

  /**
   * For every position of the sorted word, the first input position still holding that character
   * is overwritten with the position's digit. The input holds key-A characters only, so no
   * written digit can be matched again by a later sorted character.
   */
  method RelativeAlphabeticalIndexEncode(text: string) returns (r: seq<Digit>)
    requires KeyAText(text)
    ensures r == AlphabeticalRanks(RaiInput(text))
  {
    var s := RaiInput(text);
    RaiInputNoDigits(text);
    var sorted := SortedChars(s);
    var w := new char[|s|](i requires 0 <= i < |s| => s[i]);
    assert w[..] == PartlyRanked(s, 0);
    var k := 0;
    while k < |sorted|
      invariant 0 <= k <= |s|
      invariant w[..] == PartlyRanked(s, k)
    {
      var c := sorted[k];
      ghost var target := FirstUnranked(s, k);
      assert w[target] == c;
      var i := 0;
      while i < |s| && w[i] != c
        invariant 0 <= i <= target
        invariant forall q :: 0 <= q < i ==> w[q] != c
      {
        i := i + 1;
      }
      RankStep(s, k, i);
      ghost var before := w[..];
      w[i] := DigitChar((k + 1) % 10);
      assert w[..] == before[i := DigitChar((k + 1) % 10)];
      k := k + 1;
    }
    var ranked := w[..];
    FullyRanked(s, ranked);
    r := seq(|s|, p requires 0 <= p < |s| => DigitValue(ranked[p]));
    assert r == AlphabeticalRanks(s);
  }

  // ---------------------------------------------------------------------------------------------
  // Ranks read off a stable sorted listing of the positions

  /** A smaller character, or the same character further left, has the smaller rank. */
  lemma RankOrdered(s: string, p: nat, q: nat)
    requires p < |s| && q < |s|
    requires s[p] < s[q] || (s[p] == s[q] && p < q)
    ensures Rank(s, p) < Rank(s, q)
  {
    if s[p] == s[q] {
      RankMonotone(s, p, q);
    } else {
      RankBelowCount(s, p);
      CountsOrdered(s, s[p], s[q]);
    }
  }

  /** `o` lists positions of `s` in stable sorted order: by character, equal characters left to right. */
  predicate StablyListed(s: string, o: seq<nat>) {
    && (forall k :: 0 <= k < |o| ==> o[k] < |s|)
    && (forall k :: 0 < k < |o| ==> s[o[k - 1]] < s[o[k]] || (s[o[k - 1]] == s[o[k]] && o[k - 1] < o[k]))
  }

  lemma {:induction false} RanksAtLeast(s: string, o: seq<nat>, k: nat)
    requires StablyListed(s, o) && k < |o|
    ensures Rank(s, o[k]) >= k
  {
    if k > 0 {
      RanksAtLeast(s, o, k - 1);
      RankOrdered(s, o[k - 1], o[k]);
    }
  }

  lemma {:induction false} RanksAtMost(s: string, o: seq<nat>, k: nat)
    requires StablyListed(s, o) && k < |o|
    ensures Rank(s, o[k]) <= |s| - |o| + k
    decreases |o| - k
  {
    if k + 1 < |o| {
      RanksAtMost(s, o, k + 1);
      RankOrdered(s, o[k], o[k + 1]);
    } else {
      RankBound(s, o[k]);
    }
  }

  /** Listing every position in stable sorted order gives each its rank: its index in the list. */
  lemma RanksFollowOrder(s: string, o: seq<nat>, k: nat)
    requires StablyListed(s, o) && |o| == |s| && k < |o|
    ensures Rank(s, o[k]) == k
    ensures AlphabeticalRanks(s)[o[k]] == (k + 1) % 10
  {
    RanksAtLeast(s, o, k);
    RanksAtMost(s, o, k);
  }

  lemma SplitKeyAOneOrder(s: string)
    requires s == "IHRNAHTEUC"
    ensures StablyListed(s, [4, 9, 7, 1, 5, 0, 3, 2, 6, 8])
  {
  }

  lemma SplitKeyAOneLowRanks(s: string)
    requires s == "IHRNAHTEUC"
    ensures |AlphabeticalRanks(s)| == 10
    ensures AlphabeticalRanks(s)[4] == 1 && AlphabeticalRanks(s)[9] == 2 && AlphabeticalRanks(s)[7] == 3 && AlphabeticalRanks(s)[1] == 4
  {
    var o := [4, 9, 7, 1, 5, 0, 3, 2, 6, 8];
    SplitKeyAOneOrder(s);
    RanksFollowOrder(s, o, 0);
    RanksFollowOrder(s, o, 1);
    RanksFollowOrder(s, o, 2);
    RanksFollowOrder(s, o, 3);
  }

  lemma SplitKeyAOneMiddleRanks(s: string)
    requires s == "IHRNAHTEUC"
    ensures |AlphabeticalRanks(s)| == 10
    ensures AlphabeticalRanks(s)[5] == 5 && AlphabeticalRanks(s)[0] == 6 && AlphabeticalRanks(s)[3] == 7
  {
    var o := [4, 9, 7, 1, 5, 0, 3, 2, 6, 8];
    SplitKeyAOneOrder(s);
    RanksFollowOrder(s, o, 4);
    RanksFollowOrder(s, o, 5);
    RanksFollowOrder(s, o, 6);
  }

  /** The first split part of key A: the two H's ranked left to right, the tenth rank written 0. */
  lemma SplitKeyAOneExample(s: string)
    requires s == "IHRNAHTEUC"
    ensures AlphabeticalRanks(s) == [6, 4, 8, 7, 1, 5, 9, 3, 0, 2]
  {
    var o := [4, 9, 7, 1, 5, 0, 3, 2, 6, 8];
    SplitKeyAOneOrder(s);
    SplitKeyAOneLowRanks(s);
    SplitKeyAOneMiddleRanks(s);
    var r := AlphabeticalRanks(s);
    RanksFollowOrder(s, o, 7);
    assert r[2] == 8;
    RanksFollowOrder(s, o, 8);
    assert r[6] == 9;
    RanksFollowOrder(s, o, 9);
    assert r[8] == 0;
  }

  lemma SplitKeyATwoOrder(s: string)
    requires s == "HWIEDER"
    ensures StablyListed(s, [4, 3, 5, 0, 2, 6, 1])
  {
  }

  lemma SplitKeyATwoLowRanks(s: string)
    requires s == "HWIEDER"
    ensures |AlphabeticalRanks(s)| == 7
    ensures AlphabeticalRanks(s)[4] == 1 && AlphabeticalRanks(s)[3] == 2 && AlphabeticalRanks(s)[5] == 3 && AlphabeticalRanks(s)[0] == 4
  {
    var o := [4, 3, 5, 0, 2, 6, 1];
    SplitKeyATwoOrder(s);
    RanksFollowOrder(s, o, 0);
    RanksFollowOrder(s, o, 1);
    RanksFollowOrder(s, o, 2);
    RanksFollowOrder(s, o, 3);
  }

  /** The second split part of key A: the two E's ranked left to right. */
  lemma SplitKeyATwoExample(s: string)
    requires s == "HWIEDER"
    ensures AlphabeticalRanks(s) == [4, 7, 5, 2, 1, 3, 6]
  {
    var o := [4, 3, 5, 0, 2, 6, 1];
    SplitKeyATwoOrder(s);
    SplitKeyATwoLowRanks(s);
    var r := AlphabeticalRanks(s);
    RanksFollowOrder(s, o, 4);
    assert r[2] == 5;
    RanksFollowOrder(s, o, 5);
    assert r[6] == 6;
    RanksFollowOrder(s, o, 6);
    assert r[1] == 7;
  }

  /** Text without spaces is left alone by `Replace(" ", "")`. */
  lemma {:induction false} RemoveSpacesNone(s: string)
    requires ' ' !in s
    ensures RemoveSpaces(s) == s
  {
    if s != [] {
      assert ' ' !in s[1..] by {
        forall i | 0 <= i < |s[1..]| ensures s[1..][i] != ' ' {
          assert s[1..][i] == s[i + 1];
        }
      }
      RemoveSpacesNone(s[1..]);
      assert [s[0]] + s[1..] == s;
    }
  }

  /** An upper-case word is key-A text, and the encoding ranks it as it stands. */
  lemma UpperWordInput(s: string)
    requires forall i :: 0 <= i < |s| ==> 'A' <= s[i] <= 'Z'
    ensures KeyAText(s) && RaiInput(s) == s
  {
    RemoveSpacesNone(s);
    assert Upper(s) == s;
  }

  /** The encoding routine's result on the first split part of the unit test. */
  lemma SplitKeyAOneEncoded(s: string)
    requires s == "IHRNAHTEUC"
    ensures KeyAText(s) && AlphabeticalRanks(RaiInput(s)) == [6, 4, 8, 7, 1, 5, 9, 3, 0, 2]
  {
    UpperWordInput(s);
    SplitKeyAOneExample(s);
  }

  /** The encoding routine's result on the second split part of the unit test. */
  lemma SplitKeyATwoEncoded(s: string)
    requires s == "HWIEDER"
    ensures KeyAText(s) && AlphabeticalRanks(RaiInput(s)) == [4, 7, 5, 2, 1, 3, 6]
  {
    UpperWordInput(s);
    SplitKeyATwoExample(s);
  }
}
