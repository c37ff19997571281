/**
 * Columnar transposition under a digit key. The text is written row by row under the key's `k`
 * digits, so column `i` holds the positions `i, i + k, i + 2k, ...`; the columns are then read out
 * in ascending key-digit order, equal digits keeping their left-to-right order (the key is sorted
 * by an insertion sort that swaps neighbours only when the left digit is strictly greater).
 */
module Transposition {
  import opened Text

  /** The positions `i, i + k, i + 2k, ...` of `x`. */
  function Column(x: seq<Digit>, k: nat, i: nat): (c: seq<Digit>)
    requires k > 0
    decreases |x| - i
  {
    if i >= |x| then [] else [x[i]] + Column(x, k, i + k)
  }

  lemma {:induction false} ColumnElements(x: seq<Digit>, k: nat, i: nat, t: nat)
    requires k > 0 && t < |Column(x, k, i)|
    ensures i + t * k < |x| && Column(x, k, i)[t] == x[i + t * k]
    decreases |x| - i
  {
    if t > 0 {
      ColumnElements(x, k, i + k, t - 1);
      assert i + k + (t - 1) * k == i + t * k;
    }
  }

  // ---------------------------------------------------------------------------------------------
  // The stable order of the key's columns

  /** Column `a` is read before column `b`: a smaller digit, or the same digit further left. */
  predicate Before(key: seq<Digit>, a: nat, b: nat)
    requires a < |key| && b < |key|
  {
    key[a] < key[b] || (key[a] == key[b] && a < b)
  }

  predicate InKeyRange(key: seq<Digit>, o: seq<nat>) {
    forall p :: 0 <= p < |o| ==> o[p] < |key|
  }

  predicate StablySorted(key: seq<Digit>, o: seq<nat>)
    requires InKeyRange(key, o)
  {
    forall p, q :: 0 <= p < q < |o| ==> Before(key, o[p], o[q])
  }

  function Range(n: nat): (r: seq<nat>)
    ensures |r| == n && forall p :: 0 <= p < n ==> r[p] == p
  {
    seq(n, p requires 0 <= p < n => p)
  }

  lemma RangeSnoc(n: nat)
    ensures Range(n + 1) == Range(n) + [n]
  {
  }

  /** Column `i` moved left past every column whose digit is strictly greater. */
  function InsertColumn(key: seq<Digit>, o: seq<nat>, i: nat): (r: seq<nat>)
    requires i < |key| && InKeyRange(key, o)
    ensures |r| == |o| + 1 && InKeyRange(key, r)
    decreases |o|
  {
    if o == [] || key[o[|o| - 1]] <= key[i] then o + [i]
    else InsertColumn(key, o[..|o| - 1], i) + [o[|o| - 1]]
  }

  lemma {:induction false} InsertColumnPermutes(key: seq<Digit>, o: seq<nat>, i: nat)
    requires i < |key| && InKeyRange(key, o)
    ensures multiset(InsertColumn(key, o, i)) == multiset(o) + multiset{i}
    decreases |o|
  {
    if o != [] && key[o[|o| - 1]] > key[i] {
      InsertColumnPermutes(key, o[..|o| - 1], i);
      assert o == o[..|o| - 1] + [o[|o| - 1]];
    }
  }

  /** The first `m` columns in the order the insertion sort leaves them. */
  function SortedColumns(key: seq<Digit>, m: nat): (r: seq<nat>)
    requires m <= |key|
    ensures |r| == m && InKeyRange(key, r)
  {
    if m == 0 then [] else InsertColumn(key, SortedColumns(key, m - 1), m - 1)
  }

  /** The insertion sort rearranges the first `m` columns, each exactly once. */
  lemma {:induction false} SortedColumnsPermutes(key: seq<Digit>, m: nat)
    requires m <= |key|
    ensures multiset(SortedColumns(key, m)) == multiset(Range(m))
  {
    if m > 0 {
      var prev := SortedColumns(key, m - 1);
      var c: nat := m - 1;
      calc {
        multiset(SortedColumns(key, m));
        == { InsertColumnPermutes(key, prev, c); }
        multiset(prev) + multiset{c};
        == { SortedColumnsPermutes(key, c); }
        multiset(Range(c)) + multiset{c};
        == { RangeSnoc(c); }
        multiset(Range(m));
      }
    }
  }

  /** The order in which the columns are read out. */
  function StableOrder(key: seq<Digit>): (r: seq<nat>)
    ensures |r| == |key| && InKeyRange(key, r)
  {
    SortedColumns(key, |key|)
  }

  lemma BeforeTransitive(key: seq<Digit>, a: nat, b: nat, c: nat)
    requires a < |key| && b < |key| && c < |key|
    requires Before(key, a, b) && Before(key, b, c)
    ensures Before(key, a, c)
  {
  }

  lemma {:induction false} InsertColumnSorted(key: seq<Digit>, o: seq<nat>, i: nat)
    requires i < |key| && InKeyRange(key, o) && StablySorted(key, o)
    requires forall p :: 0 <= p < |o| ==> o[p] < i
    ensures StablySorted(key, InsertColumn(key, o, i))
    decreases |o|
  {
    var r := InsertColumn(key, o, i);
    if o == [] || key[o[|o| - 1]] <= key[i] {
      forall p, q | 0 <= p < q < |r| ensures Before(key, r[p], r[q]) {
        if q == |o| && p < |o| - 1 {
          BeforeTransitive(key, r[p], o[|o| - 1], i);
        }
      }
    } else {
      var init := o[..|o| - 1];
      var last := o[|o| - 1];
      InsertColumnSorted(key, init, i);
      InsertColumnPermutes(key, init, i);
      var s := InsertColumn(key, init, i);
      forall p | 0 <= p < |s| ensures Before(key, s[p], last) {
        assert s[p] in multiset(s);
        if s[p] != i {
          assert s[p] in multiset(init);
          var q :| 0 <= q < |init| && init[q] == s[p];
        }
      }
    }
  }

  lemma SortedColumnsBelow(key: seq<Digit>, m: nat)
    requires m <= |key|
    ensures forall p :: 0 <= p < m ==> SortedColumns(key, m)[p] < m
  {
    var r := SortedColumns(key, m);
    SortedColumnsPermutes(key, m);
    forall p | 0 <= p < m ensures r[p] < m {
      assert r[p] in multiset(Range(m));
      var q :| 0 <= q < m && Range(m)[q] == r[p];
    }
  }

  lemma {:induction false} SortedColumnsSorted(key: seq<Digit>, m: nat)
    requires m <= |key|
    ensures StablySorted(key, SortedColumns(key, m))
  {
    if m > 0 {
      SortedColumnsSorted(key, m - 1);
      SortedColumnsBelow(key, m - 1);
      InsertColumnSorted(key, SortedColumns(key, m - 1), m - 1);
    }
  }

  /** Columns are read in ascending key-digit order, equal digits left to right, each exactly once. */
  lemma StableOrderSorted(key: seq<Digit>)
    ensures StablySorted(key, StableOrder(key))
    ensures multiset(StableOrder(key)) == multiset(Range(|key|))
  {
    SortedColumnsSorted(key, |key|);
    SortedColumnsPermutes(key, |key|);
  }

  /** The read-out order is the only stably sorted arrangement of all the columns. */
  lemma StableOrderUnique(key: seq<Digit>, o: seq<nat>)
    requires InKeyRange(key, o) && StablySorted(key, o)
    requires multiset(o) == multiset(Range(|key|))
    ensures o == StableOrder(key)
  {
    StableOrderSorted(key);
    SortedUnique(key, o, StableOrder(key));
  }

  /** Two stably sorted arrangements of the same columns are the same arrangement. */
  lemma SortedUnique(key: seq<Digit>, o1: seq<nat>, o2: seq<nat>)
    requires InKeyRange(key, o1) && InKeyRange(key, o2)
    requires StablySorted(key, o1) && StablySorted(key, o2)
    requires multiset(o1) == multiset(o2)
    ensures o1 == o2
  {
    forall e ensures e in o1 <==> e in o2 {
      assert e in o1 <==> e in multiset(o1);
      assert e in o2 <==> e in multiset(o2);
    }
    SortedMembersUnique(key, o1, o2);
  }

  lemma {:induction false} SortedMembersUnique(key: seq<Digit>, o1: seq<nat>, o2: seq<nat>)
    requires InKeyRange(key, o1) && InKeyRange(key, o2)
    requires StablySorted(key, o1) && StablySorted(key, o2)
    requires forall e :: e in o1 <==> e in o2
    ensures o1 == o2
    decreases |o1|
  {
    if o1 != [] {
      assert o1[0] in o1;
    }
    if o2 != [] {
      assert o2[0] in o2;
    }
    if o1 != [] && o2 != [] {
      var a := o1[0];
      var b := o2[0];
      assert a in o2 && b in o1;
      var q :| 0 <= q < |o2| && o2[q] == a;
      var p :| 0 <= p < |o1| && o1[p] == b;
      if 0 < q && 0 < p {
        assert false;
      }
      forall e ensures e in o1[1..] <==> e in o2[1..] {
        if e in o1[1..] {
          var p :| 1 <= p < |o1| && o1[p] == e;
          assert Before(key, a, e);
          assert e in o2;
          var q :| 0 <= q < |o2| && o2[q] == e;
        }
        if e in o2[1..] {
          var q :| 1 <= q < |o2| && o2[q] == e;
          assert Before(key, a, e);
          assert e in o1;
          var p :| 0 <= p < |o1| && o1[p] == e;
        }
      }
      SortedMembersUnique(key, o1[1..], o2[1..]);
      assert o1 == [a] + o1[1..] && o2 == [a] + o2[1..];
    }
  }

  // ---------------------------------------------------------------------------------------------
  // The transposition

  /** The text written row by row under `k` key digits, as its `k` columns. */
  function Columns(x: seq<Digit>, k: nat): (cs: seq<seq<Digit>>)
    requires k > 0
    ensures |cs| == k && forall i :: 0 <= i < k ==> cs[i] == Column(x, k, i)
  {
    seq(k, i requires 0 <= i < k => Column(x, k, i))
  }

  /** The columns in key order, concatenated; an empty key yields an empty text. */
  function Transposed(x: seq<Digit>, key: seq<Digit>): (r: seq<Digit>)
  {
    if key == [] then [] else Flatten(Arranged(Columns(x, |key|), StableOrder(key)))
  }

  /** The entries of `src` in the arrangement `o`: entry `p` of the result is `src[o[p]]`. */
  function Arranged<T>(src: seq<T>, o: seq<nat>): (r: seq<T>)
    requires forall p :: 0 <= p < |o| ==> o[p] < |src|
    ensures |r| == |o| && forall p :: 0 <= p < |o| ==> r[p] == src[o[p]]
  {
    seq(|o|, p requires 0 <= p < |o| => src[o[p]])
  }

  /** The positions `lo` up to, not including, `hi`. */
  function Span(lo: nat, hi: nat): (r: seq<nat>)
    requires lo <= hi
    ensures |r| == hi - lo && forall p :: 0 <= p < |r| ==> r[p] == lo + p
    decreases hi - lo
  {
    if lo == hi then [] else [lo] + Span(lo + 1, hi)
  }

  /** Column `c` placed at place `j` of the arrangement `pre`. */
  function Inserted(key: seq<Digit>, pre: seq<nat>, c: nat, j: nat): (r: seq<nat>)
    requires c < |key| && InKeyRange(key, pre) && j <= |pre|
    ensures |r| == |pre| + 1 && InKeyRange(key, r)
  {
    pre[..j] + [c] + pre[j..]
  }

  /** The place where the insertion of column `c` into `pre` stops. */
  function InsertPlace(key: seq<Digit>, pre: seq<nat>, c: nat): (m: nat)
    requires c < |key| && InKeyRange(key, pre)
    ensures m <= |pre|
    ensures m == 0 || key[pre[m - 1]] <= key[c]
    ensures forall t :: m <= t < |pre| ==> key[pre[t]] > key[c]
    decreases |pre|
  {
    if pre == [] || key[pre[|pre| - 1]] <= key[c] then |pre|
    else InsertPlace(key, pre[..|pre| - 1], c)
  }

  lemma {:induction false} InsertColumnPlace(key: seq<Digit>, pre: seq<nat>, c: nat)
    requires c < |key| && InKeyRange(key, pre)
    ensures InsertColumn(key, pre, c) == Inserted(key, pre, c, InsertPlace(key, pre, c))
    decreases |pre|
  {
    if pre != [] && key[pre[|pre| - 1]] > key[c] {
      var init := pre[..|pre| - 1];
      InsertColumnPlace(key, init, c);
      var m := InsertPlace(key, init, c);
      assert init[..m] == pre[..m] && init[m..] + [pre[|pre| - 1]] == pre[m..];
    }
  }

  /** `s` with its entry at `from` moved left to place `to`, the entries in between shifted right. */
  function Moved<T>(s: seq<T>, from: nat, to: nat): (r: seq<T>)
    requires to <= from < |s|
    ensures |r| == |s|
    ensures forall p :: 0 <= p < to ==> r[p] == s[p]
    ensures r[to] == s[from]
    ensures forall p :: to < p <= from ==> r[p] == s[p - 1]
    ensures forall p :: from < p < |s| ==> r[p] == s[p]
  {
    s[..to] + [s[from]] + s[to..from] + s[from + 1..]
  }

  /** An entry moved to its own place leaves the sequence as it was. */
  lemma MovedNowhere<T>(s: seq<T>, from: nat)
    requires from < |s|
    ensures Moved(s, from, from) == s
  {
  }

  /** Swapping the moved entry with its left neighbour moves it one place further left. */
  lemma MovedSwap<T>(s: seq<T>, from: nat, j: nat)
    requires 0 < j <= from < |s|
    ensures var r := Moved(s, from, j); Moved(s, from, j - 1) == r[j - 1 := r[j]][j := r[j - 1]]
  {
    var r := Moved(s, from, j);
    var t := Moved(s, from, j - 1);
    forall p | 0 <= p < |s| ensures t[p] == r[j - 1 := r[j]][j := r[j - 1]][p] {
      if p < j - 1 {
        assert t[p] == s[p] == r[p];
      } else if p > j {
        if p <= from {
          assert t[p] == s[p - 1] == r[p];
        } else {
          assert t[p] == s[p] == r[p];
        }
      }
    }
  }

  /**
   * Moving column `i + 1` from its own place to its insertion place among the sorted first
   * `i + 1` columns sorts the first `i + 2` columns.
   */
  lemma PartlySortedStep(key: seq<Digit>, i: nat)
    requires i + 1 < |key|
    ensures Moved(PartlySorted(key, i + 1), i + 1, InsertPlace(key, SortedColumns(key, i + 1), i + 1))
         == PartlySorted(key, i + 2)
  {
    var pre := SortedColumns(key, i + 1);
    var c: nat := i + 1;
    var m := InsertPlace(key, pre, c);
    var rest := Span(i + 2, |key|);
    assert PartlySorted(key, i + 1) == pre + [c] + rest by {
      assert Span(i + 1, |key|) == [c] + rest;
    }
    assert SortedColumns(key, i + 2) == pre[..m] + [c] + pre[m..] by {
      InsertColumnPlace(key, pre, c);
    }
    MovedInserted(pre, c, rest, m);
  }

  /** Moving the entry after `pre` to place `m` inserts it there. */
  lemma MovedInserted(pre: seq<nat>, c: nat, rest: seq<nat>, m: nat)
    requires m <= |pre|
    ensures Moved(pre + [c] + rest, |pre|, m) == pre[..m] + [c] + pre[m..] + rest
  {
    var o := pre + [c] + rest;
    assert o[..m] == pre[..m] && o[m..|pre|] == pre[m..] && o[|pre| + 1..] == rest;
  }

  /** Moving an entry of the arrangement moves the entry it lists. */
  lemma MovedArranged<T>(src: seq<T>, o: seq<nat>, from: nat, to: nat)
    requires forall p :: 0 <= p < |o| ==> o[p] < |src|
    requires to <= from < |o|
    ensures forall p :: 0 <= p < |o| ==> Moved(o, from, to)[p] < |src|
    ensures Moved(Arranged(src, o), from, to) == Arranged(src, Moved(o, from, to))
  {
  }

  /** The key digits arranged like the sorted first `i + 1` columns, followed by column `i + 1`. */
  lemma PartlySortedDigits(key: seq<Digit>, i: nat, pre: seq<nat>, s: seq<Digit>)
    requires i + 1 < |key| && pre == SortedColumns(key, i + 1) && s == Arranged(key, PartlySorted(key, i + 1))
    ensures |s| == |key| && |pre| == i + 1
    ensures forall j :: 0 <= j <= i ==> s[j] == key[pre[j]]
    ensures s[i + 1] == key[i + 1]
  {
    assert PartlySorted(key, i + 1)[i + 1] == Span(i + 1, |key|)[0];
  }

  /** What the source's inner loop relies on: the digits before `i + 1` are sorted, and `m` is where the digit at `i + 1` belongs among them. */
  predicate InsertReady(s: seq<Digit>, i: nat, m: nat)
  {
    i + 1 < |s| && m <= i + 1
    && (forall p, q :: 0 <= p < q < m ==> s[p] <= s[q])
    && (0 < m ==> s[m - 1] <= s[i + 1])
    && (forall j :: m <= j <= i ==> s[j] > s[i + 1])
  }

  /**
   * What the insertion of column `i + 1` finds in the key digits `s` arranged like the sorted
   * first `i + 1` columns `pre`: the digits before its place `m` are in order, the one just before
   * is not greater, and the ones from its place on are strictly greater.
   */
  lemma InsertPlaceFacts(key: seq<Digit>, i: nat, pre: seq<nat>, m: nat, s: seq<Digit>)
    requires i + 1 < |key| == |s| && |pre| == i + 1 && InKeyRange(key, pre)
    requires StablySorted(key, pre) && m == InsertPlace(key, pre, i + 1)
    requires forall j :: 0 <= j <= i ==> s[j] == key[pre[j]]
    requires s[i + 1] == key[i + 1]
    ensures InsertReady(s, i, m)
  {
    forall p, q | 0 <= p < q < m ensures s[p] <= s[q] {
      assert Before(key, pre[p], pre[q]);
    }
  }

  lemma PartlySortedFirst<T>(key: seq<Digit>, src: seq<T>)
    requires 0 < |key| == |src|
    ensures Arranged(src, PartlySorted(key, 1)) == src
  {
    assert SortedColumns(key, 1) == [0];
  }

  /** The source's first loop: one string per key digit, holding the positions under that digit. */
  method FillColumns(toTranspose: seq<Digit>, k: nat) returns (matrix: array<seq<Digit>>)
    ensures fresh(matrix) && matrix.Length == k
    ensures k > 0 ==> matrix[..] == Columns(toTranspose, k)
  {
    matrix := new seq<Digit>[k](p => []);
    var keyIdx := 0;
    while keyIdx < k
      invariant 0 <= keyIdx <= k
      invariant forall p :: 0 <= p < keyIdx ==> matrix[p] == Column(toTranspose, k, p)
      invariant forall p :: keyIdx <= p < k ==> matrix[p] == []
    {
      ghost var before := matrix[..];
      var textDigitIdx := keyIdx;
      while textDigitIdx < |toTranspose|
        invariant keyIdx <= textDigitIdx
        invariant matrix[keyIdx] + Column(toTranspose, k, textDigitIdx) == Column(toTranspose, k, keyIdx)
        invariant forall p :: 0 <= p < k && p != keyIdx ==> matrix[p] == before[p]
        decreases |toTranspose| - textDigitIdx
      {
        assert Column(toTranspose, k, textDigitIdx) == [toTranspose[textDigitIdx]] + Column(toTranspose, k, textDigitIdx + k);
        matrix[keyIdx] := matrix[keyIdx] + [toTranspose[textDigitIdx]];
        textDigitIdx := textDigitIdx + k;
      }
      assert matrix[keyIdx] == Column(toTranspose, k, keyIdx);
      keyIdx := keyIdx + 1;
    }
    assert k > 0 ==> matrix[..] == Columns(toTranspose, k);
  }

  /** The arrangement after the first `m` columns have been sorted; the others still in place. */
  function PartlySorted(key: seq<Digit>, m: nat): (o: seq<nat>)
    requires m <= |key|
    ensures |o| == |key| && InKeyRange(key, o)
  {
    SortedColumns(key, m) + Span(m, |key|)
  }

  /**
   * The source's second loop: an insertion sort of the key digits that swaps the columns along
   * with them. The columns end up in the stable order of the key.
   */
  method SortKeysAndColumns(keys: array<Digit>, matrix: array<seq<Digit>>, ghost key: seq<Digit>)
    requires keys.Length == matrix.Length == |key|
    requires keys[..] == key
    modifies keys, matrix
    ensures keys[..] == Arranged(key, StableOrder(key))
    ensures matrix[..] == Arranged(old(matrix[..]), StableOrder(key))
  {
    var k := keys.Length;
    ghost var cols := matrix[..];
    if k == 0 {
      return;
    }
    PartlySortedFirst(key, key);
    PartlySortedFirst(key, cols);
    ghost var o := PartlySorted(key, 1);
    var i := 0;
    while i < k - 1
      invariant 0 <= i <= k - 1 && o == PartlySorted(key, i + 1)
      invariant keys[..] == Arranged(key, o) && matrix[..] == Arranged(cols, o)
    {
      o := SortStep(keys, matrix, key, cols, i, o);
      i := i + 1;
    }
    assert o == StableOrder(key) by {
      assert Span(k, k) == [];
    }
  }

  /** One pass of the outer sorting loop: column `i + 1` joins the sorted columns before it. */
  method SortStep(keys: array<Digit>, matrix: array<seq<Digit>>, ghost key: seq<Digit>, ghost cols: seq<seq<Digit>>, i: nat, ghost o: seq<nat>)
    returns (ghost o': seq<nat>)
    requires keys.Length == matrix.Length == |key| == |cols| && i + 1 < |key|
    requires o == PartlySorted(key, i + 1)
    requires keys[..] == Arranged(key, o) && matrix[..] == Arranged(cols, o)
    modifies keys, matrix
    ensures o' == PartlySorted(key, i + 2)
    ensures keys[..] == Arranged(key, o') && matrix[..] == Arranged(cols, o')
  {
    ghost var pre := SortedColumns(key, i + 1);
    ghost var m := InsertPlace(key, pre, i + 1);
    assert InsertReady(keys[..], i, m) by {
      PartlySortedDigits(key, i, pre, keys[..]);
      SortedColumnsSorted(key, i + 1);
      InsertPlaceFacts(key, i, pre, m, keys[..]);
    }
    InsertKey(keys, matrix, i, m);
    MovedArranged(key, o, i + 1, m);
    MovedArranged(cols, o, i + 1, m);
    PartlySortedStep(key, i);
    o' := Moved(o, i + 1, m);
  }

  /** While the digit moved from `i + 1` sits at `j`, it is out of order with its left neighbour exactly until `j` reaches its place `m`. */
  lemma InsertKeyCompare(s: seq<Digit>, i: nat, m: nat, j: nat)
    requires InsertReady(s, i, m) && 0 < j <= i + 1
    ensures var r := Moved(s, i + 1, if j < m then m else j); r[j - 1] <= r[j] <==> j <= m
  {
    var r := Moved(s, i + 1, if j < m then m else j);
    if j < m {
      assert r[j - 1] == s[j - 1] && r[j] == s[j];
    } else {
      assert r[j] == s[i + 1];
      assert r[j - 1] == s[j - 1];
    }
  }

  /**
   * The source's inner sorting loop: the key digit at `i + 1` moves left past every strictly
   * greater digit, and its column with it. The digits before it are sorted, so it stops at the
   * place `m` after the last digit not greater than it.
   */
  method InsertKey(keys: array<Digit>, matrix: array<seq<Digit>>, i: nat, ghost m: nat)
    requires keys.Length == matrix.Length && InsertReady(keys[..], i, m)
    modifies keys, matrix
    ensures keys[..] == Moved(old(keys[..]), i + 1, m)
    ensures matrix[..] == Moved(old(matrix[..]), i + 1, m)
  {
    ghost var keys0, matrix0 := keys[..], matrix[..];
    MovedNowhere(keys0, i + 1);
    MovedNowhere(matrix0, i + 1);
    var j := i + 1;
    while j > 0
      invariant 0 <= j <= i + 1
      invariant keys[..] == Moved(keys0, i + 1, if j < m then m else j)
      invariant matrix[..] == Moved(matrix0, i + 1, if j < m then m else j)
    {
      assert keys[j - 1] <= keys[j] <==> j <= m by {
        InsertKeyCompare(keys0, i, m, j);
      }
      if keys[j - 1] <= keys[j] {
        j := j - 1;
        continue;
      }
      SwapStep(keys, matrix, keys0, matrix0, i + 1, j);
      j := j - 1;
    }
  }

  /** One swap of the inner loop carries the moved digit and its column one place further left. */
  method SwapStep(keys: array<Digit>, matrix: array<seq<Digit>>, ghost keys0: seq<Digit>, ghost matrix0: seq<seq<Digit>>, from: nat, j: nat)
    requires 0 < j <= from < |keys0| == |matrix0|
    requires keys[..] == Moved(keys0, from, j) && matrix[..] == Moved(matrix0, from, j)
    modifies keys, matrix
    ensures keys[..] == Moved(keys0, from, j - 1) && matrix[..] == Moved(matrix0, from, j - 1)
  {
    MovedSwap(keys0, from, j);
    MovedSwap(matrix0, from, j);
    SwapNeighbours(keys, matrix, j);
  }

  /** The key digits and the columns at `j - 1` and `j` trade places. */
  method SwapNeighbours(keys: array<Digit>, matrix: array<seq<Digit>>, j: nat)
    requires 0 < j < keys.Length && j < matrix.Length
    modifies keys, matrix
    ensures keys[..] == old(keys[..])[j - 1 := old(keys[..])[j]][j := old(keys[..])[j - 1]]
    ensures matrix[..] == old(matrix[..])[j - 1 := old(matrix[..])[j]][j := old(matrix[..])[j - 1]]
  {
    var buffer := keys[j - 1];
    keys[j - 1] := keys[j];
    keys[j] := buffer;

    var transpositionColumnBuffer := matrix[j - 1];
    matrix[j - 1] := matrix[j];
    matrix[j] := transpositionColumnBuffer;
  }

  /** Writes the text under the key, sorts the columns by key digit and concatenates them. */
  method ColumnarTransposition(toTranspose: seq<Digit>, keysDigitSeries: seq<Digit>) returns (r: seq<Digit>)
    ensures r == Transposed(toTranspose, keysDigitSeries)
  {
    var k := |keysDigitSeries|;
    var keys := new Digit[k](p requires 0 <= p < k => keysDigitSeries[p]);
    var matrix := FillColumns(toTranspose, k);
    SortKeysAndColumns(keys, matrix, keysDigitSeries);
    r := Flatten(matrix[..]);
  }

  // ---------------------------------------------------------------------------------------------
  // A worked example

  lemma FirstKeyOrder4(key: seq<Digit>)
    requires key == [1, 3, 9, 4, 6, 3, 6]
    ensures SortedColumns(key, 4) == [0, 1, 3, 2]
  {
    assert SortedColumns(key, 1) == [0];
    assert [0][..0] == [];
    assert SortedColumns(key, 2) == [0, 1];
    assert [0, 1][..1] == [0];
    assert [0][..0] == [];
    assert SortedColumns(key, 3) == [0, 1, 2];
    assert [0, 1, 2][..2] == [0, 1];
    assert [0, 1][..1] == [0];
    assert [0][..0] == [];
  }

  lemma FirstKeyOrder6(key: seq<Digit>)
    requires key == [1, 3, 9, 4, 6, 3, 6]
    ensures SortedColumns(key, 6) == [0, 1, 5, 3, 4, 2]
  {
    FirstKeyOrder4(key);
    assert [0, 1, 3, 2][..3] == [0, 1, 3];
    assert [0, 1, 3][..2] == [0, 1];
    assert [0, 1][..1] == [0];
    assert [0][..0] == [];
    assert SortedColumns(key, 5) == [0, 1, 3, 4, 2];
    assert [0, 1, 3, 4, 2][..4] == [0, 1, 3, 4];
    assert [0, 1, 3, 4][..3] == [0, 1, 3];
    assert [0, 1, 3][..2] == [0, 1];
    assert [0, 1][..1] == [0];
    assert [0][..0] == [];
  }

  lemma FirstKeyOrder(key: seq<Digit>)
    requires key == [1, 3, 9, 4, 6, 3, 6]
    ensures StableOrder(key) == [0, 1, 5, 3, 4, 6, 2]
  {
    FirstKeyOrder6(key);
    assert [0, 1, 5, 3, 4, 2][..5] == [0, 1, 5, 3, 4];
    assert [0, 1, 5, 3, 4][..4] == [0, 1, 5, 3];
    assert [0, 1, 5, 3][..3] == [0, 1, 5];
    assert [0, 1, 5][..2] == [0, 1];
    assert [0, 1][..1] == [0];
    assert [0][..0] == [];
  }

  lemma FirstKeyColumns(x: seq<Digit>)
    requires x == [3, 0, 5, 4, 0, 1, 2, 4, 9, 9, 3, 3, 4, 4, 6, 9, 9]
    ensures Columns(x, 7) == [[3, 4, 6], [0, 9, 9], [5, 9, 9], [4, 3], [0, 3], [1, 4], [2, 4]]
  {
    assert Column(x, 7, 14) == [6];
    assert Column(x, 7, 7) == [4, 6];
    assert Column(x, 7, 0) == [3, 4, 6];
    assert Column(x, 7, 15) == [9];
    assert Column(x, 7, 8) == [9, 9];
    assert Column(x, 7, 1) == [0, 9, 9];
    assert Column(x, 7, 16) == [9];
    assert Column(x, 7, 9) == [9, 9];
    assert Column(x, 7, 2) == [5, 9, 9];
    assert Column(x, 7, 10) == [3];
    assert Column(x, 7, 3) == [4, 3];
    assert Column(x, 7, 11) == [3];
    assert Column(x, 7, 4) == [0, 3];
    assert Column(x, 7, 12) == [4];
    assert Column(x, 7, 5) == [1, 4];
    assert Column(x, 7, 13) == [4];
    assert Column(x, 7, 6) == [2, 4];
  }

  lemma FirstKeyFlattened5(a: seq<seq<Digit>>)
    requires a == [[3, 4, 6], [0, 9, 9], [1, 4], [4, 3], [0, 3], [2, 4], [5, 9, 9]]
    ensures Flatten(a[5..]) == [2, 4, 5, 9, 9]
  {
    assert a[6..] == [[5, 9, 9]];
    assert Flatten(a[6..]) == [5, 9, 9];
    assert a[5..] == [[2, 4], [5, 9, 9]];
    assert Flatten(a[5..]) == [2, 4, 5, 9, 9];
  }

  lemma FirstKeyFlattened3(a: seq<seq<Digit>>)
    requires a == [[3, 4, 6], [0, 9, 9], [1, 4], [4, 3], [0, 3], [2, 4], [5, 9, 9]]
    ensures Flatten(a[3..]) == [4, 3, 0, 3, 2, 4, 5, 9, 9]
  {
    FirstKeyFlattened5(a);
    assert a[4..] == [[0, 3], [2, 4], [5, 9, 9]];
    assert Flatten(a[4..]) == [0, 3, 2, 4, 5, 9, 9];
    assert a[3..] == [[4, 3], [0, 3], [2, 4], [5, 9, 9]];
    assert Flatten(a[3..]) == [4, 3, 0, 3, 2, 4, 5, 9, 9];
  }

  lemma FirstKeyFlattened(a: seq<seq<Digit>>)
    requires a == [[3, 4, 6], [0, 9, 9], [1, 4], [4, 3], [0, 3], [2, 4], [5, 9, 9]]
    ensures Flatten(a) == [3, 4, 6, 0, 9, 9, 1, 4, 4, 3, 0, 3, 2, 4, 5, 9, 9]
  {
    FirstKeyFlattened3(a);
    assert a[2..] == [[1, 4], [4, 3], [0, 3], [2, 4], [5, 9, 9]];
    assert Flatten(a[2..]) == [1, 4, 4, 3, 0, 3, 2, 4, 5, 9, 9];
    assert a[1..] == [[0, 9, 9], [1, 4], [4, 3], [0, 3], [2, 4], [5, 9, 9]];
    assert Flatten(a[1..]) == [0, 9, 9, 1, 4, 4, 3, 0, 3, 2, 4, 5, 9, 9];
  }

  /** The first seventeen digits of the worked example under the key 1394636, read out in column order 0, 1, 5, 3, 4, 6, 2. */
  lemma FirstKeyTransposition(x: seq<Digit>, key: seq<Digit>)
    requires x == [3, 0, 5, 4, 0, 1, 2, 4, 9, 9, 3, 3, 4, 4, 6, 9, 9]
    requires key == [1, 3, 9, 4, 6, 3, 6]
    ensures Transposed(x, key) == [3, 4, 6, 0, 9, 9, 1, 4, 4, 3, 0, 3, 2, 4, 5, 9, 9]
  {
    FirstKeyOrder(key);
    FirstKeyColumns(x);
    FirstKeyFlattened(Arranged(Columns(x, 7), StableOrder(key)));
  }

  lemma SecondKeyOrder(key: seq<Digit>)
    requires key == [7, 3, 5, 3]
    ensures StableOrder(key) == [1, 3, 2, 0]
  {
    assert SortedColumns(key, 1) == [0];
    assert [0][..0] == [];
    assert SortedColumns(key, 2) == [1, 0];
    assert [1, 0][..1] == [1];
    assert [1][..0] == [];
    assert SortedColumns(key, 3) == [1, 2, 0];
    assert [1, 2, 0][..2] == [1, 2];
    assert [1, 2][..1] == [1];
    assert [1][..0] == [];
  }

  lemma SecondKeyColumns(x: seq<Digit>)
    requires x == [3, 4, 6, 0, 9, 9, 1, 4, 4, 3, 0, 3, 2, 4, 5, 9, 9]
    ensures Columns(x, 4) == [[3, 9, 4, 2, 9], [4, 9, 3, 4], [6, 1, 0, 5], [0, 4, 3, 9]]
  {
    assert Column(x, 4, 16) == [9];
    assert Column(x, 4, 12) == [2, 9];
    assert Column(x, 4, 8) == [4, 2, 9];
    assert Column(x, 4, 4) == [9, 4, 2, 9];
    assert Column(x, 4, 0) == [3, 9, 4, 2, 9];
    assert Column(x, 4, 13) == [4];
    assert Column(x, 4, 9) == [3, 4];
    assert Column(x, 4, 5) == [9, 3, 4];
    assert Column(x, 4, 1) == [4, 9, 3, 4];
    assert Column(x, 4, 14) == [5];
    assert Column(x, 4, 10) == [0, 5];
    assert Column(x, 4, 6) == [1, 0, 5];
    assert Column(x, 4, 2) == [6, 1, 0, 5];
    assert Column(x, 4, 15) == [9];
    assert Column(x, 4, 11) == [3, 9];
    assert Column(x, 4, 7) == [4, 3, 9];
    assert Column(x, 4, 3) == [0, 4, 3, 9];
  }

  lemma SecondKeyFlattened2(a: seq<seq<Digit>>)
    requires a == [[4, 9, 3, 4], [0, 4, 3, 9], [6, 1, 0, 5], [3, 9, 4, 2, 9]]
    ensures Flatten(a[2..]) == [6, 1, 0, 5, 3, 9, 4, 2, 9]
  {
    assert a[3..] == [[3, 9, 4, 2, 9]];
    assert Flatten(a[3..]) == [3, 9, 4, 2, 9];
    assert a[2..] == [[6, 1, 0, 5], [3, 9, 4, 2, 9]];
    assert Flatten(a[2..]) == [6, 1, 0, 5, 3, 9, 4, 2, 9];
  }

  lemma SecondKeyFlattened(a: seq<seq<Digit>>)
    requires a == [[4, 9, 3, 4], [0, 4, 3, 9], [6, 1, 0, 5], [3, 9, 4, 2, 9]]
    ensures Flatten(a) == [4, 9, 3, 4, 0, 4, 3, 9, 6, 1, 0, 5, 3, 9, 4, 2, 9]
  {
    SecondKeyFlattened2(a);
    assert a[1..] == [[0, 4, 3, 9], [6, 1, 0, 5], [3, 9, 4, 2, 9]];
    assert Flatten(a[1..]) == [0, 4, 3, 9, 6, 1, 0, 5, 3, 9, 4, 2, 9];
  }

  /** That result under the key 7353, read out in column order 1, 3, 2, 0. */
  lemma SecondKeyTransposition(x: seq<Digit>, key: seq<Digit>)
    requires x == [3, 4, 6, 0, 9, 9, 1, 4, 4, 3, 0, 3, 2, 4, 5, 9, 9]
    requires key == [7, 3, 5, 3]
    ensures Transposed(x, key) == [4, 9, 3, 4, 0, 4, 3, 9, 6, 1, 0, 5, 3, 9, 4, 2, 9]
  {
    SecondKeyOrder(key);
    SecondKeyColumns(x);
    SecondKeyFlattened(Arranged(Columns(x, 4), StableOrder(key)));
  }

  /** The double transposition of the worked example, on its first seventeen digits. */
  lemma TranspositionExample(x: seq<Digit>)
    requires x == [3, 0, 5, 4, 0, 1, 2, 4, 9, 9, 3, 3, 4, 4, 6, 9, 9]
    ensures Transposed(x, [1, 3, 9, 4, 6, 3, 6]) == [3, 4, 6, 0, 9, 9, 1, 4, 4, 3, 0, 3, 2, 4, 5, 9, 9]
    ensures Transposed(Transposed(x, [1, 3, 9, 4, 6, 3, 6]), [7, 3, 5, 3]) == [4, 9, 3, 4, 0, 4, 3, 9, 6, 1, 0, 5, 3, 9, 4, 2, 9]
  {
    FirstKeyTransposition(x, [1, 3, 9, 4, 6, 3, 6]);
    SecondKeyTransposition([3, 4, 6, 0, 9, 9, 1, 4, 4, 3, 0, 3, 2, 4, 5, 9, 9], [7, 3, 5, 3]);
  }
}
