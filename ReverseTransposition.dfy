/**
 * The inverse of the columnar transposition. The column lengths are not transmitted: they are
 * rebuilt from the text's length alone, column `i` taking the ceiling of the digits not yet
 * assigned over the `k - i` columns left. The text is then cut into the columns in key order, the
 * key sort is undone by matching each column's digit to its first unused place in the key, and
 * the columns are read back row by row.
 */
module ReverseTransposition {
  import opened Wrappers
  import opened Text
  import opened Transposition

  // ---------------------------------------------------------------------------------------------
  // Column lengths

  /** `Math.Ceiling((double)a / b)` on non-negative integers. */
  function CeilDiv(a: nat, b: nat): nat
    requires b > 0
  {
    (a + b - 1) / b
  }

  /** How many of `n` digits written row by row under `k` key digits fall in column `i`. */
  function ColumnLength(n: nat, k: nat, i: nat): nat
    requires k > 0
  {
    n / k + (if i < n % k then 1 else 0)
  }

  /** How many of the `n` digits fall in the columns before column `i`, for `i <= k`. */
  function LengthsBefore(n: nat, k: nat, i: nat): nat
    requires k > 0
  {
    i * (n / k) + (if i < n % k then i else n % k)
  }

  lemma DivAdd(a: nat, b: nat, c: nat)
    requires 0 <= c < b
    ensures (a * b + c) / b == a
  {
    var d, m := (a * b + c) / b, (a * b + c) % b;
    assert a * b + c == d * b + m;
    MulStep(d, a, b);
    MulStep(a, d, b);
  }

  lemma {:induction false} MulStep(x: nat, y: nat, b: nat)
    ensures x < y ==> x * b + b <= y * b
    decreases y
  {
    if x + 1 < y {
      MulStep(x, y - 1, b);
      assert (y - 1) * b + b == y * b;
    } else if x + 1 == y {
      assert (x + 1) * b == x * b + b;
    }
  }

  /**
   * The source's sequential rule gives the row-major lengths: with `LengthsBefore(n, k, i)` digits
   * already assigned, the ceiling of the rest over the `k - i` columns left is column `i`'s length.
   */
  lemma CeilingRule(n: nat, k: nat, i: nat)
    requires i < k
    ensures LengthsBefore(n, k, i) + ColumnLength(n, k, i) == LengthsBefore(n, k, i + 1) <= n
    ensures CeilDiv(n - LengthsBefore(n, k, i), k - i) == ColumnLength(n, k, i)
  {
    var q, r := n / k, n % k;
    var w := k - i;
    assert n == k * q + r;
    assert k * q == i * q + w * q;
    assert (i + 1) * q == i * q + q;
    assert w * q >= q by {
      assert w >= 1;
    }
    var e := if i < r then r - i else 0;
    assert n - LengthsBefore(n, k, i) == w * q + e;
    if i < r {
      assert w * q + e + w - 1 == (q + 1) * w + (e - 1);
      DivAdd(q + 1, w, e - 1);
    } else {
      assert w * q + w - 1 == q * w + (w - 1);
      DivAdd(q, w, w - 1);
    }
  }

  /** All `n` digits are assigned once every column has its length. */
  lemma LengthsBeforeAll(n: nat, k: nat)
    requires k > 0
    ensures LengthsBefore(n, k, k) == n
  {
    assert n == (n / k) * k + n % k;
  }

  /** Column `i` reaches row `y` exactly when position `i + y * k` exists. */
  lemma {:induction false} ColumnReaches(x: seq<Digit>, k: nat, i: nat, y: nat)
    requires k > 0
    ensures y < |Column(x, k, i)| <==> i + y * k < |x|
    decreases |x| - i
  {
    if i < |x| && y > 0 {
      ColumnReaches(x, k, i + k, y - 1);
      assert i + k + (y - 1) * k == i + y * k;
    }
  }

  /** Row `ColumnLength(n, k, i) - 1` is the last row column `i` reaches. */
  lemma ColumnLengthRows(n: nat, k: nat, i: nat)
    requires i < k
    ensures i + ColumnLength(n, k, i) * k >= n
    ensures ColumnLength(n, k, i) > 0 ==> i + (ColumnLength(n, k, i) - 1) * k < n
  {
    var q, r := n / k, n % k;
    var qk := q * k;
    assert n == qk + r;
    assert (q + 1) * k == qk + k;
    if q > 0 {
      assert (q - 1) * k == qk - k;
    }
  }

  /** The forward fill puts `ColumnLength` digits in each column. */
  lemma ColumnLengthOfColumn(x: seq<Digit>, k: nat, i: nat)
    requires i < k
    ensures |Column(x, k, i)| == ColumnLength(|x|, k, i)
  {
    var len := ColumnLength(|x|, k, i);
    ColumnLengthRows(|x|, k, i);
    ColumnReaches(x, k, i, len);
    if len > 0 {
      ColumnReaches(x, k, i, len - 1);
    }
  }

  /** The columns' digits, in order, add up to the text: `LengthsBefore` counts them. */
  lemma {:induction false} ColumnsPrefixLength(x: seq<Digit>, k: nat, i: nat)
    requires 0 < k && i <= k
    ensures |Flatten(Columns(x, k)[..i])| == LengthsBefore(|x|, k, i)
  {
    if i > 0 {
      var cs := Columns(x, k);
      ColumnsPrefixLength(x, k, i - 1);
      assert cs[..i] == cs[..i - 1] + [cs[i - 1]];
      FlattenAppend(cs[..i - 1], [cs[i - 1]]);
      assert Flatten([cs[i - 1]]) == cs[i - 1];
      ColumnLengthOfColumn(x, k, i - 1);
      CeilingRule(|x|, k, i - 1);
    }
  }

  // ---------------------------------------------------------------------------------------------
  // Rearrangements that the key sort applies

  function Sum(ls: seq<nat>): nat
  {
    if ls == [] then 0 else ls[0] + Sum(ls[1..])
  }

  lemma {:induction false} SumAppend(a: seq<nat>, b: seq<nat>)
    ensures Sum(a + b) == Sum(a) + Sum(b)
  {
    if a != [] {
      SumAppend(a[1..], b);
      assert (a + b)[0] == a[0] && (a + b)[1..] == a[1..] + b;
    } else {
      assert a + b == b;
    }
  }

  /** The pieces `Moved` reassembles, in their original order. */
  lemma MovedPieces<T>(s: seq<T>, from: nat, to: nat)
    requires to <= from < |s|
    ensures s == s[..to] + s[to..from] + [s[from]] + s[from + 1..]
    ensures Moved(s, from, to) == s[..to] + [s[from]] + s[to..from] + s[from + 1..]
  {
    assert s[..from] == s[..to] + s[to..from];
    assert s == s[..from] + [s[from]] + s[from + 1..];
  }

  /** Moving one entry keeps the sum. */
  lemma SumMoved(s: seq<nat>, from: nat, to: nat)
    requires to <= from < |s|
    ensures Sum(Moved(s, from, to)) == Sum(s)
  {
    var a, x, c, d := s[..to], [s[from]], s[to..from], s[from + 1..];
    MovedPieces(s, from, to);
    SumAppend(a + x + c, d);
    SumAppend(a + x, c);
    SumAppend(a, x);
    SumAppend(a + c + x, d);
    SumAppend(a + c, x);
    SumAppend(a, c);
  }

  /** Moving one column keeps the digits, in some order. */
  lemma FlattenMoved(s: seq<seq<Digit>>, from: nat, to: nat)
    requires to <= from < |s|
    ensures multiset(Flatten(Moved(s, from, to))) == multiset(Flatten(s))
  {
    var a, x, c, d := s[..to], [s[from]], s[to..from], s[from + 1..];
    MovedPieces(s, from, to);
    FlattenAppend(a + x + c, d);
    FlattenAppend(a + x, c);
    FlattenAppend(a, x);
    FlattenAppend(a + c + x, d);
    FlattenAppend(a + c, x);
    FlattenAppend(a, c);
  }

  /** The key sort, one inserted column at a time, keeps the total of the lengths. */
  lemma {:induction false} SumPartlySorted(key: seq<Digit>, ls: seq<nat>, m: nat)
    requires 0 < m <= |key| == |ls|
    ensures Sum(Arranged(ls, PartlySorted(key, m))) == Sum(ls)
  {
    if m == 1 {
      PartlySortedFirst(key, ls);
    } else {
      var o := PartlySorted(key, m - 1);
      SumPartlySorted(key, ls, m - 1);
      var place := InsertPlace(key, SortedColumns(key, m - 1), m - 1);
      MovedArranged(ls, o, m - 1, place);
      PartlySortedStep(key, m - 2);
      SumMoved(Arranged(ls, o), m - 1, place);
    }
  }

  /** The key sort, one inserted column at a time, keeps the digits of the columns. */
  lemma {:induction false} FlattenPartlySorted(key: seq<Digit>, cs: seq<seq<Digit>>, m: nat)
    requires 0 < m <= |key| == |cs|
    ensures multiset(Flatten(Arranged(cs, PartlySorted(key, m)))) == multiset(Flatten(cs))
  {
    if m == 1 {
      PartlySortedFirst(key, cs);
    } else {
      var o := PartlySorted(key, m - 1);
      FlattenPartlySorted(key, cs, m - 1);
      var place := InsertPlace(key, SortedColumns(key, m - 1), m - 1);
      MovedArranged(cs, o, m - 1, place);
      PartlySortedStep(key, m - 2);
      FlattenMoved(Arranged(cs, o), m - 1, place);
    }
  }

  lemma PartlySortedAll(key: seq<Digit>)
    ensures PartlySorted(key, |key|) == StableOrder(key)
  {
    assert Span(|key|, |key|) == [];
  }

  /** Columnar transposition is a permutation of the columns' digits; for a whole text, of the text. */
  lemma TransposedLength(x: seq<Digit>, key: seq<Digit>)
    requires key != []
    ensures multiset(Transposed(x, key)) == multiset(Flatten(Columns(x, |key|)))
    ensures |Transposed(x, key)| == |x|
  {
    PartlySortedAll(key);
    FlattenPartlySorted(key, Columns(x, |key|), |key|);
    ColumnsPrefixLength(x, |key|, |key|);
    LengthsBeforeAll(|x|, |key|);
    assert Columns(x, |key|)[..|key|] == Columns(x, |key|);
    assert |multiset(Transposed(x, key))| == |Transposed(x, key)|;
  }

  // ---------------------------------------------------------------------------------------------
  // The reverse, as values

  /** A column under reconstruction: its key digit, its rebuilt length, and its digits once cut. */
  datatype TranspositionColumn = TranspositionColumn(key: Digit, columnLength: nat, text: seq<Digit>)

  function KeysOf(cs: seq<TranspositionColumn>): (ks: seq<Digit>)
    ensures |ks| == |cs| && forall i :: 0 <= i < |cs| ==> ks[i] == cs[i].key
  {
    seq(|cs|, i requires 0 <= i < |cs| => cs[i].key)
  }

  function LengthsOf(cs: seq<TranspositionColumn>): (ls: seq<nat>)
    ensures |ls| == |cs| && forall i :: 0 <= i < |cs| ==> ls[i] == cs[i].columnLength
  {
    seq(|cs|, i requires 0 <= i < |cs| => cs[i].columnLength)
  }

  function TextsOf(cs: seq<TranspositionColumn>): (ts: seq<seq<Digit>>)
    ensures |ts| == |cs| && forall i :: 0 <= i < |cs| ==> ts[i] == cs[i].text
  {
    seq(|cs|, i requires 0 <= i < |cs| => cs[i].text)
  }

  /** Each key digit with the length of its column in a text of `n` digits, and no digits yet. */
  function InitialColumns(key: seq<Digit>, n: nat): (cs: seq<TranspositionColumn>)
    ensures KeysOf(cs) == key
    ensures forall i :: 0 <= i < |cs| ==> cs[i].columnLength == ColumnLength(n, |key|, i) && cs[i].text == []
  {
    seq(|key|, i requires 0 <= i < |key| => TranspositionColumn(key[i], ColumnLength(n, |key|, i), []))
  }

  /** The initial columns in read-out order. */
  function SortedInitialColumns(key: seq<Digit>, n: nat): (cs: seq<TranspositionColumn>)
    ensures |cs| == |key|
  {
    Arranged(InitialColumns(key, n), StableOrder(key))
  }

  /** Each column in turn takes its length's worth of the digits not yet taken. */
  function Populated(cs: seq<TranspositionColumn>, t: seq<Digit>): (r: seq<TranspositionColumn>)
    requires Sum(LengthsOf(cs)) <= |t|
    ensures |r| == |cs|
  {
    if cs == [] then []
    else
      var len := cs[0].columnLength;
      assert LengthsOf(cs)[1..] == LengthsOf(cs[1..]);
      [cs[0].(text := t[..len])] + Populated(cs[1..], t[len..])
  }

  /** The place where `o` lists `j`. */
  function IndexOf(o: seq<nat>, j: nat): (p: nat)
    requires j in o
    ensures p < |o| && o[p] == j && forall q :: 0 <= q < p ==> o[q] != j
  {
    if o[0] == j then 0 else 1 + IndexOf(o[1..], j)
  }

  /** `o` lists every position below `|o|` exactly once, and nothing else. */
  predicate Bijective(o: seq<nat>) {
    (forall p :: 0 <= p < |o| ==> o[p] < |o|)
    && (forall j :: 0 <= j < |o| ==> j in o)
    && (forall p, q :: 0 <= p < q < |o| ==> o[p] != o[q])
  }

  /** What undoes `Arranged(_, o)`: entry `j` is the one `o` placed where it lists `j`. */
  function Unarranged<T>(s: seq<T>, o: seq<nat>): (r: seq<T>)
    requires |s| == |o| && Bijective(o)
    ensures |r| == |o|
  {
    seq(|o|, j requires 0 <= j < |o| => s[IndexOf(o, j)])
  }

  /** The columns in read-out order `s` returned to the key positions they were sorted from. */
  function ReverseKeySorted<T>(s: seq<T>, key: seq<Digit>): (r: seq<T>)
    requires |s| == |key|
    ensures |r| == |key|
  {
    StableOrderBijective(key);
    Unarranged(s, StableOrder(key))
  }

  /** Row `y` from column `x` on: the columns' digits at `y`, up to the first column too short. */
  function RowFrom(texts: seq<seq<Digit>>, y: nat, x: nat): seq<Digit>
    decreases |texts| - x
  {
    if x >= |texts| || y >= |texts[x]| then [] else [texts[x][y]] + RowFrom(texts, y, x + 1)
  }

  /** The rows from `y` on, as many as the first column has. */
  function RowsFrom(texts: seq<seq<Digit>>, y: nat): seq<Digit>
    requires texts != []
    decreases |texts[0]| - y
  {
    if y >= |texts[0]| then [] else RowFrom(texts, y, 0) + RowsFrom(texts, y + 1)
  }

  /** The read-out order is a bijection on the column positions. */
  lemma StableOrderBijective(key: seq<Digit>)
    ensures Bijective(StableOrder(key))
  {
    var o := StableOrder(key);
    StableOrderSorted(key);
    forall j | 0 <= j < |o| ensures j in o {
      assert j == Range(|key|)[j];
      assert j in multiset(Range(|key|));
    }
  }

  /** The lengths of the columns of a text of `n` digits add up to `n`. */
  lemma {:induction false} InitialLengths(key: seq<Digit>, n: nat, i: nat)
    requires key != [] && i <= |key|
    ensures Sum(LengthsOf(InitialColumns(key, n))[..i]) == LengthsBefore(n, |key|, i)
  {
    if i > 0 {
      var ls := LengthsOf(InitialColumns(key, n));
      InitialLengths(key, n, i - 1);
      assert ls[..i] == ls[..i - 1] + [ls[i - 1]];
      SumAppend(ls[..i - 1], [ls[i - 1]]);
      CeilingRule(n, |key|, i - 1);
    }
  }

  /** Sorting the columns by key keeps the total length `n`. */
  lemma SortedInitialLengths(key: seq<Digit>, n: nat)
    requires key != []
    ensures Sum(LengthsOf(SortedInitialColumns(key, n))) == n
  {
    var cs := InitialColumns(key, n);
    var o := StableOrder(key);
    assert LengthsOf(Arranged(cs, o)) == Arranged(LengthsOf(cs), o);
    PartlySortedAll(key);
    SumPartlySorted(key, LengthsOf(cs), |key|);
    InitialLengths(key, n, |key|);
    LengthsBeforeAll(n, |key|);
    assert LengthsOf(cs)[..|key|] == LengthsOf(cs);
  }

  /**
   * The reverse transposition of `t` under `key`: the columns get their lengths by key position,
   * are sorted by key, take their digits from `t` in that order, return to their key positions and
   * are read row by row. An empty key has no first column to read the rows from.
   */
  function ReverseTransposed(t: seq<Digit>, key: seq<Digit>): (r: Result<seq<Digit>>)
    ensures r.Err? <==> key == []
  {
    if key == [] then Err(IndexOutOfRange)
    else
      var sorted := SortedInitialColumns(key, |t|);
      SortedInitialLengths(key, |t|);
      Ok(RowsFrom(TextsOf(ReverseKeySorted(Populated(sorted, t), key)), 0))
  }

  /** Cutting the concatenation of texts by their own lengths gives the texts back. */
  lemma {:induction false} PopulatedFlatten(cs: seq<TranspositionColumn>, ts: seq<seq<Digit>>)
    requires |cs| == |ts| && forall p :: 0 <= p < |cs| ==> cs[p].columnLength == |ts[p]|
    ensures Sum(LengthsOf(cs)) == |Flatten(ts)|
    ensures TextsOf(Populated(cs, Flatten(ts))) == ts
  {
    if cs != [] {
      assert LengthsOf(cs)[1..] == LengthsOf(cs[1..]);
      PopulatedFlatten(cs[1..], ts[1..]);
      var t := Flatten(ts);
      assert t[..|ts[0]|] == ts[0] && t[|ts[0]|..] == Flatten(ts[1..]);
      var r := Populated(cs, t);
      assert r[1..] == Populated(cs[1..], t[|ts[0]|..]);
      assert TextsOf(r)[1..] == TextsOf(r[1..]);
    }
  }

  /** `Unarranged` undoes `Arranged` under a bijection. */
  lemma UnarrangedArranged<T>(s: seq<T>, o: seq<nat>)
    requires |s| == |o| && Bijective(o)
    ensures Unarranged(Arranged(s, o), o) == s
  {
  }

  /** The digits of a row of the columns of `x`, from column `i` on, are the matching run of `x`. */
  lemma {:induction false} RowOfColumns(x: seq<Digit>, k: nat, y: nat, i: nat, b: nat)
    requires 0 < k && i <= k && b == y * k && b + i <= |x|
    ensures RowFrom(Columns(x, k), y, i) == x[b + i..if b + k < |x| then b + k else |x|]
    decreases k - i
  {
    var cols := Columns(x, k);
    if i < k {
      ColumnReaches(x, k, i, y);
      if b + i < |x| {
        ColumnElements(x, k, i, y);
        RowOfColumns(x, k, y, i + 1, b);
      }
    }
  }

  /** Reading the columns of `x` row by row from row `y` on gives `x` from that row on. */
  lemma {:induction false} RowsOfColumns(x: seq<Digit>, k: nat, y: nat)
    requires 0 < k
    ensures RowsFrom(Columns(x, k), y) == x[if y * k < |x| then y * k else |x|..]
    decreases |Column(x, k, 0)| - y
  {
    ColumnReaches(x, k, 0, y);
    if y * k < |x| {
      RowOfColumns(x, k, y, 0, y * k);
      assert (y + 1) * k == y * k + k;
      RowsOfColumns(x, k, y + 1);
    }
  }

  /** Sorted by key and cut from the transposed text, the columns hold the key-sorted columns of `x`. */
  lemma PopulatedSorted(x: seq<Digit>, key: seq<Digit>)
    requires key != []
    ensures var sorted := SortedInitialColumns(key, |Transposed(x, key)|);
      Sum(LengthsOf(sorted)) == |Transposed(x, key)|
      && TextsOf(Populated(sorted, Transposed(x, key))) == Arranged(Columns(x, |key|), StableOrder(key))
  {
    var k := |key|;
    var o := StableOrder(key);
    StableOrderSorted(key);
    var ar := Arranged(Columns(x, k), o);
    TransposedLength(x, key);
    var sorted := Arranged(InitialColumns(key, |x|), o);
    forall p | 0 <= p < k
      ensures sorted[p].columnLength == |ar[p]|
    {
      ColumnLengthOfColumn(x, k, o[p]);
    }
    PopulatedFlatten(sorted, ar);
  }

  /** The reverse transposition undoes the transposition under every nonempty key. */
  lemma ReverseTransposedInverse(x: seq<Digit>, key: seq<Digit>)
    requires key != []
    ensures ReverseTransposed(Transposed(x, key), key) == Ok(x)
  {
    var o := StableOrder(key);
    StableOrderSorted(key);
    StableOrderBijective(key);
    var t := Transposed(x, key);
    PopulatedSorted(x, key);
    var populated := Populated(SortedInitialColumns(key, |t|), t);
    assert TextsOf(ReverseKeySorted(populated, key)) == Unarranged(TextsOf(populated), o);
    UnarrangedArranged(Columns(x, |key|), o);
    RowsOfColumns(x, |key|, 0);
  }

  // ---------------------------------------------------------------------------------------------
  // The source's reverse routine, step by step

  lemma KeysOfArranged(cs: seq<TranspositionColumn>, o: seq<nat>)
    requires forall p :: 0 <= p < |o| ==> o[p] < |cs|
    ensures KeysOf(Arranged(cs, o)) == Arranged(KeysOf(cs), o)
  {
  }

  lemma KeysOfMoved(cs: seq<TranspositionColumn>, from: nat, to: nat)
    requires to <= from < |cs|
    ensures KeysOf(Moved(cs, from, to)) == Moved(KeysOf(cs), from, to)
  {
  }

  /**
   * The source's first step: column `i` gets the key digit `tKey[i]` and the ceiling of the
   * remaining length over the columns still to come, and that many digits leave the buffer.
   */
  method GetColumnLengths(tKey: seq<Digit>, toTransposeBuffer: seq<Digit>) returns (tMatrix: array<TranspositionColumn>)
    ensures fresh(tMatrix) && tMatrix[..] == InitialColumns(tKey, |toTransposeBuffer|)
  {
    var k := |tKey|;
    ghost var n := |toTransposeBuffer|;
    tMatrix := new TranspositionColumn[k](_ => TranspositionColumn(0, 0, []));
    var buffer := toTransposeBuffer;
    var i := 0;
    while i < k
      invariant 0 <= i <= k && (0 < k ==> |buffer| == n - LengthsBefore(n, k, i))
      invariant forall p :: 0 <= p < i ==> tMatrix[p] == InitialColumns(tKey, n)[p]
    {
      CeilingRule(n, k, i);
      var currentColumnLength := CeilDiv(|buffer|, k - i);
      tMatrix[i] := TranspositionColumn(tKey[i], currentColumnLength, []);
      buffer := buffer[currentColumnLength..];
      i := i + 1;
    }
  }

  /**
   * The source's second step: the same insertion sort as the forward transposition, on the
   * columns' key digits. The columns end up in the stable order of their keys.
   */
  method SortColumns(tMatrix: array<TranspositionColumn>)
    modifies tMatrix
    ensures tMatrix[..] == Arranged(old(tMatrix[..]), StableOrder(KeysOf(old(tMatrix[..]))))
  {
    var k := tMatrix.Length;
    ghost var cols := tMatrix[..];
    ghost var key := KeysOf(cols);
    if k == 0 {
      return;
    }
    PartlySortedFirst(key, cols);
    ghost var o := PartlySorted(key, 1);
    var i := 0;
    while i < k - 1
      invariant 0 <= i <= k - 1 && o == PartlySorted(key, i + 1)
      invariant tMatrix[..] == Arranged(cols, o)
    {
      o := ColumnSortStep(tMatrix, key, cols, i, o);
      i := i + 1;
    }
    assert o == StableOrder(key) by {
      assert Span(k, k) == [];
    }
  }

  /** One pass of the outer sorting loop: column `i + 1` joins the sorted columns before it. */
  method ColumnSortStep(tMatrix: array<TranspositionColumn>, ghost key: seq<Digit>, ghost cols: seq<TranspositionColumn>, i: nat, ghost o: seq<nat>)
    returns (ghost o': seq<nat>)
    requires tMatrix.Length == |key| == |cols| && i + 1 < |key| && KeysOf(cols) == key
    requires o == PartlySorted(key, i + 1) && tMatrix[..] == Arranged(cols, o)
    modifies tMatrix
    ensures o' == PartlySorted(key, i + 2) && tMatrix[..] == Arranged(cols, o')
  {
    ghost var pre := SortedColumns(key, i + 1);
    ghost var m := InsertPlace(key, pre, i + 1);
    KeysOfArranged(cols, o);
    PartlySortedDigits(key, i, pre, KeysOf(tMatrix[..]));
    SortedColumnsSorted(key, i + 1);
    InsertPlaceFacts(key, i, pre, m, KeysOf(tMatrix[..]));
    InsertColumnKey(tMatrix, i, m);
    MovedArranged(cols, o, i + 1, m);
    PartlySortedStep(key, i);
    o' := Moved(o, i + 1, m);
  }

  /** The source's inner sorting loop: the column at `i + 1` moves left past every column with a greater key digit. */
  method InsertColumnKey(tMatrix: array<TranspositionColumn>, i: nat, ghost m: nat)
    requires InsertReady(KeysOf(tMatrix[..]), i, m)
    modifies tMatrix
    ensures tMatrix[..] == Moved(old(tMatrix[..]), i + 1, m)
  {
    ghost var cols0 := tMatrix[..];
    MovedNowhere(cols0, i + 1);
    var j := i + 1;
    while j > 0
      invariant 0 <= j <= i + 1
      invariant tMatrix[..] == Moved(cols0, i + 1, if j < m then m else j)
    {
      ColumnKeyCompare(cols0, i, m, j);
      if tMatrix[j - 1].key <= tMatrix[j].key {
        j := j - 1;
        continue;
      }
      SwapColumns(tMatrix, cols0, i + 1, j);
      j := j - 1;
    }
  }

  /** While the column moved from `i + 1` sits at `j`, its key digit is out of order with its left neighbour's exactly until `j` reaches its place `m`. */
  lemma ColumnKeyCompare(cols0: seq<TranspositionColumn>, i: nat, m: nat, j: nat)
    requires InsertReady(KeysOf(cols0), i, m) && 0 < j <= i + 1
    ensures var r := Moved(cols0, i + 1, if j < m then m else j); r[j - 1].key <= r[j].key <==> j <= m
  {
    KeysOfMoved(cols0, i + 1, if j < m then m else j);
    InsertKeyCompare(KeysOf(cols0), i, m, j);
  }

  /** One swap of the inner loop carries the moved column one place further left. */
  method SwapColumns(tMatrix: array<TranspositionColumn>, ghost cols0: seq<TranspositionColumn>, from: nat, j: nat)
    requires 0 < j <= from < |cols0| && tMatrix[..] == Moved(cols0, from, j)
    modifies tMatrix
    ensures tMatrix[..] == Moved(cols0, from, j - 1)
  {
    MovedSwap(cols0, from, j);
    var columnBuffer := tMatrix[j - 1];
    tMatrix[j - 1] := tMatrix[j];
    tMatrix[j] := columnBuffer;
  }

  /** Populating keeps the key digits, and each column's text has the column's length. */
  lemma {:induction false} PopulatedKeys(cs: seq<TranspositionColumn>, t: seq<Digit>)
    requires Sum(LengthsOf(cs)) <= |t|
    ensures KeysOf(Populated(cs, t)) == KeysOf(cs)
    ensures forall i :: 0 <= i < |cs| ==> |Populated(cs, t)[i].text| == cs[i].columnLength
  {
    if cs != [] {
      PopulatedFront(cs, t);
      PopulatedKeys(cs[1..], t[cs[0].columnLength..]);
    }
  }

  /** The front column takes its length's worth of `t`; the rest take theirs from what is left. */
  lemma PopulatedFront(cs: seq<TranspositionColumn>, t: seq<Digit>)
    requires cs != [] && Sum(LengthsOf(cs)) <= |t|
    ensures cs[0].columnLength <= |t| && Sum(LengthsOf(cs[1..])) <= |t| - cs[0].columnLength
    ensures Populated(cs, t) == [cs[0].(text := t[..cs[0].columnLength])] + Populated(cs[1..], t[cs[0].columnLength..])
  {
    assert LengthsOf(cs)[1..] == LengthsOf(cs[1..]);
  }

  /** The source's third step: each column in turn takes its length's worth of the buffer's front. */
  method PopulateColumns(tMatrix: array<TranspositionColumn>, toTransposeBuffer: seq<Digit>)
    requires Sum(LengthsOf(tMatrix[..])) <= |toTransposeBuffer|
    modifies tMatrix
    ensures tMatrix[..] == Populated(old(tMatrix[..]), toTransposeBuffer)
  {
    ghost var cs := tMatrix[..];
    ghost var done: seq<TranspositionColumn> := [];
    var buffer := toTransposeBuffer;
    var i := 0;
    while i < tMatrix.Length
      invariant 0 <= i <= tMatrix.Length == |cs| && |done| == i
      invariant Sum(LengthsOf(cs[i..])) <= |buffer|
      invariant done + Populated(cs[i..], buffer) == Populated(cs, toTransposeBuffer)
      invariant tMatrix[..] == done + cs[i..]
    {
      done, buffer := TakeColumn(tMatrix, i, buffer, cs, done);
      i := i + 1;
    }
  }

  /** One pass of the populating loop: column `i` takes the front of the buffer. */
  method TakeColumn(tMatrix: array<TranspositionColumn>, i: nat, buffer: seq<Digit>, ghost cs: seq<TranspositionColumn>, ghost done: seq<TranspositionColumn>)
    returns (ghost done': seq<TranspositionColumn>, rest: seq<Digit>)
    requires i < tMatrix.Length == |cs| && |done| == i && Sum(LengthsOf(cs[i..])) <= |buffer|
    requires tMatrix[..] == done + cs[i..]
    modifies tMatrix
    ensures |done'| == i + 1 && Sum(LengthsOf(cs[i + 1..])) <= |rest|
    ensures done' + Populated(cs[i + 1..], rest) == done + Populated(cs[i..], buffer)
    ensures tMatrix[..] == done' + cs[i + 1..]
  {
    ghost var x := cs[i].(text := buffer[..cs[i].columnLength]);
    TakeFacts(cs, i, buffer);
    UpdateAt(done, cs, i, x);
    ghost var p' := Populated(cs[i + 1..], buffer[cs[i].columnLength..]);
    AppendAssociative(done, [x], p');
    var column := tMatrix[i];
    tMatrix[i] := column.(text := buffer[..column.columnLength]);
    done' := done + [x];
    rest := buffer[column.columnLength..];
  }

  lemma TakeFacts(cs: seq<TranspositionColumn>, i: nat, buffer: seq<Digit>)
    requires i < |cs| && Sum(LengthsOf(cs[i..])) <= |buffer|
    ensures var len := cs[i].columnLength;
      len <= |buffer| && Sum(LengthsOf(cs[i + 1..])) <= |buffer| - len
      && Populated(cs[i..], buffer) == [cs[i].(text := buffer[..len])] + Populated(cs[i + 1..], buffer[len..])
  {
    var tail := cs[i..];
    PopulatedFront(tail, buffer);
    assert tail[1..] == cs[i + 1..] && tail[0] == cs[i];
  }

  lemma UpdateAt<T>(done: seq<T>, s: seq<T>, i: nat, x: T)
    requires |done| == i < |s|
    ensures (done + s[i..])[i := x] == done + [x] + s[i + 1..]
  {
  }

  lemma AppendAssociative<T>(a: seq<T>, b: seq<T>, c: seq<T>)
    ensures a + b + c == a + (b + c)
  {
  }

  /** Under a bijection, the place listing `o[p]` is `p`. */
  lemma IndexOfAt(o: seq<nat>, p: nat)
    requires Bijective(o) && p < |o|
    ensures IndexOf(o, o[p]) == p
  {
  }

  /**
   * In the read-out order, the columns left of column `o[p]` under the same key digit are read
   * before it.
   */
  lemma EarlierSameDigit(key: seq<Digit>, p: nat, j: nat)
    requires p < |key| && j < StableOrder(key)[p] && key[j] == key[StableOrder(key)[p]]
    ensures j in StableOrder(key) && IndexOf(StableOrder(key), j) < p
  {
    var o := StableOrder(key);
    StableOrderSorted(key);
    StableOrderBijective(key);
  }

  /** Whether the source's slot array already holds a column for every key position. */
  predicate Filled(s: seq<Option<TranspositionColumn>>) {
    forall j :: 0 <= j < |s| ==> s[j].Some?
  }

  function Present(s: seq<Option<TranspositionColumn>>): (r: seq<TranspositionColumn>)
    requires Filled(s)
    ensures |r| == |s| && forall j :: 0 <= j < |s| ==> s[j] == Some(r[j])
  {
    seq(|s|, j requires 0 <= j < |s| => s[j].value)
  }

  /**
   * The source's fourth step: each column, in read-out order, goes to the leftmost key position
   * with its digit that no column has taken yet; a taken position is marked with -1 in `keyIter`.
   * Between equal digits the read-out order is left to right, so every column returns to the
   * position it was sorted from.
   */
  method ReverseKeySort(tMatrix: array<TranspositionColumn>, keyIter: array<int>, ghost key: seq<Digit>)
    returns (reversedTranspositionMatrix: array<Option<TranspositionColumn>>)
    requires tMatrix.Length == keyIter.Length == |key| && keyIter[..] == key
    requires KeysOf(tMatrix[..]) == Arranged(key, StableOrder(key))
    modifies keyIter
    ensures fresh(reversedTranspositionMatrix) && Filled(reversedTranspositionMatrix[..])
    ensures Present(reversedTranspositionMatrix[..]) == ReverseKeySorted(tMatrix[..], key)
  {
    var k := keyIter.Length;
    reversedTranspositionMatrix := new Option<TranspositionColumn>[k](_ => None);
    ghost var o := StableOrder(key);
    StableOrderBijective(key);
    NothingPlaced(keyIter[..], reversedTranspositionMatrix[..], tMatrix[..], key, o);
    var p := 0;
    while p < tMatrix.Length
      invariant 0 <= p <= k
      invariant Marked(keyIter[..], key, o, p) && Placed(reversedTranspositionMatrix[..], tMatrix[..], o, p)
    {
      PlaceNext(tMatrix, keyIter, reversedTranspositionMatrix, key, o, p);
      p := p + 1;
    }
    PlacedAll(reversedTranspositionMatrix[..], tMatrix[..], o);
  }

  /** Before the loop no column is placed: the marks are the key digits and the slots are empty. */
  lemma NothingPlaced(keyIter: seq<int>, reversed: seq<Option<TranspositionColumn>>, cols: seq<TranspositionColumn>, key: seq<Digit>, o: seq<nat>)
    requires |o| == |key| == |cols| == |keyIter| == |reversed| && Bijective(o)
    requires forall j :: 0 <= j < |key| ==> keyIter[j] == key[j] && reversed[j] == None
    ensures Marked(keyIter, key, o, 0) && Placed(reversed, cols, o, 0)
  {
  }

  /** With every column placed, the slots hold the columns returned to their key positions. */
  lemma PlacedAll(reversed: seq<Option<TranspositionColumn>>, cols: seq<TranspositionColumn>, o: seq<nat>)
    requires |o| == |cols| && Bijective(o) && Placed(reversed, cols, o, |o|)
    ensures Filled(reversed) && Present(reversed) == Unarranged(cols, o)
  {
  }

  /** One pass of the outer loop: column `p` in read-out order returns to its key position. */
  method PlaceNext(tMatrix: array<TranspositionColumn>, keyIter: array<int>, reversed: array<Option<TranspositionColumn>>, ghost key: seq<Digit>, ghost o: seq<nat>, p: nat)
    requires tMatrix.Length == keyIter.Length == reversed.Length == |key| && p < |key|
    requires o == StableOrder(key) && Bijective(o) && KeysOf(tMatrix[..]) == Arranged(key, o)
    requires Marked(keyIter[..], key, o, p) && Placed(reversed[..], tMatrix[..], o, p)
    modifies keyIter, reversed
    ensures Marked(keyIter[..], key, o, p + 1) && Placed(reversed[..], tMatrix[..], o, p + 1)
  {
    var column := tMatrix[p];
    assert column.key == key[o[p]];
    ghost var marks, slots := keyIter[..], reversed[..];
    FirstUnmarked(marks, key, o, p);
    MarkedStep(marks, key, o, p);
    PlacedStep(slots, tMatrix[..], o, p);
    PlaceColumn(reversed, keyIter, column, o[p]);
  }

  /** The first `p` columns in read-out order are placed: the positions they came from are marked -1. */
  predicate Marked(keyIter: seq<int>, key: seq<Digit>, o: seq<nat>, p: nat)
    requires |o| == |key| && Bijective(o)
  {
    |keyIter| == |key| && forall j :: 0 <= j < |key| ==> keyIter[j] == if IndexOf(o, j) < p then -1 else key[j]
  }

  /** The first `p` columns in read-out order sit in the slots of the positions they came from. */
  predicate Placed(reversed: seq<Option<TranspositionColumn>>, cols: seq<TranspositionColumn>, o: seq<nat>, p: nat)
    requires |o| == |cols| && Bijective(o)
  {
    |reversed| == |cols| && forall j :: 0 <= j < |cols| ==> reversed[j] == if IndexOf(o, j) < p then Some(cols[IndexOf(o, j)]) else None
  }

  /** Placing column `p` at the position it came from, `o[p]`, places the first `p + 1` columns. */
  lemma MarkedStep(keyIter: seq<int>, key: seq<Digit>, o: seq<nat>, p: nat)
    requires |o| == |key| && Bijective(o) && p < |o| && Marked(keyIter, key, o, p)
    ensures Marked(keyIter[o[p] := -1], key, o, p + 1)
  {
    IndexOfAt(o, p);
  }

  lemma PlacedStep(reversed: seq<Option<TranspositionColumn>>, cols: seq<TranspositionColumn>, o: seq<nat>, p: nat)
    requires |o| == |cols| && Bijective(o) && p < |o| && Placed(reversed, cols, o, p)
    ensures Placed(reversed[o[p] := Some(cols[p])], cols, o, p + 1)
  {
    IndexOfAt(o, p);
  }

  /** With the first `p` columns placed, the first unmarked position with column `p`'s digit is the one it came from. */
  lemma FirstUnmarked(keyIter: seq<int>, key: seq<Digit>, o: seq<nat>, p: nat)
    requires p < |key| && o == StableOrder(key) && Bijective(o) && Marked(keyIter, key, o, p)
    ensures keyIter[o[p]] == key[o[p]] && forall j :: 0 <= j < o[p] ==> keyIter[j] != key[o[p]]
  {
    IndexOfAt(o, p);
    forall j | 0 <= j < o[p] ensures keyIter[j] != key[o[p]] {
      if key[j] == key[o[p]] {
        EarlierSameDigit(key, p, j);
      }
    }
  }

  /** The source's inner search: the column goes to the first slot whose mark equals its key digit. */
  method PlaceColumn(reversed: array<Option<TranspositionColumn>>, keyIter: array<int>, column: TranspositionColumn, ghost target: nat)
    requires reversed.Length == keyIter.Length && target < keyIter.Length
    requires keyIter[target] == column.key && forall j :: 0 <= j < target ==> keyIter[j] != column.key
    modifies reversed, keyIter
    ensures reversed[..] == old(reversed[..])[target := Some(column)]
    ensures keyIter[..] == old(keyIter[..])[target := -1]
  {
    var j := 0;
    while j < keyIter.Length
      invariant 0 <= j <= target
      invariant reversed[..] == old(reversed[..]) && keyIter[..] == old(keyIter[..])
    {
      if column.key != keyIter[j] {
        j := j + 1;
        continue;
      }
      reversed[j] := Some(column);
      keyIter[j] := -1;
      break;
    }
  }

  /**
   * The source's last step: the rows are read across the columns, each row stopping at the first
   * column too short for it, for as many rows as the first column has. With no columns there is
   * no first column: the source fails with an index out of range.
   */
  method TranposeMatrix(tMatrix: array<Option<TranspositionColumn>>) returns (r: Result<seq<Digit>>)
    requires Filled(tMatrix[..])
    ensures tMatrix.Length == 0 ==> r == Err(IndexOutOfRange)
    ensures tMatrix.Length > 0 ==> r == Ok(RowsFrom(TextsOf(Present(tMatrix[..])), 0))
  {
    if tMatrix.Length == 0 {
      return Err(IndexOutOfRange);
    }
    ghost var texts := TextsOf(Present(tMatrix[..]));
    var transposedMatrix: seq<Digit> := [];
    var y := 0;
    while y < |tMatrix[0].value.text|
      invariant transposedMatrix + RowsFrom(texts, y) == RowsFrom(texts, 0)
      decreases |texts[0]| - y
    {
      AppendAssociative(transposedMatrix, RowFrom(texts, y, 0), RowsFrom(texts, y + 1));
      transposedMatrix := ReadRow(tMatrix, texts, y, transposedMatrix);
      y := y + 1;
    }
    assert texts[0] == tMatrix[0].value.text;
    assert transposedMatrix + RowsFrom(texts, y) == transposedMatrix;
    r := Ok(transposedMatrix);
  }

  /** The source's inner loop: row `y` is read across the columns up to the first one too short for it. */
  method ReadRow(tMatrix: array<Option<TranspositionColumn>>, ghost texts: seq<seq<Digit>>, y: nat, transposed: seq<Digit>)
    returns (transposedMatrix: seq<Digit>)
    requires Filled(tMatrix[..]) && texts == TextsOf(Present(tMatrix[..]))
    ensures transposedMatrix == transposed + RowFrom(texts, y, 0)
  {
    transposedMatrix := transposed;
    var x := 0;
    while x < tMatrix.Length
      invariant 0 <= x <= tMatrix.Length
      invariant transposedMatrix + RowFrom(texts, y, x) == transposed + RowFrom(texts, y, 0)
    {
      if y >= |tMatrix[x].value.text| {
        break;
      }
      AppendAssociative(transposedMatrix, [texts[x][y]], RowFrom(texts, y, x + 1));
      transposedMatrix := transposedMatrix + [tMatrix[x].value.text[y]];
      x := x + 1;
    }
  }

  /** The columns sorted by key hold the whole text, and cutting the text into them keeps their keys. */
  lemma SortedColumnsReady(key: seq<Digit>, t: seq<Digit>)
    ensures Sum(LengthsOf(SortedInitialColumns(key, |t|))) <= |t|
    ensures KeysOf(Populated(SortedInitialColumns(key, |t|), t)) == Arranged(key, StableOrder(key))
  {
    var sorted := SortedInitialColumns(key, |t|);
    if key != [] {
      SortedInitialLengths(key, |t|);
    }
    PopulatedKeys(sorted, t);
    KeysOfArranged(InitialColumns(key, |t|), StableOrder(key));
  }

  /**
   * Undoes the columnar transposition of `toTranspose` under the key digits: rebuilds the column
   * lengths, sorts the columns by key, cuts the text into them, returns them to their key
   * positions and reads them row by row.
   */
  method ReverseColumnarTransposition(toTranspose: seq<Digit>, keyDigitSeries: seq<Digit>) returns (r: Result<seq<Digit>>)
    ensures r == ReverseTransposed(toTranspose, keyDigitSeries)
  {
    var k := |keyDigitSeries|;
    var key := new int[k](j requires 0 <= j < k => keyDigitSeries[j]);
    assert key[..] == keyDigitSeries;
    var matrix := GetColumnLengths(keyDigitSeries, toTranspose);
    SortColumns(matrix);
    ghost var sorted := SortedInitialColumns(keyDigitSeries, |toTranspose|);
    assert matrix[..] == sorted;
    SortedColumnsReady(keyDigitSeries, toTranspose);
    PopulateColumns(matrix, toTranspose);
    ghost var populated := Populated(sorted, toTranspose);
    assert matrix[..] == populated;
    assert KeysOf(matrix[..]) == Arranged(keyDigitSeries, StableOrder(keyDigitSeries));
    var reversed := ReverseKeySort(matrix, key, keyDigitSeries);
    assert Present(reversed[..]) == ReverseKeySorted(populated, keyDigitSeries);
    r := TranposeMatrix(reversed);
  }

  /** Undoing the double transposition of the worked example, key 7353 first, gives back its digits. */
  lemma ReverseTranspositionExample(x: seq<Digit>)
    requires x == [3, 0, 5, 4, 0, 1, 2, 4, 9, 9, 3, 3, 4, 4, 6, 9, 9]
    ensures ReverseTransposed([4, 9, 3, 4, 0, 4, 3, 9, 6, 1, 0, 5, 3, 9, 4, 2, 9], [7, 3, 5, 3]) == Ok([3, 4, 6, 0, 9, 9, 1, 4, 4, 3, 0, 3, 2, 4, 5, 9, 9])
    ensures ReverseTransposed([3, 4, 6, 0, 9, 9, 1, 4, 4, 3, 0, 3, 2, 4, 5, 9, 9], [1, 3, 9, 4, 6, 3, 6]) == Ok(x)
  {
    TranspositionExample(x);
    ReverseTransposedInverse(x, [1, 3, 9, 4, 6, 3, 6]);
    ReverseTransposedInverse([3, 4, 6, 0, 9, 9, 1, 4, 4, 3, 0, 3, 2, 4, 5, 9, 9], [7, 3, 5, 3]);
  }
}
