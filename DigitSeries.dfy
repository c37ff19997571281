/**
 * The digit-series primitives of the cipher: resizing by a lagged Fibonacci generator,
 * digit-wise addition and subtraction modulo 10, the serial insert position derived from key A,
 * and the split of key A into its two ranked digit groups.
 */
module DigitSeries {
  import opened Wrappers
  import opened Text
  import opened AlphabeticalIndex

  // ---------------------------------------------------------------------------------------------
  // Lagged Fibonacci resizing

  /** One generated digit: the sum of two earlier digits modulo 10. */
  function LfgDigit(a: Digit, b: Digit): Digit
  {
    (a as int + b) % 10
  }

  /** Every digit from position `lag` on is the sum modulo 10 of the digits `lag` and `lag - 1` back. */
  predicate LaggedFibonacci(t: seq<Digit>, lag: nat)
    requires lag >= 2
  {
    forall k :: lag <= k < |t| ==> t[k] == LfgDigit(t[k - lag], t[k - lag + 1])
  }

  /** Appends generated digits to `s` until it is `n` long. */
  function Extend(s: seq<Digit>, lag: nat, n: nat): (r: seq<Digit>)
    requires 2 <= lag <= |s|
    ensures |s| <= n ==> |r| == n
    ensures |s| >= n ==> r == s
    ensures s <= r
    ensures LaggedFibonacci(s, lag) ==> LaggedFibonacci(r, lag)
    decreases n - |s|
  {
    if |s| >= n then s
    else
      var next: Digit := LfgDigit(s[|s| - lag], s[|s| - lag + 1]);
      GeneratedDigitKeeps(s, lag, next);
      Extend(s + [next], lag, n)
  }

  lemma GeneratedDigitKeeps(s: seq<Digit>, lag: nat, next: Digit)
    requires 2 <= lag <= |s| && next == LfgDigit(s[|s| - lag], s[|s| - lag + 1])
    ensures LaggedFibonacci(s, lag) ==> LaggedFibonacci(s + [next], lag)
  {
    var longer := s + [next];
    if LaggedFibonacci(s, lag) {
      forall k | lag <= k < |longer| ensures longer[k] == LfgDigit(longer[k - lag], longer[k - lag + 1]) {
        if k < |s| {
          assert longer[k] == s[k] && longer[k - lag] == s[k - lag] && longer[k - lag + 1] == s[k - lag + 1];
        }
      }
    }
  }

  /**
   * The resized series: clipped to its first `n` digits when longer, otherwise extended by the
   * lagged Fibonacci generator whose lag is the seed's length, which needs at least two digits.
   */
  function Resized(seed: seq<Digit>, n: nat): (r: Result<seq<Digit>>)
    ensures r.Err? <==> |seed| <= n && |seed| < 2
    ensures r.Err? ==> r.error == InsufficientSeed
    ensures r.Ok? ==> |r.value| == n
    ensures |seed| > n ==> r == Ok(seed[..n])
    ensures r.Ok? && |seed| <= n ==> seed <= r.value && LaggedFibonacci(r.value, |seed|)
  {
    if |seed| > n then Ok(seed[..n])
    else if |seed| < 2 then Err(InsufficientSeed)
    else Ok(Extend(seed, |seed|, n))
  }

  /** The extension is the only series of that length that starts with the seed and obeys the recurrence. */
  lemma ResizedUnique(seed: seq<Digit>, n: nat, t: seq<Digit>)
    requires 2 <= |seed| <= n
    requires |t| == n && seed <= t && LaggedFibonacci(t, |seed|)
    ensures Resized(seed, n) == Ok(t)
  {
    var r := Resized(seed, n).value;
    forall k | 0 <= k < n ensures r[k] == t[k] {
      ResizedAgree(seed, r, t, k);
    }
    assert r == t;
  }

  lemma {:induction false} ResizedAgree(seed: seq<Digit>, r: seq<Digit>, t: seq<Digit>, k: nat)
    requires 2 <= |seed| && k < |r| == |t|
    requires seed <= r && seed <= t
    requires LaggedFibonacci(r, |seed|) && LaggedFibonacci(t, |seed|)
    ensures r[k] == t[k]
    decreases k
  {
    if k >= |seed| {
      ResizedAgree(seed, r, t, k - |seed|);
      ResizedAgree(seed, r, t, k - |seed| + 1);
    }
  }

  /** Resizing to a length no greater than a first resize takes a prefix of it. */
  lemma ResizedPrefix(seed: seq<Digit>, m: nat, n: nat)
    requires m <= n && Resized(seed, n).Ok?
    ensures Resized(seed, m) == Ok(Resized(seed, n).value[..m])
  {
    var u := Resized(seed, n).value;
    var t := u[..m];
    if |seed| <= m {
      assert seed <= t;
      assert LaggedFibonacci(t, |seed|) by {
        forall k | |seed| <= k < m ensures t[k] == LfgDigit(t[k - |seed|], t[k - |seed| + 1]) {
          assert t[k] == u[k];
        }
      }
      ResizedUnique(seed, m, t);
    } else if |seed| <= n {
      assert u[..|seed|] == seed;
      assert seed[..m] == t;
    } else {
      assert u[..m] == seed[..m];
    }
  }

  /** The recurrence checked position by position from `k` on, in a form that evaluates on literals. */
  predicate LaggedFibonacciFrom(t: seq<Digit>, lag: nat, k: nat)
    requires lag >= 2
    decreases |t| - k
  {
    k >= |t| || ((k >= lag ==> t[k] == (t[k - lag] as int + t[k - lag + 1]) % 10) && LaggedFibonacciFrom(t, lag, k + 1))
  }

  lemma {:induction false} LaggedFibonacciFromHolds(t: seq<Digit>, lag: nat, k: nat)
    requires lag >= 2 && k <= lag && LaggedFibonacciFrom(t, lag, k)
    ensures LaggedFibonacci(t, lag)
  {
    LaggedFibonacciFromSuffix(t, lag, k);
  }

  lemma {:induction false} LaggedFibonacciFromSuffix(t: seq<Digit>, lag: nat, k: nat)
    requires lag >= 2 && LaggedFibonacciFrom(t, lag, k)
    ensures forall j :: k <= j < |t| && lag <= j ==> t[j] == LfgDigit(t[j - lag], t[j - lag + 1])
    decreases |t| - k
  {
    if k < |t| {
      LaggedFibonacciFromSuffix(t, lag, k + 1);
    }
  }

  const ExampleSeed: seq<Digit> := [3, 6, 9, 5, 1]
  const ExampleResized: seq<Digit> :=
    [3, 6, 9, 5, 1, 9, 5, 4, 6, 0, 4, 9, 0, 6, 4, 3, 9, 6, 0, 7, 2, 5, 6, 7, 9, 7, 1, 3, 6, 6, 8]

  lemma ExampleResizedRecurrence()
    ensures LaggedFibonacci(ExampleResized, 5)
  {
    var t := ExampleResized;
    assert LaggedFibonacciFrom(t, 5, 28);
    assert LaggedFibonacciFrom(t, 5, 25);
    assert LaggedFibonacciFrom(t, 5, 22);
    assert LaggedFibonacciFrom(t, 5, 19);
    assert LaggedFibonacciFrom(t, 5, 16);
    assert LaggedFibonacciFrom(t, 5, 13);
    assert LaggedFibonacciFrom(t, 5, 10);
    assert LaggedFibonacciFrom(t, 5, 7);
    assert LaggedFibonacciFrom(t, 5, 5);
    LaggedFibonacciFromHolds(t, 5, 5);
  }

  /** The five-digit serial "36951" resized to 31 digits. */
  lemma ResizeExample()
    ensures Resized(ExampleSeed, 31) == Ok(ExampleResized)
  {
    ExampleResizedRecurrence();
    assert ExampleResized[..5] == ExampleSeed;
    ResizedUnique(ExampleSeed, 31, ExampleResized);
  }

  method ResizeUsingLaggedFibonacciGenerator(digitSeries: seq<Digit>, intendedLength: nat)
    returns (r: Result<seq<Digit>>)
    ensures r == Resized(digitSeries, intendedLength)
  {
    var iterLfg := 1;
    if |digitSeries| > intendedLength {
      return Ok(digitSeries[..intendedLength]);
    }
    if |digitSeries| < 2 {
      return Err(InsufficientSeed);
    }
    var series := digitSeries;
    while |series| < intendedLength
      invariant |digitSeries| <= |series| <= intendedLength
      invariant iterLfg == |series| - |digitSeries| + 1
      invariant Extend(series, |digitSeries|, intendedLength) == Extend(digitSeries, |digitSeries|, intendedLength)
      decreases intendedLength - |series|
    {
      var next: Digit := LfgDigit(series[iterLfg - 1], series[iterLfg]);
      assert next == LfgDigit(series[|series| - |digitSeries|], series[|series| - |digitSeries| + 1]);
      assert Extend(series + [next], |digitSeries|, intendedLength) == Extend(series, |digitSeries|, intendedLength);
      series := series + [next];
      iterLfg := iterLfg + 1;
    }
    return Ok(series);
  }

  // ---------------------------------------------------------------------------------------------
  // Digit-wise arithmetic modulo 10

  datatype Mod10Operation = Add | Subtract

  /** `a % 10` in C#, which truncates toward zero: the remainder takes the dividend's sign. */
  function TruncatedRemainder10(a: int): (r: int)
    ensures -10 < r < 10
    ensures (a - r) % 10 == 0
    ensures a >= 0 ==> r >= 0
    ensures a < 0 ==> r <= 0
    ensures -10 < a < 10 ==> r == a
  {
    if a >= 0 then a % 10 else -((-a) % 10)
  }

  /** One position of the calculation; the subtraction adds 10 to make C#'s remainder non-negative. */
  function ApplyDigits(op: Mod10Operation, x: Digit, y: Digit): (r: Digit)
    ensures op == Add ==> r == if x as int + y < 10 then x as int + y else x as int + y - 10
    ensures op == Subtract ==> r == if x >= y then x as int - y else x as int - y + 10
  {
    match op
    case Add => (x as int + y) % 10
    case Subtract => (TruncatedRemainder10(x - y) + 10) % 10
  }

  /** The digit-wise calculation: an error when the series differ in length. */
  function DigitwiseMod10(a: seq<Digit>, b: seq<Digit>, op: Mod10Operation): (r: Result<seq<Digit>>)
    ensures r.Err? <==> |a| != |b|
    ensures r.Err? ==> r.error == LengthMismatch
    ensures r.Ok? ==> |r.value| == |a|
  {
    if |a| != |b| then Err(LengthMismatch)
    else Ok(seq(|a|, i requires 0 <= i < |a| => ApplyDigits(op, a[i], b[i])))
  }

  /** Subtracting `b` undoes adding it, and adding `b` undoes subtracting it. */
  lemma DigitwiseInverse(a: seq<Digit>, b: seq<Digit>)
    requires |a| == |b|
    ensures DigitwiseMod10(DigitwiseMod10(a, b, Add).value, b, Subtract) == Ok(a)
    ensures DigitwiseMod10(DigitwiseMod10(a, b, Subtract).value, b, Add) == Ok(a)
  {
    var s := DigitwiseMod10(a, b, Add).value;
    var d := DigitwiseMod10(a, b, Subtract).value;
    forall i | 0 <= i < |a|
      ensures ApplyDigits(Subtract, s[i], b[i]) == a[i]
      ensures ApplyDigits(Add, d[i], b[i]) == a[i]
    {
    }
    assert DigitwiseMod10(s, b, Subtract).value == a;
    assert DigitwiseMod10(d, b, Add).value == a;
  }

  /** Adding the series back to any prefix of a difference restores that prefix. */
  lemma DigitwisePrefixInverse(a: seq<Digit>, b: seq<Digit>, n: nat)
    requires |a| == |b| && n <= |a|
    ensures DigitwiseMod10(DigitwiseMod10(a, b, Subtract).value[..n], b[..n], Add) == Ok(a[..n])
  {
    var d := DigitwiseMod10(a, b, Subtract).value;
    forall i | 0 <= i < n
      ensures ApplyDigits(Add, d[i], b[i]) == a[i]
    {
    }
    assert DigitwiseMod10(d[..n], b[..n], Add).value == a[..n];
  }

  /** Digit-wise operations act position by position, so they commute with splitting. */
  lemma DigitwiseAppend(a1: seq<Digit>, a2: seq<Digit>, b1: seq<Digit>, b2: seq<Digit>, op: Mod10Operation)
    requires |a1| == |b1| && |a2| == |b2|
    ensures DigitwiseMod10(a1 + a2, b1 + b2, op).value
         == DigitwiseMod10(a1, b1, op).value + DigitwiseMod10(a2, b2, op).value
  {
  }

  method IndividualDigitsModulus10Calculation(digitSeriesOne: seq<Digit>, digitSeriesTwo: seq<Digit>,
                                              operation: Mod10Operation)
    returns (r: Result<seq<Digit>>)
    ensures r == DigitwiseMod10(digitSeriesOne, digitSeriesTwo, operation)
  {
    if |digitSeriesOne| != |digitSeriesTwo| {
      return Err(LengthMismatch);
    }
    var result: seq<Digit> := [];
    var i := 0;
    while i < |digitSeriesOne|
      invariant 0 <= i <= |digitSeriesOne|
      invariant result == DigitwiseMod10(digitSeriesOne[..i], digitSeriesTwo[..i], operation).value
    {
      result := result + [ApplyDigits(operation, digitSeriesOne[i], digitSeriesTwo[i])];
      i := i + 1;
    }
    assert digitSeriesOne[..i] == digitSeriesOne && digitSeriesTwo[..i] == digitSeriesTwo;
    return Ok(result);
  }

  /** Digit-wise addition checked position by position from `k` on, in a form that evaluates on literals. */
  predicate SumsFrom(a: seq<Digit>, b: seq<Digit>, c: seq<Digit>, k: nat)
    requires |a| == |b| == |c|
    decreases |a| - k
  {
    k >= |a| || ((a[k] as int + b[k]) % 10 == c[k] && SumsFrom(a, b, c, k + 1))
  }

  lemma {:induction false} SumsFromHolds(a: seq<Digit>, b: seq<Digit>, c: seq<Digit>, k: nat)
    requires |a| == |b| == |c| && SumsFrom(a, b, c, k)
    ensures forall i :: k <= i < |a| ==> ApplyDigits(Add, a[i], b[i]) == c[i]
    decreases |a| - k
  {
    if k < |a| {
      SumsFromHolds(a, b, c, k + 1);
    }
  }

  lemma SumsFromDigitwise(a: seq<Digit>, b: seq<Digit>, c: seq<Digit>)
    requires |a| == |b| == |c| && SumsFrom(a, b, c, 0)
    ensures DigitwiseMod10(a, b, Add) == Ok(c)
  {
    SumsFromHolds(a, b, c, 0);
    assert DigitwiseMod10(a, b, Add).value == c;
  }

  /** Component B of the worked example, as digits, and its sum with the resized serial (component D). */
  const ExampleComponentB: seq<Digit> :=
    [4, 5, 4, 4, 4, 1, 4, 1, 3, 4, 6, 6, 2, 3, 8, 4, 6, 7, 7, 4, 4, 4, 1, 4, 7, 6, 9, 6, 8, 6, 0]
  const ExampleComponentD: seq<Digit> :=
    [7, 1, 3, 9, 5, 0, 9, 5, 9, 4, 0, 5, 2, 9, 2, 7, 5, 3, 7, 1, 6, 9, 7, 1, 6, 3, 0, 9, 4, 2, 8]

  lemma AdditionExampleTail()
    ensures SumsFrom(ExampleComponentB, ExampleResized, ExampleComponentD, 16)
  {
    assert SumsFrom(ExampleComponentB, ExampleResized, ExampleComponentD, 28);
    assert SumsFrom(ExampleComponentB, ExampleResized, ExampleComponentD, 24);
    assert SumsFrom(ExampleComponentB, ExampleResized, ExampleComponentD, 20);
  }

  /** Component B plus the resized serial, digit by digit modulo 10, is component D. */
  lemma AdditionExample()
    ensures DigitwiseMod10(ExampleComponentB, ExampleResized, Add) == Ok(ExampleComponentD)
  {
    AdditionExampleTail();
    assert SumsFrom(ExampleComponentB, ExampleResized, ExampleComponentD, 12);
    assert SumsFrom(ExampleComponentB, ExampleResized, ExampleComponentD, 8);
    assert SumsFrom(ExampleComponentB, ExampleResized, ExampleComponentD, 4);
    assert SumsFrom(ExampleComponentB, ExampleResized, ExampleComponentD, 0);
    SumsFromDigitwise(ExampleComponentB, ExampleResized, ExampleComponentD);
  }

  /** Component D minus the resized serial, digit by digit modulo 10, gives component B back. */
  lemma SubtractionExample()
    ensures DigitwiseMod10(ExampleComponentD, ExampleResized, Subtract) == Ok(ExampleComponentB)
  {
    AdditionExample();
    DigitwiseInverse(ExampleComponentB, ExampleResized);
  }

  // ---------------------------------------------------------------------------------------------
  // Serial insert position

  function SumLengths(words: seq<string>): nat
  {
    if words == [] then 0 else |words[0]| + SumLengths(words[1..])
  }

  lemma {:induction false} FlattenLength(words: seq<string>)
    ensures |Flatten(words)| == SumLengths(words)
  {
    if words != [] {
      FlattenLength(words[1..]);
    }
  }

  lemma {:induction false} CountSpacesZero(s: string)
    ensures CountSpaces(s) == 0 <==> ' ' !in s
  {
    if s != [] {
      CountSpacesZero(s[1..]);
      assert s == [s[0]] + s[1..];
    }
  }

  /**
   * The position the serial is spliced at: the absolute difference of the first two words' lengths
   * plus the lengths of all further words, the words being those of `Split(' ')`. Text without a
   * space has a single word, and reading the second one fails.
   */
  function SerialInsertPosition(a: string): (r: Result<nat>)
  {
    var words := SplitOnSpace(a);
    if |words| < 2 then Err(IndexOutOfRange)
    else
      var diff := |words[0]| - |words[1]|;
      Ok((if diff < 0 then -diff else diff) + SumLengths(words[2..]))
  }

  /** The position fails exactly for text without a space, and never exceeds the text's letter count. */
  lemma SerialInsertPositionBounds(a: string)
    ensures SerialInsertPosition(a).Err? <==> ' ' !in a
    ensures SerialInsertPosition(a).Ok? ==> SerialInsertPosition(a).value <= |RemoveSpaces(a)|
  {
    SplitOnSpaceWords(a);
    CountSpacesZero(a);
    var words := SplitOnSpace(a);
    FlattenLength(words);
    if |words| >= 2 {
      assert words[1..][1..] == words[2..];
    }
  }

  /** Key A "IHR NAHT EUCH WIEDER" of the cipher's worked example: |3 - 4| + 4 + 6. */
  lemma SerialInsertPositionExample()
    ensures SerialInsertPosition(JoinWithSpaces(["IHR", "NAHT", "EUCH", "WIEDER"])) == Ok(11)
  {
    var words := ["IHR", "NAHT", "EUCH", "WIEDER"];
    SplitJoin(words);
    var tail: seq<string> := ["EUCH", "WIEDER"];
    assert words[2..] == tail;
    assert tail[1..] == ["WIEDER"] && ["WIEDER"][1..] == [];
    assert SumLengths(tail) == 10;
  }

  method GetSerialInsertPositionFromComponentA(componentA: string) returns (r: Result<nat>)
    ensures r == SerialInsertPosition(componentA)
  {
    var aWords := SplitOnSpace(componentA);
    if |aWords| < 2 {
      return Err(IndexOutOfRange);
    }
    var diff := |aWords[0]| - |aWords[1]|;
    var position: nat := if diff < 0 then -diff else diff;
    var idx := 2;
    while idx < |aWords|
      invariant 2 <= idx <= |aWords|
      invariant position + SumLengths(aWords[idx..]) == (if diff < 0 then -diff else diff) + SumLengths(aWords[2..])
    {
      assert aWords[idx..][1..] == aWords[idx + 1..];
      position := position + |aWords[idx]|;
      idx := idx + 1;
    }
    return Ok(position);
  }

  // ---------------------------------------------------------------------------------------------
  // Key A digit groups

  /**
   * Key A without spaces must hold at least 13 characters; its first ten are ranked into the
   * ten-digit group and the rest into the remainder group.
   */
  function ComponentADigitSeries(a: string): (r: Result<(seq<Digit>, seq<Digit>)>)
    ensures r.Err? <==> |RemoveSpaces(a)| < 13
    ensures r.Err? ==> r.error == InvalidKeyAStructure
    ensures r.Ok? ==> |r.value.0| == 10 && |r.value.1| == |RemoveSpaces(a)| - 10
  {
    var s := RemoveSpaces(a);
    if |s| < 13 then Err(InvalidKeyAStructure)
    else
      assert RemoveSpaces(s[..10]) == s[..10] && RemoveSpaces(s[10..]) == s[10..] by {
        NoSpacesUnchanged(s[..10]);
        NoSpacesUnchanged(s[10..]);
      }
      Ok((AlphabeticalRanks(RaiInput(s[..10])), AlphabeticalRanks(RaiInput(s[10..]))))
  }

  lemma {:induction false} NoSpacesUnchanged(s: string)
    requires ' ' !in s
    ensures RemoveSpaces(s) == s
  {
    if s != [] {
      assert s == [s[0]] + s[1..];
      NoSpacesUnchanged(s[1..]);
    }
  }

  /** The ten-digit group is a permutation of the ten digits: a valid column key. */
  lemma ComponentAColumnKeys(a: string)
    requires ComponentADigitSeries(a).Ok?
    ensures Distinct(ComponentADigitSeries(a).value.0)
    ensures forall d :: 0 <= d <= 9 ==> d in ComponentADigitSeries(a).value.0
  {
    var s := RemoveSpaces(a);
    RanksArePermutation(RaiInput(s[..10]));
  }
}
