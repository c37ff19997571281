/** Result type for the cipher's synchronous failures, and the error kinds it raises. */
module Wrappers {

  /** The exceptions the cipher engine throws, one constructor per kind. */
  datatype Error =
    | LengthMismatch        // paired digit-series operands of different lengths
    | InsufficientSeed      // lagged-Fibonacci extension of fewer than 2 digits
    | InvalidKeyShape       // checkerboard keys of the wrong length (C# ArgumentException)
    | DuplicateKey          // a second checkerboard entry under a code already present (Dictionary.Add)
    | InvalidKeyAStructure  // key A with fewer than 13 non-space characters
    | IndexOutOfRange       // a string index past the end (C# IndexOutOfRangeException)

  datatype Result<+T> = Ok(value: T) | Err(error: Error) {
    predicate IsFailure() { Err? }
    function PropagateFailure<U>(): Result<U>
      requires Err?
    {
      Err(error)
    }
    function Extract(): T
      requires Ok?
    {
      value
    }
  }

  datatype Option<+T> = None | Some(value: T)
}

/** Digits, text helpers and the string operations of the .NET library the cipher relies on. */
module Text {

  /** One decimal digit, the value of one character of a digit series. */
  type Digit = d: int | 0 <= d <= 9

  predicate IsDecimalDigitChar(c: char) { '0' <= c <= '9' }

  predicate NoDecimalDigits(s: string) {
    forall i :: 0 <= i < |s| ==> !IsDecimalDigitChar(s[i])
  }

  /**
   * The characters key A may hold once the console input is scrubbed: ASCII letters, spaces and
   * parentheses (no digits, no whitespace other than ' ').
   */
  predicate IsKeyAChar(c: char) {
    'A' <= c <= 'Z' || 'a' <= c <= 'z' || c == ' ' || c == '(' || c == ')'
  }

  predicate KeyAText(s: string) {
    forall i :: 0 <= i < |s| ==> IsKeyAChar(s[i])
  }

  predicate Distinct<T(==)>(s: seq<T>) {
    forall i, j :: 0 <= i < j < |s| ==> s[i] != s[j]
  }

  /** `s.Replace(" ", "")`. */
  function RemoveSpaces(s: string): (r: string)
    ensures |r| <= |s|
    ensures forall i :: 0 <= i < |r| ==> r[i] != ' '
    ensures forall c :: c in r <==> c in s && c != ' '
  {
    if s == [] then []
    else (if s[0] == ' ' then [] else [s[0]]) + RemoveSpaces(s[1..])
  }

  lemma {:induction false} RemoveSpacesAppend(a: string, b: string)
    ensures RemoveSpaces(a + b) == RemoveSpaces(a) + RemoveSpaces(b)
  {
    if a == [] {
      assert a + b == b;
    } else {
      assert (a + b)[1..] == a[1..] + b;
      RemoveSpacesAppend(a[1..], b);
    }
  }

  /** ASCII upper-casing of one character (the model of `ToUpper`). */
  function UpperChar(c: char): (r: char)
    ensures IsDecimalDigitChar(r) <==> IsDecimalDigitChar(c)
    ensures 'a' <= c <= 'z' ==> 'A' <= r <= 'Z'
  {
    if 'a' <= c <= 'z' then (c as int - 'a' as int + 'A' as int) as char else c
  }

  function Upper(s: string): (r: string)
    ensures |r| == |s|
    ensures forall i :: 0 <= i < |s| ==> r[i] == UpperChar(s[i])
  {
    seq(|s|, i requires 0 <= i < |s| => UpperChar(s[i]))
  }

  /** `s.Split(' ')`: the pieces between single spaces, empty pieces included. */
  function SplitOnSpace(s: string): (words: seq<string>)
    ensures |words| >= 1
    ensures forall w :: w in words ==> ' ' !in w
  {
    if s == [] then [""]
    else
      var rest := SplitOnSpace(s[1..]);
      if s[0] == ' ' then [""] + rest
      else [[s[0]] + rest[0]] + rest[1..]
  }

  function Flatten<T>(ss: seq<seq<T>>): (r: seq<T>)
  {
    if ss == [] then [] else ss[0] + Flatten(ss[1..])
  }

  function CountSpaces(s: string): nat
  {
    if s == [] then 0 else (if s[0] == ' ' then 1 else 0) + CountSpaces(s[1..])
  }

  /** The words of `s.Split(' ')` are one more than its spaces, and together hold exactly the non-space characters. */
  lemma {:induction false} SplitOnSpaceWords(s: string)
    ensures |SplitOnSpace(s)| == CountSpaces(s) + 1
    ensures Flatten(SplitOnSpace(s)) == RemoveSpaces(s)
  {
    if s != [] {
      SplitOnSpaceWords(s[1..]);
      var rest := SplitOnSpace(s[1..]);
      if s[0] != ' ' {
        calc {
          Flatten(SplitOnSpace(s));
          ([s[0]] + rest[0]) + Flatten(rest[1..]);
          [s[0]] + (rest[0] + Flatten(rest[1..]));
          { assert rest == [rest[0]] + rest[1..]; }
          [s[0]] + Flatten(rest);
        }
      } else {
        assert Flatten(SplitOnSpace(s)) == "" + Flatten(rest);
      }
    }
  }

  /** A word followed by a space splits off as the first piece. */
  lemma {:induction false} SplitOnSpaceFirstWord(w: string, rest: string)
    requires ' ' !in w
    ensures SplitOnSpace(w + " " + rest) == [w] + SplitOnSpace(rest)
  {
    if w != [] {
      assert w[0] in w;
      assert forall c :: c in w[1..] ==> c in w;
      assert (w + " " + rest)[1..] == w[1..] + " " + rest;
      SplitOnSpaceFirstWord(w[1..], rest);
      assert w == [w[0]] + w[1..];
    } else {
      assert w + " " + rest == [' '] + rest;
    }
  }

  lemma {:induction false} SplitOnSpaceSingleWord(w: string)
    requires ' ' !in w
    ensures SplitOnSpace(w) == [w]
  {
    if w != [] {
      assert w[0] in w;
      assert forall c :: c in w[1..] ==> c in w;
      SplitOnSpaceSingleWord(w[1..]);
      assert w == [w[0]] + w[1..];
    }
  }

  /** `string.Join(" ", words)`, the inverse of `SplitOnSpace` on words without spaces. */
  function JoinWithSpaces(words: seq<string>): string
    requires |words| >= 1
  {
    if |words| == 1 then words[0] else words[0] + " " + JoinWithSpaces(words[1..])
  }

  lemma {:induction false} SplitJoin(words: seq<string>)
    requires |words| >= 1 && forall w :: w in words ==> ' ' !in w
    ensures SplitOnSpace(JoinWithSpaces(words)) == words
  {
    if |words| == 1 {
      SplitOnSpaceSingleWord(words[0]);
    } else {
      assert words[0] in words;
      assert forall w :: w in words[1..] ==> w in words;
      SplitJoin(words[1..]);
      SplitOnSpaceFirstWord(words[0], JoinWithSpaces(words[1..]));
      assert words == [words[0]] + words[1..];
    }
  }

  lemma {:induction false} FlattenAppend<T>(a: seq<seq<T>>, b: seq<seq<T>>)
    ensures Flatten(a + b) == Flatten(a) + Flatten(b)
  {
    if a == [] {
      assert a + b == b;
    } else {
      assert (a + b)[1..] == a[1..] + b;
      FlattenAppend(a[1..], b);
    }
  }

  function DigitChar(d: Digit): (c: char)
    ensures IsDecimalDigitChar(c)
  {
    (d + '0' as int) as char
  }

  /** The characters of `n.ToString()` for a non-negative `n`, as digits (no leading zeros; "0" for 0). */
  function DecimalDigits(n: nat): (r: seq<Digit>)
    ensures 1 <= |r|
    ensures n < 10 <==> |r| == 1
    ensures 10 <= n < 100 ==> |r| == 2
    ensures 100 <= n < 1000 ==> |r| == 3
    decreases n
  {
    if n < 10 then [n] else DecimalDigits(n / 10) + [n % 10]
  }

  /** Reading digits back as a number; the inverse of `DecimalDigits`. */
  function DigitsValue(ds: seq<Digit>): nat
  {
    if ds == [] then 0 else DigitsValue(ds[..|ds| - 1]) * 10 + ds[|ds| - 1]
  }

  lemma {:induction false} DecimalDigitsValue(n: nat)
    ensures DigitsValue(DecimalDigits(n)) == n
    decreases n
  {
    if n >= 10 {
      DecimalDigitsValue(n / 10);
      var ds := DecimalDigits(n);
      assert ds[..|ds| - 1] == DecimalDigits(n / 10);
    }
  }
}
