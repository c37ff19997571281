/** The alphabet the checkerboard lays out: the ESTLAND letters and the nineteen others. */
module CheckerboardAlphabet {

  /** The seven most frequent letters of German, given the one-digit codes. */
  const EstlandLetters: string := "ESTLAND"

  predicate IsEstlandLetter(c: char) {
    c == 'E' || c == 'S' || c == 'T' || c == 'L' || c == 'A' || c == 'N' || c == 'D'
  }

  lemma EstlandLetterIn(c: char)
    ensures IsEstlandLetter(c) <==> c in EstlandLetters
  {
    if c in EstlandLetters {
      var k :| 0 <= k < |EstlandLetters| && EstlandLetters[k] == c;
    } else if IsEstlandLetter(c) {
      assert false;
    }
  }

  /** The letters not in "ESTLAND" below ASCII code `a`, in alphabetical order. */
  function OtherLettersBelow(a: int): (ls: string)
    requires 65 <= a <= 91
    ensures |ls| <= a - 65
  {
    if a == 65 then []
    else OtherLettersBelow(a - 1) + (if IsEstlandLetter((a - 1) as char) then [] else [(a - 1) as char])
  }

  lemma {:induction false} OtherLettersRange(a: int)
    requires 65 <= a <= 91
    ensures forall k :: 0 <= k < |OtherLettersBelow(a)| ==>
      'A' <= OtherLettersBelow(a)[k] < a as char && !IsEstlandLetter(OtherLettersBelow(a)[k])
  {
    if a > 65 {
      OtherLettersRange(a - 1);
    }
  }

  lemma {:induction false} OtherLettersPrefix(a: int, b: int)
    requires 65 <= a <= b <= 91
    ensures OtherLettersBelow(a) <= OtherLettersBelow(b)
    decreases b - a
  {
    if a < b {
      OtherLettersPrefix(a, b - 1);
    }
  }

  /** How many letters below ASCII code `a` are not in "ESTLAND". */
  function NonEstlandCount(a: int): nat
    requires 65 <= a <= 91
  {
    if a == 65 then 0 else NonEstlandCount(a - 1) + (if IsEstlandLetter((a - 1) as char) then 0 else 1)
  }

  lemma {:induction false} OtherLettersLength(a: int)
    requires 65 <= a <= 91
    ensures |OtherLettersBelow(a)| == NonEstlandCount(a)
  {
    if a > 65 {
      OtherLettersLength(a - 1);
    }
  }

  /** Nineteen letters remain once the seven of "ESTLAND" have their one-digit codes. */
  lemma OtherLettersCount()
    ensures |OtherLettersBelow(91)| == 19
  {
    OtherLettersLength(91);
    NonEstlandTotal();
  }

  lemma NonEstlandTotal()
    ensures NonEstlandCount(91) == 19
  {
    assert NonEstlandCount(66) == 0;
    assert NonEstlandCount(67) == 1;
    assert NonEstlandCount(68) == 2;
    assert NonEstlandCount(69) == 2;
    assert NonEstlandCount(70) == 2;
    assert NonEstlandCount(71) == 3;
    assert NonEstlandCount(72) == 4;
    assert NonEstlandCount(73) == 5;
    assert NonEstlandCount(74) == 6;
    assert NonEstlandCount(75) == 7;
    assert NonEstlandCount(76) == 8;
    assert NonEstlandCount(77) == 8;
    assert NonEstlandCount(78) == 9;
    assert NonEstlandCount(79) == 9;
    assert NonEstlandCount(80) == 10;
    assert NonEstlandCount(81) == 11;
    assert NonEstlandCount(82) == 12;
    assert NonEstlandCount(83) == 13;
    assert NonEstlandCount(84) == 13;
    assert NonEstlandCount(85) == 13;
    assert NonEstlandCount(86) == 14;
    assert NonEstlandCount(87) == 15;
    assert NonEstlandCount(88) == 16;
    assert NonEstlandCount(89) == 17;
    assert NonEstlandCount(90) == 18;
    assert NonEstlandCount(91) == 19;
  }

  /** The other letters are listed in strictly ascending order. */
  lemma {:induction false} OtherLettersAscending(a: int)
    requires 65 <= a <= 91
    ensures forall i, j :: 0 <= i < j < |OtherLettersBelow(a)| ==> OtherLettersBelow(a)[i] < OtherLettersBelow(a)[j]
  {
    if a > 65 {
      OtherLettersAscending(a - 1);
      OtherLettersRange(a - 1);
    }
  }

  /** A letter outside "ESTLAND" is the other letter at the position of the count of those below it. */
  lemma OtherLetterAt(x: char)
    requires 'A' <= x <= 'Z' && !IsEstlandLetter(x)
    ensures |OtherLettersBelow(91)| == 19 && NonEstlandCount(x as int) < 19
    ensures OtherLettersBelow(91)[NonEstlandCount(x as int)] == x
  {
    var a := x as int + 1;
    assert (a - 1) as char == x;
    OtherLettersLength(a - 1);
    OtherLettersPrefix(a, 91);
    OtherLettersCount();
  }

  /** The positions of B, I, M and R among the other letters. */
  lemma ExampleLetterPositions()
    ensures NonEstlandCount('B' as int) == 0 && NonEstlandCount('I' as int) == 5
    ensures NonEstlandCount('M' as int) == 8 && NonEstlandCount('R' as int) == 12
  {
    assert NonEstlandCount(67) == 1;
    assert NonEstlandCount(70) == 2;
    assert NonEstlandCount(73) == 5;
    assert NonEstlandCount(77) == 8;
    assert NonEstlandCount(80) == 10;
    assert NonEstlandCount(82) == 12;
  }
}

/**
 * The straddling checkerboard, a German variant of the CT-37 board. Its ten column digits and
 * three row digits give codes to the symbols A-Z and 0-9: the seven column digits that are not
 * row digits stand alone for the letters of "ESTLAND"; every other symbol is a row digit
 * followed by a column digit.
 */
module KeyMatrix {
  import opened Wrappers
  import opened Text
  import opened CheckerboardAlphabet

  /** One entry of the board: a one- or two-digit code and the symbol it stands for. */
  datatype Cell = Cell(code: seq<Digit>, symbol: char)

  /** The board's keys and its entries, in the order they were added. */
  datatype Checkerboard = Checkerboard(columnKeys: seq<Digit>, rowKeys: seq<Digit>, cells: seq<Cell>)

  function Codes(cells: seq<Cell>): (cs: seq<seq<Digit>>)
    ensures |cs| == |cells| && forall i :: 0 <= i < |cells| ==> cs[i] == cells[i].code
  {
    seq(|cells|, i requires 0 <= i < |cells| => cells[i].code)
  }

  function Symbols(cells: seq<Cell>): (ss: string)
    ensures |ss| == |cells| && forall i :: 0 <= i < |cells| ==> ss[i] == cells[i].symbol
  {
    seq(|cells|, i requires 0 <= i < |cells| => cells[i].symbol)
  }

  /** The symbol of the digits `1`-`9` and `0` in that order, as the last row holds them. */
  function DigitSymbol(m: nat): (c: char)
    requires m < 10
    ensures IsDecimalDigitChar(c)
  {
    if m < 9 then ('1' as int + m) as char else '0'
  }

  // ---------------------------------------------------------------------------------------------
  // Building the board as the source does, one dictionary entry at a time

  /** `Dictionary.Add`: an entry under a code already present is refused. */
  function Add(cells: seq<Cell>, code: seq<Digit>, symbol: char): (r: Result<seq<Cell>>)
  {
    if code in Codes(cells) then Err(DuplicateKey) else Ok(cells + [Cell(code, symbol)])
  }

  /**
   * The first loop from column position `i` on: each column digit that is no row digit gets the
   * next letter of "ESTLAND", at index `idx`; an eighth such digit indexes past its end.
   */
  function EstlandFrom(col: seq<Digit>, row: seq<Digit>, i: nat, idx: nat, cells: seq<Cell>): Result<seq<Cell>>
    decreases |col| - i
  {
    if i >= |col| then Ok(cells)
    else if col[i] in row then EstlandFrom(col, row, i + 1, idx, cells)
    else if idx >= |EstlandLetters| then Err(IndexOutOfRange)
    else
      match Add(cells, [col[i]], EstlandLetters[idx])
      case Err(e) => Err(e)
      case Ok(next) => EstlandFrom(col, row, i + 1, idx + 1, next)
  }

  /**
   * The second loop from ASCII code `a` on, with its row and column counters: a full row moves
   * the counters to the next row's start; a letter already on the board is skipped; any other
   * letter takes the code of the current row digit and column digit.
   */
  function LettersFrom(col: seq<Digit>, row: seq<Digit>, a: int, r: nat, c: nat, cells: seq<Cell>): Result<(seq<Cell>, nat)>
    requires 65 <= a <= 91
    decreases 91 - a
  {
    if a > 90 then Ok((cells, r))
    else
      var r' := if c >= |col| then r + 1 else r;
      var c' := if c >= |col| then 0 else c;
      if a as char in Symbols(cells) then LettersFrom(col, row, a + 1, r', c', cells)
      else if r' >= |row| || c' >= |col| then Err(IndexOutOfRange)
      else
        match Add(cells, [row[r'], col[c']], a as char)
        case Err(e) => Err(e)
        case Ok(next) => LettersFrom(col, row, a + 1, r', c' + 1, next)
  }

  /** The third loop and the entry after it: the digits `1`-`9`, `0` under the row digit `row[r]`, from column `m` on. */
  function DigitsFrom(col: seq<Digit>, row: seq<Digit>, r: nat, m: nat, cells: seq<Cell>): Result<seq<Cell>>
    requires m <= 10
    decreases 10 - m
  {
    if m == 10 then Ok(cells)
    else if r >= |row| || m >= |col| then Err(IndexOutOfRange)
    else
      match Add(cells, [row[r], col[m]], DigitSymbol(m))
      case Err(e) => Err(e)
      case Ok(next) => DigitsFrom(col, row, r, m + 1, next)
  }

  /** The board the constructor builds from the column and row keys, or the exception it throws. */
  function Built(col: seq<Digit>, row: seq<Digit>): Result<Checkerboard>
  {
    if |col| != 10 || |row| != 3 then Err(InvalidKeyShape)
    else
      match EstlandFrom(col, row, 0, 0, [])
      case Err(e) => Err(e)
      case Ok(estland) =>
        match LettersFrom(col, row, 65, 0, 0, estland)
        case Err(e) => Err(e)
        case Ok(letters) =>
          match DigitsFrom(col, row, letters.1 + 1, 0, letters.0)
          case Err(e) => Err(e)
          case Ok(cells) => Ok(Checkerboard(col, row, cells))
  }

  /**
   * The constructor: checks the key lengths, then adds the ESTLAND entries, the remaining letters
   * row by row and the digits in the last row.
   */
  method StraddlingCheckerboardKeyMatrix(tenColumnDigitKeys: seq<Digit>, threeRowDigitKeys: seq<Digit>)
    returns (r: Result<Checkerboard>)
    ensures r == Built(tenColumnDigitKeys, threeRowDigitKeys)
  {
    var col, rowKeys := tenColumnDigitKeys, threeRowDigitKeys;
    if |col| != 10 || |rowKeys| != 3 {
      return Err(InvalidKeyShape);
    }
    var keyMatrix: seq<Cell> := [];

    var estlandIdx := 0;
    var i := 0;
    while i < |col|
      invariant 0 <= i <= |col|
      invariant EstlandFrom(col, rowKeys, i, estlandIdx, keyMatrix) == EstlandFrom(col, rowKeys, 0, 0, [])
    {
      if col[i] !in rowKeys {
        if estlandIdx >= |EstlandLetters| {
          return Err(IndexOutOfRange);
        }
        var added := Add(keyMatrix, [col[i]], EstlandLetters[estlandIdx]);
        if added.Err? {
          return Err(added.error);
        }
        keyMatrix := added.value;
        estlandIdx := estlandIdx + 1;
      }
      i := i + 1;
    }
    ghost var estland := keyMatrix;

    var column := 0;
    var row := 0;
    var alphabetASCII := 65;
    while alphabetASCII <= 90
      invariant 65 <= alphabetASCII <= 91
      invariant LettersFrom(col, rowKeys, alphabetASCII, row, column, keyMatrix) == LettersFrom(col, rowKeys, 65, 0, 0, estland)
    {
      if column >= |col| {
        column := 0;
        row := row + 1;
      }
      if alphabetASCII as char in Symbols(keyMatrix) {
        alphabetASCII := alphabetASCII + 1;
        continue;
      }
      if row >= |rowKeys| {
        return Err(IndexOutOfRange);
      }
      var added := Add(keyMatrix, [rowKeys[row], col[column]], alphabetASCII as char);
      if added.Err? {
        return Err(added.error);
      }
      keyMatrix := added.value;
      column := column + 1;
      alphabetASCII := alphabetASCII + 1;
    }
    ghost var letters := keyMatrix;
    ghost var lastRow := row;

    row := row + 1;
    column := 0;
    var digitASCII := 49;
    while digitASCII <= 57
      invariant 49 <= digitASCII <= 58 && column == digitASCII - 49
      invariant DigitsFrom(col, rowKeys, row, column, keyMatrix) == DigitsFrom(col, rowKeys, lastRow + 1, 0, letters)
    {
      if row >= |rowKeys| {
        return Err(IndexOutOfRange);
      }
      var added := Add(keyMatrix, [rowKeys[row], col[column]], digitASCII as char);
      if added.Err? {
        return Err(added.error);
      }
      keyMatrix := added.value;
      column := column + 1;
      digitASCII := digitASCII + 1;
    }
    if row >= |rowKeys| {
      return Err(IndexOutOfRange);
    }
    var added := Add(keyMatrix, [rowKeys[row], col[column]], '0');
    if added.Err? {
      return Err(added.error);
    }
    keyMatrix := added.value;
    return Ok(Checkerboard(col, rowKeys, keyMatrix));
  }

  // ---------------------------------------------------------------------------------------------
  // What a successfully built board guarantees

  /** The symbols the cipher can encode: the upper-case letters and the decimal digits. */
  predicate IsSymbolChar(c: char) {
    'A' <= c <= 'Z' || '0' <= c <= '9'
  }

  /** A code the decoder reads back whole: one digit that is no row digit, or a row digit and a column digit. */
  predicate Straddles(row: seq<Digit>, code: seq<Digit>) {
    (|code| == 1 && code[0] !in row) || (|code| == 2 && code[0] in row)
  }

  /** Entries under distinct codes, each of them readable by the decoder. */
  predicate Sound(row: seq<Digit>, cells: seq<Cell>) {
    && Distinct(Codes(cells))
    && forall i :: 0 <= i < |cells| ==> Straddles(row, cells[i].code)
  }

  /** A board on which every symbol has a code and every code decodes to its own symbol. */
  predicate Decodable(b: Checkerboard) {
    && Sound(b.rowKeys, b.cells)
    && forall c :: IsSymbolChar(c) ==> c in Symbols(b.cells)
  }

  lemma AddSound(row: seq<Digit>, cells: seq<Cell>, code: seq<Digit>, symbol: char)
    requires Sound(row, cells) && Straddles(row, code)
    ensures Add(cells, code, symbol).Ok? ==> Sound(row, Add(cells, code, symbol).value)
  {
    if code !in Codes(cells) {
      var next := cells + [Cell(code, symbol)];
      assert Codes(next) == Codes(cells) + [code];
    }
  }

  lemma SymbolsPrefix(cells: seq<Cell>, out: seq<Cell>, c: char)
    requires cells <= out && c in Symbols(cells)
    ensures c in Symbols(out)
  {
    var k :| 0 <= k < |cells| && Symbols(cells)[k] == c;
    assert Symbols(out)[k] == c;
  }

  lemma {:induction false} EstlandSound(col: seq<Digit>, row: seq<Digit>, i: nat, idx: nat, cells: seq<Cell>)
    requires Sound(row, cells)
    ensures EstlandFrom(col, row, i, idx, cells).Ok? ==>
      Sound(row, EstlandFrom(col, row, i, idx, cells).value) && cells <= EstlandFrom(col, row, i, idx, cells).value
    decreases |col| - i
  {
    if i < |col| && col[i] !in row && idx < |EstlandLetters| {
      AddSound(row, cells, [col[i]], EstlandLetters[idx]);
      if Add(cells, [col[i]], EstlandLetters[idx]).Ok? {
        EstlandSound(col, row, i + 1, idx + 1, Add(cells, [col[i]], EstlandLetters[idx]).value);
      }
    } else if i < |col| && col[i] in row {
      EstlandSound(col, row, i + 1, idx, cells);
    }
  }

  lemma {:induction false} LettersSound(col: seq<Digit>, row: seq<Digit>, a: int, r: nat, c: nat, cells: seq<Cell>)
    requires 65 <= a <= 91 && Sound(row, cells)
    ensures var out := LettersFrom(col, row, a, r, c, cells);
      out.Ok? ==>
        && Sound(row, out.value.0) && cells <= out.value.0
        && forall ch: char :: a as char <= ch <= 'Z' ==> ch in Symbols(out.value.0)
    decreases 91 - a
  {
    if a <= 90 {
      var r' := if c >= |col| then r + 1 else r;
      var c' := if c >= |col| then 0 else c;
      if a as char in Symbols(cells) {
        LettersSound(col, row, a + 1, r', c', cells);
        var out := LettersFrom(col, row, a, r, c, cells);
        if out.Ok? {
          SymbolsPrefix(cells, out.value.0, a as char);
        }
      } else if r' < |row| && c' < |col| {
        AddSound(row, cells, [row[r'], col[c']], a as char);
        var added := Add(cells, [row[r'], col[c']], a as char);
        if added.Ok? {
          LettersSound(col, row, a + 1, r', c' + 1, added.value);
          var out := LettersFrom(col, row, a, r, c, cells);
          if out.Ok? {
            assert Symbols(added.value)[|cells|] == a as char;
            SymbolsPrefix(added.value, out.value.0, a as char);
          }
        }
      }
    }
  }

  lemma {:induction false} DigitsSound(col: seq<Digit>, row: seq<Digit>, r: nat, m: nat, cells: seq<Cell>)
    requires m <= 10 && Sound(row, cells)
    ensures var out := DigitsFrom(col, row, r, m, cells);
      out.Ok? ==>
        && Sound(row, out.value) && cells <= out.value
        && forall n :: m <= n < 10 ==> DigitSymbol(n) in Symbols(out.value)
    decreases 10 - m
  {
    if m < 10 && r < |row| && m < |col| {
      AddSound(row, cells, [row[r], col[m]], DigitSymbol(m));
      var added := Add(cells, [row[r], col[m]], DigitSymbol(m));
      if added.Ok? {
        DigitsSound(col, row, r, m + 1, added.value);
        var out := DigitsFrom(col, row, r, m, cells);
        assert out == DigitsFrom(col, row, r, m + 1, added.value);
        if out.Ok? {
          assert Symbols(added.value)[|cells|] == DigitSymbol(m);
          SymbolsPrefix(added.value, out.value, DigitSymbol(m));
          forall n | m < n < 10
            ensures DigitSymbol(n) in Symbols(out.value)
          {
            assert DigitSymbol(n) in Symbols(DigitsFrom(col, row, r, m + 1, added.value).value);
          }
        }
      }
    }
  }

  lemma DigitSymbolIndex(c: char) returns (n: nat)
    requires IsDecimalDigitChar(c)
    ensures n < 10 && DigitSymbol(n) == c
  {
    n := if c == '0' then 9 else c as int - '1' as int;
  }

  /** Every board the constructor completes encodes all of A-Z and 0-9 under distinct, readable codes. */
  lemma BuiltDecodable(col: seq<Digit>, row: seq<Digit>)
    ensures Built(col, row).Ok? ==> Decodable(Built(col, row).value)
  {
    var b := Built(col, row);
    if b.Ok? {
      assert Sound(row, []);
      EstlandSound(col, row, 0, 0, []);
      var estland := EstlandFrom(col, row, 0, 0, []).value;
      LettersSound(col, row, 65, 0, 0, estland);
      var letters := LettersFrom(col, row, 65, 0, 0, estland).value;
      DigitsSound(col, row, letters.1 + 1, 0, letters.0);
      forall ch | IsSymbolChar(ch)
        ensures ch in Symbols(b.value.cells)
      {
        if 'A' <= ch <= 'Z' {
          SymbolsPrefix(letters.0, b.value.cells, ch);
        } else {
          var n := DigitSymbolIndex(ch);
        }
      }
    }
  }

  // ---------------------------------------------------------------------------------------------
  // Encoding and decoding

  /** `Regex.Replace(s, "[^A-Z0-9]", "")`: the symbols the board encodes, in order. */
  function SupportedSymbols(s: string): (r: string)
    ensures |r| <= |s|
    ensures forall i :: 0 <= i < |r| ==> IsSymbolChar(r[i])
    ensures forall c :: c in r <==> c in s && IsSymbolChar(c)
  {
    if s == [] then []
    else (if IsSymbolChar(s[0]) then [s[0]] else []) + SupportedSymbols(s[1..])
  }

  /** The code of the first entry holding `c`, or nothing (the null key) when there is none. */
  function CodeOf(cells: seq<Cell>, c: char): seq<Digit>
  {
    if cells == [] then []
    else if cells[0].symbol == c then cells[0].code
    else CodeOf(cells[1..], c)
  }

  /** The symbol of the first entry under `code`, or the default character when there is none. */
  function SymbolOf(cells: seq<Cell>, code: seq<Digit>): char
  {
    if cells == [] then '\0'
    else if cells[0].code == code then cells[0].symbol
    else SymbolOf(cells[1..], code)
  }

  function EncodeSymbols(cells: seq<Cell>, t: string): seq<Digit>
  {
    if t == [] then [] else CodeOf(cells, t[0]) + EncodeSymbols(cells, t[1..])
  }

  /** Encodes text: upper-cased, stripped to A-Z and 0-9, each symbol replaced by its code. */
  function CharValuesToDigitKeys(b: Checkerboard, stringToEncode: string): (r: seq<Digit>)
    ensures Decodable(b) ==> Decoded(b, r) == Ok(SupportedSymbols(Upper(stringToEncode)))
  {
    var t := SupportedSymbols(Upper(stringToEncode));
    assert Decodable(b) ==> Decoded(b, EncodeSymbols(b.cells, t)) == Ok(t) by {
      if Decodable(b) {
        EncodeSymbolsRoundTrip(b, t);
      }
    }
    EncodeSymbols(b.cells, t)
  }

  function Prepend(s: string, rest: Result<string>): Result<string>
  {
    if rest.Err? then rest else Ok(s + rest.value)
  }

  lemma PrependAppend(a: string, b: string, rest: Result<string>)
    ensures Prepend(a, Prepend(b, rest)) == Prepend(a + b, rest)
  {
    if rest.Ok? {
      assert a + (b + rest.value) == (a + b) + rest.value;
    }
  }

  /**
   * Decodes a digit series: a row digit is read together with the digit after it (and there
   * must be one), any other digit alone.
   */
  function Decoded(b: Checkerboard, ds: seq<Digit>): Result<string>
  {
    if ds == [] then Ok([])
    else if ds[0] in b.rowKeys then
      if |ds| < 2 then Err(IndexOutOfRange)
      else Prepend([SymbolOf(b.cells, ds[..2])], Decoded(b, ds[2..]))
    else Prepend([SymbolOf(b.cells, [ds[0]])], Decoded(b, ds[1..]))
  }

  /** The decoding loop: a row digit moves the index on to the column digit after it. */
  method DigitKeysToCharValues(b: Checkerboard, digitKeySeriesToDecode: seq<Digit>) returns (r: Result<string>)
    ensures r == Decoded(b, digitKeySeriesToDecode)
  {
    var ds := digitKeySeriesToDecode;
    var output := "";
    var index := 0;
    assert ds[index..] == ds;
    if Decoded(b, ds).Ok? {
      assert output + Decoded(b, ds).value == Decoded(b, ds).value;
    }
    while index < |ds|
      invariant 0 <= index <= |ds|
      invariant Decoded(b, ds) == Prepend(output, Decoded(b, ds[index..]))
    {
      var rowDigit := ds[index];
      ghost var rest := ds[index..];
      if rowDigit in b.rowKeys {
        index := index + 1;
        if index >= |ds| {
          return Err(IndexOutOfRange);
        }
        var columnDigit := ds[index];
        assert rest[..2] == [rowDigit, columnDigit];
        assert rest[2..] == ds[index + 1..];
        PrependAppend(output, [SymbolOf(b.cells, [rowDigit, columnDigit])], Decoded(b, ds[index + 1..]));
        output := output + [SymbolOf(b.cells, [rowDigit, columnDigit])];
      } else {
        assert rest[1..] == ds[index + 1..];
        PrependAppend(output, [SymbolOf(b.cells, [rowDigit])], Decoded(b, ds[index + 1..]));
        output := output + [SymbolOf(b.cells, [rowDigit])];
      }
      index := index + 1;
    }
    assert Decoded(b, ds[index..]) == Ok([]);
    assert output + [] == output;
    return Ok(output);
  }

  lemma {:induction false} CodeOfSymbolOf(cells: seq<Cell>, c: char)
    requires Distinct(Codes(cells)) && c in Symbols(cells)
    ensures CodeOf(cells, c) in Codes(cells)
    ensures SymbolOf(cells, CodeOf(cells, c)) == c
  {
    if cells[0].symbol != c {
      assert Codes(cells[1..]) == Codes(cells)[1..];
      assert Symbols(cells[1..]) == Symbols(cells)[1..];
      CodeOfSymbolOf(cells[1..], c);
      assert cells[0].code != CodeOf(cells[1..], c);
    }
  }

  lemma DecodedStep(b: Checkerboard, code: seq<Digit>, rest: seq<Digit>)
    requires Straddles(b.rowKeys, code)
    ensures Decoded(b, code + rest) == Prepend([SymbolOf(b.cells, code)], Decoded(b, rest))
  {
    var ds := code + rest;
    if |code| == 2 {
      assert ds[..2] == code && ds[2..] == rest;
    } else {
      assert [ds[0]] == code && ds[1..] == rest;
    }
  }

  /** On a decodable board each symbol's code is read back whole, as that symbol. */
  lemma SymbolCode(b: Checkerboard, c: char)
    requires Decodable(b) && IsSymbolChar(c)
    ensures Straddles(b.rowKeys, CodeOf(b.cells, c))
    ensures SymbolOf(b.cells, CodeOf(b.cells, c)) == c
  {
    CodeOfSymbolOf(b.cells, c);
    var k :| 0 <= k < |b.cells| && Codes(b.cells)[k] == CodeOf(b.cells, c);
  }

  lemma {:induction false} EncodeSymbolsRoundTrip(b: Checkerboard, t: string)
    requires Decodable(b)
    requires forall i :: 0 <= i < |t| ==> IsSymbolChar(t[i])
    ensures Decoded(b, EncodeSymbols(b.cells, t)) == Ok(t)
  {
    if t != [] {
      var code := CodeOf(b.cells, t[0]);
      SymbolCode(b, t[0]);
      DecodedStep(b, code, EncodeSymbols(b.cells, t[1..]));
      EncodeSymbolsRoundTrip(b, t[1..]);
      assert [t[0]] + t[1..] == t;
    }
  }

  /** Decoding an encoded text gives back its upper-cased letters and digits, everything else dropped. */
  lemma EncodeDecode(b: Checkerboard, s: string)
    requires Decodable(b)
    ensures Decoded(b, CharValuesToDigitKeys(b, s)) == Ok(SupportedSymbols(Upper(s)))
  {
    EncodeSymbolsRoundTrip(b, SupportedSymbols(Upper(s)));
  }

  // ---------------------------------------------------------------------------------------------
  // When the constructor succeeds, and the board it then lays out

  /** Ten distinct column digits (so every digit once) and three distinct row digits. */
  predicate ValidKeys(col: seq<Digit>, row: seq<Digit>) {
    |col| == 10 && |row| == 3 && Distinct(col) && Distinct(row)
  }

  /** The column digits from position `i` on that are no row digits, in order. */
  function NonRowFrom(col: seq<Digit>, row: seq<Digit>, i: nat): seq<Digit>
    decreases |col| - i
  {
    if i >= |col| then [] else (if col[i] in row then [] else [col[i]]) + NonRowFrom(col, row, i + 1)
  }

  /** The column digits from position `i` on that are row digits, in order. */
  function InRowFrom(col: seq<Digit>, row: seq<Digit>, i: nat): seq<Digit>
    decreases |col| - i
  {
    if i >= |col| then [] else (if col[i] in row then [col[i]] else []) + InRowFrom(col, row, i + 1)
  }

  /** The one-digit entries: the `k`-th non-row column digit stands for the `idx + k`-th letter of "ESTLAND". */
  function EstlandCells(ds: seq<Digit>, idx: nat): (cells: seq<Cell>)
    requires idx + |ds| <= |EstlandLetters|
    ensures |cells| == |ds|
  {
    if ds == [] then [] else [Cell([ds[0]], EstlandLetters[idx])] + EstlandCells(ds[1..], idx + 1)
  }

  lemma {:induction false} EstlandCellsAt(ds: seq<Digit>, idx: nat)
    requires idx + |ds| <= |EstlandLetters|
    ensures forall k :: 0 <= k < |ds| ==> EstlandCells(ds, idx)[k] == Cell([ds[k]], EstlandLetters[idx + k])
  {
    if ds != [] {
      EstlandCellsAt(ds[1..], idx + 1);
    }
  }

  /** The row of the `j`-th entry laid out ten to a row: `j / 10`. */
  function CellRow(j: nat): (r: nat)
    requires j < 30
    ensures r < 3
  {
    if j < 10 then 0 else if j < 20 then 1 else 2
  }

  /** The column of the `j`-th entry laid out ten to a row: `j % 10`. */
  function CellColumn(j: nat): (c: nat)
    requires j < 30
    ensures c < 10 && 10 * CellRow(j) + c == j
  {
    j - 10 * CellRow(j)
  }

  /** The `j`-th other letter sits in row `j / 10`, column `j % 10`. */
  function LetterCells(col: seq<Digit>, row: seq<Digit>, ls: string): (cells: seq<Cell>)
    requires |col| == 10 && |row| == 3 && |ls| < 30
    ensures |cells| == |ls|
  {
    seq(|ls|, j requires 0 <= j < |ls| => Cell([row[CellRow(j)], col[CellColumn(j)]], ls[j]))
  }

  /** The first `n` entries of the digit row `r`: `1`-`9`, `0` under the column digits in order. */
  function DigitCells(col: seq<Digit>, row: seq<Digit>, r: nat, n: nat): (cells: seq<Cell>)
    requires |col| == 10 && r < |row| && n <= 10
    ensures |cells| == n
  {
    seq(n, m requires 0 <= m < n => Cell([row[r], col[m]], DigitSymbol(m)))
  }

  /** The board of valid keys: seven ESTLAND entries, nineteen letters in two rows, ten digits in the third. */
  function Layout(col: seq<Digit>, row: seq<Digit>): seq<Cell>
    requires ValidKeys(col, row) && |NonRowFrom(col, row, 0)| == 7
  {
    EstlandCells(NonRowFrom(col, row, 0), 0)
      + LetterCells(col, row, OtherLettersBelow(91))
      + DigitCells(col, row, 2, 10)
  }

  // Counting

  /** The elements of a sequence, as a set. */
  function Elems<T>(s: seq<T>): set<T>
  {
    set x | x in s
  }

  lemma ElemsCons<T>(s: seq<T>)
    requires s != []
    ensures Elems(s) == Elems(s[1..]) + {s[0]}
  {
  }

  lemma {:induction false} DistinctCard<T>(s: seq<T>)
    requires Distinct(s)
    ensures |Elems(s)| == |s|
  {
    if s != [] {
      DistinctCard(s[1..]);
      ElemsCons(s);
    }
  }

  lemma {:induction false} RepeatCard<T>(s: seq<T>)
    requires !Distinct(s)
    ensures |Elems(s)| < |s|
  {
    ElemsCons(s);
    if s[0] in s[1..] {
      CardBound(s[1..]);
    } else {
      assert !Distinct(s[1..]) by {
        var i, j :| 0 <= i < j < |s| && s[i] == s[j];
        assert s[1..][j - 1] == s[j];
        assert s[1..][i - 1] == s[1..][j - 1];
      }
      RepeatCard(s[1..]);
    }
  }

  lemma {:induction false} CardBound<T>(s: seq<T>)
    ensures |Elems(s)| <= |s|
  {
    if s != [] {
      CardBound(s[1..]);
      ElemsCons(s);
    }
  }

  lemma SubsetSameCard<T>(a: set<T>, b: set<T>)
    requires a <= b && |a| == |b|
    ensures a == b
  {
    assert a * b == a;
    assert |b - a| == 0;
  }

  /** Ten distinct digits are all ten digits. */
  lemma AllDigitsPresent(col: seq<Digit>)
    requires |col| == 10 && Distinct(col)
    ensures forall d: Digit :: d in col
  {
    var ten: seq<Digit> := seq(10, i requires 0 <= i < 10 => i);
    DistinctCard(col);
    DistinctCard(ten);
    forall x | x in col
      ensures x in ten
    {
      assert ten[x] == x;
    }
    SubsetSameCard(Elems(col), Elems(ten));
    forall d: Digit
      ensures d in col
    {
      assert ten[d] == d;
      assert d in Elems(ten);
    }
  }

  lemma {:induction false} FilterLengths(col: seq<Digit>, row: seq<Digit>, i: nat)
    requires i <= |col|
    ensures |NonRowFrom(col, row, i)| + |InRowFrom(col, row, i)| == |col| - i
    decreases |col| - i
  {
    if i < |col| {
      FilterLengths(col, row, i + 1);
    }
  }

  /** With distinct column digits, the row digits among them are counted by a set intersection. */
  lemma {:induction false} FilterCounts(col: seq<Digit>, row: seq<Digit>, i: nat)
    requires Distinct(col) && i <= |col|
    ensures |NonRowFrom(col, row, i)| + |InRowFrom(col, row, i)| == |col| - i
    ensures |InRowFrom(col, row, i)| == |Elems(col[i..]) * Elems(row)|
    decreases |col| - i
  {
    FilterLengths(col, row, i);
    if i < |col| {
      FilterCounts(col, row, i + 1);
      var rest := Elems(col[i + 1..]) * Elems(row);
      assert col[i..][1..] == col[i + 1..];
      ElemsCons(col[i..]);
      assert col[i] !in col[i + 1..];
      if col[i] in row {
        assert Elems(col[i..]) * Elems(row) == rest + {col[i]};
        assert col[i] !in rest;
        assert InRowFrom(col, row, i) == [col[i]] + InRowFrom(col, row, i + 1);
      } else {
        assert Elems(col[i..]) * Elems(row) == rest;
        assert InRowFrom(col, row, i) == InRowFrom(col, row, i + 1);
      }
    } else {
      assert col[i..] == [];
    }
  }

  /** With valid keys exactly seven column digits are no row digits, one per ESTLAND letter. */
  lemma NonRowCount(col: seq<Digit>, row: seq<Digit>)
    requires ValidKeys(col, row)
    ensures |NonRowFrom(col, row, 0)| == 7
  {
    FilterCounts(col, row, 0);
    AllDigitsPresent(col);
    assert col[0..] == col;
    assert Elems(col) * Elems(row) == Elems(row);
    DistinctCard(row);
  }

  // The ESTLAND stage

  lemma {:induction false} EstlandCount(col: seq<Digit>, row: seq<Digit>, i: nat, idx: nat, cells: seq<Cell>)
    requires idx <= |EstlandLetters|
    ensures EstlandFrom(col, row, i, idx, cells).Ok? ==> idx + |NonRowFrom(col, row, i)| <= |EstlandLetters|
    decreases |col| - i
  {
    if i < |col| {
      if col[i] in row {
        EstlandCount(col, row, i + 1, idx, cells);
        assert NonRowFrom(col, row, i) == NonRowFrom(col, row, i + 1);
      } else if idx < |EstlandLetters| && Add(cells, [col[i]], EstlandLetters[idx]).Ok? {
        var next := Add(cells, [col[i]], EstlandLetters[idx]).value;
        EstlandCount(col, row, i + 1, idx + 1, next);
        assert EstlandFrom(col, row, i, idx, cells) == EstlandFrom(col, row, i + 1, idx + 1, next);
        assert |NonRowFrom(col, row, i)| == 1 + |NonRowFrom(col, row, i + 1)|;
      }
    }
  }

  /** The entries of the ESTLAND stage so far: one-digit codes of column digits before position `i`. */
  predicate EarlierColumns(col: seq<Digit>, i: nat, cells: seq<Cell>)
    requires i <= |col|
  {
    forall k :: 0 <= k < |cells| ==> |cells[k].code| == 1 && cells[k].code[0] in col[..i]
  }

  lemma EstlandEntryFresh(col: seq<Digit>, i: nat, cells: seq<Cell>, symbol: char)
    requires Distinct(col) && i < |col| && EarlierColumns(col, i, cells)
    ensures Add(cells, [col[i]], symbol) == Ok(cells + [Cell([col[i]], symbol)])
    ensures EarlierColumns(col, i + 1, cells + [Cell([col[i]], symbol)])
    ensures EarlierColumns(col, i + 1, cells)
  {
    assert col[..i + 1] == col[..i] + [col[i]];
    forall k | 0 <= k < |cells|
      ensures cells[k].code != [col[i]]
    {
      var p :| 0 <= p < i && col[p] == cells[k].code[0];
    }
  }

  lemma EstlandCellsCons(cells: seq<Cell>, d: Digit, ds: seq<Digit>, idx: nat)
    requires idx + 1 + |ds| <= |EstlandLetters|
    ensures cells + [Cell([d], EstlandLetters[idx])] + EstlandCells(ds, idx + 1) == cells + EstlandCells([d] + ds, idx)
  {
    assert ([d] + ds)[1..] == ds;
  }

  lemma {:induction false} EstlandValid(col: seq<Digit>, row: seq<Digit>, i: nat, idx: nat, cells: seq<Cell>)
    requires Distinct(col) && i <= |col| && idx + |NonRowFrom(col, row, i)| <= |EstlandLetters|
    requires EarlierColumns(col, i, cells)
    ensures EstlandFrom(col, row, i, idx, cells) == Ok(cells + EstlandCells(NonRowFrom(col, row, i), idx))
    decreases |col| - i
  {
    if i < |col| {
      EstlandEntryFresh(col, i, cells, if idx < |EstlandLetters| then EstlandLetters[idx] else 'E');
      if col[i] in row {
        EstlandValid(col, row, i + 1, idx, cells);
        assert NonRowFrom(col, row, i) == NonRowFrom(col, row, i + 1);
      } else {
        assert NonRowFrom(col, row, i) == [col[i]] + NonRowFrom(col, row, i + 1);
        var next := cells + [Cell([col[i]], EstlandLetters[idx])];
        EstlandValid(col, row, i + 1, idx + 1, next);
        EstlandCellsCons(cells, col[i], NonRowFrom(col, row, i + 1), idx);
      }
    } else {
      assert cells + [] == cells;
    }
  }

  // The letters stage

  lemma LetterCellsAppend(col: seq<Digit>, row: seq<Digit>, ls: string, c: char)
    requires |col| == 10 && |row| == 3 && |ls| < 29
    ensures LetterCells(col, row, ls + [c]) == LetterCells(col, row, ls) + [Cell([row[CellRow(|ls|)], col[CellColumn(|ls|)]], c)]
  {
  }

  lemma LetterCodeFresh(col: seq<Digit>, row: seq<Digit>, estland: seq<Cell>, ls: string)
    requires ValidKeys(col, row) && |ls| < 29
    requires forall k :: 0 <= k < |estland| ==> |estland[k].code| == 1
    ensures [row[CellRow(|ls|)], col[CellColumn(|ls|)]] !in Codes(estland + LetterCells(col, row, ls))
  {
    var cells := estland + LetterCells(col, row, ls);
    forall k | |estland| <= k < |cells|
      ensures cells[k].code != [row[CellRow(|ls|)], col[CellColumn(|ls|)]]
    {
      var j := k - |estland|;
      assert cells[k].code == [row[CellRow(j)], col[CellColumn(j)]];
    }
  }

  /** The ESTLAND entries a successful first stage leaves behind. */
  predicate EstlandPart(estland: seq<Cell>) {
    Symbols(estland) == EstlandLetters && forall k :: 0 <= k < |estland| ==> |estland[k].code| == 1
  }

  lemma LetterSymbols(col: seq<Digit>, row: seq<Digit>, estland: seq<Cell>, ls: string)
    requires |col| == 10 && |row| == 3 && |ls| < 30
    ensures Symbols(estland + LetterCells(col, row, ls)) == Symbols(estland) + ls
  {
  }

  /** One iteration of the letters loop, from the counters after the row check. */
  lemma LettersStep(col: seq<Digit>, row: seq<Digit>, a: int, r: nat, c: nat, r': nat, c': nat, cells: seq<Cell>)
    requires 65 <= a <= 90
    requires r' == (if c >= |col| then r + 1 else r) && c' == (if c >= |col| then 0 else c)
    ensures a as char in Symbols(cells) ==>
      LettersFrom(col, row, a, r, c, cells) == LettersFrom(col, row, a + 1, r', c', cells)
    ensures a as char !in Symbols(cells) && r' < |row| && c' < |col| && [row[r'], col[c']] !in Codes(cells) ==>
      LettersFrom(col, row, a, r, c, cells)
        == LettersFrom(col, row, a + 1, r', c' + 1, cells + [Cell([row[r'], col[c']], a as char)])
  {
  }

  /** The entries of the letters stage before ASCII code `a`: the ESTLAND entries, then the other letters below `a`. */
  function LettersSoFar(col: seq<Digit>, row: seq<Digit>, estland: seq<Cell>, a: int): seq<Cell>
    requires |col| == 10 && |row| == 3 && 65 <= a <= 91
  {
    estland + LetterCells(col, row, OtherLettersBelow(a))
  }

  /** One iteration of the letters loop keeps the entries and counters in step with the layout. */
  lemma LettersAdvance(col: seq<Digit>, row: seq<Digit>, a: int, r: nat, c: nat, estland: seq<Cell>) returns (r2: nat, c2: nat)
    requires ValidKeys(col, row) && 65 <= a <= 90 && EstlandPart(estland)
    requires r * 10 + c == |OtherLettersBelow(a)| && c <= 10
    ensures r2 * 10 + c2 == |OtherLettersBelow(a + 1)| && c2 <= 10
    ensures LettersFrom(col, row, a, r, c, LettersSoFar(col, row, estland, a))
      == LettersFrom(col, row, a + 1, r2, c2, LettersSoFar(col, row, estland, a + 1))
  {
    var ls := OtherLettersBelow(a);
    var cells := LettersSoFar(col, row, estland, a);
    OtherLettersRange(a);
    var r' := if c >= |col| then r + 1 else r;
    var c' := if c >= |col| then 0 else c;
    assert r' == CellRow(|ls|) && c' == CellColumn(|ls|);
    LettersStep(col, row, a, r, c, r', c', cells);
    EstlandLetterIn(a as char);
    if IsEstlandLetter(a as char) {
      assert OtherLettersBelow(a + 1) == ls;
      LetterSymbols(col, row, estland, ls);
      assert a as char in Symbols(cells);
      r2, c2 := r', c';
    } else {
      assert OtherLettersBelow(a + 1) == ls + [a as char];
      OtherLettersPrefix(a + 1, 91);
      OtherLettersCount();
      LettersTake(col, row, estland, ls, a as char);
      r2, c2 := r', c' + 1;
    }
  }

  /** A letter not yet on the board takes the next free row and column. */
  lemma LettersTake(col: seq<Digit>, row: seq<Digit>, estland: seq<Cell>, ls: string, x: char)
    requires ValidKeys(col, row) && EstlandPart(estland) && |ls| < 19
    requires x !in EstlandLetters && forall k :: 0 <= k < |ls| ==> ls[k] < x
    ensures var cells := estland + LetterCells(col, row, ls);
      && x !in Symbols(cells)
      && [row[CellRow(|ls|)], col[CellColumn(|ls|)]] !in Codes(cells)
      && cells + [Cell([row[CellRow(|ls|)], col[CellColumn(|ls|)]], x)] == estland + LetterCells(col, row, ls + [x])
  {
    LetterSymbols(col, row, estland, ls);
    LetterCodeFresh(col, row, estland, ls);
    LetterCellsAppend(col, row, ls, x);
    var cell := Cell([row[CellRow(|ls|)], col[CellColumn(|ls|)]], x);
    assert (estland + LetterCells(col, row, ls)) + [cell] == estland + (LetterCells(col, row, ls) + [cell]);
  }

  lemma {:induction false} LettersValid(col: seq<Digit>, row: seq<Digit>, a: int, r: nat, c: nat, estland: seq<Cell>)
    requires ValidKeys(col, row) && 65 <= a <= 91 && EstlandPart(estland)
    requires r * 10 + c == |OtherLettersBelow(a)| && c <= 10
    ensures LettersFrom(col, row, a, r, c, LettersSoFar(col, row, estland, a)) == Ok((LettersSoFar(col, row, estland, 91), 1))
    decreases 91 - a
  {
    if a <= 90 {
      var r2, c2 := LettersAdvance(col, row, a, r, c, estland);
      LettersValid(col, row, a + 1, r2, c2, estland);
    } else {
      OtherLettersCount();
      assert r == 1;
    }
  }

  // The digits stage

  lemma {:induction false} DigitsValid(col: seq<Digit>, row: seq<Digit>, m: nat, cells: seq<Cell>)
    requires ValidKeys(col, row) && m <= 10
    requires forall k :: 0 <= k < |cells| ==> |cells[k].code| != 2 || cells[k].code[0] != row[2]
    ensures DigitsFrom(col, row, 2, m, cells + DigitCells(col, row, 2, m)) == Ok(cells + DigitCells(col, row, 2, 10))
    decreases 10 - m
  {
    if m < 10 {
      var cur := cells + DigitCells(col, row, 2, m);
      assert [row[2], col[m]] !in Codes(cur) by {
        forall k | |cells| <= k < |cur|
          ensures cur[k].code != [row[2], col[m]]
        {
          assert cur[k].code == [row[2], col[k - |cells|]];
        }
      }
      assert cur + [Cell([row[2], col[m]], DigitSymbol(m))] == cells + DigitCells(col, row, 2, m + 1);
      DigitsValid(col, row, m + 1, cells);
    }
  }

  lemma {:induction false} DigitsShape(col: seq<Digit>, row: seq<Digit>, r: nat, m: nat, base: seq<Cell>)
    requires |col| == 10 && r < |row| && m <= 10
    ensures var out := DigitsFrom(col, row, r, m, base + DigitCells(col, row, r, m));
      out.Ok? ==> out.value == base + DigitCells(col, row, r, 10)
    decreases 10 - m
  {
    if m < 10 {
      assert base + DigitCells(col, row, r, m) + [Cell([row[r], col[m]], DigitSymbol(m))]
        == base + DigitCells(col, row, r, m + 1);
      DigitsShape(col, row, r, m + 1, base);
    }
  }

  // The whole constructor

  lemma EstlandCellsPart(ds: seq<Digit>)
    requires |ds| == |EstlandLetters|
    ensures EstlandPart(EstlandCells(ds, 0))
  {
    var estland := EstlandCells(ds, 0);
    EstlandCellsAt(ds, 0);
    forall k | 0 <= k < |EstlandLetters|
      ensures Symbols(estland)[k] == EstlandLetters[k]
    {
      assert estland[k] == Cell([ds[k]], EstlandLetters[0 + k]);
    }
    assert Symbols(estland) == EstlandLetters;
  }

  /** The constructor's result from the results of its three stages. */
  lemma BuiltStages(col: seq<Digit>, row: seq<Digit>, estland: seq<Cell>, letters: seq<Cell>, r: nat, cells: seq<Cell>)
    requires |col| == 10 && |row| == 3
    requires EstlandFrom(col, row, 0, 0, []) == Ok(estland)
    requires LettersFrom(col, row, 65, 0, 0, estland) == Ok((letters, r))
    requires DigitsFrom(col, row, r + 1, 0, letters) == Ok(cells)
    ensures Built(col, row) == Ok(Checkerboard(col, row, cells))
  {
  }

  lemma EstlandStage(col: seq<Digit>, row: seq<Digit>) returns (estland: seq<Cell>)
    requires ValidKeys(col, row)
    ensures |NonRowFrom(col, row, 0)| == 7
    ensures estland == EstlandCells(NonRowFrom(col, row, 0), 0)
    ensures EstlandFrom(col, row, 0, 0, []) == Ok(estland) && EstlandPart(estland)
  {
    NonRowCount(col, row);
    EstlandValid(col, row, 0, 0, []);
    estland := EstlandCells(NonRowFrom(col, row, 0), 0);
    assert [] + estland == estland;
    EstlandCellsPart(NonRowFrom(col, row, 0));
  }

  lemma DigitsStage(col: seq<Digit>, row: seq<Digit>, estland: seq<Cell>)
    requires ValidKeys(col, row) && EstlandPart(estland)
    ensures var letters := LettersSoFar(col, row, estland, 91);
      DigitsFrom(col, row, 2, 0, letters) == Ok(letters + DigitCells(col, row, 2, 10))
  {
    var letters := LettersSoFar(col, row, estland, 91);
    OtherLettersCount();
    forall k | 0 <= k < |letters| && |letters[k].code| == 2
      ensures letters[k].code[0] != row[2]
    {
      var j := k - |estland|;
      assert letters[k].code == [row[CellRow(j)], col[CellColumn(j)]];
    }
    DigitsValid(col, row, 0, letters);
    assert letters + DigitCells(col, row, 2, 0) == letters;
  }

  /** With valid keys the constructor lays out the board shown in the class comment of the source. */
  lemma BuiltLayout(col: seq<Digit>, row: seq<Digit>)
    requires ValidKeys(col, row)
    ensures |NonRowFrom(col, row, 0)| == 7
    ensures Built(col, row) == Ok(Checkerboard(col, row, Layout(col, row)))
  {
    var estland := EstlandStage(col, row);
    assert LettersSoFar(col, row, estland, 65) == estland;
    LettersValid(col, row, 65, 0, 0, estland);
    DigitsStage(col, row, estland);
    BuiltStages(col, row, estland, LettersSoFar(col, row, estland, 91), 1, Layout(col, row));
  }

  /** A completed digit row holds ten distinct codes, so the column digits are distinct. */
  lemma BuiltColumnsDistinct(col: seq<Digit>, row: seq<Digit>)
    requires Built(col, row).Ok?
    ensures |col| == 10 && |row| == 3 && Distinct(col)
  {
    var b := Built(col, row).value;
    var estland := EstlandFrom(col, row, 0, 0, []).value;
    var letters := LettersFrom(col, row, 65, 0, 0, estland).value;
    var r := letters.1 + 1;
    assert DigitsFrom(col, row, r, 0, letters.0) == Ok(b.cells);
    assert r < |row|;
    DigitsShape(col, row, r, 0, letters.0);
    assert letters.0 + DigitCells(col, row, r, 0) == letters.0;
    BuiltDecodable(col, row);
    forall m, n | 0 <= m < n < 10
      ensures col[m] != col[n]
    {
      assert Codes(b.cells)[|letters.0| + m] != Codes(b.cells)[|letters.0| + n];
    }
  }

  /** At most seven column digits may be no row digits, so the three row digits are distinct. */
  lemma BuiltRowsDistinct(col: seq<Digit>, row: seq<Digit>)
    requires Built(col, row).Ok? && |col| == 10 && |row| == 3 && Distinct(col)
    ensures Distinct(row)
  {
    assert EstlandFrom(col, row, 0, 0, []).Ok?;
    EstlandCount(col, row, 0, 0, []);
    FilterCounts(col, row, 0);
    AllDigitsPresent(col);
    assert col[0..] == col;
    assert Elems(col) * Elems(row) == Elems(row);
    if !Distinct(row) {
      RepeatCard(row);
    }
  }

  /** The constructor succeeds exactly for ten distinct column digits and three distinct row digits. */
  lemma BuiltIffValid(col: seq<Digit>, row: seq<Digit>)
    ensures Built(col, row).Ok? <==> ValidKeys(col, row)
  {
    if ValidKeys(col, row) {
      BuiltLayout(col, row);
    } else if Built(col, row).Ok? {
      BuiltColumnsDistinct(col, row);
      BuiltRowsDistinct(col, row);
    }
  }

  // ---------------------------------------------------------------------------------------------
  // The codes of the laid-out board, and the length of an encoding

  /** The code of a symbol is that of its first entry. */
  lemma {:induction false} CodeOfAt(cells: seq<Cell>, k: nat, c: char)
    requires k < |cells| && cells[k].symbol == c
    requires forall j :: 0 <= j < k ==> cells[j].symbol != c
    ensures CodeOf(cells, c) == cells[k].code
  {
    if k > 0 {
      CodeOfAt(cells[1..], k - 1, c);
    }
  }

  /** A symbol entered in `a` keeps its code when entries are appended. */
  lemma {:induction false} CodeOfBefore(a: seq<Cell>, b: seq<Cell>, c: char)
    requires c in Symbols(a)
    ensures CodeOf(a + b, c) == CodeOf(a, c)
  {
    if a[0].symbol != c {
      assert (a + b)[1..] == a[1..] + b;
      assert Symbols(a) == [a[0].symbol] + Symbols(a[1..]);
      CodeOfBefore(a[1..], b, c);
    }
  }

  /** A symbol not entered in `a` has its code from the entries after `a`. */
  lemma {:induction false} CodeOfAfter(a: seq<Cell>, b: seq<Cell>, c: char)
    requires c !in Symbols(a)
    ensures CodeOf(a + b, c) == CodeOf(b, c)
  {
    if a != [] {
      assert (a + b)[1..] == a[1..] + b;
      assert Symbols(a) == [a[0].symbol] + Symbols(a[1..]);
      CodeOfAfter(a[1..], b, c);
    } else {
      assert a + b == b;
    }
  }

  /** On a board of valid keys the `k`-th letter of "ESTLAND" is coded by the `k`-th column digit that is no row digit. */
  lemma LayoutEstlandCode(col: seq<Digit>, row: seq<Digit>, k: nat)
    requires ValidKeys(col, row) && k < |EstlandLetters|
    ensures |NonRowFrom(col, row, 0)| == 7
    ensures CodeOf(Layout(col, row), EstlandLetters[k]) == [NonRowFrom(col, row, 0)[k]]
  {
    NonRowCount(col, row);
    var nr := NonRowFrom(col, row, 0);
    var e := EstlandCells(nr, 0);
    var lt := LetterCells(col, row, OtherLettersBelow(91));
    var c := EstlandLetters[k];
    OtherLettersCount();
    EstlandCellsAt(nr, 0);
    EstlandCellsPart(nr);
    LetterSymbols(col, row, e, OtherLettersBelow(91));
    assert c == Symbols(e)[k];
    CodeOfBefore(e + lt, DigitCells(col, row, 2, 10), c);
    CodeOfBefore(e, lt, c);
    forall j | 0 <= j < k
      ensures e[j].symbol != c
    {
      assert e[j].symbol == Symbols(e)[j];
      EstlandLettersDistinct(j, k);
    }
    CodeOfAt(e, k, c);
  }

  lemma EstlandLettersDistinct(i: nat, j: nat)
    requires i < j < |EstlandLetters|
    ensures EstlandLetters[i] != EstlandLetters[j]
  {
  }

  /** On a board of valid keys the `j`-th other letter is coded by row digit `j / 10` and column digit `j % 10`. */
  lemma LayoutLetterCode(col: seq<Digit>, row: seq<Digit>, j: nat)
    requires ValidKeys(col, row) && j < 19
    ensures |NonRowFrom(col, row, 0)| == 7 && |OtherLettersBelow(91)| == 19
    ensures CodeOf(Layout(col, row), OtherLettersBelow(91)[j]) == [row[j / 10], col[j % 10]]
  {
    NonRowCount(col, row);
    OtherLettersCount();
    var ls := OtherLettersBelow(91);
    var e := EstlandCells(NonRowFrom(col, row, 0), 0);
    var lt := LetterCells(col, row, ls);
    var c := ls[j];
    EstlandCellsPart(NonRowFrom(col, row, 0));
    LetterSymbols(col, row, e, ls);
    OtherLettersRange(91);
    EstlandLetterIn(c);
    OtherLettersAscending(91);
    assert c == Symbols(e + lt)[7 + j];
    CodeOfBefore(e + lt, DigitCells(col, row, 2, 10), c);
    CodeOfAfter(e, lt, c);
    forall i | 0 <= i < j
      ensures lt[i].symbol != c
    {
      assert lt[i].symbol == ls[i] < ls[j];
    }
    CodeOfAt(lt, j, c);
    assert CellRow(j) == j / 10 && CellColumn(j) == j % 10;
  }

  /** How many letters of "ESTLAND" a text holds. */
  function CountEstland(t: string): (n: nat)
    ensures n <= |t|
  {
    if t == [] then 0 else (if IsEstlandLetter(t[0]) then 1 else 0) + CountEstland(t[1..])
  }

  /** Each entry of the laid-out board: a one-digit code for an ESTLAND letter, two digits for any other symbol. */
  predicate CodeWidths(cells: seq<Cell>) {
    forall k :: 0 <= k < |cells| ==> |cells[k].code| == (if IsEstlandLetter(cells[k].symbol) then 1 else 2)
  }

  lemma LayoutCodeWidths(col: seq<Digit>, row: seq<Digit>)
    requires ValidKeys(col, row)
    ensures |NonRowFrom(col, row, 0)| == 7
    ensures CodeWidths(Layout(col, row))
  {
    NonRowCount(col, row);
    OtherLettersCount();
    var nr := NonRowFrom(col, row, 0);
    var ls := OtherLettersBelow(91);
    var e := EstlandCells(nr, 0);
    var lt := LetterCells(col, row, ls);
    var d := DigitCells(col, row, 2, 10);
    EstlandCellsAt(nr, 0);
    OtherLettersRange(91);
    forall k | 0 <= k < |e| ensures |e[k].code| == 1 && IsEstlandLetter(e[k].symbol) {
      EstlandLetterIn(EstlandLetters[k]);
    }
    assert CodeWidths(e);
    assert CodeWidths(lt);
    forall k | 0 <= k < |d| ensures !IsEstlandLetter(d[k].symbol) {
      assert IsDecimalDigitChar(DigitSymbol(k));
    }
    assert CodeWidths(d);
    assert Layout(col, row) == e + lt + d;
  }

  /** The code of a symbol on the board is the code of an entry holding it. */
  lemma {:induction false} CodeOfEntry(cells: seq<Cell>, c: char) returns (k: nat)
    requires c in Symbols(cells)
    ensures k < |cells| && cells[k].symbol == c && cells[k].code == CodeOf(cells, c)
  {
    if cells[0].symbol != c {
      assert Symbols(cells) == [cells[0].symbol] + Symbols(cells[1..]);
      k := CodeOfEntry(cells[1..], c);
      k := k + 1;
    } else {
      k := 0;
    }
  }

  lemma {:induction false} EncodeSymbolsLength(cells: seq<Cell>, t: string)
    requires CodeWidths(cells)
    requires forall i :: 0 <= i < |t| ==> t[i] in Symbols(cells)
    ensures |EncodeSymbols(cells, t)| == CountEstland(t) + 2 * (|t| - CountEstland(t))
  {
    if t != [] {
      var k := CodeOfEntry(cells, t[0]);
      EncodeSymbolsLength(cells, t[1..]);
    }
  }

  /** An ESTLAND letter takes one digit of the encoded series, every other letter or digit two. */
  lemma EncodeLength(col: seq<Digit>, row: seq<Digit>, s: string)
    requires Built(col, row).Ok?
    ensures var t := SupportedSymbols(Upper(s));
      |CharValuesToDigitKeys(Built(col, row).value, s)| == CountEstland(t) + 2 * (|t| - CountEstland(t))
  {
    BuiltIffValid(col, row);
    BuiltLayout(col, row);
    BuiltDecodable(col, row);
    LayoutCodeWidths(col, row);
    var b := Built(col, row).value;
    var t := SupportedSymbols(Upper(s));
    EncodeSymbolsLength(b.cells, t);
  }

  // ---------------------------------------------------------------------------------------------
  // A worked example

  /** The keys of the unit tests: the column digits are the ranks of "IHRNAHTEUC", the row digits those of "HWI". */
  lemma ExampleKeys(col: seq<Digit>, row: seq<Digit>)
    requires col == [6, 4, 8, 7, 1, 5, 9, 3, 0, 2] && row == [4, 7, 5]
    ensures ValidKeys(col, row)
  {
  }

  lemma ExampleNonRowTail(col: seq<Digit>, row: seq<Digit>)
    requires col == [6, 4, 8, 7, 1, 5, 9, 3, 0, 2] && row == [4, 7, 5]
    ensures NonRowFrom(col, row, 7) == [3, 0, 2]
  {
    assert NonRowFrom(col, row, 9) == [2];
    assert NonRowFrom(col, row, 8) == [0, 2];
  }

  lemma ExampleNonRowMiddle(col: seq<Digit>, row: seq<Digit>)
    requires col == [6, 4, 8, 7, 1, 5, 9, 3, 0, 2] && row == [4, 7, 5]
    ensures NonRowFrom(col, row, 4) == [1, 9, 3, 0, 2]
  {
    ExampleNonRowTail(col, row);
    assert NonRowFrom(col, row, 6) == [9, 3, 0, 2];
    assert NonRowFrom(col, row, 5) == [9, 3, 0, 2];
  }

  lemma ExampleNonRowHead(col: seq<Digit>, row: seq<Digit>)
    requires col == [6, 4, 8, 7, 1, 5, 9, 3, 0, 2] && row == [4, 7, 5]
    ensures NonRowFrom(col, row, 2) == [8, 1, 9, 3, 0, 2]
  {
    ExampleNonRowMiddle(col, row);
    assert NonRowFrom(col, row, 3) == [1, 9, 3, 0, 2];
  }

  lemma ExampleNonRow(col: seq<Digit>, row: seq<Digit>)
    requires col == [6, 4, 8, 7, 1, 5, 9, 3, 0, 2] && row == [4, 7, 5]
    ensures NonRowFrom(col, row, 0) == [6, 8, 1, 9, 3, 0, 2]
  {
    ExampleNonRowHead(col, row);
    assert NonRowFrom(col, row, 1) == [8, 1, 9, 3, 0, 2];
  }

  /** A text of letters and digits only is kept whole by `SupportedSymbols`. */
  lemma {:induction false} SymbolsUnchanged(s: string)
    requires forall i :: 0 <= i < |s| ==> IsSymbolChar(s[i])
    ensures SupportedSymbols(s) == s
  {
    if s != [] {
      SymbolsUnchanged(s[1..]);
    }
  }

  lemma ExampleTextSupported(s: string)
    requires s == "BEIMERSTELLEN"
    ensures SupportedSymbols(Upper(s)) == s
  {
    assert Upper(s) == s;
    SymbolsUnchanged(s);
  }

  lemma ExampleEstlandCodes(col: seq<Digit>, row: seq<Digit>)
    requires col == [6, 4, 8, 7, 1, 5, 9, 3, 0, 2] && row == [4, 7, 5]
    ensures ValidKeys(col, row) && |NonRowFrom(col, row, 0)| == 7
    ensures CodeOf(Layout(col, row), 'E') == [6] && CodeOf(Layout(col, row), 'S') == [8]
    ensures CodeOf(Layout(col, row), 'T') == [1] && CodeOf(Layout(col, row), 'L') == [9]
    ensures CodeOf(Layout(col, row), 'N') == [0]
  {
    ExampleKeys(col, row);
    ExampleNonRow(col, row);
    LayoutEstlandCode(col, row, 0);
    LayoutEstlandCode(col, row, 1);
    LayoutEstlandCode(col, row, 2);
    LayoutEstlandCode(col, row, 3);
    LayoutEstlandCode(col, row, 5);
  }

  lemma ExampleLetterCodes(col: seq<Digit>, row: seq<Digit>)
    requires col == [6, 4, 8, 7, 1, 5, 9, 3, 0, 2] && row == [4, 7, 5]
    ensures ValidKeys(col, row) && |NonRowFrom(col, row, 0)| == 7
    ensures CodeOf(Layout(col, row), 'B') == [4, 6] && CodeOf(Layout(col, row), 'I') == [4, 5]
    ensures CodeOf(Layout(col, row), 'M') == [4, 0] && CodeOf(Layout(col, row), 'R') == [7, 8]
  {
    ExampleKeys(col, row);
    ExampleLetterPositions();
    OtherLetterAt('B');
    OtherLetterAt('I');
    OtherLetterAt('M');
    OtherLetterAt('R');
    LayoutLetterCode(col, row, 0);
    LayoutLetterCode(col, row, 5);
    LayoutLetterCode(col, row, 8);
    LayoutLetterCode(col, row, 12);
  }

  lemma {:induction false} EncodeSymbolsSnoc(cells: seq<Cell>, t: string, c: char)
    ensures EncodeSymbols(cells, t + [c]) == EncodeSymbols(cells, t) + CodeOf(cells, c)
  {
    if t != [] {
      assert (t + [c])[1..] == t[1..] + [c];
      EncodeSymbolsSnoc(cells, t[1..], c);
    } else {
      assert [] + [c] == [c];
    }
  }

  lemma ExampleTextLetters(s: string)
    requires s == "BEIMERSTELLEN"
    ensures s == [] + ['B'] + ['E'] + ['I'] + ['M'] + ['E'] + ['R'] + ['S'] + ['T'] + ['E'] + ['L'] + ['L'] + ['E'] + ['N']
  {
  }

  lemma ExampleDigitGroups(ds: seq<Digit>)
    requires ds == [4, 6, 6, 4, 5, 4, 0, 6, 7, 8, 8, 1, 6, 9, 9, 6, 0]
    ensures ds == [] + [4, 6] + [6] + [4, 5] + [4, 0] + [6] + [7, 8] + [8] + [1] + [6] + [9] + [9] + [6] + [0]
  {
  }

  lemma ExampleEncoded(cells: seq<Cell>, s: string)
    requires CodeOf(cells, 'E') == [6] && CodeOf(cells, 'S') == [8] && CodeOf(cells, 'T') == [1]
    requires CodeOf(cells, 'L') == [9] && CodeOf(cells, 'N') == [0] && CodeOf(cells, 'B') == [4, 6]
    requires CodeOf(cells, 'I') == [4, 5] && CodeOf(cells, 'M') == [4, 0] && CodeOf(cells, 'R') == [7, 8]
    requires s == "BEIMERSTELLEN"
    ensures EncodeSymbols(cells, s) == [4, 6, 6, 4, 5, 4, 0, 6, 7, 8, 8, 1, 6, 9, 9, 6, 0]
  {
    ExampleTextLetters(s);
    var t: string := [];
    var ds: seq<Digit> := [];
    EncodeSymbolsSnoc(cells, t, 'B');
    t, ds := t + ['B'], ds + [4, 6];
    EncodeSymbolsSnoc(cells, t, 'E');
    t, ds := t + ['E'], ds + [6];
    EncodeSymbolsSnoc(cells, t, 'I');
    t, ds := t + ['I'], ds + [4, 5];
    EncodeSymbolsSnoc(cells, t, 'M');
    t, ds := t + ['M'], ds + [4, 0];
    EncodeSymbolsSnoc(cells, t, 'E');
    t, ds := t + ['E'], ds + [6];
    EncodeSymbolsSnoc(cells, t, 'R');
    t, ds := t + ['R'], ds + [7, 8];
    EncodeSymbolsSnoc(cells, t, 'S');
    t, ds := t + ['S'], ds + [8];
    EncodeSymbolsSnoc(cells, t, 'T');
    t, ds := t + ['T'], ds + [1];
    EncodeSymbolsSnoc(cells, t, 'E');
    t, ds := t + ['E'], ds + [6];
    EncodeSymbolsSnoc(cells, t, 'L');
    t, ds := t + ['L'], ds + [9];
    EncodeSymbolsSnoc(cells, t, 'L');
    t, ds := t + ['L'], ds + [9];
    EncodeSymbolsSnoc(cells, t, 'E');
    t, ds := t + ['E'], ds + [6];
    EncodeSymbolsSnoc(cells, t, 'N');
    t, ds := t + ['N'], ds + [0];
    ExampleDigitGroups([4, 6, 6, 4, 5, 4, 0, 6, 7, 8, 8, 1, 6, 9, 9, 6, 0]);
  }

  /**
   * The board of the unit tests' keys encodes the text's first two words as the first seventeen
   * digits of the expected series, and decodes those digits back to the words.
   */
  lemma CheckerboardExample(col: seq<Digit>, row: seq<Digit>, s: string)
    requires col == [6, 4, 8, 7, 1, 5, 9, 3, 0, 2] && row == [4, 7, 5] && s == "BEIMERSTELLEN"
    ensures Built(col, row).Ok?
    ensures CharValuesToDigitKeys(Built(col, row).value, s) == [4, 6, 6, 4, 5, 4, 0, 6, 7, 8, 8, 1, 6, 9, 9, 6, 0]
    ensures Decoded(Built(col, row).value, [4, 6, 6, 4, 5, 4, 0, 6, 7, 8, 8, 1, 6, 9, 9, 6, 0]) == Ok(s)
  {
    ExampleEstlandCodes(col, row);
    ExampleLetterCodes(col, row);
    BuiltLayout(col, row);
    BuiltDecodable(col, row);
    var b := Built(col, row).value;
    ExampleTextSupported(s);
    ExampleEncoded(b.cells, s);
    EncodeDecode(b, s);
  }
}
