/**
 * Encryption: the intermediate steps derived from keys A and B and the serial C, the ciphertext
 * of a plaintext, and the encrypted book groups that tell the recipient where key A is in the book.
 */
module Encryption {
  import opened Wrappers
  import opened Text
  import opened DigitSeries
  import opened Transposition
  import opened ReverseTransposition
  import opened KeyMatrix
  import opened SharedCipherSteps
  import opened BookIndexPositions

  /** The encryption's console input, once the console has checked and scrubbed it. */
  datatype EncryptionUserInput = EncryptionUserInput(
    plainText: string,
    componentA: string,
    bookIndexPositions: BookIndexPositions,
    componentB: string,
    componentC: seq<Digit>)

  /** What the encryption derives from the keys before it touches the plaintext. */
  datatype IntermediateSteps = IntermediateSteps(board: Checkerboard, componentI: seq<Digit>, splitComponentK: seq<seq<Digit>>)

  // ---------------------------------------------------------------------------------------------
  // The intermediate steps

  /**
   * The board from key A's first ten ranked digits and the first three of the rest; component D
   * from key B and the serial; component I from all of key A's ranked digits and D; the
   * transposition keys from key A and D.
   */
  function Intermediate(a: string, b: string, c: seq<Digit>): Result<IntermediateSteps>
  {
    var keys :- ComponentADigitSeries(a);
    var board :- Built(keys.0, keys.1[..3]);
    var d :- ComponentD(board, b, c);
    var i :- ComponentI(keys.0 + keys.1, d);
    var k :- SplitComponentK(a, d);
    Ok(IntermediateSteps(board, i, k))
  }

  /** The `IntermediateSteps` constructor, building each part with the routine the source calls. */
  method NewIntermediateSteps(encryptionUserInput: EncryptionUserInput) returns (r: Result<IntermediateSteps>)
    ensures r == Intermediate(encryptionUserInput.componentA, encryptionUserInput.componentB, encryptionUserInput.componentC)
  {
    var keys := ComponentADigitSeries(encryptionUserInput.componentA);
    if keys.Err? {
      return Err(keys.error);
    }
    var columnKeys, rowKeys := keys.value.0, keys.value.1;
    var board := StraddlingCheckerboardKeyMatrix(columnKeys, rowKeys[..3]);
    if board.Err? {
      return Err(board.error);
    }
    var componentD := CreateComponentD(board.value, encryptionUserInput.componentB, encryptionUserInput.componentC);
    if componentD.Err? {
      return Err(componentD.error);
    }
    var componentI := CreateComponentI(columnKeys + rowKeys, componentD.value);
    if componentI.Err? {
      return Err(componentI.error);
    }
    var splitComponentK := CreateSplitComponentK(encryptionUserInput.componentA, componentD.value);
    if splitComponentK.Err? {
      return Err(splitComponentK.error);
    }
    return Ok(IntermediateSteps(board.value, componentI.value, splitComponentK.value));
  }

  /**
   * Key A with fewer than 13 characters besides spaces is refused. Built steps hold a board that
   * decodes what it encodes, a component I with one digit per character of key A, and
   * transposition keys of at least four digits each.
   */
  lemma IntermediateShape(a: string, b: string, c: seq<Digit>)
    ensures |RemoveSpaces(a)| < 13 ==> Intermediate(a, b, c) == Err(InvalidKeyAStructure)
    ensures Intermediate(a, b, c).Ok? ==>
      var s := Intermediate(a, b, c).value;
      && Decodable(s.board)
      && |s.componentI| == |RemoveSpaces(a)|
      && forall n :: 0 <= n < |s.splitComponentK| ==> |s.splitComponentK[n]| >= 4
  {
    if Intermediate(a, b, c).Ok? {
      var keys := ComponentADigitSeries(a).value;
      BuiltDecodable(keys.0, keys.1[..3]);
      var board := Built(keys.0, keys.1[..3]).value;
      var d := ComponentD(board, b, c).value;
      ComponentIShape(keys.0 + keys.1, d);
      SplitComponentKShape(a, d);
    }
  }

  /**
   * The board needs three distinct row digits, and nothing guarantees them: the remainder group
   * ranks modulo 10, so a remainder of eleven or more characters can repeat a digit among its
   * first three, and then the constructor fails.
   */
  lemma IntermediateNeedsDistinctRowDigits(a: string, b: string, c: seq<Digit>)
    requires ComponentADigitSeries(a).Ok?
    requires !Distinct(ComponentADigitSeries(a).value.1[..3])
    ensures Intermediate(a, b, c).Err?
  {
    var keys := ComponentADigitSeries(a).value;
    BuiltIffValid(keys.0, keys.1[..3]);
  }

  // ---------------------------------------------------------------------------------------------
  // The ciphertext

  /** The transpositions applied one after another, the first key first. */
  function TranspositionChain(x: seq<Digit>, keys: seq<seq<Digit>>): seq<Digit>
  {
    if keys == [] then x else Transposed(TranspositionChain(x, keys[..|keys| - 1]), keys[|keys| - 1])
  }

  /** Transpositions under nonempty keys keep the text's length. */
  lemma {:induction false} TranspositionChainLength(x: seq<Digit>, keys: seq<seq<Digit>>)
    requires forall n :: 0 <= n < |keys| ==> keys[n] != []
    ensures |TranspositionChain(x, keys)| == |x|
  {
    if keys != [] {
      TranspositionChainLength(x, keys[..|keys| - 1]);
      TransposedLength(TranspositionChain(x, keys[..|keys| - 1]), keys[|keys| - 1]);
    }
  }

  /** `Insert` of the serial at its position, or appended when the position is past the end. */
  function SerialInserted(t: seq<Digit>, c: seq<Digit>, idx: nat): seq<Digit>
  {
    if idx > |t| then t + c else t[..idx] + c + t[idx..]
  }

  /** Either way, the serial sits whole at the position clipped to the text's length, between the text's two parts. */
  lemma SerialInsertedAt(t: seq<Digit>, c: seq<Digit>, idx: nat)
    ensures var p := if idx > |t| then |t| else idx;
      && |SerialInserted(t, c, idx)| == |t| + |c|
      && SerialInserted(t, c, idx)[p..p + |c|] == c
      && SerialInserted(t, c, idx)[..p] + SerialInserted(t, c, idx)[p + |c|..] == t
  {
    var p := if idx > |t| then |t| else idx;
    var ct := SerialInserted(t, c, idx);
    assert ct == t[..p] + c + t[p..];
    assert ct[..p] == t[..p] && ct[p + |c|..] == t[p..];
  }

  /** The plaintext encoded on the board, plus component I resized to the encoding. */
  function ModifiedEncoding(p: string, steps: IntermediateSteps): Result<seq<Digit>>
  {
    var encoded := CharValuesToDigitKeys(steps.board, p);
    var extendedI :- Resized(steps.componentI, |encoded|);
    Ok(DigitwiseMod10(encoded, extendedI, Add).value)
  }

  /** The modified encoding, transposed under each key in turn, with the serial spliced in at key A's insert position. */
  function EncryptedPlaintext(p: string, a: string, c: seq<Digit>, steps: IntermediateSteps): Result<seq<Digit>>
  {
    var modified :- ModifiedEncoding(p, steps);
    var transposed := TranspositionChain(modified, steps.splitComponentK);
    var idx :- SerialInsertPosition(a);
    Ok(SerialInserted(transposed, c, idx))
  }

  /**
   * For steps built from the keys and key A with a space, the ciphertext exists and is the
   * plaintext's encoding plus the serial in length.
   */
  lemma EncryptedPlaintextShape(p: string, a: string, b: string, c: seq<Digit>)
    requires Intermediate(a, b, c).Ok? && ' ' in a
    ensures EncryptedPlaintext(p, a, c, Intermediate(a, b, c).value).Ok?
    ensures |EncryptedPlaintext(p, a, c, Intermediate(a, b, c).value).value|
         == |CharValuesToDigitKeys(Intermediate(a, b, c).value.board, p)| + |c|
  {
    var steps := Intermediate(a, b, c).value;
    IntermediateShape(a, b, c);
    SerialInsertPositionBounds(a);
    var modified := ModifiedEncoding(p, steps).value;
    TranspositionChainLength(modified, steps.splitComponentK);
    SerialInsertedAt(TranspositionChain(modified, steps.splitComponentK), c, SerialInsertPosition(a).value);
  }

  /** The `EncryptPlaintext` routine; the fold over the transposition keys is a loop. */
  method EncryptPlaintext(encryptionUserInput: EncryptionUserInput, intermediateSteps: IntermediateSteps)
    returns (r: Result<seq<Digit>>)
    ensures r == EncryptedPlaintext(encryptionUserInput.plainText, encryptionUserInput.componentA,
                                    encryptionUserInput.componentC, intermediateSteps)
  {
    var encodedPlainText := CharValuesToDigitKeys(intermediateSteps.board, encryptionUserInput.plainText);
    var extendedI := ResizeUsingLaggedFibonacciGenerator(intermediateSteps.componentI, |encodedPlainText|);
    if extendedI.Err? {
      return Err(extendedI.error);
    }
    var modifiedEncodedPlainText := IndividualDigitsModulus10Calculation(encodedPlainText, extendedI.value, Add);
    var keys := intermediateSteps.splitComponentK;
    var currentTranspositionState := modifiedEncodedPlainText.value;
    for n := 0 to |keys|
      invariant currentTranspositionState == TranspositionChain(modifiedEncodedPlainText.value, keys[..n])
    {
      assert keys[..n + 1][..n] == keys[..n];
      currentTranspositionState := ColumnarTransposition(currentTranspositionState, keys[n]);
    }
    assert keys[..|keys|] == keys;
    var compCInsertionIndex := GetSerialInsertPositionFromComponentA(encryptionUserInput.componentA);
    if compCInsertionIndex.Err? {
      return Err(compCInsertionIndex.error);
    }
    var idx := compCInsertionIndex.value;
    if idx > |currentTranspositionState| {
      return Ok(currentTranspositionState + encryptionUserInput.componentC);
    }
    return Ok(currentTranspositionState[..idx] + encryptionUserInput.componentC + currentTranspositionState[idx..]);
  }

  // ---------------------------------------------------------------------------------------------
  // The book groups

  /** The digits as text. */
  function DigitString(ds: seq<Digit>): (s: string)
    ensures |s| == |ds| && forall n :: 0 <= n < |ds| ==> s[n] == DigitChar(ds[n])
  {
    seq(|ds|, n requires 0 <= n < |ds| => DigitChar(ds[n]))
  }

  /** The digits as text with a hyphen inserted after the seventh. */
  function Hyphenated(ds: seq<Digit>): string
    requires |ds| >= 7
  {
    DigitString(ds[..7]) + "-" + DigitString(ds[7..])
  }

  /** Key B's word lengths resized by the generator to the fourteen digits of two formatted positions. */
  function BookGroupMask(b: string): Result<seq<Digit>>
  {
    Resized(WordLengthDigits(SplitOnSpace(b)), 14)
  }

  /** As written: the start position formatted twice (the end is never used), plus the mask. */
  function BookGroupsAsWritten(positions: BookIndexPositions, b: string): Result<seq<Digit>>
  {
    var mask :- BookGroupMask(b);
    var combined := FormattedAsWritten(positions.start) + FormattedAsWritten(positions.start);
    DigitwiseMod10(combined, mask, Add)
  }

  /** As written: the hyphenated book groups, which exist only when the start formats to seven digits. */
  function EncryptBookIndexPositionsAsWritten(positions: BookIndexPositions, b: string): (r: Result<string>)
    ensures r.Ok? <==> BookGroupsAsWritten(positions, b).Ok?
    ensures r.Ok? ==> |FormattedAsWritten(positions.start)| == 7
    ensures r.Ok? ==>
      var groups := BookGroupsAsWritten(positions, b).value;
      && |r.value| == 15 && r.value[7] == '-'
      && r.value[..7] == DigitString(groups[..7])
      && r.value[8..] == DigitString(groups[7..])
  {
    var groups :- BookGroupsAsWritten(positions, b);
    HyphenatedShape(groups);
    Ok(Hyphenated(groups))
  }

  /** Corrected: the start and the end position, each formatted, plus the mask. */
  function BookGroups(positions: BookIndexPositions, b: string): Result<seq<Digit>>
  {
    var mask :- BookGroupMask(b);
    var combined := Formatted(positions.start) + Formatted(positions.end);
    DigitwiseMod10(combined, mask, Add)
  }

  /** Corrected: the hyphenated book groups of the start and the end position. */
  function EncryptBookIndexPositions(positions: BookIndexPositions, b: string): (r: Result<string>)
    ensures r.Ok? <==> BookGroups(positions, b).Ok?
    ensures r.Ok? ==> |Formatted(positions.start)| + |Formatted(positions.end)| == 14
    ensures r.Ok? ==>
      var groups := BookGroups(positions, b).value;
      && |r.value| == 15 && r.value[7] == '-'
      && r.value[..7] == DigitString(groups[..7])
      && r.value[8..] == DigitString(groups[7..])
  {
    var groups :- BookGroups(positions, b);
    HyphenatedShape(groups);
    Ok(Hyphenated(groups))
  }

  /**
   * For in-range positions the book groups fail only when key B's word lengths cannot seed the
   * generator (a key B without a space of at most nine characters); otherwise they are two groups of
   * seven digits joined by a hyphen.
   */
  lemma BookGroupsShape(positions: BookIndexPositions, b: string)
    requires InRange(positions.start) && InRange(positions.end)
    ensures BookGroups(positions, b).Ok? <==> |WordLengthDigits(SplitOnSpace(b))| >= 2
    ensures BookGroups(positions, b).Ok? ==> |BookGroups(positions, b).value| == 14
    ensures ' ' in b ==> BookGroups(positions, b).Ok?
    ensures EncryptBookIndexPositions(positions, b).Ok? ==>
      var s := EncryptBookIndexPositions(positions, b).value;
      && |s| == 15 && s[7] == '-'
      && s[..7] == DigitString(BookGroups(positions, b).value[..7])
      && s[8..] == DigitString(BookGroups(positions, b).value[7..])
  {
    BookGroupsLength(positions, b);
    if BookGroups(positions, b).Ok? {
      HyphenatedShape(BookGroups(positions, b).value);
    }
  }

  /** Fourteen digits become seven digit characters, a hyphen and seven more. */
  lemma HyphenatedShape(ds: seq<Digit>)
    requires |ds| == 14
    ensures var s := Hyphenated(ds);
      && |s| == 15 && s[7] == '-'
      && s[..7] == DigitString(ds[..7])
      && s[8..] == DigitString(ds[7..])
  {
    var s := Hyphenated(ds);
    assert s == (DigitString(ds[..7]) + "-") + DigitString(ds[7..]);
  }

  lemma BookGroupsLength(positions: BookIndexPositions, b: string)
    requires InRange(positions.start) && InRange(positions.end)
    ensures BookGroups(positions, b).Ok? <==> |WordLengthDigits(SplitOnSpace(b))| >= 2
    ensures BookGroups(positions, b).Ok? ==> |BookGroups(positions, b).value| == 14
    ensures ' ' in b ==> BookGroups(positions, b).Ok?
  {
    FormattedLayout(positions.start);
    FormattedLayout(positions.end);
    WordLengthDigitsLength(SplitOnSpace(b));
    SplitOnSpaceWords(b);
    CountSpacesZero(b);
  }

  /**
   * As written, a start position whose line and character differ in their number of digits formats
   * to six or eight digits, twice that is not the mask's fourteen, and the book groups fail.
   */
  lemma BookGroupsAsWrittenMismatch(positions: BookIndexPositions, b: string)
    requires InRange(positions.start)
    requires (positions.start.line > 9) != (positions.start.character > 9)
    ensures BookGroupsAsWritten(positions, b).Err?
  {
    FormattedAsWrittenLength(positions.start);
  }

  // ---------------------------------------------------------------------------------------------
  // The whole encryption

  /**
   * The ciphertext and the hyphenated book groups for one console input, with the corrected book
   * groups (start and end, each formatted as "PPPLLCC"); `EncryptBookIndexPositionsAsWritten` is
   * the source's routine.
   */
  function Encrypted(input: EncryptionUserInput): (r: Result<(seq<Digit>, string)>)
    ensures r.Ok? ==> ' ' in input.componentA
    ensures r.Ok? ==>
      && Intermediate(input.componentA, input.componentB, input.componentC).Ok?
      && |r.value.0| == |CharValuesToDigitKeys(Intermediate(input.componentA, input.componentB, input.componentC).value.board, input.plainText)| + |input.componentC|
    ensures r.Ok? ==> |r.value.1| == 15 && r.value.1[7] == '-'
  {
    var steps :- Intermediate(input.componentA, input.componentB, input.componentC);
    var ciphertext :- EncryptedPlaintext(input.plainText, input.componentA, input.componentC, steps);
    SerialInsertPositionBounds(input.componentA);
    EncryptedPlaintextShape(input.plainText, input.componentA, input.componentB, input.componentC);
    var groups :- EncryptBookIndexPositions(input.bookIndexPositions, input.componentB);
    Ok((ciphertext, groups))
  }
}
