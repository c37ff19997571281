/**
 * Decryption: the book groups unmasked into the two book positions, the intermediate steps
 * rebuilt from key A (which the recipient finds in the book at those positions), and the
 * plaintext recovered from the ciphertext.
 */
module Decryption {
  import opened Wrappers
  import opened Text
  import opened DigitSeries
  import opened ReverseTransposition
  import opened KeyMatrix
  import opened SharedCipherSteps

  /** The decryption's console input: the ciphertext, key B and the two seven-digit book groups. */
  datatype DecryptionUserInput = DecryptionUserInput(
    encryptedPlainText: seq<Digit>,
    componentB: string,
    encryptedBookGroupStart: seq<Digit>,
    encryptedBookGroupEnd: seq<Digit>)

  /** What the decryption rebuilds from key A, key B and the serial it finds in the ciphertext. */
  datatype DecryptIntermediateSteps = DecryptIntermediateSteps(
    columnKeys: seq<Digit>,
    rowKeys: seq<Digit>,
    componentD: seq<Digit>,
    splitComponentK: seq<seq<Digit>>,
    board: Checkerboard,
    componentCInsertionIndex: nat)

  // ---------------------------------------------------------------------------------------------
  // The book groups

  /**
   * The two groups joined, minus key B's word lengths resized to them, cut into the formatted
   * start and end positions (there must be fourteen digits to cut).
   */
  function DecryptedBookIndexPositions(groupStart: seq<Digit>, groupEnd: seq<Digit>, b: string): (r: Result<(seq<Digit>, seq<Digit>)>)
    ensures r.Ok? <==> |groupStart| + |groupEnd| >= 14 && |WordLengthDigits(SplitOnSpace(b))| >= 2
    ensures r.Ok? ==> |r.value.0| == 7 && |r.value.1| == 7
    ensures r.Ok? ==>
      var mask := Resized(WordLengthDigits(SplitOnSpace(b)), |groupStart| + |groupEnd|).value;
      DigitwiseMod10(r.value.0 + r.value.1, mask[..14], Add) == Ok((groupStart + groupEnd)[..14])
  {
    var combined := groupStart + groupEnd;
    var mask :- Resized(WordLengthDigits(SplitOnSpace(b)), |combined|);
    var decrypted := DigitwiseMod10(combined, mask, Subtract).value;
    if |decrypted| < 14 then Err(IndexOutOfRange)
    else
      DigitwisePrefixInverse(combined, mask, 14);
      assert decrypted[..7] + decrypted[7..14] == decrypted[..14];
      Ok((decrypted[..7], decrypted[7..14]))
  }

  // ---------------------------------------------------------------------------------------------
  // Finding the serial

  /** As written: the five digits at key A's insert position, which must lie within the ciphertext. */
  function SerialAsWritten(ct: seq<Digit>, idx: nat): Result<seq<Digit>>
  {
    if idx + 5 > |ct| then Err(IndexOutOfRange) else Ok(ct[idx..idx + 5])
  }

  /**
   * Corrected: the insert position clipped to the last five digits, where the encryption appends
   * the serial when the position is past the end of the transposed text.
   */
  function SerialPosition(ct: seq<Digit>, idx: nat): (r: Result<nat>)
    ensures r.Ok? ==> r.value + 5 <= |ct|
  {
    if |ct| < 5 then Err(IndexOutOfRange) else Ok(if idx > |ct| - 5 then |ct| - 5 else idx)
  }

  /**
   * The steps rebuilt from the decryption's input and key A: the book groups are decrypted
   * first (the recipient looks key A up with them), then the serial is read at key A's insert
   * position clipped to the ciphertext's last five digits (the corrected `SerialPosition`), and
   * the board, component D and the transposition keys are built as the encryption built them.
   */
  function DecryptSetup(input: DecryptionUserInput, a: string): Result<DecryptIntermediateSteps>
  {
    var positions :- DecryptedBookIndexPositions(input.encryptedBookGroupStart, input.encryptedBookGroupEnd, input.componentB);
    var idx :- SerialInsertPosition(a);
    var pos :- SerialPosition(input.encryptedPlainText, idx);
    SetupFromSerial(a, input.componentB, input.encryptedPlainText[pos..pos + 5], pos)
  }

  /** The board, component D and the transposition keys rebuilt from key A, key B and the serial read at `pos`. */
  function SetupFromSerial(a: string, b: string, c: seq<Digit>, pos: nat): Result<DecryptIntermediateSteps>
  {
    var keys :- ComponentADigitSeries(a);
    var board :- Built(keys.0[..10], keys.1[..3]);
    var d :- ComponentD(board, b, c);
    var k :- SplitComponentK(a, d);
    Ok(DecryptIntermediateSteps(keys.0, keys.1, d, k, board, pos))
  }

  /** As written: the same steps with the serial read at key A's insert position unclipped. */
  function DecryptSetupAsWritten(input: DecryptionUserInput, a: string): Result<DecryptIntermediateSteps>
  {
    var positions :- DecryptedBookIndexPositions(input.encryptedBookGroupStart, input.encryptedBookGroupEnd, input.componentB);
    var idx :- SerialInsertPosition(a);
    var c :- SerialAsWritten(input.encryptedPlainText, idx);
    SetupFromSerial(a, input.componentB, c, idx)
  }

  /**
   * The setup as written agrees with the corrected one whenever key A's insert position leaves
   * five digits to read, and otherwise fails where the corrected one reads the last five digits.
   */
  lemma SetupAsWrittenAgrees(input: DecryptionUserInput, a: string)
    ensures var idx := SerialInsertPosition(a);
      idx.Ok? && idx.value + 5 <= |input.encryptedPlainText| ==> DecryptSetupAsWritten(input, a) == DecryptSetup(input, a)
    ensures var idx := SerialInsertPosition(a);
      DecryptedBookIndexPositions(input.encryptedBookGroupStart, input.encryptedBookGroupEnd, input.componentB).Ok?
      && idx.Ok? && idx.value + 5 > |input.encryptedPlainText|
      ==> DecryptSetupAsWritten(input, a) == Err(IndexOutOfRange)
  {
    var ct := input.encryptedPlainText;
    var positions := DecryptedBookIndexPositions(input.encryptedBookGroupStart, input.encryptedBookGroupEnd, input.componentB);
    var sip := SerialInsertPosition(a);
    if positions.Ok? && sip.Ok? {
      var idx := sip.value;
      if idx + 5 <= |ct| {
        assert SerialPosition(ct, idx) == Ok(idx);
        assert SerialAsWritten(ct, idx) == Ok(ct[idx..idx + 5]);
        assert DecryptSetup(input, a) == SetupFromSerial(a, input.componentB, ct[idx..idx + 5], idx);
        assert DecryptSetupAsWritten(input, a) == SetupFromSerial(a, input.componentB, ct[idx..idx + 5], idx);
      } else {
        assert SerialAsWritten(ct, idx) == Err(IndexOutOfRange);
      }
    }
  }

  /** The `DecryptIntermediateSteps` constructor, key A being what the recipient types in. */
  method NewDecryptIntermediateSteps(userInput: DecryptionUserInput, componentA: string) returns (r: Result<DecryptIntermediateSteps>)
    ensures r == DecryptSetup(userInput, componentA)
  {
    var positions := DecryptedBookIndexPositions(userInput.encryptedBookGroupStart, userInput.encryptedBookGroupEnd, userInput.componentB);
    if positions.Err? {
      return Err(positions.error);
    }
    var insertionIndex := GetSerialInsertPositionFromComponentA(componentA);
    if insertionIndex.Err? {
      return Err(insertionIndex.error);
    }
    var componentCInsertionIndex := SerialPosition(userInput.encryptedPlainText, insertionIndex.value);
    if componentCInsertionIndex.Err? {
      return Err(componentCInsertionIndex.error);
    }
    var pos := componentCInsertionIndex.value;
    var componentC := userInput.encryptedPlainText[pos..pos + 5];
    var keys := ComponentADigitSeries(componentA);
    if keys.Err? {
      return Err(keys.error);
    }
    var columnKeys, rowKeys := keys.value.0, keys.value.1;
    var board := StraddlingCheckerboardKeyMatrix(columnKeys[..10], rowKeys[..3]);
    if board.Err? {
      return Err(board.error);
    }
    var componentD := CreateComponentD(board.value, userInput.componentB, componentC);
    if componentD.Err? {
      return Err(componentD.error);
    }
    var splitComponentK := CreateSplitComponentK(componentA, componentD.value);
    if splitComponentK.Err? {
      return Err(splitComponentK.error);
    }
    return Ok(DecryptIntermediateSteps(columnKeys, rowKeys, componentD.value, splitComponentK.value, board.value, pos));
  }

  // ---------------------------------------------------------------------------------------------
  // The plaintext

  /** The reverse transpositions applied one after another, the last key first. */
  function ReverseChain(t: seq<Digit>, keys: seq<seq<Digit>>): Result<seq<Digit>>
    decreases |keys|
  {
    if keys == [] then Ok(t)
    else
      var previous :- ReverseTransposed(t, keys[|keys| - 1]);
      ReverseChain(previous, keys[..|keys| - 1])
  }

  /**
   * Removes the serial, undoes the transpositions, subtracts component I resized to the text and
   * decodes the result on the board.
   */
  function DecryptedPlainText(ct: seq<Digit>, steps: DecryptIntermediateSteps): Result<string>
  {
    var pos := steps.componentCInsertionIndex;
    if pos + 5 > |ct| then Err(IndexOutOfRange)
    else
      var withoutC := ct[..pos] + ct[pos + 5..];
      var untransposed :- ReverseChain(withoutC, steps.splitComponentK);
      var i :- ComponentI(steps.columnKeys + steps.rowKeys, steps.componentD);
      var extendedI :- Resized(i, |untransposed|);
      var encoded := DigitwiseMod10(untransposed, extendedI, Subtract).value;
      Decoded(steps.board, encoded)
  }

  /** The loop of `DecryptPlainText`: the reverse transpositions from the last key down to the first. */
  method ReverseTranspositions(encryptedPlainTextWithoutComponentC: seq<Digit>, splitComponentK: seq<seq<Digit>>)
    returns (r: Result<seq<Digit>>)
    ensures r == ReverseChain(encryptedPlainTextWithoutComponentC, splitComponentK)
  {
    var keys := splitComponentK;
    var currentTranspositionState := encryptedPlainTextWithoutComponentC;
    var index := |keys| - 1;
    assert keys[..index + 1] == keys;
    while index >= 0
      invariant -1 <= index < |keys|
      invariant ReverseChain(currentTranspositionState, keys[..index + 1])
             == ReverseChain(encryptedPlainTextWithoutComponentC, keys)
    {
      assert keys[..index + 1][..index] == keys[..index];
      var tKey := keys[index];
      var next := ReverseColumnarTransposition(currentTranspositionState, tKey);
      if next.Err? {
        return Err(next.error);
      }
      currentTranspositionState := next.value;
      index := index - 1;
    }
    assert keys[..index + 1] == [];
    return Ok(currentTranspositionState);
  }

  /** The `DecryptPlainText` routine. */
  method DecryptPlainText(userInput: DecryptionUserInput, intermediateSteps: DecryptIntermediateSteps)
    returns (r: Result<string>)
    ensures r == DecryptedPlainText(userInput.encryptedPlainText, intermediateSteps)
  {
    var ct := userInput.encryptedPlainText;
    var pos := intermediateSteps.componentCInsertionIndex;
    if pos + 5 > |ct| {
      return Err(IndexOutOfRange);
    }
    var encryptedPlainTextWithoutComponentC := ct[..pos] + ct[pos + 5..];
    var currentTranspositionState := ReverseTranspositions(encryptedPlainTextWithoutComponentC, intermediateSteps.splitComponentK);
    if currentTranspositionState.Err? {
      return Err(currentTranspositionState.error);
    }
    var componentI := CreateComponentI(intermediateSteps.columnKeys + intermediateSteps.rowKeys, intermediateSteps.componentD);
    if componentI.Err? {
      return Err(componentI.error);
    }
    var extendedI := ResizeUsingLaggedFibonacciGenerator(componentI.value, |currentTranspositionState.value|);
    if extendedI.Err? {
      return Err(extendedI.error);
    }
    var modified := IndividualDigitsModulus10Calculation(currentTranspositionState.value, extendedI.value, Subtract);
    r := DigitKeysToCharValues(intermediateSteps.board, modified.value);
  }
}
