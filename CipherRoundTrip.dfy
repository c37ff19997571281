/**
 * What encryption and decryption promise each other: the recipient who decrypts the book groups,
 * finds key A in the book and decrypts the ciphertext gets the plaintext back (upper-cased, and
 * without the characters the board cannot encode).
 */
module CipherRoundTrip {
  import opened Wrappers
  import opened Text
  import opened DigitSeries
  import opened Transposition
  import opened ReverseTransposition
  import opened KeyMatrix
  import opened SharedCipherSteps
  import opened BookIndexPositions
  import opened Encryption
  import opened Decryption

  // ---------------------------------------------------------------------------------------------
  // The transpositions

  /** Reversing the transpositions from the last key down to the first undoes them. */
  lemma {:induction false} ReverseChainInverse(x: seq<Digit>, keys: seq<seq<Digit>>)
    requires forall n :: 0 <= n < |keys| ==> keys[n] != []
    ensures ReverseChain(TranspositionChain(x, keys), keys) == Ok(x)
    decreases |keys|
  {
    if keys != [] {
      var init := keys[..|keys| - 1];
      ReverseTransposedInverse(TranspositionChain(x, init), keys[|keys| - 1]);
      ReverseChainInverse(x, init);
    }
  }

  // ---------------------------------------------------------------------------------------------
  // The serial

  /**
   * The corrected position finds the five serial digits wherever the encryption put them, and
   * removing them leaves the transposed text.
   */
  lemma SerialRecovered(t: seq<Digit>, c: seq<Digit>, idx: nat)
    requires |c| == 5
    ensures var ct := SerialInserted(t, c, idx);
      && SerialPosition(ct, idx) == Ok(if idx > |t| then |t| else idx)
      && var p := SerialPosition(ct, idx).value;
      && ct[p..p + 5] == c
      && ct[..p] + ct[p + 5..] == t
  {
    SerialInsertedAt(t, c, idx);
  }

  /** As written, a serial that the encryption appended is looked for past the ciphertext's end. */
  lemma SerialAsWrittenMissesAppended(t: seq<Digit>, c: seq<Digit>, idx: nat)
    requires |c| == 5 && idx > |t|
    ensures SerialAsWritten(SerialInserted(t, c, idx), idx) == Err(IndexOutOfRange)
  {
  }

  /** As written, any serial the encryption inserted within the text is found where it was put. */
  lemma SerialAsWrittenFindsInserted(t: seq<Digit>, c: seq<Digit>, idx: nat)
    requires |c| == 5 && idx <= |t|
    ensures SerialAsWritten(SerialInserted(t, c, idx), idx) == Ok(c)
  {
    SerialInsertedAt(t, c, idx);
  }

  /** Three transposed digits and an insert position of 11: the serial is appended and then not found. */
  lemma SerialAsWrittenExample()
    ensures SerialInserted([1, 2, 3], [3, 6, 9, 5, 1], 11) == [1, 2, 3, 3, 6, 9, 5, 1]
    ensures SerialAsWritten([1, 2, 3, 3, 6, 9, 5, 1], 11).Err?
  {
  }

  // ---------------------------------------------------------------------------------------------
  // The book groups

  /** Two seven-digit groups masked with key B's word lengths are unmasked to the same two groups. */
  lemma UnmaskedGroups(x: seq<Digit>, y: seq<Digit>, b: string)
    requires |x| == 7 && |y| == 7
    requires BookGroupMask(b).Ok?
    ensures var g := DigitwiseMod10(x + y, BookGroupMask(b).value, Add).value;
      DecryptedBookIndexPositions(g[..7], g[7..], b) == Ok((x, y))
  {
    var mask := BookGroupMask(b).value;
    var g := DigitwiseMod10(x + y, mask, Add).value;
    assert g[..7] + g[7..] == g;
    DigitwiseInverse(x + y, mask);
    assert (x + y)[..7] == x && (x + y)[7..14] == y;
  }

  /** Decrypting the corrected book groups gives back both formatted positions. */
  lemma BookGroupsRoundTrip(positions: BookIndexPositions, b: string)
    requires InRange(positions.start) && InRange(positions.end)
    requires BookGroups(positions, b).Ok?
    ensures var g := BookGroups(positions, b).value;
      DecryptedBookIndexPositions(g[..7], g[7..], b) == Ok((Formatted(positions.start), Formatted(positions.end)))
  {
    FormattedLayout(positions.start);
    FormattedLayout(positions.end);
    UnmaskedGroups(Formatted(positions.start), Formatted(positions.end), b);
  }

  /**
   * As written, the book groups decrypt to the start position twice: whenever the selection ends
   * anywhere but where it starts, the recipient cannot learn where it ends.
   */
  lemma BookGroupsAsWrittenLoseEnd(positions: BookIndexPositions, b: string)
    requires InRange(positions.start) && InRange(positions.end)
    requires positions.start.line > 9 <==> positions.start.character > 9
    requires BookGroupsAsWritten(positions, b).Ok?
    ensures var g := BookGroupsAsWritten(positions, b).value;
      && DecryptedBookIndexPositions(g[..7], g[7..], b) == Ok((Formatted(positions.start), Formatted(positions.start)))
      && (positions.start != positions.end ==> Formatted(positions.start) != Formatted(positions.end))
  {
    FormattedAsWrittenLength(positions.start);
    FormattedLayout(positions.start);
    UnmaskedGroups(Formatted(positions.start), Formatted(positions.start), b);
    FormattedValue(positions.start);
    FormattedValue(positions.end);
  }

  // ---------------------------------------------------------------------------------------------
  // The plaintext

  /**
   * Given the ciphertext the encryption produced, the decryption's setup succeeds and rebuilds the
   * encryption's board, component I, transposition keys, and the serial's position.
   */
  lemma DecryptSetupAgrees(p: string, a: string, b: string, c: seq<Digit>, groupStart: seq<Digit>, groupEnd: seq<Digit>)
    requires |c| == 5
    requires Intermediate(a, b, c).Ok?
    requires EncryptedPlaintext(p, a, c, Intermediate(a, b, c).value).Ok?
    requires DecryptedBookIndexPositions(groupStart, groupEnd, b).Ok?
    ensures var steps := Intermediate(a, b, c).value;
      var ct := EncryptedPlaintext(p, a, c, steps).value;
      var setup := DecryptSetup(DecryptionUserInput(ct, b, groupStart, groupEnd), a);
      && setup.Ok?
      && setup.value.board == steps.board
      && setup.value.splitComponentK == steps.splitComponentK
      && ComponentI(setup.value.columnKeys + setup.value.rowKeys, setup.value.componentD) == Ok(steps.componentI)
      && var pos := setup.value.componentCInsertionIndex;
      && pos + 5 <= |ct|
      && ct[..pos] + ct[pos + 5..] == TranspositionChain(ModifiedEncoding(p, steps).value, steps.splitComponentK)
  {
    var steps := Intermediate(a, b, c).value;
    CiphertextSerial(p, a, c, steps);
    SetupMatches(EncryptedPlaintext(p, a, c, steps).value, a, b, c, groupStart, groupEnd);
  }

  /**
   * As written, the decryption's setup fails on the encryption's own ciphertext whenever key A's
   * insert position is past the end of the transposed text, where the corrected setup succeeds.
   */
  lemma DecryptSetupAsWrittenFails(p: string, a: string, b: string, c: seq<Digit>, groupStart: seq<Digit>, groupEnd: seq<Digit>)
    requires |c| == 5
    requires Intermediate(a, b, c).Ok?
    requires EncryptedPlaintext(p, a, c, Intermediate(a, b, c).value).Ok?
    requires DecryptedBookIndexPositions(groupStart, groupEnd, b).Ok?
    requires var steps := Intermediate(a, b, c).value;
      SerialInsertPosition(a).Ok? && ModifiedEncoding(p, steps).Ok?
      && SerialInsertPosition(a).value > |TranspositionChain(ModifiedEncoding(p, steps).value, steps.splitComponentK)|
    ensures var ct := EncryptedPlaintext(p, a, c, Intermediate(a, b, c).value).value;
      var input := DecryptionUserInput(ct, b, groupStart, groupEnd);
      && DecryptSetup(input, a).Ok?
      && DecryptSetupAsWritten(input, a) == Err(IndexOutOfRange)
  {
    var steps := Intermediate(a, b, c).value;
    var t := TranspositionChain(ModifiedEncoding(p, steps).value, steps.splitComponentK);
    var idx := SerialInsertPosition(a).value;
    var ct := EncryptedPlaintext(p, a, c, steps).value;
    assert ct == t + c;
    DecryptSetupAgrees(p, a, b, c, groupStart, groupEnd);
    SetupAsWrittenAgrees(DecryptionUserInput(ct, b, groupStart, groupEnd), a);
  }

  /**
   * Whatever the ciphertext, once the serial read from it is the encryption's, the decryption
   * rebuilds the encryption's board, component I and transposition keys.
   */
  lemma SetupMatches(ct: seq<Digit>, a: string, b: string, c: seq<Digit>, groupStart: seq<Digit>, groupEnd: seq<Digit>)
    requires Intermediate(a, b, c).Ok?
    requires DecryptedBookIndexPositions(groupStart, groupEnd, b).Ok?
    requires SerialInsertPosition(a).Ok?
    requires SerialPosition(ct, SerialInsertPosition(a).value).Ok?
    requires var pos := SerialPosition(ct, SerialInsertPosition(a).value).value; ct[pos..pos + 5] == c
    ensures var setup := DecryptSetup(DecryptionUserInput(ct, b, groupStart, groupEnd), a);
      var steps := Intermediate(a, b, c).value;
      && setup.Ok?
      && setup.value.board == steps.board
      && setup.value.splitComponentK == steps.splitComponentK
      && ComponentI(setup.value.columnKeys + setup.value.rowKeys, setup.value.componentD) == Ok(steps.componentI)
      && setup.value.componentCInsertionIndex == SerialPosition(ct, SerialInsertPosition(a).value).value
  {
    var pos := SerialPosition(ct, SerialInsertPosition(a).value).value;
    assert DecryptSetup(DecryptionUserInput(ct, b, groupStart, groupEnd), a) == SetupFromSerial(a, b, c, pos);
    var keys := ComponentADigitSeries(a).value;
    assert keys.0[..10] == keys.0;
    var board := Built(keys.0, keys.1[..3]).value;
    assert Intermediate(a, b, c).value.board == board;
  }

  /** The serial sits at the corrected position in the ciphertext, between the two parts of the transposed text. */
  lemma CiphertextSerial(p: string, a: string, c: seq<Digit>, steps: IntermediateSteps)
    requires |c| == 5
    requires EncryptedPlaintext(p, a, c, steps).Ok?
    ensures SerialInsertPosition(a).Ok? && ModifiedEncoding(p, steps).Ok?
    ensures var ct := EncryptedPlaintext(p, a, c, steps).value;
      var found := SerialPosition(ct, SerialInsertPosition(a).value);
      && found.Ok?
      && ct[found.value..found.value + 5] == c
      && ct[..found.value] + ct[found.value + 5..] == TranspositionChain(ModifiedEncoding(p, steps).value, steps.splitComponentK)
  {
    var t := TranspositionChain(ModifiedEncoding(p, steps).value, steps.splitComponentK);
    var idx := SerialInsertPosition(a).value;
    assert EncryptedPlaintext(p, a, c, steps).value == SerialInserted(t, c, idx);
    SerialRecovered(t, c, idx);
  }

  /** The decryption's last steps undo the encryption's first: subtracting I and decoding gives the plaintext. */
  lemma ModifiedEncodingUndone(p: string, steps: IntermediateSteps)
    requires Decodable(steps.board)
    requires ModifiedEncoding(p, steps).Ok?
    ensures var modified := ModifiedEncoding(p, steps).value;
      && Resized(steps.componentI, |modified|).Ok?
      && Decoded(steps.board, DigitwiseMod10(modified, Resized(steps.componentI, |modified|).value, Subtract).value)
         == Ok(SupportedSymbols(Upper(p)))
  {
    var encoded := CharValuesToDigitKeys(steps.board, p);
    var extendedI := Resized(steps.componentI, |encoded|).value;
    DigitwiseInverse(encoded, extendedI);
    EncodeDecode(steps.board, p);
  }

  /**
   * Decrypting the ciphertext with the setup rebuilt from the same keys and serial gives back the
   * plaintext, upper-cased and without the characters the board cannot encode.
   */
  lemma DecryptsEncryptedPlaintext(p: string, a: string, b: string, c: seq<Digit>, groupStart: seq<Digit>, groupEnd: seq<Digit>)
    requires |c| == 5
    requires Intermediate(a, b, c).Ok?
    requires EncryptedPlaintext(p, a, c, Intermediate(a, b, c).value).Ok?
    requires DecryptedBookIndexPositions(groupStart, groupEnd, b).Ok?
    ensures var ct := EncryptedPlaintext(p, a, c, Intermediate(a, b, c).value).value;
      var setup := DecryptSetup(DecryptionUserInput(ct, b, groupStart, groupEnd), a);
      && setup.Ok?
      && DecryptedPlainText(ct, setup.value) == Ok(SupportedSymbols(Upper(p)))
  {
    var steps := Intermediate(a, b, c).value;
    IntermediateShape(a, b, c);
    DecryptSetupAgrees(p, a, b, c, groupStart, groupEnd);
    var modified := ModifiedEncoding(p, steps).value;
    ReverseChainInverse(modified, steps.splitComponentK);
    ModifiedEncodingUndone(p, steps);
  }

  /**
   * The whole exchange: for in-range book positions and a five-digit serial, whatever the
   * encryption outputs, the decryption of its book groups gives both positions back and the
   * decryption of its ciphertext gives the plaintext back.
   */
  lemma EncryptedDecrypts(input: EncryptionUserInput)
    requires |input.componentC| == 5
    requires InRange(input.bookIndexPositions.start) && InRange(input.bookIndexPositions.end)
    requires Encrypted(input).Ok?
    ensures var groups := BookGroups(input.bookIndexPositions, input.componentB).value;
      var received := DecryptionUserInput(Encrypted(input).value.0, input.componentB, groups[..7], groups[7..]);
      && DecryptedBookIndexPositions(groups[..7], groups[7..], input.componentB)
         == Ok((Formatted(input.bookIndexPositions.start), Formatted(input.bookIndexPositions.end)))
      && DecryptSetup(received, input.componentA).Ok?
      && DecryptedPlainText(received.encryptedPlainText, DecryptSetup(received, input.componentA).value)
         == Ok(SupportedSymbols(Upper(input.plainText)))
  {
    var groups := BookGroups(input.bookIndexPositions, input.componentB).value;
    BookGroupsRoundTrip(input.bookIndexPositions, input.componentB);
    DecryptsEncryptedPlaintext(input.plainText, input.componentA, input.componentB, input.componentC, groups[..7], groups[7..]);
  }
}
