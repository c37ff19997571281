# HannaHandCipher in Dafny

A model of the HannaHandCipher, a console program for a book-keyed hand cipher. Its parts:

- **Straddling checkerboard.** A German CT-37 checkerboard (`StraddlingCheckerboardKeyMatrix`). Seven column digits stand alone for "ESTLAND". The other letters and the digits take a row digit followed by a column digit.
- **Digit-series operations.** The program builds its keys from:
  - a relative alphabetical index (RAI) encoding;
  - a lagged-Fibonacci resize;
  - digit-wise addition and subtraction modulo 10;
  - columnar transposition and its reverse.
- **Keys.**
  - Key A is a text selected from a book. It gives the checkerboard's keys, the transposition keys and the position of the serial.
  - Key B is a phrase. It gives component D, and its word lengths mask the book groups.
  - Key C is a five-digit serial spliced into the ciphertext.
- **Encryption.** The plaintext is encoded on the board and masked with component I. It is then transposed under each of component K's keys, and the serial is spliced in. The book positions of key A are encrypted into two seven-digit "book groups".
- **Decryption.** The book groups are unmasked. The recipient looks key A up in the book. The serial is read out of the ciphertext, the keys are rebuilt and every step is undone.

The model has the program's own structure, one Dafny module per concern:

| file | module | models |
|---|---|---|
| `Basics.dfy` | `Wrappers`, `Text` | the error results that stand for the source's exceptions; `Split(' ')`, `Replace(" ", "")`, `ToUpper`, decimal formatting |
| `AlphabeticalIndex.dfy` | `AlphabeticalIndex` | `RelativeAlphabeticalIndexEncode` |
| `DigitSeries.dfy` | `DigitSeries` | the lagged-Fibonacci resize, the mod-10 digit operations, the serial's insert position, key A's digit groups |
| `Transposition.dfy` | `Transposition` | `ColumnarTransposition` |
| `ReverseTransposition.dfy` | `ReverseTransposition` | `ReverseColumnarTransposition` and its local routines |
| `KeyMatrix.dfy` | `CheckerboardAlphabet`, `KeyMatrix` | the checkerboard's constructor, `CharValuesToDigitKeys`, `DigitKeysToCharValues` |
| `SharedCipherSteps.dfy` | `SharedCipherSteps` | `CreateSplitComponentK`, `CreateComponentD`, component I |
| `BookIndexPositions.dfy` | `BookIndexPositions` | the "PPPLLCC" format, the accepted ranges, the start-before-end check |
| `Encryption.dfy` | `Encryption` | `IntermediateSteps`, `EncryptPlaintext`, `EncryptBookIndexPositions` |
| `Decryption.dfy` | `Decryption` | `DecryptIntermediateSteps` (book groups, serial, keys), `DecryptPlainText` |
| `CipherRoundTrip.dfy` | `CipherRoundTrip` | what encryption and decryption promise each other |

How the model is written:
- Every routine that works step by step is a `method` with the source's loops. Its contract ties the result to a specification function.
- Those functions carry the properties as lemmas.
- Digit strings are `seq<Digit>` (`Digit` is 0..9), and text is `string`.
- Where the source throws, the model returns `Err`; the error conditions are the source's own.
- The checkerboard is a value (`Checkerboard`): the column keys, the row keys, and the dictionary's entries in insertion order. It is passed to the encoder, which in the source reads the board last built through a static field.

The central results:
- `CipherRoundTrip.EncryptedDecrypts`: whatever the encryption outputs for a five-digit serial and in-range book positions, the decryption of its book groups gives both positions back. Decrypting the ciphertext with the key A found there gives the plaintext back, upper-cased and without the characters the board cannot encode. This holds for the corrected formatting, book groups and serial lookup of "## Findings".
- `ReverseTransposition.ReverseTransposedInverse`: the reverse columnar transposition undoes the forward one for every nonempty key.
- `KeyMatrix.EncodeDecode`: decoding undoes encoding on every board the constructor builds (`KeyMatrix.BuiltDecodable`).
- `KeyMatrix.BuiltIffValid`: the constructor succeeds exactly for ten distinct column digits and three distinct row digits.

## Model

| member | source | states |
|---|---|---|
| Text.RemoveSpaces | HannaHandCipher/DigitSeriesOperations.cs:19 | `Replace(" ", "")`: no space is left, every other character is kept, and the text does not grow |
| Text.SplitOnSpaceWords | HannaHandCipher/DigitSeriesOperations.cs:229 | `Split(' ')` gives one word more than there are spaces, and the words joined are the text without its spaces |
| Text.DecimalDigitsValue | HannaHandCipher/Encryption.cs:89-90 | a word length written in decimal reads back as that number |
| Text.DecimalDigits | HannaHandCipher/BookIndexPositions.cs:19-40 | `ToString` of a number has one digit below 10, two below 100, three below 1000 |
| AlphabeticalIndex.RelativeAlphabeticalIndexEncode | HannaHandCipher/DigitSeriesOperations.cs:16-42 | the in-place rewrite loop yields, for each character, its 1-based position in the sorted text modulo 10, equal characters taking positions left to right |
| AlphabeticalIndex.SortedChars | HannaHandCipher/DigitSeriesOperations.cs:25-28 | the sorted characters are ordered and as many as the text's |
| AlphabeticalIndex.SortedCounts | HannaHandCipher/DigitSeriesOperations.cs:25-28 | sorting keeps every character's count: it is a permutation |
| AlphabeticalIndex.FullyRanked | HannaHandCipher/DigitSeriesOperations.cs:31-39 | after the loop over all sorted positions, every position of the text holds the digit of its rank |
| AlphabeticalIndex.RankInjective | HannaHandCipher/DigitSeriesOperations.cs:9-15 | two positions never share a rank |
| AlphabeticalIndex.RanksDistinct | HannaHandCipher/DigitSeriesOperations.cs:9-15 | a text of at most ten characters gets distinct digits |
| AlphabeticalIndex.RanksArePermutation | HannaHandCipher/DigitSeriesOperations.cs:240-244 | ten characters are encoded as a permutation of the ten digits |
| AlphabeticalIndex.RanksFollowOrder | HannaHandCipher/DigitSeriesOperations.cs:16-39 | listing all positions by character, equal characters left to right, gives each position its index in the list as rank, and the encoding writes that rank plus one modulo 10 |
| AlphabeticalIndex.SplitKeyAOneExample | HannaHandCipher.Test/UnitTests.cs:9-24 | "IHRNAHTEUC" encodes to 6487159302 |
| AlphabeticalIndex.SplitKeyATwoExample | HannaHandCipher.Test/UnitTests.cs:9-24 | "HWIEDER" encodes to 4752136 |
| AlphabeticalIndex.SplitKeyAOneEncoded | HannaHandCipher.Test/UnitTests.cs:9-24 | "IHRNAHTEUC" is key-A text, so the routine may be given it, and its contract then gives 6487159302 |
| AlphabeticalIndex.SplitKeyATwoEncoded | HannaHandCipher.Test/UnitTests.cs:9-24 | "HWIEDER" is key-A text, and the routine's contract gives 4752136 |
| AlphabeticalIndex.RaiInputNoDigits | HannaHandCipher/UserInput.cs:127-146 | key A as the console scrubs it, with spaces removed and upper-cased, holds no decimal digit for the rewrite to match |
| DigitSeries.Resized | HannaHandCipher/DigitSeriesOperations.cs:49-68 | the resize fails (the exception) exactly when the seed has fewer than two digits and is not longer than the asked length; it otherwise has the asked length, clips by taking a prefix, and extends the seed by the lagged-Fibonacci rule |
| DigitSeries.ResizedUnique | HannaHandCipher/DigitSeriesOperations.cs:59-65 | the extension is the only series of that length that starts with the seed and follows the rule |
| DigitSeries.ResizedPrefix | HannaHandCipher/DigitSeriesOperations.cs:49-68 | resizing to a shorter length gives a prefix of the longer resize |
| DigitSeries.ResizeExample | HannaHandCipher/DigitSeriesOperations.cs:59-65 | a five-digit seed extended to 31 digits gives the generator's worked digits |
| DigitSeries.ResizeUsingLaggedFibonacciGenerator | HannaHandCipher/DigitSeriesOperations.cs:49-68 | the clip, the error and the extension loop compute `Resized` |
| DigitSeries.TruncatedRemainder10 | HannaHandCipher/DigitSeriesOperations.cs:97-98 | C#'s `%` truncates toward zero: the remainder lies strictly between -10 and 10, takes the dividend's sign and differs from it by a multiple of 10 |
| DigitSeries.ApplyDigits | HannaHandCipher/DigitSeriesOperations.cs:92-100 | the sum wraps past 9 and the difference wraps below 0, so both stay digits |
| DigitSeries.DigitwiseMod10 | HannaHandCipher/DigitSeriesOperations.cs:81-104 | fails exactly for series of different lengths, otherwise keeps the length |
| DigitSeries.DigitwiseInverse | HannaHandCipher/DigitSeriesOperations.cs:81-104 | subtracting undoes adding and adding undoes subtracting |
| DigitSeries.IndividualDigitsModulus10Calculation | HannaHandCipher/DigitSeriesOperations.cs:81-104 | the length check and the loop compute `DigitwiseMod10` |
| DigitSeries.AdditionExample | HannaHandCipher.Test/UnitTests.cs:41-54 | the 31-digit series of component B plus the resized serial gives the 31 digits of component D |
| DigitSeries.SubtractionExample | HannaHandCipher.Test/UnitTests.cs:56-69 | component D minus the resized serial gives component B's series back |
| DigitSeries.SerialInsertPositionBounds | HannaHandCipher/DigitSeriesOperations.cs:227-238 | the position fails exactly for key A without a space (there is no second word) and is at most key A's letter count |
| DigitSeries.SerialInsertPositionExample | HannaHandCipher/DigitSeriesOperations.cs:227-238 | "IHR NAHT EUCH WIEDER" puts the serial at 11 |
| DigitSeries.GetSerialInsertPositionFromComponentA | HannaHandCipher/DigitSeriesOperations.cs:227-238 | the loop summing the further words computes `SerialInsertPosition` |
| DigitSeries.ComponentADigitSeries | HannaHandCipher/DigitSeriesOperations.cs:244-258 | fails exactly for fewer than 13 characters besides spaces; otherwise a ten-digit group and a group for the rest |
| DigitSeries.ComponentAColumnKeys | HannaHandCipher/DigitSeriesOperations.cs:254 | the ten-digit group holds every digit once |
| Transposition.FillColumns | HannaHandCipher/DigitSeriesOperations.cs:114-116 | column `i` collects positions `i, i + k, i + 2k, ...` |
| Transposition.SortKeysAndColumns | HannaHandCipher/DigitSeriesOperations.cs:119-133 | the insertion sort leaves keys and columns in the stable ascending order of the key |
| Transposition.StableOrderSorted | HannaHandCipher/DigitSeriesOperations.cs:119-133 | that order is sorted by key digit, ties left to right, and is a permutation of the column positions |
| Transposition.StableOrderUnique | HannaHandCipher/DigitSeriesOperations.cs:119-133 | it is the only such order |
| Transposition.ColumnarTransposition | HannaHandCipher/DigitSeriesOperations.cs:106-136 | the method computes `Transposed`: the columns read out in the stable key order |
| Transposition.TranspositionExample | HannaHandCipher.Test/UnitTests.cs:71-94 | the first seventeen digits of the test's series under the key 1394636, and that under 7353, give the digits worked out by hand |
| ReverseTransposition.TransposedLength | HannaHandCipher/DigitSeriesOperations.cs:106-136 | under a nonempty key the transposition is a permutation of the text's digits |
| ReverseTransposition.CeilingRule | HannaHandCipher/DigitSeriesOperations.cs:155 | the sequential ceiling of what is left over the columns left gives each column its row-major length |
| ReverseTransposition.GetColumnLengths | HannaHandCipher/DigitSeriesOperations.cs:150-162 | each column gets its key digit and that length |
| ReverseTransposition.SortColumns | HannaHandCipher/DigitSeriesOperations.cs:165-178 | the columns end in the stable order of their keys |
| ReverseTransposition.PopulateColumns | HannaHandCipher/DigitSeriesOperations.cs:181-191 | each column takes its length's worth from the front of what is left |
| ReverseTransposition.StableOrderBijective | HannaHandCipher/DigitSeriesOperations.cs:194-209 | the read-out order is a bijection, so every column has a place to return to |
| ReverseTransposition.ReverseKeySort | HannaHandCipher/DigitSeriesOperations.cs:194-209 | the first unmarked equal key digit puts every column back where it was sorted from |
| ReverseTransposition.TranposeMatrix | HannaHandCipher/DigitSeriesOperations.cs:212-225 | the rows are read across the columns; with no column it fails as the source's `tMatrix[0]` does |
| ReverseTransposition.ReverseTransposed | HannaHandCipher/DigitSeriesOperations.cs:145-226 | fails exactly for the empty key |
| ReverseTransposition.ReverseColumnarTransposition | HannaHandCipher/DigitSeriesOperations.cs:145-226 | the four local routines together compute `ReverseTransposed` |
| ReverseTransposition.ReverseTransposedInverse | HannaHandCipher/DigitSeriesOperations.cs:106-226 | for every text and nonempty key, reversing the transposition gives the text back |
| ReverseTransposition.ReverseTranspositionExample | HannaHandCipher.Test/UnitTests.cs:95-118 | reversing the worked seventeen digits under 7353 and then 1394636 gives the series back |
| CheckerboardAlphabet.OtherLettersCount | HannaHandCipher/KeyMatrix.cs:64-79 | nineteen letters besides ESTLAND take two-digit codes |
| KeyMatrix.StraddlingCheckerboardKeyMatrix | HannaHandCipher/KeyMatrix.cs:36-94 | the length checks and the three filling loops compute `Built` |
| KeyMatrix.BuiltIffValid | HannaHandCipher/KeyMatrix.cs:41-94 | the constructor succeeds exactly for ten distinct column digits and three distinct row digits |
| KeyMatrix.BuiltColumnsDistinct | HannaHandCipher/KeyMatrix.cs:86-93 | a finished board has ten column digits, all distinct (the digit row's codes must not clash) |
| KeyMatrix.BuiltRowsDistinct | HannaHandCipher/KeyMatrix.cs:50-62 | a finished board has distinct row digits (at most seven ESTLAND entries fit) |
| KeyMatrix.NonRowCount | HannaHandCipher/KeyMatrix.cs:50-62 | with valid keys exactly seven column digits are no row digits |
| KeyMatrix.BuiltLayout | HannaHandCipher/KeyMatrix.cs:18-27 | valid keys give the documented board: ESTLAND under the seven free column digits, the other letters row by row, then 1-9 and 0 |
| KeyMatrix.BuiltDecodable | HannaHandCipher/KeyMatrix.cs:36-94 | every board built has distinct codes, two-digit codes starting with a row digit and one-digit codes without one, and holds every letter and digit |
| KeyMatrix.SupportedSymbols | HannaHandCipher/KeyMatrix.cs:100-102 | only A-Z and 0-9 remain, in order |
| KeyMatrix.DigitKeysToCharValues | HannaHandCipher/KeyMatrix.cs:108-130 | the decoding loop computes `Decoded`, failing when a row digit ends the series |
| KeyMatrix.SymbolCode | HannaHandCipher/KeyMatrix.cs:104-126 | on a built board, the code of a letter or digit decodes back to it |
| KeyMatrix.EncodeDecode | HannaHandCipher/KeyMatrix.cs:96-130 | decoding the encoding of any text gives its upper-cased letters and digits |
| KeyMatrix.CharValuesToDigitKeys | HannaHandCipher/KeyMatrix.cs:96-106 | on a board where every letter and digit has a code that decodes, the encoding decodes to the text upper-cased with its letters and digits only |
| KeyMatrix.LayoutEstlandCode | HannaHandCipher/KeyMatrix.cs:50-62 | the k-th ESTLAND letter's code is the k-th column digit that is no row digit |
| KeyMatrix.LayoutLetterCode | HannaHandCipher/KeyMatrix.cs:64-93 | the j-th of the other letters and digits has the code of row j / 10 and column j % 10 |
| KeyMatrix.EncodeLength | HannaHandCipher/KeyMatrix.cs:96-106 | on a built board an ESTLAND letter encodes to one digit and every other letter or digit to two |
| KeyMatrix.CheckerboardExample | HannaHandCipher.Test/UnitTests.cs:134-168 | with the test's keys 6487159302 and 475, "BEIMERSTELLEN" encodes to the first seventeen digits of the test's series, which decode back to it |
| SharedCipherSteps.CompressFrom | HannaHandCipher/SharedCipherSteps.cs:12-28 | every compressed word has at least four characters, and none has a space |
| SharedCipherSteps.LeftoverFrom | HannaHandCipher/SharedCipherSteps.cs:12-28 | what stays in the buffer is shorter than four characters |
| SharedCipherSteps.CompressCovers | HannaHandCipher/SharedCipherSteps.cs:12-28 | the compressed words followed by the leftover buffer are the buffer and words joined |
| SharedCipherSteps.CompressedWordsCover | HannaHandCipher/SharedCipherSteps.cs:12-28 | key A's compressed words and the dropped leftover make up key A without spaces |
| SharedCipherSteps.CompressWords | HannaHandCipher/SharedCipherSteps.cs:12-28 | the loop computes `CompressFrom` |
| SharedCipherSteps.ComponentJLength | HannaHandCipher/SharedCipherSteps.cs:30-31 | component J has one digit per character of the compressed words |
| SharedCipherSteps.CutShape | HannaHandCipher/SharedCipherSteps.cs:40-47 | one slice per word, as long as the word, the slices joined being the start of K |
| SharedCipherSteps.CutByWordLengths | HannaHandCipher/SharedCipherSteps.cs:40-47 | the array filled by the loop holds `Cut` |
| SharedCipherSteps.SplitComponentKShape | HannaHandCipher/SharedCipherSteps.cs:9-50 | fails exactly when D cannot seed the resize to J; otherwise one key per compressed word, as long as it (at least four), the keys joined being K |
| SharedCipherSteps.CreateSplitComponentK | HannaHandCipher/SharedCipherSteps.cs:9-50 | compression, J, K and the cut compute `SplitComponentK` |
| SharedCipherSteps.ComponentDUnmasked | HannaHandCipher/SharedCipherSteps.cs:52-64 | on a built board and a serial of two or more digits D exists, is as long as key B's encoding, and subtracting the resized serial and decoding gives key B's letters and digits |
| SharedCipherSteps.CreateComponentD | HannaHandCipher/SharedCipherSteps.cs:52-64 | the method computes `ComponentD` |
| SharedCipherSteps.WordLengthDigitsLength | HannaHandCipher/Encryption.cs:89-90 | the word lengths give at least one digit per word |
| SharedCipherSteps.ComponentIShape | HannaHandCipher/Encryption.cs:43-57 | E exists exactly when D can seed the resize, and I exactly when also the keys have two digits; I is as long as the keys and is the last fifth of E's five-fold extension |
| SharedCipherSteps.CreateComponentI | HannaHandCipher/Encryption.cs:43-57 | the method computes `ComponentI` |
| BookIndexPositions.StartNotAfterEndOrder | HannaHandCipher/BookIndexPositions.cs:71-87 | the three checks accept exactly the selections whose start does not come after their end in reading order |
| BookIndexPositions.PaddedPageValue | HannaHandCipher/BookIndexPositions.cs:19-26 | an accepted page becomes three digits reading back as the page |
| BookIndexPositions.PaddedTwoValue | HannaHandCipher/BookIndexPositions.cs:28-33 | an accepted line becomes two digits reading back as the line |
| BookIndexPositions.FormattedLayout | HannaHandCipher/BookIndexPositions.cs:6-10 | the corrected format has seven digits, the page at 0-2, the line at 3-4 and the character at 5-6 |
| BookIndexPositions.FormattedValue | HannaHandCipher/BookIndexPositions.cs:6-10 | read as a number, the format is the position in reading order, so it is injective |
| BookIndexPositions.FormattedAsWrittenLength | HannaHandCipher/BookIndexPositions.cs:35-40 | the format as written agrees with "PPPLLCC" and has seven digits exactly when line and character are both above 9 or both at most 9 |
| BookIndexPositions.FormattedAsWritten | HannaHandCipher/BookIndexPositions.cs:17-43 | the format as written is "PPPLLCC" exactly when line and character are both above 9 or both at most 9 |
| BookIndexPositions.FormattedAsWrittenExample | HannaHandCipher/BookIndexPositions.cs:35-40 | line 1, character 12 formats to eight digits; line 12, character 1 to six |
| Encryption.NewIntermediateSteps | HannaHandCipher/Encryption.cs:29-62 | the constructor's calls compute `Intermediate` |
| Encryption.IntermediateShape | HannaHandCipher/Encryption.cs:29-62 | key A with fewer than 13 characters besides spaces is refused; otherwise the board decodes, I has one digit per such character, and every transposition key has at least four digits |
| Encryption.IntermediateNeedsDistinctRowDigits | HannaHandCipher/Encryption.cs:34-39 | when the first three digits of key A's remainder group repeat, building the steps fails |
| Encryption.TranspositionChainLength | HannaHandCipher/Encryption.cs:76-77 | the chained transpositions keep the text's length |
| Encryption.SerialInsertedAt | HannaHandCipher/Encryption.cs:80-83 | inserted or appended, the serial sits whole at the position clipped to the text, between the text's two parts |
| Encryption.EncryptedPlaintextShape | HannaHandCipher/Encryption.cs:65-84 | with the steps built and a space in key A the ciphertext exists and has the encoding's length plus the serial's |
| Encryption.EncryptPlaintext | HannaHandCipher/Encryption.cs:65-84 | the transposition loop and the splice compute `EncryptedPlaintext` |
| Encryption.BookGroupsLength | HannaHandCipher/Encryption.cs:86-99 | for accepted positions the corrected groups exist exactly when key B's word lengths have two digits (so whenever key B has a space), and have fourteen digits |
| Encryption.HyphenatedShape | HannaHandCipher/Encryption.cs:101 | fourteen digits are written as seven, a hyphen and seven |
| Encryption.BookGroupsShape | HannaHandCipher/Encryption.cs:86-102 | the encrypted book groups are fifteen characters with the hyphen at index 7 |
| Encryption.BookGroupsAsWrittenMismatch | HannaHandCipher/Encryption.cs:95-99 | as written, a start position whose line and character differ in digit count makes the book groups fail |
| Encryption.EncryptBookIndexPositionsAsWritten | HannaHandCipher/Encryption.cs:86-102 | as written, the output exists only when the start formats to seven digits, and is then the book groups' digits with a hyphen at index 7 |
| Encryption.EncryptBookIndexPositions | HannaHandCipher/Encryption.cs:86-102 | corrected, the output exists exactly when the book groups do, the two positions format to fourteen digits, and it is their digits with a hyphen at index 7 |
| Encryption.Encrypted | HannaHandCipher/Encryption.cs:10-21 | with the corrected book groups, an encryption succeeds only for key A with a space; its ciphertext is the encoding plus the serial in length, and its book groups fifteen characters with the hyphen at index 7 |
| Decryption.SerialPosition | HannaHandCipher/Decryption.cs:59-62 | the corrected serial position leaves five digits to read |
| Decryption.DecryptedBookIndexPositions | HannaHandCipher/Decryption.cs:31-52 | the groups decrypt exactly when they hold fourteen digits and key B's word lengths seed the generator; the result is two seven-digit positions that, with the mask added back, give the groups' first fourteen digits |
| Decryption.SetupAsWrittenAgrees | HannaHandCipher/Decryption.cs:59-62 | the setup as written equals the corrected one when key A's insert position leaves five digits to read, and fails otherwise |
| Decryption.NewDecryptIntermediateSteps | HannaHandCipher/Decryption.cs:29-71 | the constructor's calls compute `DecryptSetup` |
| Decryption.ReverseTranspositions | HannaHandCipher/Decryption.cs:82-87 | the loop from the last key down computes `ReverseChain` |
| Decryption.DecryptPlainText | HannaHandCipher/Decryption.cs:74-113 | removal of the serial, the reverse transpositions, component I, the subtraction and the decoding compute `DecryptedPlainText` |
| CipherRoundTrip.ReverseChainInverse | HannaHandCipher/Decryption.cs:82-87 | reversing the keys from last to first undoes the encryption's transpositions from first to last |
| CipherRoundTrip.SerialRecovered | HannaHandCipher/Decryption.cs:59-62 | the corrected position finds the serial wherever it was put, and removing it leaves the transposed text |
| CipherRoundTrip.SerialAsWrittenFindsInserted | HannaHandCipher/Decryption.cs:59-62 | as written, a serial inserted within the text is found |
| CipherRoundTrip.SerialAsWrittenMissesAppended | HannaHandCipher/Decryption.cs:59-62 | as written, an appended serial is looked for past the ciphertext's end, and decryption fails |
| CipherRoundTrip.SerialAsWrittenExample | HannaHandCipher/Encryption.cs:81-82 | three transposed digits and position 11: the serial is appended and then not found |
| CipherRoundTrip.DecryptSetupAsWrittenFails | HannaHandCipher/Decryption.cs:59-62 | on the encryption's ciphertext with key A's insert position past the transposed text, the corrected setup succeeds and the setup as written fails |
| CipherRoundTrip.UnmaskedGroups | HannaHandCipher/Decryption.cs:31-52 | unmasking two masked seven-digit groups gives them back |
| CipherRoundTrip.BookGroupsRoundTrip | HannaHandCipher/Decryption.cs:31-52 | the corrected book groups decrypt to both formatted positions |
| CipherRoundTrip.BookGroupsAsWrittenLoseEnd | HannaHandCipher/Encryption.cs:95-96 | as written, whenever the start formats to seven digits the book groups decrypt to the start twice, and the end is lost whenever it differs from the start |
| CipherRoundTrip.CiphertextSerial | HannaHandCipher/Encryption.cs:80-83 | the serial sits at the corrected position in the ciphertext, between the transposed text's two parts |
| CipherRoundTrip.SetupMatches | HannaHandCipher/Decryption.cs:59-71 | once the serial read is the encryption's, decryption rebuilds the same board, component I and transposition keys |
| CipherRoundTrip.DecryptSetupAgrees | HannaHandCipher/Decryption.cs:29-71 | on the encryption's ciphertext the setup succeeds, matches the encryption's steps and removes exactly the serial |
| CipherRoundTrip.ModifiedEncodingUndone | HannaHandCipher/Decryption.cs:105-112 | subtracting the resized I and decoding undoes the encoding and the masking |
| CipherRoundTrip.DecryptsEncryptedPlaintext | HannaHandCipher/Decryption.cs:74-113 | decrypting the ciphertext gives the plaintext, upper-cased, with its letters and digits only |
| CipherRoundTrip.EncryptedDecrypts | HannaHandCipher/Encryption.cs:10-21 | whatever one encryption outputs, decrypting its book groups and then its ciphertext gives both positions and the plaintext back |

## Left out

- Console I/O and the input loops of `UserInput.cs`, `BookIndexPositions.cs` and `Program.cs` are not modelled. The checks they make appear as preconditions or as explicit hypotheses:
  - a five-digit serial (`UserInput.cs:174-185`);
  - positions in range (`BookIndexPositions.cs:110`, `:137`, `:164`);
  - key A scrubbed to letters, spaces and parentheses (`UserInput.cs:127-146`).
- The regular expression `\b\s\b` that asks for two words is not modelled. Where the proofs need a second word, they assume a space in key A or key B instead.
- `InputDecryptComponentA` is not modelled: key A is a parameter of the decryption's setup. The round trip gives the recipient the same key A.
- The book groups are digit sequences. The parsing by `int.TryParse` is left out; it would also accept a sign.
- The serial is a sequence of five `Digit`s. `int.TryParse` in `UserInput.cs:174-185` also accepts "-1234", "+1234" and " 1234", and `GetDecimalDigitValue` then gives -1 for the sign or the space; the model's `c: seq<Digit>` excludes these inputs.
- Book positions are `nat`s. The `short` parse is left out.
- The checkerboard's static dictionary is a value passed to the encoder. If a constructor throws, the source leaves a half-filled static dictionary behind; the model returns an error and no board.
- The dictionary's enumeration order is taken to be its insertion order. `FirstOrDefault` lookups are "the first entry that matches".
- A symbol with no code encodes to nothing (`null` key). A code with no symbol decodes to `'\0'`, the default `char`.
- `ToUpper` is ASCII only; culture-specific case mapping is left out.
- `Math.Ceiling` over `double` is integer ceiling division. The two agree for every length a string can have.
- `TranspositionColumn` objects are values in an array. The source's aliasing of one object between two arrays is not modelled; nothing writes through the alias after `PopulateColumns`.
- AlphabeticalIndex.RelativeAlphabeticalIndexEncode: requires key-A text (letters, spaces and parentheses), as the console leaves key A; such text holds no decimal digits (`AlphabeticalIndex.RaiInputNoDigits`). With digits the source's in-place rewrite can match a rank it wrote itself. `DigitSeries.ComponentADigitSeries`, `SharedCipherSteps.ComponentJ` and `SharedCipherSteps.SplitComponentK` rank with `AlphabeticalRanks`, the intended ranking, for every input; no pipeline method calls the in-place `RelativeAlphabeticalIndexEncode`.
- Encryption.Encrypted: composes the ciphertext with the corrected book groups (`Encryption.EncryptBookIndexPositions`: start and end, each formatted as "PPPLLCC"). The source's `Encrypt()` (`Encryption.cs:10-21`) calls the routine that formats the start twice with the character padded by `Line > 9`; that routine is `Encryption.EncryptBookIndexPositionsAsWritten`. The two differ for a start of line 1, character 12, where the source prints the ciphertext and then throws in the mod-10 call (`DigitSeriesOperations.cs:85-86`) while the model succeeds, and for start (1,1,1) with end (2,1,1), where the source's second group masks the start again.
- Decryption.NewDecryptIntermediateSteps: reads the serial at the corrected `SerialPosition`, clipped to the ciphertext's last five digits. The source reads it at key A's insert position and throws at `Decryption.cs:62` when that position plus five exceeds the ciphertext's length, for example key A "IHR NAHT EUCH WIEDER UND DANN" (position 18) with plaintext "EB" (a ciphertext of eight digits). `Decryption.DecryptSetupAsWritten` models the source's read, and `Decryption.SetupAsWrittenAgrees` and `CipherRoundTrip.DecryptSetupAsWrittenFails` state where the two differ.
- Exceptions are all one kind of failure, an `Err`. The exception types and messages are not modelled.

## Findings

| source | as written | input that shows it | evidently intended | confidence | as-written member | corrected member |
|---|---|---|---|---|---|---|
| HannaHandCipher/BookIndexPositions.cs:37-40 | the character's leading zero is decided by `Line > 9` | line 1, character 12 gives eight digits ("001" "01" "12"); line 12, character 1 gives six | `Character > 9`, giving the documented seven-digit "PPPLLCC" | high, not executed | BookIndexPositions.FormattedAsWritten, BookIndexPositions.FormattedAsWrittenExample, Encryption.BookGroupsAsWrittenMismatch | BookIndexPositions.Formatted, BookIndexPositions.FormattedLayout |
| HannaHandCipher/Encryption.cs:95-96 | the start position is formatted twice | start page 1 line 1 character 1, end page 2 line 1 character 1: the groups decrypt to the start twice | the start followed by the end, which the decryption reads as the second group | high, not executed | Encryption.BookGroupsAsWritten, CipherRoundTrip.BookGroupsAsWrittenLoseEnd | Encryption.BookGroups, CipherRoundTrip.BookGroupsRoundTrip |
| HannaHandCipher/Decryption.cs:59-62 | the serial is read at the insert position even where the encryption appended it (`Encryption.cs:81-82`) | transposed text of 3 digits and key A "IHR NAHT EUCH WIEDER" (position 11): ciphertext of 8 digits, serial read at 11-16 | the position clipped to the last five digits, where the appended serial is | medium, not executed | Decryption.SerialAsWritten, Decryption.DecryptSetupAsWritten, CipherRoundTrip.SerialAsWrittenMissesAppended, CipherRoundTrip.SerialAsWrittenExample, CipherRoundTrip.DecryptSetupAsWrittenFails | Decryption.SerialPosition, CipherRoundTrip.SerialRecovered |
