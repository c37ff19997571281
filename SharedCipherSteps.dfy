/**
 * The steps encryption and decryption share: the transposition keys cut from component K along
 * key A's compressed words, component D (key B encoded on the board, masked by the serial C),
 * and the digit series of key B's word lengths that masks the book groups.
 */
module SharedCipherSteps {
  import opened Wrappers
  import opened Text
  import opened AlphabeticalIndex
  import opened DigitSeries
  import opened KeyMatrix

  // ---------------------------------------------------------------------------------------------
  // Key A's compressed words

  /**
   * The compressed words made from `words`, with `buffer` holding short words not yet emitted:
   * a word of four or more characters is emitted with the buffer in front of it; a shorter one
   * joins the buffer, which is emitted as soon as it holds four characters.
   */
  function CompressFrom(words: seq<string>, buffer: string): (r: seq<string>)
    requires |buffer| < 4
    ensures forall i :: 0 <= i < |r| ==> |r[i]| >= 4
    ensures ' ' !in buffer && (forall w :: w in words ==> ' ' !in w) ==> forall i :: 0 <= i < |r| ==> ' ' !in r[i]
  {
    if words == [] then []
    else
      assert forall w :: w in words[1..] ==> w in words;
      if |words[0]| < 4 then
        var joined := buffer + words[0];
        if |joined| < 4 then CompressFrom(words[1..], joined)
        else [joined] + CompressFrom(words[1..], "")
      else [buffer + words[0]] + CompressFrom(words[1..], "")
  }

  /** The short characters left in the buffer once the words run out; no compressed word takes them. */
  function LeftoverFrom(words: seq<string>, buffer: string): (r: string)
    requires |buffer| < 4
    ensures |r| < 4
  {
    if words == [] then buffer
    else if |words[0]| < 4 && |buffer + words[0]| < 4 then LeftoverFrom(words[1..], buffer + words[0])
    else LeftoverFrom(words[1..], "")
  }

  /** The compressed words and the dropped rest hold the buffer and the words' characters, in order. */
  lemma {:induction false} CompressCovers(words: seq<string>, buffer: string)
    requires |buffer| < 4
    ensures Flatten(CompressFrom(words, buffer)) + LeftoverFrom(words, buffer) == buffer + Flatten(words)
  {
    if words != [] {
      var w := words[0];
      var joined := buffer + w;
      if |w| < 4 && |joined| < 4 {
        CompressCovers(words[1..], joined);
      } else {
        CompressCovers(words[1..], "");
        var r := CompressFrom(words[1..], "");
        assert CompressFrom(words, buffer) == [joined] + r;
        assert ([joined] + r)[1..] == r;
        assert Flatten([joined] + r) == joined + Flatten(r);
        assert Flatten(words) == w + Flatten(words[1..]);
        var rest := LeftoverFrom(words[1..], "");
        assert LeftoverFrom(words, buffer) == rest;
        assert Flatten(r) + rest == Flatten(words[1..]);
        assert (joined + Flatten(r)) + rest == buffer + (w + (Flatten(r) + rest));
      }
    }
  }

  /** Key A's words (`Split(' ')`) compressed to words of at least four characters. */
  function CompressedWords(a: string): seq<string>
  {
    CompressFrom(SplitOnSpace(a), "")
  }

  /**
   * Each compressed word has at least four characters and no space; together with fewer than
   * four trailing characters, which are dropped, they spell key A without its spaces.
   */
  lemma CompressedWordsCover(a: string)
    ensures forall i :: 0 <= i < |CompressedWords(a)| ==> |CompressedWords(a)[i]| >= 4 && ' ' !in CompressedWords(a)[i]
    ensures |LeftoverFrom(SplitOnSpace(a), "")| < 4
    ensures Flatten(CompressedWords(a)) + LeftoverFrom(SplitOnSpace(a), "") == RemoveSpaces(a)
  {
    SplitOnSpaceWords(a);
    CompressCovers(SplitOnSpace(a), "");
    assert "" + Flatten(SplitOnSpace(a)) == RemoveSpaces(a);
  }

  /** The `foreach` over the words with the word buffer. */
  method CompressWords(aWords: seq<string>) returns (aCompressedWords: seq<string>)
    ensures aCompressedWords == CompressFrom(aWords, "")
  {
    var wordBuffer := "";
    aCompressedWords := [];
    var i := 0;
    while i < |aWords|
      invariant 0 <= i <= |aWords| && |wordBuffer| < 4
      invariant aCompressedWords + CompressFrom(aWords[i..], wordBuffer) == CompressFrom(aWords, "")
    {
      var word := aWords[i];
      assert aWords[i..][0] == word && aWords[i..][1..] == aWords[i + 1..];
      ghost var before := aCompressedWords;
      if |word| < 4 {
        wordBuffer := wordBuffer + word;
        if |wordBuffer| >= 4 {
          aCompressedWords := aCompressedWords + [wordBuffer];
          assert before + ([wordBuffer] + CompressFrom(aWords[i + 1..], "")) == aCompressedWords + CompressFrom(aWords[i + 1..], "");
          wordBuffer := "";
        }
      } else {
        aCompressedWords := aCompressedWords + [wordBuffer + word];
        assert before + ([wordBuffer + word] + CompressFrom(aWords[i + 1..], "")) == aCompressedWords + CompressFrom(aWords[i + 1..], "");
        wordBuffer := "";
      }
      i := i + 1;
    }
    assert aWords[i..] == [];
    assert aCompressedWords + [] == aCompressedWords;
  }

  // ---------------------------------------------------------------------------------------------
  // Components J and K, and the transposition keys

  /** Component J: the RAI encodings of the compressed words, one after another. */
  function ComponentJ(words: seq<string>): seq<Digit>
  {
    if words == [] then [] else AlphabeticalRanks(RaiInput(words[0])) + ComponentJ(words[1..])
  }

  /** Words without spaces encode to one digit per character. */
  lemma {:induction false} ComponentJLength(words: seq<string>)
    requires forall i :: 0 <= i < |words| ==> ' ' !in words[i]
    ensures |ComponentJ(words)| == SumLengths(words)
  {
    if words != [] {
      NoSpacesUnchanged(words[0]);
      ComponentJLength(words[1..]);
    }
  }

  /** Component K: component J plus component D resized to J's length. */
  function ComponentK(a: string, d: seq<Digit>): Result<seq<Digit>>
  {
    var j := ComponentJ(CompressedWords(a));
    var resizedD :- Resized(d, |j|);
    DigitwiseMod10(j, resizedD, Add)
  }

  /** Consecutive slices of `k`, each as long as the next word. */
  function Cut(k: seq<Digit>, words: seq<string>): seq<seq<Digit>>
    requires SumLengths(words) <= |k|
  {
    if words == [] then [] else [k[..|words[0]|]] + Cut(k[|words[0]|..], words[1..])
  }

  /** One slice per word, as long as the word, the slices together making up the start of `k`. */
  lemma {:induction false} CutShape(k: seq<Digit>, words: seq<string>)
    requires SumLengths(words) <= |k|
    ensures |Cut(k, words)| == |words|
    ensures forall i :: 0 <= i < |words| ==> |Cut(k, words)[i]| == |words[i]|
    ensures Flatten(Cut(k, words)) == k[..SumLengths(words)]
  {
    if words != [] {
      var n := |words[0]|;
      CutShape(k[n..], words[1..]);
      assert k[..n] + k[n..][..SumLengths(words[1..])] == k[..SumLengths(words)];
      var r := Cut(k, words);
      forall i | 1 <= i < |words| ensures |r[i]| == |words[i]| {
        assert r[i] == Cut(k[n..], words[1..])[i - 1];
      }
    }
  }

  lemma CompressedLengths(a: string)
    ensures |ComponentJ(CompressedWords(a))| == SumLengths(CompressedWords(a))
  {
    CompressedWordsCover(a);
    ComponentJLength(CompressedWords(a));
  }

  /** The transposition keys: component K cut along the compressed words' lengths. */
  function SplitComponentK(a: string, d: seq<Digit>): Result<seq<seq<Digit>>>
  {
    var k :- ComponentK(a, d);
    CompressedLengths(a);
    Ok(Cut(k, CompressedWords(a)))
  }

  /**
   * The keys fail only when D has too few digits to seed the resize; otherwise there is one key
   * per compressed word, as long as the word (so at least four digits), and the keys together
   * make up component K.
   */
  lemma SplitComponentKShape(a: string, d: seq<Digit>)
    ensures SplitComponentK(a, d).Err? <==> |d| < 2 && |d| <= SumLengths(CompressedWords(a))
    ensures SplitComponentK(a, d).Ok? ==>
      var keys := SplitComponentK(a, d).value;
      && |keys| == |CompressedWords(a)|
      && (forall i :: 0 <= i < |keys| ==> |keys[i]| == |CompressedWords(a)[i]| >= 4)
      && Flatten(keys) == ComponentK(a, d).value
  {
    CompressedLengths(a);
    CompressedWordsCover(a);
    if ComponentK(a, d).Ok? {
      var k := ComponentK(a, d).value;
      CutShape(k, CompressedWords(a));
      assert k[..SumLengths(CompressedWords(a))] == k;
    }
  }

  /** Cutting from `start` on takes word `i`'s slice first and goes on after it. */
  lemma CutStep(k: seq<Digit>, words: seq<string>, i: nat, start: nat)
    requires i < |words| && start + SumLengths(words[i..]) <= |k|
    ensures SumLengths(words[i..]) == |words[i]| + SumLengths(words[i + 1..])
    ensures Cut(k[start..], words[i..]) == [k[start..start + |words[i]|]] + Cut(k[start + |words[i]|..], words[i + 1..])
  {
    assert words[i..][0] == words[i] && words[i..][1..] == words[i + 1..];
    var rest := k[start..];
    assert rest[..|words[i]|] == k[start..start + |words[i]|];
    assert rest[|words[i]|..] == k[start + |words[i]|..];
  }

  /** Consecutive slices of component K as long as the compressed words, written into an array. */
  method CutByWordLengths(componentK: seq<Digit>, aCompressedWords: seq<string>) returns (splitComponentK: array<seq<Digit>>)
    requires SumLengths(aCompressedWords) <= |componentK|
    ensures splitComponentK[..] == Cut(componentK, aCompressedWords)
  {
    splitComponentK := new seq<Digit>[|aCompressedWords|];
    var aWordStartIdx: nat := 0;
    for i := 0 to |aCompressedWords|
      invariant aWordStartIdx + SumLengths(aCompressedWords[i..]) == SumLengths(aCompressedWords)
      invariant splitComponentK[..i] + Cut(componentK[aWordStartIdx..], aCompressedWords[i..]) == Cut(componentK, aCompressedWords)
    {
      var wordLength := |aCompressedWords[i]|;
      CutStep(componentK, aCompressedWords, i, aWordStartIdx);
      ghost var before := splitComponentK[..i];
      splitComponentK[i] := componentK[aWordStartIdx..aWordStartIdx + wordLength];
      assert splitComponentK[..i + 1] == before + [componentK[aWordStartIdx..aWordStartIdx + wordLength]];
      assert splitComponentK[..i + 1] + Cut(componentK[aWordStartIdx + wordLength..], aCompressedWords[i + 1..])
          == Cut(componentK, aCompressedWords);
      aWordStartIdx := aWordStartIdx + wordLength;
    }
    assert aCompressedWords[|aCompressedWords|..] == [];
    assert splitComponentK[..|aCompressedWords|] == splitComponentK[..];
  }

  /** Compresses key A's words, builds J and K, and cuts K into the transposition keys. */
  method CreateSplitComponentK(componentA: string, componentD: seq<Digit>) returns (r: Result<seq<seq<Digit>>>)
    ensures r == SplitComponentK(componentA, componentD)
  {
    var aWords := SplitOnSpace(componentA);
    var aCompressedWords := CompressWords(aWords);
    var componentJ := ComponentJ(aCompressedWords);
    var resizedD := ResizeUsingLaggedFibonacciGenerator(componentD, |componentJ|);
    if resizedD.Err? {
      return Err(resizedD.error);
    }
    var componentK := IndividualDigitsModulus10Calculation(componentJ, resizedD.value, Add);
    CompressedLengths(componentA);
    var splitComponentK := CutByWordLengths(componentK.value, aCompressedWords);
    return Ok(splitComponentK[..]);
  }

  // ---------------------------------------------------------------------------------------------
  // Component D

  /** Key B without spaces encoded on the board, plus the serial C resized to the encoding's length. */
  function ComponentD(board: Checkerboard, b: string, c: seq<Digit>): Result<seq<Digit>>
  {
    var encodedB := CharValuesToDigitKeys(board, RemoveSpaces(b));
    var resizedC :- Resized(c, |encodedB|);
    DigitwiseMod10(encodedB, resizedC, Add)
  }

  /**
   * With a serial of at least two digits component D exists, is as long as key B's encoding, and
   * subtracting the resized serial and decoding gives back key B's letters and digits, upper-cased.
   */
  lemma ComponentDUnmasked(board: Checkerboard, b: string, c: seq<Digit>)
    requires Decodable(board) && |c| >= 2
    ensures ComponentD(board, b, c).Ok?
    ensures var d := ComponentD(board, b, c).value;
      && |d| == |CharValuesToDigitKeys(board, RemoveSpaces(b))|
      && Decoded(board, DigitwiseMod10(d, Resized(c, |d|).value, Subtract).value)
         == Ok(SupportedSymbols(Upper(RemoveSpaces(b))))
  {
    var encodedB := CharValuesToDigitKeys(board, RemoveSpaces(b));
    DigitwiseInverse(encodedB, Resized(c, |encodedB|).value);
    EncodeDecode(board, RemoveSpaces(b));
  }

  /** The `CreateComponentD` routine. */
  method CreateComponentD(board: Checkerboard, componentB: string, componentC: seq<Digit>) returns (r: Result<seq<Digit>>)
    ensures r == ComponentD(board, componentB, componentC)
  {
    var componentBNoWhitespace := RemoveSpaces(componentB);
    var componentBEncoded := CharValuesToDigitKeys(board, componentBNoWhitespace);
    var resizedC := ResizeUsingLaggedFibonacciGenerator(componentC, |componentBEncoded|);
    if resizedC.Err? {
      return Err(resizedC.error);
    }
    r := IndividualDigitsModulus10Calculation(componentBEncoded, resizedC.value, Add);
  }

  // ---------------------------------------------------------------------------------------------
  // Key B's word lengths

  /** The lengths of key B's words (`Split(' ')`), each written in decimal, one after another. */
  function WordLengthDigits(words: seq<string>): seq<Digit>
  {
    if words == [] then [] else DecimalDigits(|words[0]|) + WordLengthDigits(words[1..])
  }

  /** Each word contributes at least one digit, so key B with a space yields a series the generator can extend. */
  lemma {:induction false} WordLengthDigitsLength(words: seq<string>)
    ensures |WordLengthDigits(words)| >= |words|
  {
    if words != [] {
      WordLengthDigitsLength(words[1..]);
    }
  }
  // ---------------------------------------------------------------------------------------------
  // Components E and I

  /** Component E: the key-matrix digits (all of key A's ranked digits) plus component D resized to them. */
  function ComponentE(keys: seq<Digit>, d: seq<Digit>): Result<seq<Digit>>
  {
    var resizedD :- Resized(d, |keys|);
    DigitwiseMod10(keys, resizedD, Add)
  }

  /**
   * Component I: component E extended by the generator to five times its length, E and the three
   * unused components F, G and H cut off.
   */
  function ComponentI(keys: seq<Digit>, d: seq<Digit>): Result<seq<Digit>>
  {
    var e :- ComponentE(keys, d);
    var extended :- Resized(e, |e| * 5);
    var componentsFGHI := extended[|e|..];
    Ok(componentsFGHI[|e| * 3..])
  }

  /**
   * E exists when D can be resized to the key digits, and I then when there are at least two key
   * digits; I is as long as the key digits and is the last fifth of the generator's run seeded by E.
   */
  lemma ComponentIShape(keys: seq<Digit>, d: seq<Digit>)
    ensures ComponentE(keys, d).Ok? <==> |d| > |keys| || |d| >= 2
    ensures ComponentE(keys, d).Ok? ==> |ComponentE(keys, d).value| == |keys|
    ensures ComponentI(keys, d).Ok? <==> ComponentE(keys, d).Ok? && |keys| >= 2
    ensures ComponentI(keys, d).Ok? ==>
      var e := ComponentE(keys, d).value;
      var i := ComponentI(keys, d).value;
      var run := Resized(e, 5 * |e|).value;
      && |i| == |keys|
      && e <= run && run[4 * |e|..] == i && LaggedFibonacci(run, |e|)
  {
  }

  /** Component E and then component I, as both cipher directions compute them. */
  method CreateComponentI(kmKeysDigitString: seq<Digit>, componentD: seq<Digit>) returns (r: Result<seq<Digit>>)
    ensures r == ComponentI(kmKeysDigitString, componentD)
  {
    var resizedD := ResizeUsingLaggedFibonacciGenerator(componentD, |kmKeysDigitString|);
    if resizedD.Err? {
      return Err(resizedD.error);
    }
    var componentE := IndividualDigitsModulus10Calculation(kmKeysDigitString, resizedD.value, Add);
    var eLength := |componentE.value|;
    var extendedE := ResizeUsingLaggedFibonacciGenerator(componentE.value, eLength * 5);
    if extendedE.Err? {
      return Err(extendedE.error);
    }
    var componentsFGHI := extendedE.value[eLength..];
    return Ok(componentsFGHI[eLength * 3..]);
  }
}
