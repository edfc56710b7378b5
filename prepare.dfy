/** The script's top level: two splits generated from the table, one vocabulary
    over both, both splits encoded and converted to 16-bit unsigned integers. */
module Prepare {
  import opened Wrappers
  import Corpus
  import Tokenizer
  import Alphabet

  /** numpy's uint16. */
  newtype uint16 = x: int | 0 <= x < 0x1_0000

  /** np.array(ids, dtype=np.uint16). An index outside the type's range is the
      OverflowError that NumPy raises for it; otherwise every value is kept. */
  function ToUint16(ids: seq<nat>): (r: Option<seq<uint16>>)
    ensures r.Some? <==> forall k :: 0 <= k < |ids| ==> ids[k] < 0x1_0000
    ensures r.Some? ==> |r.value| == |ids| && forall k :: 0 <= k < |ids| ==> r.value[k] as int == ids[k]
  {
    if ids == [] then Some([])
    else
      match ToUint16(ids[..|ids| - 1])
      case None => None
      case Some(arr) =>
        var last := ids[|ids| - 1];
        if last < 0x1_0000 then Some(arr + [last as uint16]) else None
  }

  /** Reads a uint16 array back as indices. */
  function Widen(arr: seq<uint16>): seq<nat> {
    seq(|arr|, k requires 0 <= k < |arr| => arr[k] as nat)
  }

  /** The cast loses nothing: reading the array back gives the indices it was made of. */
  lemma WidenToUint16(ids: seq<nat>)
    requires forall k :: 0 <= k < |ids| ==> ids[k] < 0x1_0000
    ensures ToUint16(ids).Some? && Widen(ToUint16(ids).value) == ids
  {
  }

  /** The largest vocabulary a corpus can have: the 22 letters of the table's words,
      the space and the newline. */
  const MaxVocabularySize: nat := 24

  /** Two texts over the corpus alphabet, joined, are over it too. */
  lemma JoinedAlphabet(train: string, val: string)
    requires forall k :: 0 <= k < |train| ==> Corpus.IsCorpusChar(train[k])
    requires forall k :: 0 <= k < |val| ==> Corpus.IsCorpusChar(val[k])
    ensures forall k :: 0 <= k < |train + val| ==> (train + val)[k] in Alphabet.CorpusChars
  {
    var text := train + val;
    forall k | 0 <= k < |text| ensures text[k] in Alphabet.CorpusChars {
      if k < |train| {
        assert text[k] == train[k];
      } else {
        assert text[k] == val[k - |train|];
      }
    }
  }

  /** The vocabulary of any two generated splits has at most MaxVocabularySize = 24
      characters, far below 65536, so every index fits in a uint16. */
  lemma VocabularyFitsUint16(trainDraws: seq<nat>, valDraws: seq<nat>)
    requires Corpus.ValidDraws(trainDraws) && Corpus.ValidDraws(valDraws)
    ensures |Tokenizer.Vocabulary(Corpus.Corpus(trainDraws) + Corpus.Corpus(valDraws))| <= MaxVocabularySize
    ensures MaxVocabularySize < 0x1_0000
  {
    JoinedAlphabet(Corpus.Corpus(trainDraws), Corpus.Corpus(valDraws));
    Alphabet.CorpusCharsIncreasing();
    Tokenizer.VocabularyWithin(Corpus.Corpus(trainDraws) + Corpus.Corpus(valDraws), Alphabet.CorpusChars);
  }

  /** One split through the tokenizer and the cast: it encodes, the uint16 array is as
      long as the text, every entry is below vocab_size, and decoding the array with
      itos gives the text back. */
  lemma SplitRoundTrip(chars: seq<char>, s: string)
    requires Tokenizer.StrictlyIncreasing(chars) && |chars| < 0x1_0000
    requires forall k :: 0 <= k < |s| ==> s[k] in chars
    ensures Tokenizer.Encode(Tokenizer.Stoi(chars), s).Some?
    ensures ToUint16(Tokenizer.Encode(Tokenizer.Stoi(chars), s).value).Some?
    ensures var arr := ToUint16(Tokenizer.Encode(Tokenizer.Stoi(chars), s).value).value;
      && |arr| == |s|
      && (forall k :: 0 <= k < |arr| ==> arr[k] as int < |chars|)
      && Tokenizer.Decode(Tokenizer.Itos(chars), Widen(arr)) == Some(s)
  {
    Tokenizer.EncodeInRange(chars, s);
    Tokenizer.DecodeEncode(chars, s);
    WidenToUint16(Tokenizer.Encode(Tokenizer.Stoi(chars), s).value);
  }

  /** The contents of the metadata artifact. */
  datatype Meta = Meta(vocabSize: nat, itos: map<nat, char>, stoi: map<char, nat>)

  /** meta = {'vocab_size': vocab_size, 'itos': itos, 'stoi': stoi} for the vocabulary
      chars: vocab_size counts it, itos numbers it from 0, stoi maps each of its
      characters to a position holding it, and for a repetition-free vocabulary stoi
      undoes itos. */
  function BuildMeta(chars: seq<char>): (m: Meta)
    ensures m.vocabSize == |chars|
    ensures forall i: nat :: i in m.itos <==> i < m.vocabSize
    ensures forall i :: 0 <= i < |chars| ==> m.itos[i] == chars[i]
    ensures forall c :: c in m.stoi <==> c in chars
    ensures forall c :: c in m.stoi ==> m.stoi[c] in m.itos && m.itos[m.stoi[c]] == c
    ensures Tokenizer.StrictlyIncreasing(chars) ==>
      forall i :: 0 <= i < |chars| ==> m.itos[i] in m.stoi && m.stoi[m.itos[i]] == i
  {
    var m := Meta(|chars|, Tokenizer.Itos(chars), Tokenizer.Stoi(chars));
    if Tokenizer.StrictlyIncreasing(chars) then Tokenizer.StoiItosInverse(chars); m else m
  }

  /** The whole script for given draws of the two splits (8000 and 1000 draws long
      when run as written): the texts, the metadata and the two uint16 arrays that
      are written out. */
  method PrepareData(trainDraws: seq<nat>, valDraws: seq<nat>)
    returns (trainData: string, valData: string, meta: Meta, trainIds: seq<uint16>, valIds: seq<uint16>)
    requires Corpus.ValidDraws(trainDraws) && Corpus.ValidDraws(valDraws)
    ensures trainData == Corpus.Corpus(trainDraws) && valData == Corpus.Corpus(valDraws)
    ensures meta.vocabSize == |Tokenizer.CharSet(trainData + valData)| <= MaxVocabularySize
    ensures meta == BuildMeta(Tokenizer.Vocabulary(trainData + valData))
    ensures |trainIds| == |trainData| == Corpus.TotalLength(Corpus.Lines(trainDraws))
    ensures |valIds| == |valData| == Corpus.TotalLength(Corpus.Lines(valDraws))
    ensures Corpus.CountChar(trainData, '\n') == |trainDraws| && Corpus.CountChar(valData, '\n') == |valDraws|
    ensures forall k :: 0 <= k < |trainIds| ==> trainIds[k] as int < meta.vocabSize
    ensures forall k :: 0 <= k < |valIds| ==> valIds[k] as int < meta.vocabSize
    ensures Tokenizer.Decode(meta.itos, Widen(trainIds)) == Some(trainData)
    ensures Tokenizer.Decode(meta.itos, Widen(valIds)) == Some(valData)
  {
    trainData := Corpus.GenerateTranslationData(trainDraws);
    valData := Corpus.GenerateTranslationData(valDraws);

    var allText := trainData + valData;
    var chars := Tokenizer.Vocabulary(allText);
    var stoi := Tokenizer.Stoi(chars);
    Tokenizer.VocabularySize(allText);
    VocabularyFitsUint16(trainDraws, valDraws);

    Tokenizer.SplitsEncode(trainData, valData);
    SplitRoundTrip(chars, trainData);
    SplitRoundTrip(chars, valData);
    var trainEncoded := Tokenizer.Encode(stoi, trainData).value;
    var valEncoded := Tokenizer.Encode(stoi, valData).value;
    trainIds := ToUint16(trainEncoded).value;
    valIds := ToUint16(valEncoded).value;

    meta := BuildMeta(chars);
  }
}
