/** The characters a corpus is written with. */
module Alphabet {
  import Tokenizer

  /** The letters of the number table's words: every lower-case letter except b, j,
      k and z. */
  const Letters: set<char> :=
    {'a', 'c', 'd', 'e', 'f', 'g', 'h', 'i', 'l', 'm', 'n', 'o', 'p', 'q', 'r', 's', 't', 'u', 'v', 'w', 'x', 'y'}

  /** Neither the space nor the newline is a letter, so they can separate words and
      lines. */
  lemma SeparatorsAreNoLetters()
    ensures ' ' !in Letters && '\n' !in Letters
  {
  }

  /** The characters of a corpus in increasing order: the newline that ends each
      line, the space between a Latin word and its English word, and the letters. */
  const CorpusChars: string := "\n acdefghilmnopqrstuvwxy"

  /** Every letter, the space and the newline are corpus characters. */
  lemma LettersAreCorpusChars()
    ensures forall c :: c in Letters ==> c in CorpusChars
    ensures ' ' in CorpusChars && '\n' in CorpusChars
  {
  }

  /** Each corpus character is smaller than the next one. */
  lemma CorpusCharsIncreasing()
    ensures Tokenizer.StrictlyIncreasing(CorpusChars)
  {
    Tokenizer.AdjacentIncreasing(CorpusChars);
  }
}
