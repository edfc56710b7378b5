# Latin number translation data: a verified model of the data-preparation script

The script `latin-numbers/data/basic/prepare.py` builds a character-level training
corpus for Latin-to-English number translation. It holds a fixed table of 28 Latin
number words and their English words, draws table entries to build a training split
and a validation split of lines `"<latin> <english>\n"`, derives the sorted vocabulary
of distinct characters over both splits, builds the index tables `stoi` and `itos`,
encodes both splits, and converts the encodings to `uint16` arrays before writing them.

This project models that pipeline in Dafny:

- `lexicon.dfy` (module `Lexicon`): the table `NUMBERS` (`Entry`, `Numbers`), its key list
  `list(NUMBERS.keys())` (`LatinWords`), the line format (`FormatLine`) and its inverse
  (`ParseLine`).
- `alphabet.dfy` (module `Alphabet`): the 22 letters the table's words are written with
  and the 24 characters a corpus can hold (those letters, the space and the newline),
  listed in increasing order.
- `corpus.dfy` (module `Corpus`): `generate_translation_data` as an imperative method
  with a loop that appends to the list `data`, proved against the functions `Lines`,
  `Join` and `Corpus`; the shape of a corpus (one line per draw, one newline per line,
  its length, its alphabet), and `SplitLines`, which cuts a corpus back into lines.
- `tokenizer.dfy` (module `Tokenizer`): `chars = sorted(list(set(text)))` (`Vocabulary`),
  `stoi`, `itos`, `encode` and `decode`, with the bijection and round-trip properties.
- `prepare.dfy` (module `Prepare`): the `np.uint16` conversion and the whole script as
  one method, `PrepareData`.
- `wrappers.dfy` (module `Wrappers`): the `Option` type that stands for a `KeyError`
  (or NumPy's `OverflowError`).

The calls to `random.choice` are replaced by an explicit input: a sequence of draws,
each a position in the key list (below 28). `num_sequences` is the length of that
sequence, and the corpus is a deterministic function of it. The script runs with 8000
training draws and 1000 validation draws; the model holds for any number of draws,
including none.

Python's dictionaries are modelled as Dafny maps. The dictionary literal and key list
share one definition: `Entry(i)` is the i-th pair of the literal, which is also the
i-th key in the dictionary's iteration order. `Stoi` uses the last position of a
character, as the comprehension over `enumerate` does; since `chars` never repeats a
character, that is its only position. Characters compare by code point, as Python's strings do.

## Model

| member | source | states |
|---|---|---|
| Lexicon.Entry | latin-numbers/data/basic/prepare.py:19-48 | The i-th pair of the NUMBERS literal, in the literal's order (no contract; the table's properties are the rows below) |
| Lexicon.Numbers | latin-numbers/data/basic/prepare.py:19-48 | Looking up any table entry's Latin word gives that entry's English word, and every key is the Latin word of some entry |
| Lexicon.EntriesHaveDistinctKeys | latin-numbers/data/basic/prepare.py:19-48 | No two entries of the table share a Latin word |
| Lexicon.EntriesUseLetters | latin-numbers/data/basic/prepare.py:19-48 | Every Latin and English word of the table is written with the 22 letters of `Alphabet.Letters` only (no b, j, k or z, no space, no newline) |
| Lexicon.LettersAreUsed | latin-numbers/data/basic/prepare.py:19-48 | Each of the 22 letters occurs in some word of the table, so with `EntriesUseLetters` they are exactly the letters the table uses |
| Lexicon.LatinWords | latin-numbers/data/basic/prepare.py:54 | The key list has 28 words, word i is the Latin word of entry i, and no word repeats |
| Lexicon.LatinWordsAreTheKeys | latin-numbers/data/basic/prepare.py:54 | Every listed word is a key of NUMBERS, and every key is listed |
| Lexicon.FormatLine | latin-numbers/data/basic/prepare.py:61 | A line is the Latin word, then a space at position len(latin), then the English word, then a final newline, and is len(latin) + len(english) + 2 long |
| Lexicon.ParseFormatLine | latin-numbers/data/basic/prepare.py:61 | Cutting a formatted line at its first space and dropping the newline gives back the Latin and English words, if the Latin word has no space |
| Lexicon.FormatParsedLine | latin-numbers/data/basic/prepare.py:61 | Conversely, a line that parses is exactly the formatted line of its two halves |
| Lexicon.QuinqueLine | latin-numbers/data/basic/prepare.py:54-61 | Choosing 'quinque' (key position 4) gives exactly "quinque five\n" |
| Alphabet.LettersAreCorpusChars | latin-numbers/data/basic/prepare.py:19-61 | Every letter of the table's words, the space and the newline are among the 24 corpus characters |
| Alphabet.SeparatorsAreNoLetters | latin-numbers/data/basic/prepare.py:61 | Neither the space nor the newline occurs among the letters, so they separate the words of a line and the lines of a corpus |
| Alphabet.CorpusCharsIncreasing | latin-numbers/data/basic/prepare.py:19-61 | The 24 corpus characters are listed in strictly increasing order, so none is listed twice |
| Corpus.LineFor | latin-numbers/data/basic/prepare.py:58-61 | The line of a draw: the drawn entry's Latin word, a space, its English word, a newline (no contract; the two rows below state its properties) |
| Corpus.LineForParses | latin-numbers/data/basic/prepare.py:58-61 | The line built for a draw ends with its only newline and parses back as exactly the drawn table entry |
| Corpus.LineForAlphabet | latin-numbers/data/basic/prepare.py:19-61 | Every character of the line built for a draw is a corpus character |
| Corpus.Lines | latin-numbers/data/basic/prepare.py:53-62 | The list `data` after the loop holds one line per draw |
| Corpus.LinesAt | latin-numbers/data/basic/prepare.py:53-62 | Line k of `data` is the line of draw k, so the lines come in draw order |
| Corpus.LinesExtend | latin-numbers/data/basic/prepare.py:56-62 | One more turn of the loop appends the new draw's line to `data` and changes nothing before it |
| Corpus.Join | latin-numbers/data/basic/prepare.py:64 | ''.join(parts) is as long as its parts together |
| Corpus.JoinNewlines | latin-numbers/data/basic/prepare.py:64 | Joining n well-formed lines gives a text with exactly n newlines |
| Corpus.SplitJoin | latin-numbers/data/basic/prepare.py:64 | Splitting the join of well-formed lines at their newlines gives back exactly those lines |
| Corpus.Corpus | latin-numbers/data/basic/prepare.py:51-64 | A corpus is as long as the chosen lines together, holds exactly one newline per draw, is the empty string exactly when there are no draws, and uses only corpus characters |
| Corpus.CorpusQuinque | latin-numbers/data/basic/prepare.py:51-64 | The single draw of position 4 gives the corpus "quinque five\n" |
| Corpus.CorpusLinesAreEntries | latin-numbers/data/basic/prepare.py:54-64 | The corpus splits into one line per draw, in draw order, and line k is `latin + " " + english + "\n"` for the entry of draw k, with NUMBERS[latin] == english |
| Corpus.CorpusLinesParse | latin-numbers/data/basic/prepare.py:54-64 | Every line of every corpus parses into a Latin word that is a key of NUMBERS and the English word NUMBERS maps it to |
| Corpus.GenerateTranslationData | latin-numbers/data/basic/prepare.py:51-64 | The loop that appends one line per draw, and the join after it, return exactly the corpus of the draws; it has one newline per draw and is empty exactly when num_sequences is 0 |
| Tokenizer.Vocabulary | latin-numbers/data/basic/prepare.py:73 | `chars` is strictly increasing, and a character is in it exactly when it occurs in the text |
| Tokenizer.SortedUnique | latin-numbers/data/basic/prepare.py:73 | Two strictly increasing sequences with the same elements are equal |
| Tokenizer.VocabularyIsSortedSet | latin-numbers/data/basic/prepare.py:72-73 | Any sorted, repetition-free listing of exactly the text's characters equals `chars`, so `chars` is sorted(set(train + val)) |
| Tokenizer.VocabularySize | latin-numbers/data/basic/prepare.py:73-74 | vocab_size == len(chars) is the number of distinct characters of train + val |
| Tokenizer.VocabularyWithin | latin-numbers/data/basic/prepare.py:73-74 | A text written in a repetition-free alphabet has at most as many distinct characters as the alphabet |
| Tokenizer.Itos | latin-numbers/data/basic/prepare.py:80 | itos has exactly the keys 0 to len(chars) - 1 and maps i to chars[i] |
| Tokenizer.Stoi | latin-numbers/data/basic/prepare.py:79 | stoi has exactly the characters of `chars` as keys and maps each to a position that holds it, the last such position, as the dict comprehension over enumerate keeps the index stored last |
| Tokenizer.StoiItosInverse | latin-numbers/data/basic/prepare.py:79-80 | For the repetition-free `chars`, itos[stoi[c]] == c and stoi[itos[i]] == i: the two tables are inverse bijections between the vocabulary and 0 to vocab_size - 1 |
| Tokenizer.Encode | latin-numbers/data/basic/prepare.py:83-84 | encode succeeds exactly when every character is a key of stoi (otherwise it is the KeyError), and then has the text's length with element k equal to stoi of character k |
| Tokenizer.Decode | latin-numbers/data/basic/prepare.py:86-87 | decode succeeds exactly when every index is a key of itos (otherwise it is the KeyError), and then has the list's length with character k equal to itos of index k |
| Tokenizer.EncodeInRange | latin-numbers/data/basic/prepare.py:83-84 | With the vocabulary's stoi, encode succeeds exactly when every character is in `chars`, keeps the length, and yields indices below vocab_size |
| Tokenizer.DecodeEncode | latin-numbers/data/basic/prepare.py:83-87 | decode(encode(s)) == s for every s over the vocabulary |
| Tokenizer.EncodeDecode | latin-numbers/data/basic/prepare.py:83-87 | encode(decode(l)) == l for every l whose indices are below vocab_size |
| Tokenizer.SplitsEncode | latin-numbers/data/basic/prepare.py:72-91 | Every character of train_data and of val_data is in the vocabulary built from their concatenation, so encoding either raises no KeyError |
| Prepare.ToUint16 | latin-numbers/data/basic/prepare.py:97-98 | The conversion succeeds exactly when every index is below 65536, and then keeps the length and every value |
| Prepare.WidenToUint16 | latin-numbers/data/basic/prepare.py:97-98 | For indices below 65536, reading the uint16 array back gives the indices it was made of |
| Prepare.VocabularyFitsUint16 | latin-numbers/data/basic/prepare.py:72-98 | The vocabulary of two generated splits has at most 24 characters (the 22 letters, the space and the newline), below 65536, so every index fits in a uint16 |
| Prepare.SplitRoundTrip | latin-numbers/data/basic/prepare.py:83-98 | A split over the vocabulary encodes, converts to a uint16 array of its own length with every entry below vocab_size, and decodes from that array back to itself |
| Prepare.BuildMeta | latin-numbers/data/basic/prepare.py:104-108 | meta's vocab_size is len(chars); its itos has exactly the keys 0 to vocab_size - 1 with itos[i] == chars[i]; its stoi has exactly the characters of chars as keys with itos[stoi[c]] == c; and for a repetition-free chars stoi[itos[i]] == i |
| Prepare.PrepareData | latin-numbers/data/basic/prepare.py:66-108 | The splits are the corpora of the draws, with one newline per line; meta is built from the sorted vocabulary, with vocab_size the number of distinct characters (at most 24); each uint16 array is as long as its split (the sum of its lines' lengths), has every entry below vocab_size, and decodes with itos back to its split |

## Left out

- Pseudo-random draws: `random.seed(42)`, `np.random.seed(42)` and `random.choice` (lines 15-16, 58) depend on Python's Mersenne Twister; the draws are an input instead, so reproducibility across runs is not modelled.
- Negative `num_sequences`: `range` of a negative count is empty, so the script would return the empty string; a sequence of draws cannot have negative length, so that case cannot be expressed, and the script never passes a negative count.
- Binary output: `tofile` (lines 100-101) writes the arrays in the machine's native byte order; only the lossless `uint16` conversion is modelled.
- Metadata file: the `pickle.dump` of `meta` (lines 110-111) and the `os.path` handling are foreign-library I/O; the `meta` value itself is modelled (`Prepare.BuildMeta`).
- Console output: every `print`, including the 300-character sample (lines 67, 75-76, 93-94, 113-118), is informational.
- The default `num_sequences=10000` is never used by the script; the number of lines is the number of draws. `num_sequences` may be 0, which gives the empty string (`Corpus.Corpus`).
- Prepare.ToUint16: for an index of 65536 or more it gives the error that NumPy 2 raises; older NumPy versions wrapped such values modulo 65536 instead. No index of the pipeline reaches that range, so the difference never arises.
