/** The corpus builder: draws from the table, one formatted line per draw,
    joined in draw order. The pseudo-random choices are an explicit input. */
module Corpus {
  import opened Wrappers
  import Lexicon
  import Alphabet

  /** A sequence of draws stands for the successive results of random.choice on the
      key list: each draw is a position in that list. Its length is num_sequences. */
  predicate ValidDraws(draws: seq<nat>) {
    forall k :: 0 <= k < |draws| ==> draws[k] < Lexicon.EntryCount
  }

  /** A well-formed line: it ends with a newline and holds no other newline. */
  predicate IsLine(s: string) {
    |s| > 0 && s[|s| - 1] == '\n' && forall k :: 0 <= k < |s| - 1 ==> s[k] != '\n'
  }

  /** The characters a corpus can contain: the table's letters, space and newline. */
  predicate IsCorpusChar(c: char) {
    c in Alphabet.CorpusChars
  }

  /** The line of draw d: entry d of the table, formatted. */
  function LineFor(d: nat): string
    requires d < Lexicon.EntryCount
  {
    Lexicon.FormatLine(Lexicon.Entry(d).0, Lexicon.Entry(d).1)
  }

  /** The line of a draw is well formed and parses back into its table entry. */
  lemma LineForParses(d: nat)
    requires d < Lexicon.EntryCount
    ensures IsLine(LineFor(d))
    ensures Lexicon.ParseLine(LineFor(d)) == Some(Lexicon.Entry(d))
  {
    var (latin, english) := Lexicon.Entry(d);
    var line := LineFor(d);
    Lexicon.EntriesUseLetters();
    Alphabet.SeparatorsAreNoLetters();
    assert ' ' !in latin;
    Lexicon.ParseFormatLine(latin, english);
    forall k | 0 <= k < |line| - 1 ensures line[k] != '\n' {
      if k < |latin| {
        assert line[k] == latin[k];
      } else if |latin| < k {
        assert line[k] == english[k - |latin| - 1];
      }
    }
  }

  /** Every line is written in the corpus alphabet. */
  lemma LineForAlphabet(d: nat)
    requires d < Lexicon.EntryCount
    ensures forall k :: 0 <= k < |LineFor(d)| ==> IsCorpusChar(LineFor(d)[k])
  {
    var (latin, english) := Lexicon.Entry(d);
    var line := LineFor(d);
    Lexicon.EntriesUseLetters();
    Alphabet.LettersAreCorpusChars();
    forall k | 0 <= k < |line| ensures IsCorpusChar(line[k]) {
      if k < |latin| {
        assert line[k] == latin[k];
      } else if |latin| < k < |line| - 1 {
        assert line[k] == english[k - |latin| - 1];
      }
    }
  }

  /** The list `data` after the loop has run once per draw: one line per draw. */
  function Lines(draws: seq<nat>): (ls: seq<string>)
    requires ValidDraws(draws)
    ensures |ls| == |draws|
  {
    if draws == [] then []
    else
      var init := draws[..|draws| - 1];
      assert forall k :: 0 <= k < |init| ==> init[k] == draws[k];
      Lines(init) + [LineFor(draws[|draws| - 1])]
  }

  /** Line k of the list is the line of draw k: the lines come in draw order. */
  lemma {:induction false} LinesAt(draws: seq<nat>)
    requires ValidDraws(draws)
    ensures forall k :: 0 <= k < |draws| ==> Lines(draws)[k] == LineFor(draws[k])
  {
    if draws != [] {
      var n := |draws|;
      var init := draws[..n - 1];
      assert forall k :: 0 <= k < |init| ==> init[k] == draws[k];
      LinesAt(init);
      var front := Lines(init);
      var last := LineFor(draws[n - 1]);
      assert draws[..n] == draws;
      LinesExtend(draws, n - 1);
      var whole := front + [last];
      assert Lines(draws) == whole;
      forall k | 0 <= k < n ensures whole[k] == LineFor(draws[k]) {
        if k < n - 1 {
          assert whole[k] == front[k];
          assert init[k] == draws[k];
        }
      }
    }
  }

  /** Every line of the list is well formed and parses into its draw's entry. */
  lemma LinesParse(draws: seq<nat>)
    requires ValidDraws(draws)
    ensures forall k :: 0 <= k < |draws| ==>
      IsLine(Lines(draws)[k]) && Lexicon.ParseLine(Lines(draws)[k]) == Some(Lexicon.Entry(draws[k]))
  {
    LinesAt(draws);
    forall k | 0 <= k < |draws| {
      LineForParses(draws[k]);
    }
  }

  /** Joined, the lines hold one newline per draw. */
  lemma LinesNewlines(draws: seq<nat>)
    requires ValidDraws(draws)
    ensures CountChar(Join(Lines(draws)), '\n') == |draws|
  {
    LinesParse(draws);
    JoinNewlines(Lines(draws));
  }

  /** Joined, the lines are written in the corpus alphabet. */
  lemma LinesAlphabet(draws: seq<nat>)
    requires ValidDraws(draws)
    ensures forall k :: 0 <= k < |Join(Lines(draws))| ==> IsCorpusChar(Join(Lines(draws))[k])
  {
    var lines := Lines(draws);
    LinesAt(draws);
    forall i, k | 0 <= i < |lines| && 0 <= k < |lines[i]| ensures IsCorpusChar(lines[i][k]) {
      LineForAlphabet(draws[i]);
    }
    JoinAlphabet(lines);
  }

  /** ''.join(parts). */
  function Join(parts: seq<string>): (text: string)
    ensures |text| == TotalLength(parts)
  {
    if parts == [] then "" else Join(parts[..|parts| - 1]) + parts[|parts| - 1]
  }

  /** The text generate_translation_data returns for the given draws: as long as the
      chosen lines together, one newline per draw (so empty exactly when there are no
      draws), and written in the corpus alphabet. */
  function Corpus(draws: seq<nat>): (text: string)
    requires ValidDraws(draws)
    ensures |text| == TotalLength(Lines(draws))
    ensures CountChar(text, '\n') == |draws|
    ensures text == "" <==> draws == []
    ensures forall k :: 0 <= k < |text| ==> IsCorpusChar(text[k])
  {
    LinesNewlines(draws);
    LinesAlphabet(draws);
    Join(Lines(draws))
  }

  /** A single draw of position 4 gives the one-line corpus "quinque five\n". */
  lemma CorpusQuinque()
    ensures ValidDraws([4]) && Corpus([4]) == "quinque five\n"
  {
    Lexicon.QuinqueLine();
    assert [4][..0] == [];
  }

  /** One more draw appends its line to the list. */
  lemma LinesExtend(draws: seq<nat>, i: nat)
    requires ValidDraws(draws) && i < |draws|
    ensures Lines(draws[..i + 1]) == Lines(draws[..i]) + [LineFor(draws[i])]
  {
    assert draws[..i + 1][..i] == draws[..i];
  }

  /** The number of occurrences of c in s. */
  function CountChar(s: string, c: char): nat {
    if s == [] then 0 else CountChar(s[..|s| - 1], c) + (if s[|s| - 1] == c then 1 else 0)
  }

  lemma {:induction false} CountCharAppend(a: string, b: string, c: char)
    ensures CountChar(a + b, c) == CountChar(a, c) + CountChar(b, c)
  {
    if b != [] {
      assert (a + b)[..|a + b| - 1] == a + b[..|b| - 1];
      CountCharAppend(a, b[..|b| - 1], c);
    } else {
      assert a + b == a;
    }
  }

  /** A well-formed line holds exactly one newline. */
  lemma OneNewlinePerLine(line: string)
    requires IsLine(line)
    ensures CountChar(line, '\n') == 1
  {
    var body := line[..|line| - 1];
    assert CountChar(body, '\n') == 0 by {
      NoOccurrence(body, '\n');
    }
  }

  lemma {:induction false} NoOccurrence(s: string, c: char)
    requires forall k :: 0 <= k < |s| ==> s[k] != c
    ensures CountChar(s, c) == 0
  {
    if s != [] {
      NoOccurrence(s[..|s| - 1], c);
    }
  }

  /** Joining well-formed lines gives one newline per line. */
  lemma {:induction false} JoinNewlines(parts: seq<string>)
    requires forall k :: 0 <= k < |parts| ==> IsLine(parts[k])
    ensures CountChar(Join(parts), '\n') == |parts|
  {
    if parts != [] {
      var init := parts[..|parts| - 1];
      JoinNewlines(init);
      CountCharAppend(Join(init), parts[|parts| - 1], '\n');
      OneNewlinePerLine(parts[|parts| - 1]);
    }
  }

  /** The sum of the lengths of the parts. */
  function TotalLength(parts: seq<string>): nat {
    if parts == [] then 0 else TotalLength(parts[..|parts| - 1]) + |parts[|parts| - 1]|
  }

  /** Joining also peels off from the front. */
  lemma {:induction false} JoinFirst(parts: seq<string>)
    requires parts != []
    ensures Join(parts) == parts[0] + Join(parts[1..])
  {
    var n := |parts|;
    if n == 1 {
      assert parts[..0] == [] && parts[1..] == [];
    } else {
      var init := parts[..n - 1];
      var tail := parts[1..];
      JoinFirst(init);
      assert init[0] == parts[0];
      assert tail[..|tail| - 1] == init[1..];
      assert tail[|tail| - 1] == parts[n - 1];
      calc {
        Join(parts);
        Join(init) + parts[n - 1];
        parts[0] + Join(init[1..]) + parts[n - 1];
        parts[0] + (Join(tail[..|tail| - 1]) + tail[|tail| - 1]);
        parts[0] + Join(tail);
      }
    }
  }

  /** Cuts a text into its lines, each keeping its newline; a last piece without a
      newline becomes a line of its own. */
  function SplitLines(s: string): seq<string>
    decreases |s|
  {
    if s == [] then []
    else
      var k := Lexicon.IndexOf(s, '\n');
      if k == |s| then [s] else [s[..k + 1]] + SplitLines(s[k + 1..])
  }

  /** A well-formed line at the front of a text is its first line. */
  lemma SplitFirstLine(line: string, rest: string)
    requires IsLine(line)
    ensures SplitLines(line + rest) == [line] + SplitLines(rest)
  {
    var s := line + rest;
    var k := Lexicon.IndexOf(s, '\n');
    assert s[|line| - 1] == '\n';
    assert k == |line| - 1;
    assert s[..k + 1] == line;
    assert s[k + 1..] == rest;
  }

  /** Splitting undoes joining, for well-formed lines. */
  lemma {:induction false} SplitJoin(parts: seq<string>)
    requires forall k :: 0 <= k < |parts| ==> IsLine(parts[k])
    ensures SplitLines(Join(parts)) == parts
  {
    if parts != [] {
      var rest := parts[1..];
      assert forall k :: 0 <= k < |rest| ==> rest[k] == parts[k + 1];
      JoinFirst(parts);
      SplitFirstLine(parts[0], Join(rest));
      SplitJoin(rest);
      assert parts == [parts[0]] + rest;
    }
  }

  /** Lines come from the table: cut into lines, the corpus has one line per draw,
      and line k is exactly `latin + " " + english + "\n"` for the entry of draw k,
      with NUMBERS[latin] == english. */
  lemma CorpusLinesAreEntries(draws: seq<nat>)
    requires ValidDraws(draws)
    ensures |SplitLines(Corpus(draws))| == |draws|
    ensures forall k :: 0 <= k < |draws| ==>
      && SplitLines(Corpus(draws))[k] == Lexicon.FormatLine(Lexicon.Entry(draws[k]).0, Lexicon.Entry(draws[k]).1)
      && Lexicon.Numbers()[Lexicon.Entry(draws[k]).0] == Lexicon.Entry(draws[k]).1
  {
    LinesAt(draws);
    LinesParse(draws);
    SplitJoin(Lines(draws));
  }

  /** Every line of any corpus parses as an entry of the dictionary. */
  lemma CorpusLinesParse(draws: seq<nat>)
    requires ValidDraws(draws)
    ensures forall line :: line in SplitLines(Corpus(draws)) ==>
      && Lexicon.ParseLine(line).Some?
      && Lexicon.ParseLine(line).value.0 in Lexicon.Numbers()
      && Lexicon.Numbers()[Lexicon.ParseLine(line).value.0] == Lexicon.ParseLine(line).value.1
  {
    LinesParse(draws);
    SplitJoin(Lines(draws));
  }

  /** Joining texts over the corpus alphabet stays within it. */
  lemma {:induction false} JoinAlphabet(parts: seq<string>)
    requires forall i, k :: 0 <= i < |parts| && 0 <= k < |parts[i]| ==> IsCorpusChar(parts[i][k])
    ensures forall k :: 0 <= k < |Join(parts)| ==> IsCorpusChar(Join(parts)[k])
  {
    if parts != [] {
      var init := parts[..|parts| - 1];
      var last := parts[|parts| - 1];
      JoinAlphabet(init);
      var prefix := Join(init);
      forall k | 0 <= k < |Join(parts)| ensures IsCorpusChar(Join(parts)[k]) {
        if k >= |prefix| {
          assert Join(parts)[k] == last[k - |prefix|];
        } else {
          assert Join(parts)[k] == prefix[k];
        }
      }
    }
  }

  /** generate_translation_data: one line per draw appended to `data`, then joined. */
  method GenerateTranslationData(draws: seq<nat>) returns (text: string)
    requires ValidDraws(draws)
    ensures text == Corpus(draws)
    ensures CountChar(text, '\n') == |draws|
    ensures text == "" <==> |draws| == 0
  {
    var data: seq<string> := [];
    var latinWords := Lexicon.LatinWords();
    Lexicon.LatinWordsAreTheKeys();
    for i := 0 to |draws|
      invariant data == Lines(draws[..i])
    {
      var latin := latinWords[draws[i]];
      var english := Lexicon.Numbers()[latin];
      var line := Lexicon.FormatLine(latin, english);
      assert line == LineFor(draws[i]);
      LinesExtend(draws, i);
      data := data + [line];
    }
    text := Join(data);
    assert draws[..|draws|] == draws;
  }
}
