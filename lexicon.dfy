/** The fixed Latin-to-English number table and the format of one corpus line. */
module Lexicon {
  import opened Wrappers
  import Alphabet

  /** The number of entries in the table. */
  const EntryCount: nat := 28

  /** Entry i of the table: the pair (Latin word, English word) that the dictionary
      literal lists in position i, which is also the position of its key in the
      dictionary's key order. */
  function Entry(i: nat): (string, string)
    requires i < EntryCount
  {
    match i
    case 0 => ("unus", "one")
    case 1 => ("duo", "two")
    case 2 => ("tres", "three")
    case 3 => ("quattuor", "four")
    case 4 => ("quinque", "five")
    case 5 => ("sex", "six")
    case 6 => ("septem", "seven")
    case 7 => ("octo", "eight")
    case 8 => ("novem", "nine")
    case 9 => ("decem", "ten")
    case 10 => ("undecim", "eleven")
    case 11 => ("duodecim", "twelve")
    case 12 => ("tredecim", "thirteen")
    case 13 => ("quattuordecim", "fourteen")
    case 14 => ("quindecim", "fifteen")
    case 15 => ("sedecim", "sixteen")
    case 16 => ("septendecim", "seventeen")
    case 17 => ("duodeviginti", "eighteen")
    case 18 => ("undeviginti", "nineteen")
    case 19 => ("viginti", "twenty")
    case 20 => ("triginta", "thirty")
    case 21 => ("quadraginta", "forty")
    case 22 => ("quinquaginta", "fifty")
    case 23 => ("sexaginta", "sixty")
    case 24 => ("septuaginta", "seventy")
    case 25 => ("octoginta", "eighty")
    case 26 => ("nonaginta", "ninety")
    case _ => ("centum", "hundred")
  }

  /** No two entries share a Latin word. */
  lemma EntriesHaveDistinctKeys()
    ensures forall i, j :: 0 <= i < j < EntryCount ==> Entry(i).0 != Entry(j).0
  {
  }

  /** The dictionary NUMBERS: Latin word to English word. */
  function Numbers(): (m: map<string, string>)
    ensures forall i :: 0 <= i < EntryCount ==> Entry(i).0 in m && m[Entry(i).0] == Entry(i).1
    ensures forall w :: w in m ==> exists i :: 0 <= i < EntryCount && Entry(i).0 == w
  {
    EntriesHaveDistinctKeys();
    map i | 0 <= i < EntryCount :: Entry(i).0 := Entry(i).1
  }

  /** list(NUMBERS.keys()): the Latin words in table order, each once; there are 28
      of them. */
  function LatinWords(): (ws: seq<string>)
    ensures |ws| == EntryCount == 28
    ensures forall i :: 0 <= i < |ws| ==> ws[i] == Entry(i).0
    ensures forall i, j :: 0 <= i < j < |ws| ==> ws[i] != ws[j]
  {
    EntriesHaveDistinctKeys();
    seq(EntryCount, i requires 0 <= i < EntryCount => Entry(i).0)
  }

  /** The Latin words are exactly the keys of NUMBERS. */
  lemma LatinWordsAreTheKeys()
    ensures forall i :: 0 <= i < |LatinWords()| ==> LatinWords()[i] in Numbers()
    ensures forall w :: w in Numbers() <==> w in LatinWords()
  {
    var ws := LatinWords();
    forall w | w in Numbers() ensures w in ws {
      var i :| 0 <= i < EntryCount && Entry(i).0 == w;
      assert ws[i] == w;
    }
  }

  /** A word written with the table's letters only. */
  predicate IsTableWord(w: string) {
    forall k :: 0 <= k < |w| ==> w[k] in Alphabet.Letters
  }

  /** The entries for one to four use the table's letters only. */
  lemma EntriesUseLetters0To3(i: nat)
    requires 0 <= i < 4
    ensures IsTableWord(Entry(i).0) && IsTableWord(Entry(i).1)
  {
  }

  /** The entries for five to eight use the table's letters only. */
  lemma EntriesUseLetters4To7(i: nat)
    requires 4 <= i < 8
    ensures IsTableWord(Entry(i).0) && IsTableWord(Entry(i).1)
  {
  }

  /** The entries for nine to twelve use the table's letters only. */
  lemma EntriesUseLetters8To11(i: nat)
    requires 8 <= i < 12
    ensures IsTableWord(Entry(i).0) && IsTableWord(Entry(i).1)
  {
  }

  /** The entries for thirteen to sixteen use the table's letters only. */
  lemma EntriesUseLetters12To15(i: nat)
    requires 12 <= i < 16
    ensures IsTableWord(Entry(i).0) && IsTableWord(Entry(i).1)
  {
  }

  /** The entries for seventeen to twenty use the table's letters only. */
  lemma EntriesUseLetters16To19(i: nat)
    requires 16 <= i < 20
    ensures IsTableWord(Entry(i).0) && IsTableWord(Entry(i).1)
  {
  }

  /** The entries for thirty to sixty use the table's letters only. */
  lemma EntriesUseLetters20To23(i: nat)
    requires 20 <= i < 24
    ensures IsTableWord(Entry(i).0) && IsTableWord(Entry(i).1)
  {
  }

  /** The entries for seventy to one hundred use the table's letters only. */
  lemma EntriesUseLetters24To27(i: nat)
    requires 24 <= i < 28
    ensures IsTableWord(Entry(i).0) && IsTableWord(Entry(i).1)
  {
  }

  /** Every word of the table, on either side, is written with the table's letters. */
  lemma EntriesUseLetters()
    ensures forall i :: 0 <= i < EntryCount ==> IsTableWord(Entry(i).0) && IsTableWord(Entry(i).1)
  {
    forall i | 0 <= i < EntryCount
      ensures IsTableWord(Entry(i).0) && IsTableWord(Entry(i).1)
    {
      if i < 4 { EntriesUseLetters0To3(i); }
      else if i < 8 { EntriesUseLetters4To7(i); }
      else if i < 12 { EntriesUseLetters8To11(i); }
      else if i < 16 { EntriesUseLetters12To15(i); }
      else if i < 20 { EntriesUseLetters16To19(i); }
      else if i < 24 { EntriesUseLetters20To23(i); }
      else { EntriesUseLetters24To27(i); }
    }
  }

  /** A character found at some position of a word occurs in it. */
  lemma OccursIn(c: char, w: string, k: nat)
    requires k < |w| && w[k] == c
    ensures c in w
  {
  }

  /** Each of the letters occurs in some word of the table, so Letters is exactly the
      set of letters the table uses. */
  lemma LettersAreUsed()
    ensures forall c :: c in Alphabet.Letters ==> exists i :: 0 <= i < EntryCount && (c in Entry(i).0 || c in Entry(i).1)
  {
    forall c | c in Alphabet.Letters
      ensures exists i :: 0 <= i < EntryCount && (c in Entry(i).0 || c in Entry(i).1)
    {
      if c == 'a' { OccursIn(c, Entry(3).0, 2); }
      else if c == 'c' { OccursIn(c, Entry(7).0, 1); }
      else if c == 'd' { OccursIn(c, Entry(1).0, 0); }
      else if c == 'e' { OccursIn(c, Entry(0).1, 2); }
      else if c == 'f' { OccursIn(c, Entry(3).1, 0); }
      else if c == 'g' { OccursIn(c, Entry(7).1, 2); }
      else if c == 'h' { OccursIn(c, Entry(2).1, 1); }
      else if c == 'i' { OccursIn(c, Entry(4).0, 2); }
      else if c == 'l' { OccursIn(c, Entry(10).1, 1); }
      else if c == 'm' { OccursIn(c, Entry(6).0, 5); }
      else if c == 'n' { OccursIn(c, Entry(0).0, 1); }
      else if c == 'o' { OccursIn(c, Entry(0).1, 0); }
      else if c == 'p' { OccursIn(c, Entry(6).0, 2); }
      else if c == 'q' { OccursIn(c, Entry(3).0, 0); }
      else if c == 'r' { OccursIn(c, Entry(2).0, 1); }
      else if c == 's' { OccursIn(c, Entry(0).0, 3); }
      else if c == 't' { OccursIn(c, Entry(1).1, 0); }
      else if c == 'u' { OccursIn(c, Entry(0).0, 0); }
      else if c == 'v' { OccursIn(c, Entry(4).1, 2); }
      else if c == 'w' { OccursIn(c, Entry(1).1, 1); }
      else if c == 'x' { OccursIn(c, Entry(5).0, 2); }
      else if c == 'y' { OccursIn(c, Entry(19).1, 5); }
    }
  }

  /** The line f"{latin} {english}\n". */
  function FormatLine(latin: string, english: string): (line: string)
    ensures |line| == |latin| + |english| + 2
    ensures line[..|latin|] == latin && line[|latin|] == ' '
    ensures line[|latin| + 1..|line| - 1] == english && line[|line| - 1] == '\n'
  {
    latin + " " + english + "\n"
  }

  /** The first position of c in s, or |s| when c does not occur. */
  function IndexOf(s: string, c: char): (k: nat)
    ensures k <= |s|
    ensures k < |s| ==> s[k] == c
    ensures forall j :: 0 <= j < k ==> s[j] != c
  {
    if s == [] then 0
    else if s[0] == c then 0
    else 1 + IndexOf(s[1..], c)
  }

  /** Reads one line back into its Latin and English halves: the text before the
      first space, and the text between it and the terminating newline. A line
      without a terminating newline or without a space is not a corpus line. */
  function ParseLine(line: string): Option<(string, string)> {
    if |line| == 0 || line[|line| - 1] != '\n' then None
    else
      var body := line[..|line| - 1];
      var k := IndexOf(body, ' ');
      if k == |body| then None else Some((body[..k], body[k + 1..]))
  }

  /** Parsing undoes formatting whenever the Latin word holds no space. */
  lemma ParseFormatLine(latin: string, english: string)
    requires ' ' !in latin
    ensures ParseLine(FormatLine(latin, english)) == Some((latin, english))
  {
    var line := FormatLine(latin, english);
    var body := line[..|line| - 1];
    assert body == latin + " " + english;
    var k := IndexOf(body, ' ');
    assert body[|latin|] == ' ';
    assert k == |latin|;
    assert body[..k] == latin;
    assert body[k + 1..] == english;
  }

  /** Conversely, every line that parses is exactly the formatted line of its halves,
      and its Latin half holds no space. */
  lemma FormatParsedLine(line: string, latin: string, english: string)
    requires ParseLine(line) == Some((latin, english))
    ensures ' ' !in latin
    ensures line == FormatLine(latin, english)
  {
    var body := line[..|line| - 1];
    var k := IndexOf(body, ' ');
    assert latin == body[..k];
    assert body == latin + " " + english;
    assert line == body + "\n";
  }

  /** Formatting the table's 'quinque' entry gives the line "quinque five\n". */
  lemma QuinqueLine()
    ensures LatinWords()[4] == "quinque"
    ensures FormatLine(LatinWords()[4], Numbers()[LatinWords()[4]]) == "quinque five\n"
  {
    assert Entry(4) == ("quinque", "five");
    assert Numbers()["quinque"] == "five";
  }
}
