/** The character-level tokenizer: the sorted vocabulary of distinct characters,
    the two index tables built by enumerating it, and encode/decode. */
module Tokenizer {
  import opened Wrappers

  /** Sorted in code-point order with no character repeated. */
  predicate StrictlyIncreasing(s: seq<char>) {
    forall i, j :: 0 <= i < j < |s| ==> s[i] < s[j]
  }

  /** set(text): the distinct characters of a text. */
  function CharSet(text: string): set<char> {
    set c | c in text
  }

  /** Adds one character to a sorted, repetition-free sequence. */
  function Insert(xs: seq<char>, c: char): (r: seq<char>)
    requires StrictlyIncreasing(xs)
    ensures StrictlyIncreasing(r)
    ensures forall x :: x in r <==> x in xs || x == c
  {
    if xs == [] then [c]
    else if c < xs[0] then [c] + xs
    else if c == xs[0] then xs
    else
      var rest := Insert(xs[1..], c);
      assert forall j :: 0 <= j < |rest| ==> xs[0] < rest[j] by {
        forall j | 0 <= j < |rest| ensures xs[0] < rest[j] {
          assert rest[j] in rest;
        }
      }
      [xs[0]] + rest
  }

  /** chars = sorted(list(set(text))): the distinct characters of the text in
      ascending code-point order. */
  function Vocabulary(text: string): (chars: seq<char>)
    ensures StrictlyIncreasing(chars)
    ensures forall c :: c in chars <==> c in text
  {
    if text == [] then []
    else
      var init := text[..|text| - 1];
      var r := Insert(Vocabulary(init), text[|text| - 1]);
      assert forall c :: c in text <==> c in init || c == text[|text| - 1] by {
        assert text == init + [text[|text| - 1]];
      }
      r
  }

  /** Two repetition-free sequences with the same elements have the same length. */
  lemma SameElementsSameLength(a: seq<char>, b: seq<char>)
    requires StrictlyIncreasing(a) && StrictlyIncreasing(b)
    requires forall c :: c in a <==> c in b
    ensures |a| == |b|
  {
    DistinctCount(a);
    DistinctCount(b);
    assert (set c | c in a) == (set c | c in b);
  }

  /** With the same elements, two sorted sequences start with the same least element,
      and their tails have the same elements. */
  lemma SameElementsSameHead(a: seq<char>, b: seq<char>)
    requires StrictlyIncreasing(a) && StrictlyIncreasing(b)
    requires forall c :: c in a <==> c in b
    requires a != [] && b != []
    ensures a[0] == b[0]
    ensures forall c :: c in a[1..] <==> c in b[1..]
  {
    assert a[0] in b && b[0] in a;
    var i :| 0 <= i < |b| && b[i] == a[0];
    var j :| 0 <= j < |a| && a[j] == b[0];
    assert b[0] <= b[i] && a[0] <= a[j];
    forall c ensures c in a[1..] <==> c in b[1..] {
      if c in a[1..] {
        var i :| 1 <= i < |a| && a[i] == c;
        assert c in b && c != b[0];
      }
      if c in b[1..] {
        var i :| 1 <= i < |b| && b[i] == c;
        assert c in a && c != a[0];
      }
    }
  }

  /** A sorted, repetition-free sequence is determined by its elements. */
  lemma {:induction false} SortedUnique(a: seq<char>, b: seq<char>)
    requires StrictlyIncreasing(a) && StrictlyIncreasing(b)
    requires forall c :: c in a <==> c in b
    ensures a == b
  {
    SameElementsSameLength(a, b);
    if a != [] {
      SameElementsSameHead(a, b);
      SortedUnique(a[1..], b[1..]);
      assert a == [a[0]] + a[1..] && b == [b[0]] + b[1..];
    }
  }

  /** The vocabulary is THE sorted list of the text's distinct characters: any
      sorted, repetition-free listing of exactly those characters equals it. */
  lemma VocabularyIsSortedSet(text: string, chars: seq<char>)
    requires StrictlyIncreasing(chars)
    requires forall c :: c in chars <==> c in text
    ensures chars == Vocabulary(text)
  {
    SortedUnique(chars, Vocabulary(text));
  }

  /** A repetition-free sequence has as many distinct elements as positions. */
  lemma {:induction false} DistinctCount(s: seq<char>)
    requires StrictlyIncreasing(s)
    ensures |set c | c in s| == |s|
  {
    if s != [] {
      DistinctCount(s[1..]);
      assert (set c | c in s) == {s[0]} + (set c | c in s[1..]);
      assert s[0] !in s[1..];
    }
  }

  /** A sequence each of whose elements is smaller than the next is strictly
      increasing. */
  lemma {:induction false} AdjacentIncreasing(s: seq<char>)
    requires forall k :: 0 <= k < |s| - 1 ==> s[k] < s[k + 1]
    ensures StrictlyIncreasing(s)
  {
    if |s| > 1 {
      AdjacentIncreasing(s[1..]);
      forall i, j | 0 <= i < j < |s| ensures s[i] < s[j] {
        if i > 0 {
          assert s[1..][i - 1] < s[1..][j - 1];
        } else if j > 1 {
          assert s[1..][0] < s[1..][j - 1];
        }
      }
    }
  }

  /** A repetition-free sequence all of whose elements occur in another
      repetition-free sequence is no longer than it. */
  lemma IncreasingWithin(xs: seq<char>, ys: seq<char>)
    requires StrictlyIncreasing(xs) && StrictlyIncreasing(ys)
    requires forall c :: c in xs ==> c in ys
    ensures |xs| <= |ys|
  {
    DistinctCount(xs);
    DistinctCount(ys);
    var a, b := set c | c in xs, set c | c in ys;
    assert b == a + (b - a) && a * (b - a) == {};
  }

  /** vocab_size == len(chars) is the number of distinct characters of the text. */
  lemma VocabularySize(text: string)
    ensures |Vocabulary(text)| == |CharSet(text)|
  {
    var chars := Vocabulary(text);
    DistinctCount(chars);
    assert (set c | c in chars) == CharSet(text);
  }

  /** A text written in a repetition-free alphabet has at most as many distinct
      characters as the alphabet. */
  lemma VocabularyWithin(text: string, alphabet: seq<char>)
    requires StrictlyIncreasing(alphabet)
    requires forall k :: 0 <= k < |text| ==> text[k] in alphabet
    ensures |Vocabulary(text)| <= |alphabet|
  {
    IncreasingWithin(Vocabulary(text), alphabet);
  }

  /** itos = {i: ch for i, ch in enumerate(chars)}. */
  function Itos(chars: seq<char>): (m: map<nat, char>)
    ensures forall i: nat :: i in m <==> i < |chars|
    ensures forall i :: 0 <= i < |chars| ==> m[i] == chars[i]
  {
    map i: nat | i < |chars| :: chars[i]
  }

  /** The position of the last occurrence of c: with enumerate, a dictionary
      comprehension keeps the index it stores last. */
  function LastIndex(chars: seq<char>, c: char): (r: nat)
    requires c in chars
    ensures r < |chars| && chars[r] == c
    ensures forall j :: r < j < |chars| ==> chars[j] != c
  {
    if chars[|chars| - 1] == c then |chars| - 1
    else LastIndex(chars[..|chars| - 1], c)
  }

  /** stoi = {ch: i for i, ch in enumerate(chars)}. */
  function Stoi(chars: seq<char>): (m: map<char, nat>)
    ensures forall c :: c in m <==> c in chars
    ensures forall c :: c in m ==> m[c] < |chars| && chars[m[c]] == c
    ensures forall c, j :: c in m && m[c] < j < |chars| ==> chars[j] != c
  {
    map c | c in chars :: LastIndex(chars, c)
  }

  /** stoi and itos are mutually inverse bijections between the vocabulary and
      [0, vocab_size). */
  lemma StoiItosInverse(chars: seq<char>)
    requires StrictlyIncreasing(chars)
    ensures forall c :: c in Stoi(chars) <==> c in chars
    ensures forall i: nat :: i in Itos(chars) <==> i < |chars|
    ensures forall c :: c in Stoi(chars) ==> Stoi(chars)[c] in Itos(chars) && Itos(chars)[Stoi(chars)[c]] == c
    ensures forall i :: 0 <= i < |chars| ==> Itos(chars)[i] in Stoi(chars) && Stoi(chars)[Itos(chars)[i]] == i
  {
    forall i | 0 <= i < |chars| ensures Stoi(chars)[chars[i]] == i {
      var j := LastIndex(chars, chars[i]);
      assert j == i;
    }
  }

  /** encode(s) = [stoi[c] for c in s]; None is the KeyError raised for a character
      that stoi lacks. */
  function Encode(stoi: map<char, nat>, s: string): (r: Option<seq<nat>>)
    ensures r.Some? <==> forall k :: 0 <= k < |s| ==> s[k] in stoi
    ensures r.Some? ==> |r.value| == |s| && forall k :: 0 <= k < |s| ==> r.value[k] == stoi[s[k]]
  {
    if s == [] then Some([])
    else
      match Encode(stoi, s[..|s| - 1])
      case None => None
      case Some(ids) =>
        if s[|s| - 1] in stoi then Some(ids + [stoi[s[|s| - 1]]]) else None
  }

  /** decode(l) = ''.join([itos[i] for i in l]); None is the KeyError raised for an
      index that itos lacks. */
  function Decode(itos: map<nat, char>, l: seq<nat>): (r: Option<string>)
    ensures r.Some? <==> forall k :: 0 <= k < |l| ==> l[k] in itos
    ensures r.Some? ==> |r.value| == |l| && forall k :: 0 <= k < |l| ==> r.value[k] == itos[l[k]]
  {
    if l == [] then Some("")
    else
      match Decode(itos, l[..|l| - 1])
      case None => None
      case Some(text) =>
        if l[|l| - 1] in itos then Some(text + [itos[l[|l| - 1]]]) else None
  }

  /** Encoding with the vocabulary's table succeeds exactly when every character is
      in the vocabulary, preserves length, and yields indices below vocab_size. */
  lemma EncodeInRange(chars: seq<char>, s: string)
    requires StrictlyIncreasing(chars)
    ensures Encode(Stoi(chars), s).Some? <==> forall k :: 0 <= k < |s| ==> s[k] in chars
    ensures Encode(Stoi(chars), s).Some? ==>
      && |Encode(Stoi(chars), s).value| == |s|
      && forall k :: 0 <= k < |s| ==> Encode(Stoi(chars), s).value[k] < |chars|
  {
    StoiItosInverse(chars);
  }

  /** decode(encode(s)) == s for every s over the vocabulary. */
  lemma DecodeEncode(chars: seq<char>, s: string)
    requires StrictlyIncreasing(chars)
    requires forall k :: 0 <= k < |s| ==> s[k] in chars
    ensures Encode(Stoi(chars), s).Some?
    ensures Decode(Itos(chars), Encode(Stoi(chars), s).value) == Some(s)
  {
    StoiItosInverse(chars);
    var ids := Encode(Stoi(chars), s).value;
    var back := Decode(Itos(chars), ids);
    assert back.Some?;
    assert back.value == s;
  }

  /** encode(decode(l)) == l for every l whose indices are below vocab_size. */
  lemma EncodeDecode(chars: seq<char>, l: seq<nat>)
    requires StrictlyIncreasing(chars)
    requires forall k :: 0 <= k < |l| ==> l[k] < |chars|
    ensures Decode(Itos(chars), l).Some?
    ensures Encode(Stoi(chars), Decode(Itos(chars), l).value) == Some(l)
  {
    StoiItosInverse(chars);
    var text := Decode(Itos(chars), l).value;
    var back := Encode(Stoi(chars), text);
    assert back.Some?;
    assert back.value == l;
  }

  /** Both splits encode without a KeyError, because the vocabulary was built from
      their concatenation. */
  lemma SplitsEncode(train: string, val: string)
    ensures forall k :: 0 <= k < |train| ==> train[k] in Vocabulary(train + val)
    ensures forall k :: 0 <= k < |val| ==> val[k] in Vocabulary(train + val)
    ensures Encode(Stoi(Vocabulary(train + val)), train).Some?
    ensures Encode(Stoi(Vocabulary(train + val)), val).Some?
  {
    var chars := Vocabulary(train + val);
    EncodeInRange(chars, train);
    EncodeInRange(chars, val);
    assert forall k :: 0 <= k < |train| ==> train[k] == (train + val)[k];
    assert forall k :: 0 <= k < |val| ==> val[k] == (train + val)[|train| + k];
  }
}
