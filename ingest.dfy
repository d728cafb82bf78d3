/**
 * The ingestion side of main.go: the bufio split function that cuts the input into
 * paragraphs at "\n\n" (scanParagraph), and the loop that feeds a paragraph's words
 * into the chain (parseParagraph).
 */
module Ingest {
  import opened Mark

  newtype byte = b: int | 0 <= b < 256

  const LF: byte := 10

  /** The paragraph separator, "\n\n". */
  const BlankLine: seq<byte> := [LF, LF]

  datatype Option<T> = None | Some(value: T)

  /** What a bufio split function answers: bytes to consume and, when one is ready, a token (nil is None). */
  datatype Split = Split(advance: nat, token: Option<seq<byte>>)

  /** "\n\n" starts at index k of data. */
  predicate BlankAt(data: seq<byte>, k: int) {
    0 <= k && k + 1 < |data| && data[k] == LF && data[k + 1] == LF
  }

  ghost predicate HasBlankLine(data: seq<byte>) {
    exists k :: BlankAt(data, k)
  }

  /** The first "\n\n" of data starts at index i. */
  ghost predicate FirstBlankAt(data: seq<byte>, i: int) {
    BlankAt(data, i) && forall k :: 0 <= k < i ==> !BlankAt(data, k)
  }

  /** bytes.Index(data, []byte("\n\n")): where the first "\n\n" starts, or -1 when there is none. */
  function IndexBlankLine(data: seq<byte>): (i: int)
    ensures i == -1 || FirstBlankAt(data, i)
    ensures i == -1 <==> !HasBlankLine(data)
    decreases |data|
  {
    if |data| < 2 then -1
    else if data[0] == LF && data[1] == LF then 0
    else
      var j := IndexBlankLine(data[1..]);
      BlankLineInTail(data);
      if j < 0 then -1 else j + 1
  }

  /** Past a first byte that does not start "\n\n", the search goes on in the tail, one index off. */
  lemma BlankLineInTail(data: seq<byte>)
    requires |data| >= 2 && !BlankAt(data, 0)
    ensures HasBlankLine(data) <==> HasBlankLine(data[1..])
    ensures forall i :: FirstBlankAt(data[1..], i) ==> FirstBlankAt(data, i + 1)
  {
    assert forall k :: BlankAt(data[1..], k) <==> BlankAt(data, k + 1);
    if HasBlankLine(data) {
      var k :| BlankAt(data, k);
      assert BlankAt(data[1..], k - 1);
    }
    forall i | FirstBlankAt(data[1..], i) ensures FirstBlankAt(data, i + 1) {
      forall k | 0 <= k < i + 1 ensures !BlankAt(data, k) {
        if k > 0 {
          assert !BlankAt(data[1..], k - 1);
        }
      }
    }
  }

  /**
   * scanParagraph (main.go:59-74): the split function the input scanner uses. It never
   * consumes more than it was given, any token is a prefix of data holding no "\n\n",
   * and it consumes input exactly when it hands out a token. Its error result is nil on
   * every path and is not modelled.
   */
  function ScanParagraph(data: seq<byte>, atEOF: bool): (r: Split)
    ensures r.advance <= |data|
    ensures r.token.Some? ==> r.token.value <= data && !HasBlankLine(r.token.value)
    ensures r.token.Some? <==> r.advance > 0
  {
    if atEOF && |data| == 0 then
      Split(0, None)
    else
      var i := IndexBlankLine(data);
      if i >= 0 then
        assert forall k :: BlankAt(data[..i], k) ==> BlankAt(data, k);
        assert data[..i] + BlankLine == data[..i + 2];
        Split(i + 2, Some(data[0..i]))
      else if atEOF then
        Split(|data|, Some(data))
      else
        Split(0, None)
  }

  /**
   * The four answers of scanParagraph: at EOF with nothing left, no token; a "\n\n" first
   * at i, the bytes before it, consuming the separator too; at EOF with no "\n\n", all of
   * data; otherwise no token and nothing consumed, asking for more input.
   */
  lemma ScanParagraphCases(data: seq<byte>, atEOF: bool)
    ensures atEOF && data == [] ==> ScanParagraph(data, atEOF) == Split(0, None)
    ensures forall i :: FirstBlankAt(data, i) ==>
      ScanParagraph(data, atEOF) == Split(i + 2, Some(data[..i])) && data[..i] + BlankLine <= data
    ensures !HasBlankLine(data) && atEOF && data != [] ==> ScanParagraph(data, atEOF) == Split(|data|, Some(data))
    ensures !HasBlankLine(data) && !atEOF ==> ScanParagraph(data, atEOF) == Split(0, None)
  {
    var i := IndexBlankLine(data);
    if i >= 0 {
      assert data[..i] + BlankLine == data[..i + 2];
    }
  }

  /**
   * The tokens ScanParagraph yields when all of data is buffered and atEOF holds: each call
   * consumes `advance` bytes, until it answers no token. Only empty input yields no
   * paragraph, and every paragraph consumes at least one byte.
   */
  function Paragraphs(data: seq<byte>): (ps: seq<seq<byte>>)
    ensures ps == [] <==> data == []
    ensures |ps| <= |data|
    decreases |data|
  {
    var r := ScanParagraph(data, true);
    if r.token.None? then [] else [r.token.value] + Paragraphs(data[r.advance..])
  }

  /** The paragraphs put back together with "\n\n" between each two. */
  function Join(ps: seq<seq<byte>>): seq<byte>
    decreases |ps|
  {
    if ps == [] then []
    else if |ps| == 1 then ps[0]
    else ps[0] + BlankLine + Join(ps[1..])
  }

  /**
   * Splitting at EOF loses nothing but a final separator: joining the paragraphs with
   * "\n\n" gives back data, or data without its last "\n\n".
   */
  lemma {:induction false} ParagraphsRoundTrip(data: seq<byte>)
    ensures data == Join(Paragraphs(data)) || data == Join(Paragraphs(data)) + BlankLine
    decreases |data|
  {
    if data != [] {
      ParagraphsStep(data);
      var i := IndexBlankLine(data);
      if i >= 0 {
        var token, rest := data[..i], data[i + 2..];
        ParagraphsRoundTrip(rest);
        if rest != [] {
          ParagraphsStep(rest);
          JoinCons(token, Paragraphs(rest));
          Separated(token, rest, Join(Paragraphs(rest)));
        } else {
          assert Paragraphs(rest) == [];
        }
      }
    }
  }

  /** Putting a paragraph and a separator in front keeps "equal up to a final separator". */
  lemma Separated(token: seq<byte>, rest: seq<byte>, joined: seq<byte>)
    requires rest == joined || rest == joined + BlankLine
    ensures token + BlankLine + rest == token + BlankLine + joined
         || token + BlankLine + rest == token + BlankLine + joined + BlankLine
  {
  }

  /** One step of the split at EOF: cut at the first "\n\n", or take all of data when there is none. */
  lemma ParagraphsStep(data: seq<byte>)
    requires data != []
    ensures Paragraphs(data) != []
    ensures var i := IndexBlankLine(data);
      i >= 0 ==> Paragraphs(data) == [data[..i]] + Paragraphs(data[i + 2..]) && data == data[..i] + BlankLine + data[i + 2..]
    ensures IndexBlankLine(data) < 0 ==> Paragraphs(data) == [data]
  {
    var i := IndexBlankLine(data);
    var r := ScanParagraph(data, true);
    if i >= 0 {
      assert r == Split(i + 2, Some(data[..i]));
      assert data[..i + 2] == data[..i] + BlankLine;
      assert data == data[..i + 2] + data[i + 2..];
    } else {
      assert r == Split(|data|, Some(data));
      assert data[|data|..] == [];
    }
  }

  /** Joining one more paragraph in front adds it and a separator. */
  lemma JoinCons(p: seq<byte>, ps: seq<seq<byte>>)
    requires ps != []
    ensures Join([p] + ps) == p + BlankLine + Join(ps)
  {
    assert ([p] + ps)[1..] == ps;
  }

  /** No paragraph cut out at EOF holds a "\n\n". */
  lemma {:induction false} ParagraphsHaveNoBlankLine(data: seq<byte>)
    ensures forall k :: 0 <= k < |Paragraphs(data)| ==> !HasBlankLine(Paragraphs(data)[k])
    decreases |data|
  {
    var r := ScanParagraph(data, true);
    if r.token.Some? {
      ParagraphsHaveNoBlankLine(data[r.advance..]);
    }
  }

  /**
   * The Add calls parseParagraph makes for `words` (main.go:47-53): the i-th word is added
   * under Initial shifted by the words before it.
   */
  function Feed(words: seq<string>): (calls: seq<Transition>)
    ensures |calls| == |words|
    ensures forall i :: 0 <= i < |words| ==> calls[i].word == words[i]
    ensures forall i :: 0 <= i < |words| ==> calls[i].prefix == ShiftAll(Initial, words[..i])
    decreases |words|
  {
    if words == [] then []
    else
      var init := words[..|words| - 1];
      PrefixesOfInit(words);
      Feed(init) + [Transition(ShiftAll(Initial, init), words[|words| - 1])]
  }

  /** Cutting the last word off leaves every shorter prefix of the words as it was. */
  lemma PrefixesOfInit(words: seq<string>)
    requires words != []
    ensures forall i :: 0 <= i < |words| - 1 ==> words[..|words| - 1][..i] == words[..i]
  {
  }

  /** Feeding one more word of the paragraph appends one transition, under the prefix so far. */
  lemma FeedStep(words: seq<string>, i: int)
    requires 0 <= i < |words|
    ensures words[..i + 1] == words[..i] + [words[i]]
    ensures Feed(words[..i + 1]) == Feed(words[..i]) + [Transition(ShiftAll(Initial, words[..i]), words[i])]
  {
    assert words[..i + 1][..i] == words[..i];
  }

  /**
   * parseParagraph (main.go:46-55), with the word scanner replaced by the words it yields:
   * start from Initial, and for each word Add it under the current prefix, then Shift it in.
   */
  method ParseParagraph(words: seq<string>, mvs: Chain)
    requires mvs.Valid()
    requires forall i :: 0 <= i < |words| ==> words[i] != Terminal
    modifies mvs
    ensures mvs.Valid()
    ensures mvs.table == AddAll(old(mvs.table), Feed(words))
    ensures Total(mvs.table) == old(Total(mvs.table)) + |words|
    ensures forall w ::
      Count(mvs.table, Initial, w) == old(Count(mvs.table, Initial, w)) + (if words != [] && w == words[0] then 1 else 0)
  {
    var prefix := new string[PrefixLength](_ => Terminal);
    assert prefix[..] == Initial;
    for i := 0 to |words|
      invariant mvs.Valid()
      invariant prefix[..] == ShiftAll(Initial, words[..i])
      invariant mvs.table == AddAll(old(mvs.table), Feed(words[..i]))
    {
      var word := words[i];
      mvs.Add(prefix[..], word);
      FeedStep(words, i);
      ShiftAllAppend(Initial, words[..i], word);
      Shift(prefix, word);
    }
    assert words[..|words|] == words;
    ParagraphTotal(old(mvs.table), words);
    forall w ensures
      Count(mvs.table, Initial, w) == old(Count(mvs.table, Initial, w)) + (if words != [] && w == words[0] then 1 else 0)
    {
      ParagraphFirstWord(old(mvs.table), words, w);
    }
  }

  /**
   * Initial is the prefix of the first Add of a paragraph and of no other: the only
   * transition from Initial is to the first word.
   */
  lemma {:induction false} FeedFromInitial(words: seq<string>, w: string)
    requires forall i :: 0 <= i < |words| ==> words[i] != Terminal
    ensures multiset(Feed(words))[Transition(Initial, w)] == if words != [] && w == words[0] then 1 else 0
    decreases |words|
  {
    if words != [] {
      var n := |words|;
      var init := words[..n - 1];
      assert Feed(words) == Feed(init) + [Transition(ShiftAll(Initial, init), words[n - 1])];
      if n > 1 {
        FeedFromInitial(init, w);
        ShiftAllLast(Initial, init);
        assert ShiftAll(Initial, init) != Initial;
      } else {
        assert Feed(init) == [];
      }
    }
  }

  /**
   * Ingesting a paragraph adds exactly one count under Initial, to its first word, and
   * none when it has no words.
   */
  lemma ParagraphFirstWord(table: map<Prefix, WordBag>, words: seq<string>, w: string)
    requires forall i :: 0 <= i < |words| ==> words[i] != Terminal
    ensures Count(AddAll(table, Feed(words)), Initial, w) ==
      Count(table, Initial, w) + (if words != [] && w == words[0] then 1 else 0)
  {
    AddAllCount(table, Feed(words), Initial, w);
    FeedFromInitial(words, w);
  }

  /** Ingesting a paragraph of n words raises the chain's total weight by exactly n. */
  lemma ParagraphTotal(table: map<Prefix, WordBag>, words: seq<string>)
    ensures Total(AddAll(table, Feed(words))) == Total(table) + |words|
  {
    AddAllTotal(table, Feed(words));
  }

  /** The i-th Add of a paragraph is made under the PrefixLength words before it, "" padded. */
  lemma FeedWindow(words: seq<string>, i: int)
    requires 0 <= i < |words|
    ensures Feed(words)[i].prefix == (Initial + words)[i..i + PrefixLength]
    ensures Feed(words)[i].word == words[i]
  {
    ShiftAllSlice(words, i);
  }

  /** After the first i words, the prefix is the window of Initial + words starting at i. */
  lemma ShiftAllSlice(words: seq<string>, i: int)
    requires 0 <= i <= |words|
    ensures ShiftAll(Initial, words[..i]) == (Initial + words)[i..i + PrefixLength]
  {
    ShiftAllWindow(Initial, words[..i]);
    Window(Initial, words, i);
  }

  /** Cutting the words at i and dropping i leaves the |pad| elements of pad + words from i on. */
  lemma Window(pad: seq<string>, words: seq<string>, i: int)
    requires 0 <= i <= |words|
    ensures (pad + words[..i])[i..] == (pad + words)[i..i + |pad|]
  {
    assert pad + words[..i] == (pad + words)[..i + |pad|];
  }

  /**
   * Ingesting one paragraph into an empty chain leaves Initial's bag holding only the
   * paragraph's first word, with count 1: for "the cat sat. the dog sat." that is "the" once,
   * although "the" starts two sentences.
   */
  lemma FirstParagraphInitialBag(words: seq<string>)
    requires words != []
    requires forall i :: 0 <= i < |words| ==> words[i] != Terminal
    ensures Initial in AddAll(map[], Feed(words))
    ensures AddAll(map[], Feed(words))[Initial] == map[words[0] := 1]
  {
    FeedWords(words);
    FeedFromInitialOnce(words);
    AddAllSingleWord(Feed(words), Initial, words[0]);
  }

  /** FeedFromInitial for every word at once. */
  lemma FeedFromInitialOnce(words: seq<string>)
    requires words != []
    requires forall i :: 0 <= i < |words| ==> words[i] != Terminal
    ensures forall v :: multiset(Feed(words))[Transition(Initial, v)] == if v == words[0] then 1 else 0
  {
    forall v ensures multiset(Feed(words))[Transition(Initial, v)] == if v == words[0] then 1 else 0 {
      FeedFromInitial(words, v);
    }
  }

  /** Feed records the paragraph's own words. */
  lemma FeedWords(words: seq<string>)
    requires forall i :: 0 <= i < |words| ==> words[i] != Terminal
    ensures forall i :: 0 <= i < |Feed(words)| ==> Feed(words)[i].word != Terminal
  {
    var calls := Feed(words);
    forall i | 0 <= i < |calls| ensures calls[i].word != Terminal {
      assert calls[i].word == words[i];
    }
  }
}
