/**
 * The subtitle builder: one SubRip entry per recognized word with non-empty
 * text, walked over every alternative in order, numbered 1, 2, 3, ... by a
 * counter that advances only for kept words; and the writer that appends
 * each entry's four-line block to the output.
 */
module Subtitles {
  import opened Decimal
  import opened Timestamp

  /** A recognized word: its text and its start and end offsets. */
  datatype Word = Word(text: string, start: Duration, end: Duration)

  /** One recognition hypothesis: its words in spoken order. */
  type Alternative = seq<Word>

  datatype SubtitleEntry = SubtitleEntry(index: nat, startTime: Duration, endTime: Duration, text: string)

  /** to_srt: index, `start --> end`, text, blank line. */
  function ToSrt(e: SubtitleEntry): string {
    Digits(e.index) + "\n" + FormatTime(e.startTime) + " --> " + FormatTime(e.endTime) + "\n"
      + e.text + "\n\n"
  }

  /** The blocks of all entries, in order: what the output file holds. */
  function Render(entries: seq<SubtitleEntry>): string {
    Join(Blocks(entries))
  }

  function Blocks(entries: seq<SubtitleEntry>): (blocks: seq<string>)
    ensures |blocks| == |entries|
    ensures forall i :: 0 <= i < |entries| ==> blocks[i] == ToSrt(entries[i])
  {
    seq(|entries|, i requires 0 <= i < |entries| => ToSrt(entries[i]))
  }

  /** Strings written one after the other. */
  function Join(parts: seq<string>): string {
    if parts == [] then [] else parts[0] + Join(parts[1..])
  }

  // ---------------------------------------------------------------------
  // Specification of the builder

  /** All words of all alternatives, alternative by alternative. */
  function Flatten(alternatives: seq<Alternative>): seq<Word> {
    if alternatives == [] then []
    else Flatten(alternatives[..|alternatives| - 1]) + alternatives[|alternatives| - 1]
  }

  /** The words whose text is not empty, in their original order. */
  function Kept(words: seq<Word>): seq<Word> {
    if words == [] then []
    else Kept(words[..|words| - 1]) + (if words[|words| - 1].text != [] then [words[|words| - 1]] else [])
  }

  /** Entries numbered from 1, one per word, carrying the word's text and times. */
  function Numbered(words: seq<Word>): (entries: seq<SubtitleEntry>)
    ensures |entries| == |words|
    ensures forall i :: 0 <= i < |words| ==>
      entries[i] == SubtitleEntry(i + 1, words[i].start, words[i].end, words[i].text)
  {
    if words == [] then []
    else
      var w := words[|words| - 1];
      Numbered(words[..|words| - 1]) + [SubtitleEntry(|words|, w.start, w.end, w.text)]
  }

  /** The entries process_audio builds from a recognition result. */
  function Entries(alternatives: seq<Alternative>): seq<SubtitleEntry> {
    Numbered(Kept(Flatten(alternatives)))
  }

  /** Position p holds a word with non-empty text. */
  predicate Speaks(words: seq<Word>, p: nat) {
    p < |words| && words[p].text != []
  }

  /** The number of non-empty words of one alternative. */
  function NonEmptyCount(words: seq<Word>): nat {
    |set p: nat | p < |words| && Speaks(words, p)|
  }

  /** The number of non-empty words across all alternatives. */
  function TotalNonEmpty(alternatives: seq<Alternative>): nat {
    if alternatives == [] then 0
    else TotalNonEmpty(alternatives[..|alternatives| - 1]) + NonEmptyCount(alternatives[|alternatives| - 1])
  }

  // ---------------------------------------------------------------------
  // The builder and the writer

  /**
   * The nested loop of process_audio: for each alternative, for each word,
   * a word with non-empty text becomes the next entry and advances the index.
   */
  method BuildEntries(alternatives: seq<Alternative>) returns (subtitles: seq<SubtitleEntry>)
    ensures subtitles == Entries(alternatives)
    ensures |subtitles| == TotalNonEmpty(alternatives)
    ensures forall i :: 0 <= i < |subtitles| ==> subtitles[i].index == i + 1 && subtitles[i].text != []
  {
    subtitles := [];
    var index := 1;
    var a := 0;
    while a < |alternatives|
      invariant 0 <= a <= |alternatives|
      invariant subtitles == Entries(alternatives[..a])
      invariant index == |subtitles| + 1
    {
      var alternative := alternatives[a];
      ghost var done := Flatten(alternatives[..a]);
      AlternativeStart(done, alternative);
      var w := 0;
      while w < |alternative|
        invariant 0 <= w <= |alternative|
        invariant subtitles == Numbered(Kept(done + alternative[..w]))
        invariant index == |subtitles| + 1
      {
        var word := alternative[w];
        var text := word.text;
        WordStep(done, alternative, w);
        if text != [] {
          subtitles := subtitles + [SubtitleEntry(index, word.start, word.end, text)];
          index := index + 1;
        }
        w := w + 1;
      }
      AlternativeEnd(alternatives, a);
      a := a + 1;
    }
    assert alternatives[..a] == alternatives;
    EntriesShape(alternatives);
  }

  /** The writer loop: each entry's block is appended, in order. */
  method WriteSrt(subtitles: seq<SubtitleEntry>) returns (content: string)
    ensures content == Render(subtitles)
  {
    content := [];
    ghost var blocks := Blocks(subtitles);
    for i := 0 to |subtitles|
      invariant content == Join(blocks[..i])
    {
      var block := ToSrt(subtitles[i]);
      assert block == blocks[i];
      JoinPrefixStep(blocks, i);
      content := content + block;
    }
    JoinWhole(blocks);
  }

  /**
   * process_audio from the recognition result on: build the entries, then
   * write their blocks. A result without non-empty words gives empty content.
   */
  method ProcessAudio(alternatives: seq<Alternative>) returns (content: string)
    ensures content == Render(Entries(alternatives))
    ensures content == [] <==> TotalNonEmpty(alternatives) == 0
  {
    var subtitles := BuildEntries(alternatives);
    content := WriteSrt(subtitles);
    RenderEmpty(subtitles);
  }

  // ---------------------------------------------------------------------
  // Properties

  /** One more word adds one entry, numbered next, exactly when its text is not empty. */
  lemma NumberedKeptSnoc(words: seq<Word>, w: Word)
    ensures Numbered(Kept(words + [w])) == Numbered(Kept(words))
      + (if w.text != [] then [SubtitleEntry(|Kept(words)| + 1, w.start, w.end, w.text)] else [])
  {
    assert (words + [w])[..|words|] == words;
    if w.text != [] {
      var ks := Kept(words) + [w];
      assert ks[..|ks| - 1] == Kept(words);
    }
  }

  /** Before the first word of an alternative, the entries are those of the earlier alternatives. */
  lemma AlternativeStart(done: seq<Word>, alternative: Alternative)
    ensures Numbered(Kept(done + alternative[..0])) == Numbered(Kept(done))
  {
    assert done + alternative[..0] == done;
  }

  /** The inner loop's step: word w adds the next entry exactly when its text is not empty. */
  lemma WordStep(done: seq<Word>, alternative: Alternative, w: nat)
    requires w < |alternative|
    ensures var before := Numbered(Kept(done + alternative[..w]));
      var word := alternative[w];
      Numbered(Kept(done + alternative[..w + 1]))
        == before + (if word.text != [] then [SubtitleEntry(|before| + 1, word.start, word.end, word.text)] else [])
  {
    assert done + alternative[..w + 1] == (done + alternative[..w]) + [alternative[w]];
    NumberedKeptSnoc(done + alternative[..w], alternative[w]);
  }

  /** After the last word of alternative a, the entries are those of alternatives 0..a. */
  lemma AlternativeEnd(alternatives: seq<Alternative>, a: nat)
    requires a < |alternatives|
    ensures Numbered(Kept(Flatten(alternatives[..a]) + alternatives[a][..|alternatives[a]|]))
      == Entries(alternatives[..a + 1])
  {
    assert alternatives[a][..|alternatives[a]|] == alternatives[a];
    FlattenSnoc(alternatives, a);
  }

  /** One more alternative appends its words. */
  lemma FlattenSnoc(alternatives: seq<Alternative>, a: nat)
    requires a < |alternatives|
    ensures Flatten(alternatives[..a + 1]) == Flatten(alternatives[..a]) + alternatives[a]
  {
    assert alternatives[..a + 1][..a] == alternatives[..a];
  }

  lemma {:induction false} JoinSnoc(parts: seq<string>, p: string)
    ensures Join(parts + [p]) == Join(parts) + p
    decreases |parts|
  {
    if parts != [] {
      assert (parts + [p])[1..] == parts[1..] + [p];
      JoinSnoc(parts[1..], p);
    } else {
      assert parts + [p] == [p];
    }
  }

  lemma JoinPrefixStep(parts: seq<string>, i: nat)
    requires i < |parts|
    ensures Join(parts[..i + 1]) == Join(parts[..i]) + parts[i]
  {
    assert parts[..i + 1] == parts[..i] + [parts[i]];
    JoinSnoc(parts[..i], parts[i]);
  }

  lemma JoinWhole(parts: seq<string>)
    ensures Join(parts[..|parts|]) == Join(parts)
  {
    assert parts[..|parts|] == parts;
  }

  /** The output is empty exactly when there are no entries. */
  lemma RenderEmpty(entries: seq<SubtitleEntry>)
    ensures Render(entries) == [] <==> entries == []
  {
    if entries != [] {
      assert Blocks(entries)[0] == ToSrt(entries[0]);
      assert |ToSrt(entries[0])| > 0;
    }
  }

  /** Flattening respects concatenation: alternatives stay in their order. */
  lemma {:induction false} FlattenAppend(xs: seq<Alternative>, ys: seq<Alternative>)
    ensures Flatten(xs + ys) == Flatten(xs) + Flatten(ys)
    decreases |ys|
  {
    if ys == [] {
      assert xs + ys == xs;
    } else {
      var ys' := ys[..|ys| - 1];
      assert (xs + ys)[..|xs + ys| - 1] == xs + ys';
      FlattenAppend(xs, ys');
    }
  }

  /** Alternative a's words sit, in order, between those of the alternatives before and after it. */
  lemma FlattenLayout(alternatives: seq<Alternative>, a: nat)
    requires a < |alternatives|
    ensures Flatten(alternatives)
      == Flatten(alternatives[..a]) + alternatives[a] + Flatten(alternatives[a + 1..])
  {
    var post := alternatives[a + 1..];
    var upTo := alternatives[..a + 1];
    assert alternatives == upTo + post;
    FlattenAppend(upTo, post);
    FlattenSnoc(alternatives, a);
  }

  /** Filtering respects concatenation. */
  lemma {:induction false} KeptAppend(xs: seq<Word>, ys: seq<Word>)
    ensures Kept(xs + ys) == Kept(xs) + Kept(ys)
    decreases |ys|
  {
    if ys == [] {
      assert xs + ys == xs;
    } else {
      var ys' := ys[..|ys| - 1];
      assert (xs + ys)[..|xs + ys| - 1] == xs + ys';
      KeptAppend(xs, ys');
    }
  }

  /** The positions of the words with non-empty text, in increasing order. */
  function KeptPositions(words: seq<Word>): (ps: seq<nat>)
    ensures |ps| == |Kept(words)|
  {
    if words == [] then []
    else KeptPositions(words[..|words| - 1]) + (if words[|words| - 1].text != [] then [|words| - 1] else [])
  }

  /**
   * Kept picks out exactly the words with non-empty text (a word made only
   * of spaces included), in their original order and unchanged.
   */
  lemma {:induction false} KeptExactly(words: seq<Word>)
    ensures forall i, j :: 0 <= i < j < |KeptPositions(words)| ==> KeptPositions(words)[i] < KeptPositions(words)[j]
    ensures forall i :: 0 <= i < |Kept(words)| ==>
      KeptPositions(words)[i] < |words| && Kept(words)[i] == words[KeptPositions(words)[i]]
    ensures forall p :: 0 <= p < |words| ==> (words[p].text != [] <==> p in KeptPositions(words))
    decreases |words|
  {
    if words != [] {
      var front := words[..|words| - 1];
      KeptExactly(front);
      assert forall p :: 0 <= p < |front| ==> front[p] == words[p];
    }
  }

  /** The number of kept words is the number of non-empty words. */
  lemma {:induction false} KeptCount(words: seq<Word>)
    ensures |Kept(words)| == NonEmptyCount(words)
    decreases |words|
  {
    if words == [] {
      assert (set p: nat | p < |words| && Speaks(words, p)) == {};
    } else {
      KeptCount(words[..|words| - 1]);
      NonEmptyCountSnoc(words);
    }
  }

  /** The last word adds one to the count exactly when its text is not empty. */
  lemma NonEmptyCountSnoc(words: seq<Word>)
    requires words != []
    ensures NonEmptyCount(words)
      == NonEmptyCount(words[..|words| - 1]) + (if words[|words| - 1].text != [] then 1 else 0)
  {
    var n := |words| - 1;
    var front := words[..n];
    var before := set p: nat | p < n && Speaks(front, p);
    var all := set p: nat | p < |words| && Speaks(words, p);
    assert forall p: nat :: p < n ==> (Speaks(front, p) <==> Speaks(words, p));
    if Speaks(words, n) {
      assert all == before + {n};
      assert |before + {n}| == |before| + 1;
    } else {
      assert all == before;
    }
  }

  /** Entries are numbered 1..N without gaps, where N counts all non-empty words. */
  lemma {:induction false} EntriesShape(alternatives: seq<Alternative>)
    ensures |Entries(alternatives)| == TotalNonEmpty(alternatives)
    ensures forall i :: 0 <= i < |Entries(alternatives)| ==>
      Entries(alternatives)[i].index == i + 1 && Entries(alternatives)[i].text != []
    decreases |alternatives|
  {
    KeptExactly(Flatten(alternatives));
    KeptTotal(alternatives);
  }

  lemma {:induction false} KeptTotal(alternatives: seq<Alternative>)
    ensures |Kept(Flatten(alternatives))| == TotalNonEmpty(alternatives)
    decreases |alternatives|
  {
    if alternatives != [] {
      var n := |alternatives| - 1;
      KeptTotal(alternatives[..n]);
      KeptAppend(Flatten(alternatives[..n]), alternatives[n]);
      KeptCount(alternatives[n]);
    }
  }

  /**
   * Entry i carries the text and times of the i-th non-empty word, counting
   * through the alternatives in order and through each alternative's words
   * in order; no sorting by time.
   */
  lemma EntriesFollowWords(alternatives: seq<Alternative>, i: nat)
    requires i < |Entries(alternatives)|
    ensures var words := Flatten(alternatives);
      var p := KeptPositions(words)[i];
      p < |words| && words[p].text != []
      && Entries(alternatives)[i] == SubtitleEntry(i + 1, words[p].start, words[p].end, words[p].text)
  {
    KeptExactly(Flatten(alternatives));
  }

  /** Entries of alternative a come after all entries of the alternatives before it. */
  lemma EntriesByAlternative(alternatives: seq<Alternative>, a: nat)
    requires a < |alternatives|
    ensures Kept(Flatten(alternatives))
      == Kept(Flatten(alternatives[..a])) + Kept(alternatives[a]) + Kept(Flatten(alternatives[a + 1..]))
  {
    FlattenLayout(alternatives, a);
    KeptAppend(Flatten(alternatives[..a]) + alternatives[a], Flatten(alternatives[a + 1..]));
    KeptAppend(Flatten(alternatives[..a]), alternatives[a]);
  }

  /** A word of spaces only is kept: only emptiness is tested, nothing is trimmed. */
  lemma WhitespaceWordKept(start: Duration, end: Duration)
    ensures Entries([[Word(" ", start, end)]]) == [SubtitleEntry(1, start, end, " ")]
  {
    var w := Word(" ", start, end);
    assert [[w]][..0] == [];
    assert Flatten([[w]]) == [w];
    assert [w][..0] == [];
    assert Kept([w]) == [w];
    assert Numbered([w])[0] == SubtitleEntry(1, start, end, " ");
  }

  /** The serialization example: entry 1, 0 ms to 540 ms, "hello". */
  lemma ToSrtExample()
    ensures ToSrt(SubtitleEntry(1, 0, 540 * NanosPerMilli, "hello"))
      == "1" + "\n" + "00:00:00,000" + " --> " + "00:00:00,540" + "\n" + "hello" + "\n\n"
  {
    FormatTimeZero();
    FormatTimeExample540();
    assert Digits(1) == "1";
  }

  /**
   * The end-to-end example: "hi", an empty word and "there" in one
   * alternative give two entries, numbered 1 and 2, whose two blocks make
   * up the output.
   */
  lemma ProcessAudioExample()
    ensures var alternative := [Word("hi", 0, 300 * NanosPerMilli), Word("", 300 * NanosPerMilli, 310 * NanosPerMilli),
                                Word("there", 310 * NanosPerMilli, 800 * NanosPerMilli)];
      var e1 := SubtitleEntry(1, 0, 300 * NanosPerMilli, "hi");
      var e2 := SubtitleEntry(2, 310 * NanosPerMilli, 800 * NanosPerMilli, "there");
      Entries([alternative]) == [e1, e2] && Render(Entries([alternative])) == ToSrt(e1) + ToSrt(e2)
  {
    var hi, empty, there := Word("hi", 0, 300 * NanosPerMilli), Word("", 300 * NanosPerMilli, 310 * NanosPerMilli),
                            Word("there", 310 * NanosPerMilli, 800 * NanosPerMilli);
    var alternative: Alternative := [hi, empty, there];
    var none: seq<Alternative> := [];
    assert [alternative][..0] == none;
    assert Flatten([alternative]) == alternative;
    var nothing: seq<Word> := [];
    assert alternative[..2] == [hi, empty] && [hi, empty][..1] == [hi] && [hi][..0] == nothing;
    assert Kept([hi]) == [hi];
    assert Kept([hi, empty]) == [hi];
    assert Kept(alternative) == [hi, there];
    var e1, e2 := SubtitleEntry(1, 0, 300 * NanosPerMilli, "hi"), SubtitleEntry(2, 310 * NanosPerMilli, 800 * NanosPerMilli, "there");
    assert Entries([alternative]) == [e1, e2];
    RenderTwo(e1, e2);
  }

  /** The text process_audio writes for the end-to-end example. */
  lemma ProcessAudioExampleText()
    ensures var alternative := [Word("hi", 0, 300 * NanosPerMilli), Word("", 300 * NanosPerMilli, 310 * NanosPerMilli),
                                Word("there", 310 * NanosPerMilli, 800 * NanosPerMilli)];
      Render(Entries([alternative]))
        == ("1" + "\n" + "00:00:00,000" + " --> " + "00:00:00,300" + "\n" + "hi" + "\n\n")
         + ("2" + "\n" + "00:00:00,310" + " --> " + "00:00:00,800" + "\n" + "there" + "\n\n")
  {
    ProcessAudioExample();
    FormatTimeZero();
    ExampleTimes();
    assert Digits(1) == "1" && Digits(2) == "2";
    assert ToSrt(SubtitleEntry(1, 0, 300 * NanosPerMilli, "hi"))
      == "1" + "\n" + "00:00:00,000" + " --> " + "00:00:00,300" + "\n" + "hi" + "\n\n";
    assert ToSrt(SubtitleEntry(2, 310 * NanosPerMilli, 800 * NanosPerMilli, "there"))
      == "2" + "\n" + "00:00:00,310" + " --> " + "00:00:00,800" + "\n" + "there" + "\n\n";
  }

  /** The non-zero timestamps of the end-to-end example. */
  lemma ExampleTimes()
    ensures FormatTime(300 * NanosPerMilli) == "00:00:00,300"
    ensures FormatTime(310 * NanosPerMilli) == "00:00:00,310"
    ensures FormatTime(800 * NanosPerMilli) == "00:00:00,800"
  {
    FormatTimeMillis(3, 0, 0, "00:00:00,300");
    FormatTimeMillis(3, 1, 0, "00:00:00,310");
    FormatTimeMillis(8, 0, 0, "00:00:00,800");
  }

  lemma RenderTwo(e1: SubtitleEntry, e2: SubtitleEntry)
    ensures Render([e1, e2]) == ToSrt(e1) + ToSrt(e2)
  {
    assert Blocks([e1, e2]) == [ToSrt(e1), ToSrt(e2)];
    JoinTwo(ToSrt(e1), ToSrt(e2));
  }

  lemma JoinTwo(first: string, second: string)
    ensures Join([first, second]) == first + second
  {
    var none: seq<string> := [];
    assert [second][1..] == none;
    assert Join([second]) == second + Join(none);
    assert Join([second]) == second;
    assert [first, second][1..] == [second];
  }
}
