/**
 * A reader for the SubRip text the writer produces. It is the partner of
 * `ToSrt` and `Render`: reading the output back recovers every entry's
 * index, whole-millisecond times and text, in order.
 */
module SrtReader {
  import opened Wrappers
  import opened Decimal
  import opened Timestamp
  import opened Subtitles

  /** What a reader recovers of one block: index, times in whole milliseconds, text. */
  datatype Cue = Cue(index: nat, startMillis: nat, endMillis: nat, text: string)

  function ToCue(e: SubtitleEntry): Cue {
    Cue(e.index, AsMillis(e.startTime), AsMillis(e.endTime), e.text)
  }

  function Cues(entries: seq<SubtitleEntry>): (cues: seq<Cue>)
    ensures |cues| == |entries|
    ensures forall i :: 0 <= i < |entries| ==> cues[i] == ToCue(entries[i])
  {
    seq(|entries|, i requires 0 <= i < |entries| => ToCue(entries[i]))
  }

  /** The position of the first c in s, or |s| when s has none. */
  function Find(s: string, c: char): (i: nat)
    ensures i <= |s|
  {
    if s == [] || s[0] == c then 0 else 1 + Find(s[1..], c)
  }

  /** The text before the first c and the text after it; None when s has no c. */
  function Cut(s: string, c: char): (r: Option<(string, string)>)
    ensures r.Some? ==> |r.value.1| < |s|
  {
    var i := Find(s, c);
    if i == |s| then None else Some((s[..i], s[i + 1..]))
  }

  /** `start --> end`, each a timestamp. */
  function ParseTiming(line: string): Option<(nat, nat)> {
    match Cut(line, ' ')
    case None => None
    case Some((first, tail)) =>
      if |tail| < 4 || tail[..4] != "--> " then None
      else
        match (ParseTimestamp(first), ParseTimestamp(tail[4..]))
        case (Some(start), Some(end)) => Some((start, end))
        case _ => None
  }

  /**
   * One block: an index line of decimal digits, a timing line, a text line
   * and an empty line. Gives the cue and what follows the block.
   */
  function ParseBlock(s: string): (r: Option<(Cue, string)>)
    ensures r.Some? ==> |r.value.1| < |s|
  {
    match Cut(s, '\n')
    case None => None
    case Some((number, s1)) =>
      match Cut(s1, '\n')
      case None => None
      case Some((timing, s2)) =>
        match Cut(s2, '\n')
        case None => None
        case Some((text, s3)) =>
          match Cut(s3, '\n')
          case None => None
          case Some((blank, rest)) =>
            if number == [] || !AllDigits(number) || blank != [] then None
            else
              match ParseTiming(timing)
              case None => None
              case Some((start, end)) => Some((Cue(Value(number), start, end, text), rest))
  }

  /** A whole file: blocks until the text runs out; None if any block is malformed. */
  function ParseSrt(s: string): Option<seq<Cue>>
    decreases |s|
  {
    if s == [] then Some([])
    else
      match ParseBlock(s)
      case None => None
      case Some((cue, rest)) =>
        match ParseSrt(rest)
        case None => None
        case Some(cues) => Some([cue] + cues)
  }

  // ---------------------------------------------------------------------
  // Round trip

  /** Find stops at the first c, and finds none only when s has none. */
  lemma {:induction false} FindSpec(s: string, c: char)
    ensures forall k :: 0 <= k < Find(s, c) ==> s[k] != c
    ensures Find(s, c) < |s| ==> s[Find(s, c)] == c
    decreases |s|
  {
    if s != [] && s[0] != c {
      FindSpec(s[1..], c);
    }
  }

  /** Cutting at the first c of a + [c] + b, where a holds no c, gives a and b. */
  lemma CutAfter(a: string, c: char, b: string)
    requires c !in a
    ensures Cut(a + [c] + b, c) == Some((a, b))
  {
    var s := a + [c] + b;
    FindSpec(s, c);
    assert s[|a|] == c;
    assert forall k :: 0 <= k < |a| ==> s[k] == a[k];
    assert s[..|a|] == a;
    assert s[|a| + 1..] == b;
  }

  /**
   * A block read from its parts: an index line of digits, a timing line and
   * a text line, none holding a line break, then the empty line.
   */
  lemma ParseBlockParts(number: string, line: string, text: string, rest: string)
    requires number != [] && AllDigits(number)
    requires '\n' !in number && '\n' !in line && '\n' !in text
    ensures ParseBlock(number + ['\n'] + (line + ['\n'] + (text + ['\n'] + ([] + ['\n'] + rest))))
      == match ParseTiming(line)
         case None => None
         case Some((start, end)) => Some((Cue(Value(number), start, end, text), rest))
  {
    var s3 := [] + ['\n'] + rest;
    var s2 := text + ['\n'] + s3;
    var s1 := line + ['\n'] + s2;
    CutAfter(number, '\n', s1);
    CutAfter(line, '\n', s2);
    CutAfter(text, '\n', s3);
    CutAfter([], '\n', rest);
  }

  /** Timestamps hold digits and separators only: no space, no line break. */
  lemma TimestampIsOneWord(d: Duration)
    ensures ' ' !in FormatTime(d) && '\n' !in FormatTime(d)
  {
    FormatTimeShape(d);
    var s := FormatTime(d);
    assert forall i :: 0 <= i < |s| ==> s[i] != ' ' && s[i] != '\n';
  }

  /** A timing line whose first timestamp has no space reads as its two timestamps. */
  lemma ParseTimingParts(first: string, second: string)
    requires ' ' !in first
    ensures ParseTiming(first + " --> " + second)
      == match (ParseTimestamp(first), ParseTimestamp(second))
         case (Some(start), Some(end)) => Some((start, end))
         case _ => None
  {
    var tail := "--> " + second;
    assert first + " --> " + second == first + [' '] + tail;
    CutAfter(first, ' ', tail);
    assert tail[..4] == "--> " && tail[4..] == second;
  }

  /** Reading a timing line gives back both times in whole milliseconds. */
  lemma TimingRoundTrip(start: Duration, end: Duration)
    ensures ParseTiming(FormatTime(start) + " --> " + FormatTime(end))
      == Some((AsMillis(start), AsMillis(end)))
  {
    TimestampIsOneWord(start);
    ParseTimingParts(FormatTime(start), FormatTime(end));
    TimestampRoundTrip(start);
    TimestampRoundTrip(end);
  }

  /** The serialized block regrouped line by line. */
  lemma BlockLines(number: string, first: string, second: string, text: string, rest: string)
    ensures number + "\n" + first + " --> " + second + "\n" + text + "\n\n" + rest
      == number + ['\n'] + ((first + " --> " + second) + ['\n'] + (text + ['\n'] + ([] + ['\n'] + rest)))
  {
  }

  /** A block whose text has no line break reads back as its entry, leaving what follows it. */
  lemma BlockRoundTrip(e: SubtitleEntry, rest: string)
    requires '\n' !in e.text
    ensures ParseBlock(ToSrt(e) + rest) == Some((ToCue(e), rest))
  {
    var d, t1, t2 := Digits(e.index), FormatTime(e.startTime), FormatTime(e.endTime);
    BlockLines(d, t1, t2, e.text, rest);
    assert '\n' !in d by {
      assert forall i :: 0 <= i < |d| ==> d[i] != '\n';
    }
    TimestampIsOneWord(e.startTime);
    TimestampIsOneWord(e.endTime);
    NoBreakInLine(t1, t2);
    ParseBlockParts(d, t1 + " --> " + t2, e.text, rest);
    TimingRoundTrip(e.startTime, e.endTime);
    ValueOfDigits(e.index);
  }

  lemma NoBreakInLine(first: string, second: string)
    requires '\n' !in first && '\n' !in second
    ensures '\n' !in first + " --> " + second
  {
  }

  lemma RenderCons(entries: seq<SubtitleEntry>)
    requires entries != []
    ensures Render(entries) == ToSrt(entries[0]) + Render(entries[1..])
  {
    assert Blocks(entries)[1..] == Blocks(entries[1..]);
  }

  /** Reading the whole output gives back every entry, in order. */
  lemma {:induction false} SrtRoundTrip(entries: seq<SubtitleEntry>)
    requires forall i :: 0 <= i < |entries| ==> '\n' !in entries[i].text
    ensures ParseSrt(Render(entries)) == Some(Cues(entries))
    decreases |entries|
  {
    if entries == [] {
      assert Render(entries) == [] by {
        RenderEmpty(entries);
      }
      assert Cues(entries) == [];
    } else {
      SrtRoundTrip(entries[1..]);
      SrtRoundTripStep(entries);
    }
  }

  lemma SrtRoundTripStep(entries: seq<SubtitleEntry>)
    requires entries != [] && '\n' !in entries[0].text
    requires ParseSrt(Render(entries[1..])) == Some(Cues(entries[1..]))
    ensures ParseSrt(Render(entries)) == Some(Cues(entries))
  {
    var rest := entries[1..];
    var block := ToSrt(entries[0]);
    var cue := ToCue(entries[0]);
    RenderCons(entries);
    BlockRoundTrip(entries[0], Render(rest));
    ToSrtNotEmpty(entries[0]);
    ParseSrtStep(block, Render(rest), cue, Cues(rest));
    CuesCons(entries);
  }

  lemma CuesCons(entries: seq<SubtitleEntry>)
    requires entries != []
    ensures Cues(entries) == [ToCue(entries[0])] + Cues(entries[1..])
  {
  }

  lemma ToSrtNotEmpty(e: SubtitleEntry)
    ensures ToSrt(e) != []
  {
    assert |Digits(e.index)| > 0;
  }

  /** A well-formed block followed by a readable rest reads as the block's cue, then the rest's. */
  lemma ParseSrtStep(block: string, rest: string, cue: Cue, cues: seq<Cue>)
    requires block != [] && ParseBlock(block + rest) == Some((cue, rest))
    requires ParseSrt(rest) == Some(cues)
    ensures ParseSrt(block + rest) == Some([cue] + cues)
  {
  }

  // ---------------------------------------------------------------------
  // The whole pipeline, read back

  /** No recognized word's text holds a line break. */
  predicate OneLineWords(alternatives: seq<Alternative>) {
    forall a, j :: 0 <= a < |alternatives| && 0 <= j < |alternatives[a]| ==> '\n' !in alternatives[a][j].text
  }

  /** Every flattened word is a word of some alternative. */
  lemma {:induction false} FlattenMember(alternatives: seq<Alternative>, p: nat)
    requires p < |Flatten(alternatives)|
    ensures exists a, j ::
              0 <= a < |alternatives| && 0 <= j < |alternatives[a]| && Flatten(alternatives)[p] == alternatives[a][j]
    decreases |alternatives|
  {
    var n := |alternatives| - 1;
    var front := alternatives[..n];
    if p < |Flatten(front)| {
      FlattenMember(front, p);
      var a, j :| 0 <= a < |front| && 0 <= j < |front[a]| && Flatten(front)[p] == front[a][j];
      assert alternatives[a] == front[a];
    } else {
      var j := p - |Flatten(front)|;
      assert Flatten(alternatives)[p] == alternatives[n][j];
    }
  }

  /**
   * The file process_audio writes reads back as one cue per non-empty word,
   * numbered 1..N in alternative order and then word order, each with the
   * word's text and its times in whole milliseconds.
   */
  lemma ProcessAudioReadsBack(alternatives: seq<Alternative>)
    requires OneLineWords(alternatives)
    ensures var words := Kept(Flatten(alternatives));
      ParseSrt(Render(Entries(alternatives)))
        == Some(seq(|words|, i requires 0 <= i < |words| =>
                  Cue(i + 1, AsMillis(words[i].start), AsMillis(words[i].end), words[i].text)))
  {
    var flat := Flatten(alternatives);
    var words := Kept(flat);
    var entries := Entries(alternatives);
    KeptExactly(flat);
    forall i | 0 <= i < |entries|
      ensures '\n' !in entries[i].text
    {
      var p := KeptPositions(flat)[i];
      FlattenMember(alternatives, p);
    }
    SrtRoundTrip(entries);
    CuesOfNumbered(words);
  }

  lemma CuesOfNumbered(words: seq<Word>)
    ensures Cues(Numbered(words))
      == seq(|words|, i requires 0 <= i < |words| =>
             Cue(i + 1, AsMillis(words[i].start), AsMillis(words[i].end), words[i].text))
  {
    var entries := Numbered(words);
    var cues := Cues(entries);
    var expected := seq(|words|, i requires 0 <= i < |words| =>
                        Cue(i + 1, AsMillis(words[i].start), AsMillis(words[i].end), words[i].text));
    forall i | 0 <= i < |words|
      ensures cues[i] == expected[i]
    {
      assert entries[i] == SubtitleEntry(i + 1, words[i].start, words[i].end, words[i].text);
    }
  }
}
