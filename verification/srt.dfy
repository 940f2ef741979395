/** `save_srt`: the SubRip document built from transcription segments, one
    numbered block per segment in input order. */
module Srt {
  import opened Wrappers
  import opened Decimal
  import opened Text
  import opened Timestamp

  /** One transcribed span: its start and end in seconds and its text. */
  datatype Segment = Segment(start: real, end: real, text: string)

  /** One block of a SubRip document as a reader sees it. */
  datatype Entry = Entry(index: nat, start: Clock, end: Clock, text: string)

  /** The line `start --> end` from two rendered timestamps. */
  function Arrow(start: string, end: string): string {
    start + " --> " + end
  }

  /** A block from its three lines: the number, the timing line and the text,
      followed by an empty line. */
  function BlockText(number: string, timing: string, text: string): string {
    number + "\n" + timing + "\n" + text + "\n\n"
  }

  /** The timing line of a segment. */
  function TimingLine(seg: Segment): string {
    Arrow(FormatTime(seg.start), FormatTime(seg.end))
  }

  /** The block for the segment numbered `index`. */
  function Block(index: nat, seg: Segment): string {
    BlockText(NatToString(index), TimingLine(seg), Strip(seg.text))
  }

  /** The first `n` items rendered in order with their 1-based numbers:
      `render(1, xs[0])`, ..., `render(n, xs[n - 1])`, as a loop over
      `enumerate(xs, start=1)` produces them. */
  function Numbered<T>(render: (nat, T) -> string, xs: seq<T>, n: nat): (r: seq<string>)
    requires n <= |xs|
    ensures |r| == n
  {
    if n == 0 then [] else Numbered(render, xs, n - 1) + [render(n, xs[n - 1])]
  }

  /** The blocks of a document, one per segment, in input order. */
  function Blocks(segments: seq<Segment>): seq<string> {
    Numbered(Block, segments, |segments|)
  }

  /** The strings of `parts` one after the other. */
  function Concat(parts: seq<string>): string {
    if |parts| == 0 then "" else parts[0] + Concat(parts[1..])
  }

  /** The SubRip document of `segments`. */
  function Document(segments: seq<Segment>): string {
    Concat(Blocks(segments))
  }

  /** `save_srt`: appends one block per segment to an initially empty string,
      counting from 1. */
  method SaveSrt(segments: seq<Segment>) returns (srt: string)
    ensures srt == Document(segments)
  {
    srt := "";
    var i := 0;
    while i < |segments|
      invariant 0 <= i <= |segments|
      invariant srt == Concat(Numbered(Block, segments, i))
    {
      var segment := segments[i];
      var start := FormatTime(segment.start);
      var end := FormatTime(segment.end);
      var text := Strip(segment.text);
      var block := BlockText(NatToString(i + 1), Arrow(start, end), text);
      assert block == Block(i + 1, segment);
      NumberedStep(Block, segments, i);
      ConcatSnoc(Numbered(Block, segments, i), block);
      srt := srt + block;
      i := i + 1;
    }
  }

  // ---------------------------------------------------------------------
  // Reading a block back

  /** The position of the first `c` in `s`, or `|s|` when there is none. */
  function FirstIndex(s: string, c: char): (k: nat)
    ensures k <= |s|
    ensures forall j :: 0 <= j < k ==> s[j] != c
    ensures k < |s| ==> s[k] == c
  {
    if |s| == 0 then 0 else if s[0] == c then 0 else 1 + FirstIndex(s[1..], c)
  }

  /** Reads `start --> end` back into its two clock readings. */
  function ParseTiming(line: string): Option<(Clock, Clock)> {
    var k := FirstIndex(line, ' ');
    if k + 5 <= |line| && line[k..k + 5] == " --> " then
      match (ParseTimestamp(line[..k]), ParseTimestamp(line[k + 5..]))
      case (Some(a), Some(b)) => Some((a, b))
      case _ => None
    else None
  }

  /** Cuts a block into its number line, its timing line and its text: the
      first two line breaks end the first two lines, and the text runs up to
      the closing empty line. */
  function SplitBlock(b: string): Option<(string, string, string)> {
    var i := FirstIndex(b, '\n');
    if i == |b| then None
    else
      var rest := b[i + 1..];
      var j := FirstIndex(rest, '\n');
      if j == |rest| then None
      else
        var body := rest[j + 1..];
        if |body| < 2 || body[|body| - 2..] != "\n\n" then None
        else Some((b[..i], rest[..j], body[..|body| - 2]))
  }

  /** Reads one block back into the entry it shows. */
  function ParseBlock(b: string): Option<Entry> {
    match SplitBlock(b)
    case None => None
    case Some((number, timing, text)) =>
      match (ParseNumeral(number), ParseTiming(timing))
      case (Some(n), Some((start, end))) => Some(Entry(n, start, end, text))
      case _ => None
  }

  /** The entry a reader of block number `index` of `seg` should see. */
  function EntryOf(index: nat, seg: Segment): Entry {
    Entry(index, ClockOf(seg.start), ClockOf(seg.end), Strip(seg.text))
  }

  predicate NonNegativeTimes(seg: Segment) {
    seg.start >= 0.0 && seg.end >= 0.0
  }

  // ---------------------------------------------------------------------
  // Properties

  /** Concatenation takes a trailing part on at the end. */
  lemma {:induction false} ConcatSnoc(parts: seq<string>, last: string)
    ensures Concat(parts + [last]) == Concat(parts) + last
    decreases |parts|
  {
    if |parts| > 0 {
      assert (parts + [last])[1..] == parts[1..] + [last];
      ConcatSnoc(parts[1..], last);
    }
  }

  /** Numbering one more item appends its rendering. */
  lemma NumberedStep<T>(render: (nat, T) -> string, xs: seq<T>, n: nat)
    requires n < |xs|
    ensures Numbered(render, xs, n + 1) == Numbered(render, xs, n) + [render(n + 1, xs[n])]
  {
  }

  /** Item `k` of the list is item `k` of the input, numbered `k + 1`. */
  lemma {:induction false} NumberedAt<T>(render: (nat, T) -> string, xs: seq<T>, n: nat, k: nat)
    requires k < n <= |xs|
    ensures Numbered(render, xs, n)[k] == render(k + 1, xs[k])
  {
    if k < n - 1 {
      NumberedAt(render, xs, n - 1, k);
    }
  }

  /** The first `n` renderings depend on the first `n` items only. */
  lemma {:induction false} NumberedAgree<T>(render: (nat, T) -> string, a: seq<T>, b: seq<T>, n: nat)
    requires n <= |a| && n <= |b|
    requires forall k :: 0 <= k < n ==> a[k] == b[k]
    ensures Numbered(render, a, n) == Numbered(render, b, n)
  {
    if n > 0 {
      NumberedAgree(render, a, b, n - 1);
      assert a[n - 1] == b[n - 1];
    }
  }

  /** An empty list of segments gives the empty document. */
  lemma DocumentEmpty()
    ensures Document([]) == ""
  {
  }

  /** One more item appends one more rendering, numbered one past the
      items before it. */
  lemma NumberedSnoc<T>(render: (nat, T) -> string, xs: seq<T>, x: T)
    ensures Numbered(render, xs + [x], |xs| + 1) == Numbered(render, xs, |xs|) + [render(|xs| + 1, x)]
  {
    var all := xs + [x];
    NumberedAgree(render, all, xs, |xs|);
    assert all[|xs|] == x;
    NumberedStep(render, all, |xs|);
  }

  /** The document grows one block at a time: one more segment appends its
      block, numbered one past the segments before it. */
  lemma DocumentSnoc(segments: seq<Segment>, seg: Segment)
    ensures Document(segments + [seg]) == Document(segments) + Block(|segments| + 1, seg)
  {
    NumberedSnoc(Block, segments, seg);
    ConcatSnoc(Blocks(segments), Block(|segments| + 1, seg));
  }

  /** Every block closes with an empty line. */
  lemma BlockEndsWithEmptyLine(index: nat, seg: Segment)
    ensures EndsWith(Block(index, seg), "\n\n")
  {
    var b := BlockText(NatToString(index), TimingLine(seg), Strip(seg.text));
    assert b == (NatToString(index) + "\n" + TimingLine(seg) + "\n" + Strip(seg.text)) + "\n\n";
  }

  /** The concatenation of a non-empty numbered list ends the way its last
      rendering ends. */
  lemma NumberedConcatEnds<T>(render: (nat, T) -> string, xs: seq<T>, tail: string)
    requires |xs| > 0 && EndsWith(render(|xs|, xs[|xs| - 1]), tail)
    ensures EndsWith(Concat(Numbered(render, xs, |xs|)), tail)
  {
    var n := |xs| - 1;
    var last := render(n + 1, xs[n]);
    NumberedStep(render, xs, n);
    ConcatSnoc(Numbered(render, xs, n), last);
    EndsWithAppend(Concat(Numbered(render, xs, n)), last, tail);
  }

  /** A document with at least one block ends with an empty line. */
  lemma DocumentEndsWithEmptyLine(segments: seq<Segment>)
    requires |segments| > 0
    ensures EndsWith(Document(segments), "\n\n")
  {
    BlockEndsWithEmptyLine(|segments|, segments[|segments| - 1]);
    NumberedConcatEnds(Block, segments, "\n\n");
  }

  lemma FirstIndexAfter(a: string, c: char, b: string)
    requires forall j :: 0 <= j < |a| ==> a[j] != c
    ensures FirstIndex(a + [c] + b, c) == |a|
  {
    var s := a + [c] + b;
    assert s[|a|] == c;
  }

  /** Only digits and minus signs. */
  predicate SignedDigits(s: string) {
    forall j :: 0 <= j < |s| ==> IsDigit(s[j]) || s[j] == '-'
  }

  /** A rendered integer field holds digits and '-' only. */
  lemma FieldCharacters(v: int, width: int)
    ensures SignedDigits(FormatInt(v, width))
  {
    if v >= 0 {
      UnsignedFieldCharacters(v, width);
    } else {
      SignedFieldCharacters(v, width);
    }
  }

  lemma UnsignedFieldCharacters(v: nat, width: int)
    ensures SignedDigits(FormatInt(v, width))
  {
    var p := PadLeft(NatToString(v), width);
    assert FormatInt(v, width) == p;
    ParsePadded(v, width);
  }

  lemma SignedFieldCharacters(v: int, width: int)
    requires v < 0
    ensures SignedDigits(FormatInt(v, width))
  {
    NegativeFormat(v, width);
    SignedPaddedCharacters(-v, width - 1);
  }

  lemma SignedPaddedCharacters(n: nat, width: int)
    ensures SignedDigits("-" + PadLeft(NatToString(n), width))
  {
    ParsePadded(n, width);
    SignThenDigits(PadLeft(NatToString(n), width));
  }

  lemma SignThenDigits(p: string)
    requires AllDigits(p)
    ensures SignedDigits("-" + p)
  {
    forall j | 0 < j < |"-" + p|
      ensures IsDigit(("-" + p)[j])
    {
      assert ("-" + p)[j] == p[j - 1];
    }
  }

  predicate NoBlankOrBreak(s: string) {
    forall j :: 0 <= j < |s| ==> s[j] != ' ' && s[j] != '\n'
  }

  lemma JoinNoBlankOrBreak(hh: string, mm: string, ss: string, mmm: string)
    requires NoBlankOrBreak(hh) && NoBlankOrBreak(mm) && NoBlankOrBreak(ss) && NoBlankOrBreak(mmm)
    ensures NoBlankOrBreak(JoinFields(hh, mm, ss, mmm))
  {
  }

  /** A rendered timestamp holds no blank and no line break. */
  lemma FormatTimeCharacters(x: real)
    ensures NoBlankOrBreak(FormatTime(x))
  {
    var c := ClockOf(x);
    FieldCharacters(c.hours, 2);
    FieldCharacters(c.minutes, 2);
    FieldCharacters(c.seconds, 2);
    FieldCharacters(c.millis, 3);
    JoinNoBlankOrBreak(FormatInt(c.hours, 2), FormatInt(c.minutes, 2),
                       FormatInt(c.seconds, 2), FormatInt(c.millis, 3));
  }

  /** `start --> end` splits at its first blank. */
  lemma ParseArrow(a: string, b: string)
    requires NoBlankOrBreak(a)
    ensures ParseTiming(Arrow(a, b)) ==
      match (ParseTimestamp(a), ParseTimestamp(b))
      case (Some(x), Some(y)) => Some((x, y))
      case _ => None
  {
    var line := Arrow(a, b);
    assert line == a + [' '] + ("--> " + b);
    FirstIndexAfter(a, ' ', "--> " + b);
    assert line[..|a|] == a;
    assert line[|a|..|a| + 5] == " --> ";
    assert line[|a| + 5..] == b;
  }

  /** The timing line of a segment with non-negative times reads back. */
  lemma ParseTimingLine(seg: Segment)
    requires NonNegativeTimes(seg)
    ensures ParseTiming(TimingLine(seg)) == Some((ClockOf(seg.start), ClockOf(seg.end)))
  {
    FormatTimeCharacters(seg.start);
    FormatTimeRoundTrip(seg.start);
    FormatTimeRoundTrip(seg.end);
    ParseArrow(FormatTime(seg.start), FormatTime(seg.end));
  }

  predicate NoBreak(s: string) {
    forall j :: 0 <= j < |s| ==> s[j] != '\n'
  }

  /** A block splits at its first two line breaks and its closing empty line. */
  lemma SplitBlockText(number: string, timing: string, text: string)
    requires NoBreak(number) && NoBreak(timing)
    ensures SplitBlock(BlockText(number, timing, text)) == Some((number, timing, text))
  {
    var b := BlockText(number, timing, text);
    assert b == number + ['\n'] + (timing + "\n" + text + "\n\n");
    FirstIndexAfter(number, '\n', timing + "\n" + text + "\n\n");
    assert b[..|number|] == number;
    var rest := b[|number| + 1..];
    assert rest == timing + ['\n'] + (text + "\n\n");
    FirstIndexAfter(timing, '\n', text + "\n\n");
    assert rest[..|timing|] == timing;
    var body := rest[|timing| + 1..];
    assert body == text + "\n\n";
    assert body[..|body| - 2] == text;
  }

  lemma ArrowNoBreak(a: string, b: string)
    requires NoBlankOrBreak(a) && NoBlankOrBreak(b)
    ensures NoBreak(Arrow(a, b))
  {
  }

  lemma NumeralNoBreak(n: nat)
    ensures NoBreak(NatToString(n))
    ensures ParseNumeral(NatToString(n)) == Some(n)
  {
    ParseNatToString(n);
  }

  /** Every block reads back as its number, both timestamps' fields and the
      stripped text, whatever the text holds, empty lines included. */
  lemma BlockRoundTrip(index: nat, seg: Segment)
    requires NonNegativeTimes(seg)
    ensures ParseBlock(Block(index, seg)) == Some(EntryOf(index, seg))
  {
    FormatTimeCharacters(seg.start);
    FormatTimeCharacters(seg.end);
    ArrowNoBreak(FormatTime(seg.start), FormatTime(seg.end));
    NumeralNoBreak(index);
    ParseTimingLine(seg);
    SplitBlockText(NatToString(index), TimingLine(seg), Strip(seg.text));
  }

  /** Numbering is contiguous and follows input order: block `k` of the
      document is the block of segment `k` and its number line reads back as
      `k + 1`, whatever the times and even where a segment's text is empty.
      With non-negative times the whole block reads back as well. */
  lemma DocumentNumbering(segments: seq<Segment>, k: nat)
    requires k < |segments|
    ensures |Blocks(segments)| == |segments|
    ensures Blocks(segments)[k] == Block(k + 1, segments[k])
    ensures SplitBlock(Blocks(segments)[k]).Some?
    ensures ParseNumeral(SplitBlock(Blocks(segments)[k]).value.0) == Some(k + 1)
    ensures NonNegativeTimes(segments[k]) ==>
              ParseBlock(Blocks(segments)[k]) == Some(EntryOf(k + 1, segments[k]))
  {
    var b := Blocks(segments)[k];
    assert b == Block(k + 1, segments[k]) by {
      NumberedAt(Block, segments, |segments|, k);
    }
    BlockSplits(k + 1, segments[k]);
    NumeralNoBreak(k + 1);
    if NonNegativeTimes(segments[k]) {
      BlockRoundTrip(k + 1, segments[k]);
    }
  }

  /** The text line of every block, whatever its times, is free of leading
      and trailing whitespace. */
  lemma BlockTextTrimmed(index: nat, seg: Segment)
    ensures SplitBlock(Block(index, seg)).Some?
    ensures var t := SplitBlock(Block(index, seg)).value.2;
            t == [] || (!IsSpace(t[0]) && !IsSpace(t[|t| - 1]))
  {
    BlockSplits(index, seg);
  }

  /** Every block splits into its numeral, its timing line and its stripped
      text, whatever its times. */
  lemma BlockSplits(index: nat, seg: Segment)
    ensures SplitBlock(Block(index, seg)) == Some((NatToString(index), TimingLine(seg), Strip(seg.text)))
  {
    FormatTimeCharacters(seg.start);
    FormatTimeCharacters(seg.end);
    ArrowNoBreak(FormatTime(seg.start), FormatTime(seg.end));
    NumeralNoBreak(index);
    SplitBlockText(NatToString(index), TimingLine(seg), Strip(seg.text));
  }

  // ---------------------------------------------------------------------
  // A worked transcript

  /** Unfolds `Block` for the scenario proofs below: a block is fixed by its
      numeral, its two timestamps and its stripped text. */
  lemma BlockOfParts(index: nat, seg: Segment)
    ensures Block(index, seg)
         == BlockText(NatToString(index), Arrow(FormatTime(seg.start), FormatTime(seg.end)), Strip(seg.text))
  {
  }

  /** Stripping removes the blanks and the line break around the words and
      keeps the blank between them. */
  lemma StripExample()
    ensures Strip("  hi there  \n") == "hi there"
  {
    var s := "  hi there  \n";
    assert s[2..10] == "hi there";
    StripIsTheCore(s, 2, 10);
  }

  lemma FirstScenarioBlock()
    ensures Block(1, Segment(0.0, 1.5, "Hi"))
         == BlockText("1", Arrow("00:00:00,000", "00:00:01,500"), "Hi")
  {
    assert "Hi"[0..2] == "Hi";
    assert NatToString(1) == "1";
    StripIsTheCore("Hi", 0, 2);
    ZeroSeconds();
    OneAndAHalfSeconds();
    BlockOfParts(1, Segment(0.0, 1.5, "Hi"));
  }

  lemma SecondScenarioBlock()
    ensures Block(2, Segment(1.5, 3.0, " there "))
         == BlockText("2", Arrow("00:00:01,500", "00:00:03,000"), "there")
  {
    assert " there "[1..6] == "there";
    assert NatToString(2) == "2";
    StripIsTheCore(" there ", 1, 6);
    OneAndAHalfSeconds();
    ThreeSeconds();
    BlockOfParts(2, Segment(1.5, 3.0, " there "));
  }

  /** Two items numbered and joined are their two renderings in order. */
  lemma NumberedTwo<T>(render: (nat, T) -> string, x1: T, x2: T)
    ensures Concat(Numbered(render, [x1, x2], 2)) == render(1, x1) + render(2, x2)
  {
    NumberedStep(render, [x1, x2], 0);
    NumberedStep(render, [x1, x2], 1);
    ConcatSnoc([render(1, x1)], render(2, x2));
    assert [render(1, x1)] == [] + [render(1, x1)];
    ConcatSnoc([], render(1, x1));
  }

  /** Two segments give two blocks numbered 1 and 2 in input order, their
      times rendered and their texts stripped. */
  lemma TwoSegmentDocument()
    ensures Document([Segment(0.0, 1.5, "Hi"), Segment(1.5, 3.0, " there ")])
         == BlockText("1", Arrow("00:00:00,000", "00:00:01,500"), "Hi")
          + BlockText("2", Arrow("00:00:01,500", "00:00:03,000"), "there")
  {
    FirstScenarioBlock();
    SecondScenarioBlock();
    NumberedTwo(Block, Segment(0.0, 1.5, "Hi"), Segment(1.5, 3.0, " there "));
  }
}
