/**
 * The transcript formatter of `WhisperEngine.transcribe_wav`: every segment
 * the model returns becomes one line `[HH:MM:SS] <stripped text>`, in the
 * order the model returned them, and the lines are joined with "\n".
 */
module Transcript {

  import opened Wrappers
  import opened Strings
  import opened Timestamp

  /** One entry of the model's `result["segments"]`: start and end in
      seconds and the recognised text. */
  datatype Segment = Segment(start: real, end: real, text: string)

  /** The line for one segment: `f"[{format_timestamp(start)}] {text.strip()}"`. */
  function Line(seg: Segment): string {
    "[" + FormatTimestamp(seg.start) + "] " + Strip(seg.text)
  }

  /** `[f(x) for x in xs]`, built from the left the way a loop appends. */
  function Map<A, B>(f: A -> B, xs: seq<A>): seq<B> {
    if xs == [] then [] else Map(f, xs[..|xs| - 1]) + [f(xs[|xs| - 1])]
  }

  /** `output_lines` once the loop has gone through `segs`. */
  function Lines(segs: seq<Segment>): seq<string> {
    Map(Line, segs)
  }

  /** The text `transcribe_wav` returns for a segment list. */
  function Render(segs: seq<Segment>): string {
    Join(Lines(segs), '\n')
  }

  /** The formatting loop of `transcribe_wav`: append one line per segment
      to `output_lines`, then `"\n".join(output_lines)`. */
  method FormatSegments(segments: seq<Segment>) returns (text: string)
    ensures text == Render(segments)
  {
    var outputLines: seq<string> := [];
    for i := 0 to |segments|
      invariant outputLines == Lines(segments[..i])
    {
      var segment := segments[i];
      var timestamp := FormatTimestamp(segment.start);
      var body := Strip(segment.text);
      outputLines := outputLines + ["[" + timestamp + "] " + body];
      MapSnoc(Line, segments, i);
    }
    assert segments[..|segments|] == segments;
    text := Join(outputLines, '\n');
  }

  /** One image per element, the k-th from the k-th. */
  lemma {:induction false} MapAt<A, B>(f: A -> B, xs: seq<A>)
    ensures |Map(f, xs)| == |xs|
    ensures forall k :: 0 <= k < |xs| ==> Map(f, xs)[k] == f(xs[k])
  {
    if xs != [] {
      MapAt(f, xs[..|xs| - 1]);
    }
  }

  /** One more loop step appends the image of the next element. */
  lemma MapSnoc<A, B>(f: A -> B, xs: seq<A>, i: nat)
    requires i < |xs|
    ensures Map(f, xs[..i + 1]) == Map(f, xs[..i]) + [f(xs[i])]
  {
    assert xs[..i + 1][..i] == xs[..i];
  }

  lemma {:induction false} MapAppend<A, B>(f: A -> B, a: seq<A>, b: seq<A>)
    ensures Map(f, a + b) == Map(f, a) + Map(f, b)
    decreases |b|
  {
    if b != [] {
      var b' := b[..|b| - 1];
      assert (a + b)[..|a + b| - 1] == a + b';
      MapAppend(f, a, b');
    } else {
      assert a + b == a;
    }
  }

  /** Exactly one line per segment, the k-th line made from the k-th
      segment: nothing is dropped, added or reordered. */
  lemma LinesAt(segs: seq<Segment>)
    ensures |Lines(segs)| == |segs|
    ensures forall k :: 0 <= k < |segs| ==> Lines(segs)[k] == Line(segs[k])
  {
    MapAt(Line, segs);
  }

  /** No segments, no text. */
  lemma RenderEmpty()
    ensures Render([]) == ""
  {
  }

  /** One segment gives its line and nothing else (no trailing newline). */
  lemma RenderSingle(seg: Segment)
    ensures Render([seg]) == Line(seg)
  {
    LinesAt([seg]);
  }

  /** `[{start: 0, end: 1, text: " hi "}]` renders as "[00:00:00] hi". */
  lemma RenderHi()
    ensures Render([Segment(0.0, 1.0, " hi ")]) == "[00:00:00] hi"
  {
    StripHi();
    FormatZero();
    RenderSingleOf(Segment(0.0, 1.0, " hi "), "00:00:00", "hi");
    assert "[" + "00:00:00" + "] " + "hi" == "[00:00:00] hi";
  }

  lemma StripHi()
    ensures Strip(" hi ") == "hi"
  {
    assert " hi " == " " + "hi" + " ";
    assert IsStripOf(" hi ", " ", "hi", " ");
    StripUnique(" hi ", " ", "hi", " ");
  }

  /** A single segment renders as its bracketed timestamp, a space and
      its stripped text. */
  lemma RenderSingleOf(seg: Segment, t: string, body: string)
    requires FormatTimestamp(seg.start) == t && Strip(seg.text) == body
    ensures Render([seg]) == "[" + t + "] " + body
  {
    RenderSingle(seg);
  }

  /** Rendering keeps segment order: the transcript of `a + b` is the
      transcript of `a`, a newline, and the transcript of `b`. */
  lemma RenderAppend(a: seq<Segment>, b: seq<Segment>)
    requires a != [] && b != []
    ensures Render(a + b) == Render(a) + "\n" + Render(b)
  {
    MapAppend(Line, a, b);
    LinesAt(a);
    LinesAt(b);
    JoinAppend(Lines(a), Lines(b), '\n');
  }

  /** A segment's end time never reaches the output: two segment lists
      that agree on every start and text render the same. */
  lemma {:induction false} RenderIgnoresEnd(a: seq<Segment>, b: seq<Segment>)
    requires |a| == |b|
    requires forall k :: 0 <= k < |a| ==> a[k].start == b[k].start && a[k].text == b[k].text
    ensures Render(a) == Render(b)
  {
    LinesAt(a);
    LinesAt(b);
    assert Lines(a) == Lines(b);
  }

  /** Index of the first `c` in `s`, or `|s|` when there is none. */
  function IndexOf(s: string, c: char): (k: nat)
    ensures k <= |s| && c !in s[..k] && (k < |s| ==> s[k] == c)
  {
    if s == [] || s[0] == c then 0
    else
      var k := IndexOf(s[1..], c);
      assert s[1..][..k] == s[1..k + 1];
      1 + k
  }

  /** Reads a transcript line back into its whole start seconds and text. */
  function ParseLine(l: string): Option<(int, string)> {
    if l == [] || l[0] != '[' then None
    else
      var k := IndexOf(l, ']');
      if k + 1 >= |l| || l[k + 1] != ' ' then None
      else match ParseTimestamp(l[1..k])
        case None => None
        case Some(v) => Some((v, l[k + 2..]))
  }

  /** Every line reads back to the segment's whole start second and its
      stripped text, which has no whitespace at either end. */
  lemma LineRoundTrip(seg: Segment)
    ensures ParseLine(Line(seg)) == Some((seg.start.Floor, Strip(seg.text)))
    ensures Strip(seg.text) != [] ==>
      !IsSpace(Strip(seg.text)[0]) && !IsSpace(Strip(seg.text)[|Strip(seg.text)| - 1])
  {
    var t := FormatTimestamp(seg.start);
    TimestampChars(seg.start);
    TimestampRoundTrip(seg.start);
    ParseLineOf(t, Strip(seg.text));
    StripSpec(seg.text);
  }

  /** A bracketed stamp without ']' followed by a space and a text reads
      back to the stamp's value and the text. */
  lemma ParseLineOf(t: string, body: string)
    requires ']' !in t && ParseTimestamp(t).Some?
    ensures ParseLine("[" + t + "] " + body) == Some((ParseTimestamp(t).value, body))
  {
    var l := "[" + t + "] " + body;
    assert l[1..|t| + 1] == t;
    assert l[|t| + 1] == ']' && l[|t| + 2] == ' ';
    assert l[..|t| + 1] == "[" + t;
    assert IndexOf(l, ']') == |t| + 1;
    assert l[|t| + 3..] == body;
  }

  /** No line contains a newline unless a segment's stripped text does. */
  lemma LineNoNewline(seg: Segment)
    requires '\n' !in Strip(seg.text)
    ensures '\n' !in Line(seg)
  {
    TimestampChars(seg.start);
  }

  /** Split back on "\n", a non-empty transcript gives its lines again,
      provided no stripped text contains a newline of its own; each line
      then reads back to its segment's start second and stripped text. */
  lemma TranscriptRoundTrip(segs: seq<Segment>)
    requires segs != []
    requires forall k :: 0 <= k < |segs| ==> '\n' !in Strip(segs[k].text)
    ensures Split(Render(segs), '\n') == Lines(segs)
    ensures |Split(Render(segs), '\n')| == |segs|
    ensures forall k :: 0 <= k < |segs| ==>
      ParseLine(Split(Render(segs), '\n')[k]) == Some((segs[k].start.Floor, Strip(segs[k].text)))
  {
    LinesAt(segs);
    forall k | 0 <= k < |segs|
      ensures '\n' !in Lines(segs)[k]
      ensures ParseLine(Lines(segs)[k]) == Some((segs[k].start.Floor, Strip(segs[k].text)))
    {
      LineNoNewline(segs[k]);
      LineRoundTrip(segs[k]);
    }
    SplitJoin(Lines(segs), '\n');
  }
}
