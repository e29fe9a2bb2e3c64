/**
 * The stream the crew's console output is redirected into (`StreamToExpander`
 * in main.py). Every chunk written to it is cleaned of terminal colour codes,
 * may raise a notification with the task it mentions, has its structural
 * markers tagged in the colour of the current agent chain, and is buffered;
 * a chunk holding a line break flushes the buffer to the expander as one
 * piece of markdown.
 *
 * `Step` and `Run` describe the stream on values; the class
 * `StreamToExpander` is the stream itself, updated in place, and its `Write`
 * is proved to make exactly the change `Step` describes.
 */
module Annotator {
  import opened Strings
  import Ansi
  import TaskLabel
  import Markup

  /** The colours the chains cycle through. */
  const Palette: seq<string> := ["red", "green", "blue", "orange"]

  /** Every colour name is short and holds no tag delimiter. */
  lemma PaletteColours()
    ensures |Palette| == 4
    ensures forall k :: 0 <= k < |Palette| ==> |Palette[k]| < 15 && Markup.Bare(Palette[k])
  {
  }

  /**
   * The colour index after a chunk whose cleaned text is `cleaned`: it moves
   * on, cyclically, exactly when a new agent chain starts in the chunk.
   */
  function NextIndex(i: nat, cleaned: string): (r: nat)
    requires i < |Palette|
    ensures r < |Palette|
    ensures r != i <==> Contains(cleaned, Markup.ChainEntered)
  {
    PaletteColours();
    if Contains(cleaned, Markup.ChainEntered) then (i + 1) % 4 else i
  }

  /**
   * The text a chunk adds to the buffer when written with colour index `i`:
   * the cleaned chunk, tagged in the colour chosen after the chunk. Tagging
   * loses nothing: removing the tags gives back the cleaned chunk.
   */
  function Fragment(i: nat, data: string): (f: string)
    requires i < |Palette|
    ensures Markup.Unannotate(Markup.Markers, Palette[NextIndex(i, Ansi.StripAnsi(data))], f) == Ansi.StripAnsi(data)
  {
    Markup.MarkersWellFormed();
    PaletteColours();
    var cleaned := Ansi.StripAnsi(data);
    var colour := Palette[NextIndex(i, cleaned)];
    Markup.UnannotateAnnotate(Markup.Markers, colour, cleaned);
    Markup.Annotate(Markup.Markers, colour, cleaned)
  }

  /**
   * What the stream holds and has emitted: the buffered fragments, the
   * colour index, the notifications raised and the markdown pieces flushed
   * to the expander, each list oldest first.
   */
  datatype Snapshot = Snapshot(buffer: seq<string>, colorIndex: nat, toasts: seq<string>, flushed: seq<string>)

  /** The stream as it is created. */
  const Initial: Snapshot := Snapshot([], 0, [], [])

  /** The effect of writing one chunk. */
  function Step(st: Snapshot, data: string): (r: Snapshot)
    requires st.colorIndex < |Palette|
    ensures r.colorIndex < |Palette|
    ensures st.toasts <= r.toasts && |r.toasts| <= |st.toasts| + 1
    ensures st.flushed <= r.flushed && |r.flushed| <= |st.flushed| + 1
  {
    var cleaned := Ansi.StripAnsi(data);
    var f := Fragment(st.colorIndex, data);
    var toasts := st.toasts + TaskLabel.Notification(cleaned);
    var i := NextIndex(st.colorIndex, cleaned);
    if '\n' in data then
      Snapshot([], i, toasts, st.flushed + [Concat(st.buffer + [f])])
    else
      Snapshot(st.buffer + [f], i, toasts, st.flushed)
  }

  /** The effect of writing the chunks one after the other. */
  function Run(st: Snapshot, chunks: seq<string>): (r: Snapshot)
    requires st.colorIndex < |Palette|
    ensures r.colorIndex < |Palette|
    decreases |chunks|
  {
    if chunks == [] then st else Run(Step(st, chunks[0]), chunks[1..])
  }

  /** The fragments the chunks add, each tagged in the colour current when it is written. */
  function Fragments(i: nat, chunks: seq<string>): (fs: seq<string>)
    requires i < |Palette|
    ensures |fs| == |chunks|
    decreases |chunks|
  {
    if chunks == [] then
      []
    else
      [Fragment(i, chunks[0])] + Fragments(NextIndex(i, Ansi.StripAnsi(chunks[0])), chunks[1..])
  }

  /** 1 when the cleaned chunk starts a new agent chain, else 0. */
  function ChainBit(cleaned: string): (b: nat)
    ensures b <= 1
  {
    if Contains(cleaned, Markup.ChainEntered) then 1 else 0
  }

  /** The colour index moves on by the chunk's chain bit, cyclically. */
  lemma NextIndexStep(i: nat, cleaned: string)
    requires i < |Palette|
    ensures NextIndex(i, cleaned) == (i + ChainBit(cleaned)) % 4
  {
    PaletteColours();
  }

  /** How many of the chunks start a new agent chain. */
  function ChainStarts(chunks: seq<string>): (n: nat)
    ensures n <= |chunks|
  {
    if chunks == [] then 0
    else ChainBit(Ansi.StripAnsi(chunks[0])) + ChainStarts(chunks[1..])
  }

  /** How many of the chunks hold a line break. */
  function LineBreaks(chunks: seq<string>): (n: nat)
    ensures n <= |chunks|
  {
    if chunks == [] then 0 else (if '\n' in chunks[0] then 1 else 0) + LineBreaks(chunks[1..])
  }

  /** Writing a chunk loses no text: flushed plus buffered text grows by exactly the chunk's fragment. */
  lemma StepKeepsText(st: Snapshot, data: string)
    requires st.colorIndex < |Palette|
    ensures Concat(Step(st, data).flushed) + Concat(Step(st, data).buffer)
         == Concat(st.flushed) + Concat(st.buffer) + Fragment(st.colorIndex, data)
  {
    var f := Fragment(st.colorIndex, data);
    StepFlushes(st, data);
    if '\n' in data {
      ConcatAppend(st.flushed, [Concat(st.buffer) + f]);
    } else {
      ConcatAppend(st.buffer, [f]);
    }
  }

  /** A chunk with a line break empties the buffer into one flushed piece; any other chunk flushes nothing. */
  lemma StepFlushes(st: Snapshot, data: string)
    requires st.colorIndex < |Palette|
    ensures Step(st, data).colorIndex == NextIndex(st.colorIndex, Ansi.StripAnsi(data))
    ensures Step(st, data).toasts == st.toasts + TaskLabel.Notification(Ansi.StripAnsi(data))
    ensures '\n' in data ==> Step(st, data).buffer == []
    ensures '\n' in data ==>
      Step(st, data).flushed == st.flushed + [Concat(st.buffer) + Fragment(st.colorIndex, data)]
    ensures '\n' !in data ==>
      Step(st, data).flushed == st.flushed && Step(st, data).buffer == st.buffer + [Fragment(st.colorIndex, data)]
  {
    ConcatAppend(st.buffer, [Fragment(st.colorIndex, data)]);
  }

  /** Over any run, the text flushed and buffered is the text before it followed by every fragment, in order. */
  lemma {:induction false} RunKeepsText(st: Snapshot, chunks: seq<string>)
    requires st.colorIndex < |Palette|
    ensures Concat(Run(st, chunks).flushed) + Concat(Run(st, chunks).buffer)
         == Concat(st.flushed) + Concat(st.buffer) + Concat(Fragments(st.colorIndex, chunks))
    decreases |chunks|
  {
    if chunks != [] {
      var st' := Step(st, chunks[0]);
      var f := Fragment(st.colorIndex, chunks[0]);
      var rest := Fragments(st'.colorIndex, chunks[1..]);
      var r := Run(st', chunks[1..]);
      assert Run(st, chunks) == r;
      assert Fragments(st.colorIndex, chunks) == [f] + rest;
      ConcatAppend([f], rest);
      StepKeepsText(st, chunks[0]);
      RunKeepsText(st', chunks[1..]);
      Regroup(Concat(st.flushed), Concat(st.buffer), Concat(st'.flushed), Concat(st'.buffer), f, Concat(rest),
              Concat(r.flushed) + Concat(r.buffer));
    }
  }

  /** The associativity step of `RunKeepsText`, stated on plain strings. */
  lemma Regroup(fl: string, bu: string, fl': string, bu': string, f: string, rest: string, out: string)
    requires fl' + bu' == fl + bu + f
    requires out == fl' + bu' + rest
    ensures out == fl + bu + (f + rest)
  {
  }

  /** Over any run, exactly one piece is flushed per chunk holding a line break, however many it holds. */
  lemma {:induction false} RunFlushCount(st: Snapshot, chunks: seq<string>)
    requires st.colorIndex < |Palette|
    ensures |Run(st, chunks).flushed| == |st.flushed| + LineBreaks(chunks)
    decreases |chunks|
  {
    if chunks != [] {
      var st' := Step(st, chunks[0]);
      StepFlushes(st, chunks[0]);
      RunFlushCount(st', chunks[1..]);
      assert Run(st, chunks) == Run(st', chunks[1..]);
    }
  }

  /** The colour index after the chunks, started from `i`. */
  function ColourAfter(i: nat, chunks: seq<string>): (r: nat)
    requires i < |Palette|
    ensures r < |Palette|
    decreases |chunks|
  {
    if chunks == [] then i else ColourAfter(NextIndex(i, Ansi.StripAnsi(chunks[0])), chunks[1..])
  }

  /** The colour index moves on once, cyclically, per chunk that starts a chain. */
  lemma {:induction false} ColourAfterCounts(i: nat, chunks: seq<string>)
    requires i < |Palette|
    ensures ColourAfter(i, chunks) == (i + ChainStarts(chunks)) % 4
    decreases |chunks|
  {
    if chunks == [] {
      PaletteColours();
      assert (i + 0) % 4 == i;
    } else {
      var c := Ansi.StripAnsi(chunks[0]);
      var j := NextIndex(i, c);
      NextIndexStep(i, c);
      ColourAfterCounts(j, chunks[1..]);
      assert ColourAfter(i, chunks) == ColourAfter(j, chunks[1..]);
      assert ChainStarts(chunks) == ChainBit(c) + ChainStarts(chunks[1..]);
      CycleAdd(i, ChainBit(c), ChainStarts(chunks[1..]), ChainStarts(chunks), j, ColourAfter(j, chunks[1..]));
    }
  }

  /** Over any run, the colour index follows the chunks that start a chain. */
  lemma {:induction false} RunColour(st: Snapshot, chunks: seq<string>)
    requires st.colorIndex < |Palette|
    ensures Run(st, chunks).colorIndex == ColourAfter(st.colorIndex, chunks)
    decreases |chunks|
  {
    if chunks != [] {
      StepFlushes(st, chunks[0]);
      RunColour(Step(st, chunks[0]), chunks[1..]);
    }
  }

  /** Wrapping by the number of colours is wrapping by four. */
  lemma WrapAround(x: int)
    ensures x % |Palette| == x % 4
  {
    PaletteColours();
  }

  /** Moving on by `b` and wrapping, then by `n` and wrapping, is moving on by `b + n` and wrapping. */
  lemma CycleAdd(i: nat, b: nat, n: nat, t: nat, j: nat, r: nat)
    requires t == b + n && j == (i + b) % 4 && r == (j + n) % 4
    ensures r == (i + t) % 4
  {
  }

  /** After four chain starts the colours have gone round once. */
  lemma FourChainsReturn(st: Snapshot, chunks: seq<string>)
    requires st.colorIndex < |Palette| && ChainStarts(chunks) == 4
    ensures Run(st, chunks).colorIndex == st.colorIndex
  {
    RunColour(st, chunks);
    ColourAfterFullCycle(st.colorIndex, chunks);
  }

  /** Four chain starts bring the colour index back where it was. */
  lemma ColourAfterFullCycle(i: nat, chunks: seq<string>)
    requires i < |Palette| && ChainStarts(chunks) == 4
    ensures ColourAfter(i, chunks) == i
  {
    PaletteColours();
    ColourAfterCounts(i, chunks);
  }

  /** The five replacements, in the colour chosen after the chunk, give the chunk's fragment. */
  lemma ReplacedIsFragment(i: nat, data: string)
    requires i < |Palette|
    ensures var cleaned := Ansi.StripAnsi(data);
      Markup.Replaced(Palette[NextIndex(i, cleaned)], cleaned, |Markup.Markers|) == Fragment(i, data)
  {
    PaletteColours();
    var cleaned := Ansi.StripAnsi(data);
    Markup.ReplaceMarkersIsAnnotate(Palette[NextIndex(i, cleaned)], cleaned);
  }

  /** A chunk without ESC characters and without any marker. */
  predicate Plain(data: string)
  {
    Ansi.Esc !in data && forall k :: 0 <= k < |Markup.Markers| ==> !Contains(data, Markup.Markers[k])
  }

  /** A plain chunk is buffered exactly as written, and leaves the colour alone. */
  lemma PlainFragment(i: nat, data: string)
    requires i < |Palette| && Plain(data)
    ensures NextIndex(i, Ansi.StripAnsi(data)) == i
    ensures Fragment(i, data) == data
  {
    Ansi.StripAnsiPlain(data);
    assert !Contains(data, Markup.Markers[0]);
    Markup.AbsentMarkersPlain(Palette[i], data);
  }

  /**
   * Two plain chunks, the first without a line break and the second with
   * one (say "partial" and "rest\n"): the first is only buffered, the second
   * flushes both as one piece, line break included, and empties the buffer.
   */
  lemma LineAssembly(a: string, b: string)
    requires Plain(a) && Plain(b) && '\n' !in a && '\n' in b
    ensures Run(Initial, [a, b]).flushed == [a + b]
    ensures Run(Initial, [a, b]).buffer == []
    ensures Run(Initial, [a, b]).colorIndex == 0
  {
    PlainFragment(0, a);
    PlainFragment(0, b);
    var st1 := Step(Initial, a);
    StepFlushes(Initial, a);
    assert st1.buffer == [a] && st1.flushed == [] && st1.colorIndex == 0;
    var st2 := Step(st1, b);
    StepFlushes(st1, b);
    assert Run(Initial, [a, b]) == Run(st1, [b]);
    assert Run(st1, [b]) == Run(st2, []);
  }

  /**
   * The stream object. `toasts` and `markdown` record, in order, the
   * notifications raised and the markdown pieces handed to the expander.
   */
  class StreamToExpander {
    var buffer: seq<string>
    const colors: seq<string> := Palette
    var colorIndex: nat
    var toasts: seq<string>
    var markdown: seq<string>

    /** The colour index always names a colour. */
    predicate Valid()
      reads this
    {
      colorIndex < |colors|
    }

    /** The stream's state as a value. */
    function State(): Snapshot
      reads this
    {
      Snapshot(buffer, colorIndex, toasts, markdown)
    }

    /** A new stream: empty buffer, first colour, nothing emitted. */
    constructor()
      ensures Valid() && State() == Initial
    {
      buffer := [];
      colorIndex := 0;
      toasts := [];
      markdown := [];
    }

    /**
     * Writes one chunk: cleans it, raises the notification for its task,
     * tags its markers, buffers it, and flushes the buffer at a line break.
     */
    method Write(data: string)
      requires Valid()
      modifies this
      ensures Valid()
      ensures State() == Step(old(State()), data)
    {
      ghost var st0 := State();
      var cleaned := Ansi.StripAnsi(data);
      Notify(cleaned);
      var tagged := Colourise(cleaned);
      ReplacedIsFragment(st0.colorIndex, data);
      StepFlushes(st0, data);
      buffer := buffer + [tagged];
      if '\n' in data {
        ConcatAppend(st0.buffer, [tagged]);
        markdown := markdown + [Concat(buffer)];
        buffer := [];
      }
    }

    /** Raises a notification for the task the cleaned chunk names, unless there is none or it is empty. */
    method Notify(cleaned: string)
      modifies this
      ensures toasts == old(toasts) + TaskLabel.Notification(cleaned)
      ensures buffer == old(buffer) && colorIndex == old(colorIndex) && markdown == old(markdown)
    {
      var task := TaskLabel.TaskLabel(cleaned);
      if task.Some? && task.value != [] {
        toasts := toasts + [":robot_face: " + task.value];
      }
    }

    /**
     * Moves to the next colour when the cleaned chunk starts a chain, then
     * wraps each marker, one `str.replace` per marker, in the current colour.
     */
    method Colourise(cleaned: string) returns (tagged: string)
      requires Valid()
      modifies this
      ensures Valid()
      ensures colorIndex == NextIndex(old(colorIndex), cleaned)
      ensures tagged == Markup.Replaced(Palette[colorIndex], cleaned, |Markup.Markers|)
      ensures buffer == old(buffer) && toasts == old(toasts) && markdown == old(markdown)
    {
      PaletteColours();
      WrapAround(colorIndex + 1);
      tagged := cleaned;
      if Contains(tagged, Markup.ChainEntered) {
        colorIndex := (colorIndex + 1) % |colors|;
        tagged := ReplaceAll(tagged, Markup.ChainEntered, Markup.Tag(colors[colorIndex], Markup.ChainEntered));
      }
      var colour := colors[colorIndex];
      assert tagged == Markup.Replaced(colour, cleaned, 1);
      tagged := TagAgents(colour, cleaned, tagged);
    }
  }

  /**
   * The replacements after the chain marker: each remaining marker, in
   * order, wrapped in `colour`.
   */
  method TagAgents(colour: string, cleaned: string, tagged: string) returns (r: string)
    requires tagged == Markup.Replaced(colour, cleaned, 1)
    ensures r == Markup.Replaced(colour, cleaned, |Markup.Markers|)
  {
    r := ReplaceIfPresent(tagged, Markup.MarketResearchAnalyst, colour);
    assert r == Markup.Replaced(colour, cleaned, 2);
    r := ReplaceIfPresent(r, Markup.BusinessDevelopmentConsultant, colour);
    assert r == Markup.Replaced(colour, cleaned, 3);
    r := ReplaceIfPresent(r, Markup.TechnologyExpert, colour);
    assert r == Markup.Replaced(colour, cleaned, 4);
    r := ReplaceIfPresent(r, Markup.ChainFinished, colour);
  }

  /**
   * `if marker in text: text = text.replace(marker, tagged marker)`: the
   * membership test never changes the outcome of the replacement.
   */
  method ReplaceIfPresent(text: string, marker: string, colour: string) returns (r: string)
    requires marker != []
    ensures r == ReplaceAll(text, marker, Markup.Tag(colour, marker))
    ensures !Contains(text, marker) ==> r == text
  {
    r := text;
    if Contains(text, marker) {
      r := ReplaceAll(text, marker, Markup.Tag(colour, marker));
    }
  }
}
