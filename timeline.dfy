/**
 * The renderer and the two drivers built on it (`createRenderer`,
 * `renderAt` and `animate` in index.js): a cast's output chunks are fed to a
 * terminal engine, and the engine's screen is drawn either as one still
 * picture or as one animation frame per chunk.
 *
 * The terminal engine (VT parsing, cursor movement, scrolling) is not part of
 * this model: it is a blank screen for the cast's size and a total function
 * that updates the screen with a chunk of output.
 */
module Timeline {
  import opened Wrappers
  import opened Extraction
  import opened Grouping
  import opened Styles
  import Geometry

  /** One recorded chunk of output: the delay before it, in seconds, and its data. */
  datatype Chunk = Chunk(delay: real, data: string)

  /** The parsed asciicast: the terminal's size, the recording's length in seconds and its output. */
  datatype Cast = Cast(width: nat, height: nat, duration: real, stdout: seq<Chunk>)

  /** The terminal engine, seen from outside: its blank screen and how output changes a screen. */
  datatype Engine = Engine(blank: (nat, nat) -> Grid, feed: (Grid, string) -> Grid)

  /** The screen after feeding the engine the first n chunks in order. */
  function Replay(engine: Engine, screen: Grid, chunks: seq<Chunk>, n: nat): Grid
    requires n <= |chunks|
  {
    if n == 0 then screen else engine.feed(Replay(engine, screen, chunks, n - 1), chunks[n - 1].data)
  }

  // ---------------------------------------------------------------- timing

  function Sum(xs: seq<real>): real
  {
    if |xs| == 0 then 0.0 else Sum(xs[..|xs| - 1]) + xs[|xs| - 1]
  }

  /** The running delay sum after the first n chunks: the time at which chunk n - 1 is shown. */
  function RunningSum(chunks: seq<Chunk>, n: nat): real
    requires n <= |chunks|
  {
    if n == 0 then 0.0 else RunningSum(chunks, n - 1) + chunks[n - 1].delay
  }

  /** The sum of the delays of the first chunks is their running sum. */
  lemma {:induction false} SumOfDelays(chunks: seq<Chunk>, delays: seq<real>)
    requires |delays| <= |chunks|
    requires forall k :: 0 <= k < |delays| ==> delays[k] == chunks[k].delay
    ensures Sum(delays) == RunningSum(chunks, |delays|)
  {
    if |delays| > 0 {
      SumOfDelays(chunks, delays[..|delays| - 1]);
    }
  }

  /**
   * How many of the first n chunks `renderAt` writes before drawing: it adds
   * up the delays and stops at the first chunk whose running sum passes `time`.
   */
  function WrittenAmong(chunks: seq<Chunk>, time: real, n: nat): (w: nat)
    requires n <= |chunks|
    ensures w <= n
  {
    if n == 0 then 0
    else
      var m := WrittenAmong(chunks, time, n - 1);
      if m < n - 1 || RunningSum(chunks, n) > time then m else n
  }

  /** How many chunks `renderAt` writes before drawing. */
  function Written(chunks: seq<Chunk>, time: real): (n: nat)
    ensures n <= |chunks|
  {
    WrittenAmong(chunks, time, |chunks|)
  }

  lemma {:induction false} WrittenAmongIsLongest(chunks: seq<Chunk>, time: real, n: nat)
    requires n <= |chunks|
    ensures forall k :: 1 <= k <= WrittenAmong(chunks, time, n) ==> RunningSum(chunks, k) <= time
    ensures WrittenAmong(chunks, time, n) < n ==> RunningSum(chunks, WrittenAmong(chunks, time, n) + 1) > time
  {
    if n > 0 {
      WrittenAmongIsLongest(chunks, time, n - 1);
    }
  }

  /**
   * Written is the longest prefix whose running sums all stay within `time`,
   * cut at the first chunk that passes it.
   */
  lemma WrittenIsLongestPrefix(chunks: seq<Chunk>, time: real)
    ensures forall k :: 1 <= k <= Written(chunks, time) ==> RunningSum(chunks, k) <= time
    ensures Written(chunks, time) < |chunks| ==> RunningSum(chunks, Written(chunks, time) + 1) > time
  {
    WrittenAmongIsLongest(chunks, time, |chunks|);
  }

  /** Any count with the two properties of WrittenIsLongestPrefix is Written. */
  lemma WrittenUnique(chunks: seq<Chunk>, time: real, n: nat)
    requires n <= |chunks|
    requires forall k :: 1 <= k <= n ==> RunningSum(chunks, k) <= time
    requires n < |chunks| ==> RunningSum(chunks, n + 1) > time
    ensures n == Written(chunks, time)
  {
    WrittenIsLongestPrefix(chunks, time);
  }

  /** When every delay is non-negative and the whole recording fits in `time`, every chunk is written. */
  lemma WrittenAll(chunks: seq<Chunk>, time: real)
    requires forall k :: 0 <= k < |chunks| ==> chunks[k].delay >= 0.0
    requires RunningSum(chunks, |chunks|) <= time
    ensures Written(chunks, time) == |chunks|
  {
    forall k | 1 <= k <= |chunks| ensures RunningSum(chunks, k) <= time {
      RunningSumMonotone(chunks, k, |chunks|);
    }
    WrittenUnique(chunks, time, |chunks|);
  }

  /** With non-negative delays the running sums never decrease. */
  lemma RunningSumMonotone(chunks: seq<Chunk>, m: nat, n: nat)
    requires m <= n <= |chunks|
    requires forall k :: 0 <= k < |chunks| ==> chunks[k].delay >= 0.0
    ensures RunningSum(chunks, m) <= RunningSum(chunks, n)
    decreases n - m
  {
    if m < n {
      RunningSumMonotone(chunks, m + 1, n);
    }
  }

  /** Frame i of `animate` starts when chunk i is shown: the delays of chunks 0..i added up. */
  function FrameStart(chunks: seq<Chunk>, i: nat): real
    requires i < |chunks|
  {
    RunningSum(chunks, i + 1)
  }

  /** Frame i ends when the next chunk is shown, the last one at the end of the recording. */
  function FrameEnd(cast: Cast, i: nat): real
    requires i < |cast.stdout|
  {
    if i + 1 < |cast.stdout| then FrameStart(cast.stdout, i) + cast.stdout[i + 1].delay else cast.duration
  }

  /** The frames tile the timeline: each ends where the next one starts, and the last ends with the recording. */
  lemma FramesTile(cast: Cast, i: nat)
    requires i < |cast.stdout|
    ensures i + 1 < |cast.stdout| ==> FrameEnd(cast, i) == FrameStart(cast.stdout, i + 1)
    ensures i + 1 == |cast.stdout| ==> FrameEnd(cast, i) == cast.duration
  {
  }

  /** A keyframe offset: `t / (duration / 100)`, which is not a finite number when the duration is 0. */
  datatype Percent = Finite(value: real) | NonFinite

  function PercentOf(t: real, duration: real): (p: Percent)
    ensures p.NonFinite? <==> duration == 0.0
  {
    if duration == 0.0 then NonFinite else Finite(t / (duration / 100.0))
  }

  /** For a non-zero duration the offset is the time as a percentage of the duration. */
  lemma PercentValue(t: real, duration: real)
    requires duration != 0.0
    ensures PercentOf(t, duration) == Finite(100.0 * t / duration)
    ensures PercentOf(t, duration).value * duration == 100.0 * t
  {
  }

  // ---------------------------------------------------------------- drawing

  /** The drawing produced by a render. */
  datatype Node =
    | Screen(window: Geometry.Window, children: seq<Option<Node>>)
    | FrameGroup(start: real, startPct: Percent, endPct: Percent, backWidth: int, backHeight: int, cells: seq<Node>)
    | TextNode(text: Text)

  /** How a render is asked to draw: the whole svg, or one timed frame (`component: 'g'`). */
  datatype Mode = Svg | Layer(start: real, end: real)

  function RunPairs(runs: seq<Run>): seq<(Props, string)>
  {
    seq(|runs|, k requires 0 <= k < |runs| => (runs[k].props, runs[k].text))
  }

  /** The runs of all rows, row after row: the spread in the render's reduce. */
  function Concat(rows: seq<seq<Run>>): seq<(Props, string)>
  {
    if |rows| == 0 then [] else Concat(rows[..|rows| - 1]) + RunPairs(rows[|rows| - 1])
  }

  /** The runs of every row of a screen. */
  function ScreenRuns(screen: Grid): seq<seq<Run>>
  {
    seq(|screen|, y requires 0 <= y < |screen| => Grouped(AsWritten, ExtractRow(screen[y], y)))
  }

  function TextNodes(texts: seq<Text>): (nodes: seq<Node>)
    ensures |nodes| == |texts| && forall k :: 0 <= k < |texts| ==> nodes[k] == TextNode(texts[k])
  {
    seq(|texts|, k requires 0 <= k < |texts| => TextNode(texts[k]))
  }

  function Present(nodes: seq<Node>): (children: seq<Option<Node>>)
    ensures |children| == |nodes| && forall k :: 0 <= k < |nodes| ==> children[k] == Some(nodes[k])
  {
    seq(|nodes|, k requires 0 <= k < |nodes| => Some(nodes[k]))
  }

  /** `render(props)` on a screen, given the style ids emitted so far: the drawing and the ids afterwards. */
  function RenderSpec(meta: Cast, mode: Mode, screen: Grid, emitted: seq<Style>): (Option<Node>, seq<Style>)
  {
    var (texts, emitted') := DrawAll(emitted, Concat(ScreenRuns(screen)));
    var cells := TextNodes(texts);
    if mode.Svg? then
      (Some(Screen(Geometry.ScreenWindow(meta.width, meta.height), Present(cells))), emitted')
    else if |cells| == 0 then (None, emitted')
    else
      (Some(FrameGroup(mode.start, PercentOf(mode.start, meta.duration), PercentOf(mode.end, meta.duration),
                       Geometry.BackdropWidth(meta.width), Geometry.BackdropHeight(meta.height), cells)),
       emitted')
  }

  lemma {:induction false} ConcatEmpty(rows: seq<seq<Run>>)
    ensures Concat(rows) == [] <==> forall y :: 0 <= y < |rows| ==> rows[y] == []
  {
    if |rows| > 0 {
      var init, last := rows[..|rows| - 1], rows[|rows| - 1];
      ConcatEmpty(init);
      assert |Concat(rows)| == |Concat(init)| + |last|;
      if Concat(rows) == [] {
        forall y | 0 <= y < |init| ensures rows[y] == [] {
          assert init[y] == rows[y];
        }
      } else if last == [] {
        var y :| 0 <= y < |init| && init[y] != [];
        assert rows[y] == init[y];
      }
    }
  }

  /** A row gives no runs exactly when none of its columns is kept. */
  lemma RowEmpty(row: seq<RawCell>, y: nat)
    ensures Grouped(AsWritten, ExtractRow(row, y)) == [] <==> forall x :: 0 <= x < |row| ==> !Kept(row, x)
  {
    ExtractionRules(row, y);
    var cells := ExtractRow(row, y);
    if cells != [] {
      assert cells[0].props.x < |row|;
      assert Kept(row, cells[0].props.x);
    } else {
      forall x | 0 <= x < |row| ensures !Kept(row, x) {
      }
    }
  }

  /**
   * A timed frame is `null` exactly when no cell of the screen is kept; the
   * whole-svg render always draws.
   */
  lemma EmptyFrame(meta: Cast, mode: Mode, screen: Grid, emitted: seq<Style>)
    ensures RenderSpec(meta, mode, screen, emitted).0.None? <==>
      mode.Layer? && forall y, x :: 0 <= y < |screen| && 0 <= x < |screen[y]| ==> !Kept(screen[y], x)
  {
    var rows := ScreenRuns(screen);
    ConcatEmpty(rows);
    forall y | 0 <= y < |screen| ensures rows[y] == [] <==> forall x :: 0 <= x < |screen[y]| ==> !Kept(screen[y], x) {
      RowEmpty(screen[y], y);
    }
  }

  /** A timed frame of a non-empty screen carries its start and end as offsets of the recording's length. */
  lemma FramePercentages(meta: Cast, start: real, end: real, screen: Grid, emitted: seq<Style>)
    requires meta.duration != 0.0
    requires RenderSpec(meta, Layer(start, end), screen, emitted).0.Some?
    ensures var node := RenderSpec(meta, Layer(start, end), screen, emitted).0.value;
      && node.FrameGroup?
      && node.startPct == Finite(100.0 * start / meta.duration)
      && node.endPct == Finite(100.0 * end / meta.duration)
  {
    var cells := TextNodes(DrawAll(emitted, Concat(ScreenRuns(screen))).0);
    assert RenderSpec(meta, Layer(start, end), screen, emitted).0.value ==
      FrameGroup(start, PercentOf(start, meta.duration), PercentOf(end, meta.duration),
                 Geometry.BackdropWidth(meta.width), Geometry.BackdropHeight(meta.height), cells);
    PercentValue(start, meta.duration);
    PercentValue(end, meta.duration);
  }

  /** A render never records an id twice in the registry. */
  lemma RenderKeepsRegistry(meta: Cast, mode: Mode, screen: Grid, emitted: seq<Style>)
    requires NoDuplicates(emitted)
    ensures emitted <= RenderSpec(meta, mode, screen, emitted).1
    ensures NoDuplicates(RenderSpec(meta, mode, screen, emitted).1)
  {
    DrawAllRegistry(emitted, Concat(ScreenRuns(screen)));
    DrawAllGrows(emitted, Concat(ScreenRuns(screen)));
  }

  lemma DrawAllSnoc(emitted: seq<Style>, runs: seq<(Props, string)>, r: (Props, string))
    ensures DrawAll(emitted, runs + [r]) ==
      (DrawAll(emitted, runs).0 + [Draw(DrawAll(emitted, runs).1, r.0, r.1).0], Draw(DrawAll(emitted, runs).1, r.0, r.1).1)
  {
    assert (runs + [r])[..|runs|] == runs;
  }

  /** The runs drawn once the render's loops reach run k of row y. */
  function DrawnSoFar(rows: seq<seq<Run>>, y: nat, k: nat): seq<(Props, string)>
    requires y < |rows| && k <= |rows[y]|
  {
    Concat(rows[..y]) + RunPairs(rows[y][..k])
  }

  lemma DrawnSoFarStart(rows: seq<seq<Run>>, y: nat)
    requires y < |rows|
    ensures DrawnSoFar(rows, y, 0) == Concat(rows[..y])
  {
    assert RunPairs(rows[y][..0]) == [];
  }

  lemma DrawnSoFarStep(rows: seq<seq<Run>>, y: nat, k: nat)
    requires y < |rows| && k < |rows[y]|
    ensures DrawnSoFar(rows, y, k + 1) == DrawnSoFar(rows, y, k) + [(rows[y][k].props, rows[y][k].text)]
  {
    assert RunPairs(rows[y][..k + 1]) == RunPairs(rows[y][..k]) + [(rows[y][k].props, rows[y][k].text)];
  }

  lemma DrawnSoFarRow(rows: seq<seq<Run>>, y: nat)
    requires y < |rows|
    ensures DrawnSoFar(rows, y, |rows[y]|) == Concat(rows[..y + 1])
  {
    assert rows[..y + 1][..y] == rows[..y];
    assert rows[y][..|rows[y]|] == rows[y];
  }

  // ---------------------------------------------------------------- the renderer

  /** `createRenderer(meta)`: a terminal of the cast's size and its `write` and `render`. */
  class Renderer {
    const meta: Cast
    const engine: Engine
    const registry: Registry
    var screen: Grid

    constructor(meta: Cast, engine: Engine, registry: Registry)
      ensures this.meta == meta && this.engine == engine && this.registry == registry
      ensures screen == engine.blank(meta.width, meta.height)
    {
      this.meta := meta;
      this.engine := engine;
      this.registry := registry;
      screen := engine.blank(meta.width, meta.height);
    }

    /** `write(data)`: the engine takes in a chunk of output. */
    method Write(data: string)
      modifies this
      ensures screen == engine.feed(old(screen), data)
    {
      screen := engine.feed(screen, data);
    }

    /** `render(props)`: the screen's runs drawn as text nodes, as the whole svg or as one frame. */
    method Render(mode: Mode) returns (node: Option<Node>)
      modifies registry
      ensures (node, registry.emitted) == RenderSpec(meta, mode, screen, old(registry.emitted))
    {
      var rows := Matrix(screen);
      var groups := Group(rows);
      assert groups == ScreenRuns(screen);
      var texts: seq<Text> := [];
      for y := 0 to |groups|
        invariant (texts, registry.emitted) == DrawAll(old(registry.emitted), Concat(groups[..y]))
      {
        DrawnSoFarStart(groups, y);
        for k := 0 to |groups[y]|
          invariant (texts, registry.emitted) == DrawAll(old(registry.emitted), DrawnSoFar(groups, y, k))
        {
          DrawnSoFarStep(groups, y, k);
          DrawAllSnoc(old(registry.emitted), DrawnSoFar(groups, y, k), (groups[y][k].props, groups[y][k].text));
          var text := registry.Group(groups[y][k].props, groups[y][k].text);
          texts := texts + [text];
        }
        DrawnSoFarRow(groups, y);
      }
      assert groups[..|groups|] == groups;
      var cells := TextNodes(texts);
      if mode.Svg? {
        node := Some(Screen(Geometry.ScreenWindow(meta.width, meta.height), Present(cells)));
      } else if |cells| == 0 {
        node := None;
      } else {
        var startFrame := PercentOf(mode.start, meta.duration);
        var endFrame := PercentOf(mode.end, meta.duration);
        node := Some(FrameGroup(mode.start, startFrame, endFrame,
                                Geometry.BackdropWidth(meta.width), Geometry.BackdropHeight(meta.height), cells));
      }
    }
  }

  // ---------------------------------------------------------------- drivers

  /**
   * `renderAt(cast, time)`: the screen after the chunks written by `time`,
   * drawn as one svg.
   */
  method RenderAt(cast: Cast, time: real, engine: Engine, registry: Registry) returns (node: Option<Node>)
    modifies registry
    ensures (node, registry.emitted) ==
      RenderSpec(cast, Svg, Replay(engine, engine.blank(cast.width, cast.height), cast.stdout, Written(cast.stdout, time)), old(registry.emitted))
  {
    var renderer := new Renderer(cast, engine, registry);
    var blank := engine.blank(cast.width, cast.height);
    var t := 0.0;
    var i := 0;
    while i < |cast.stdout|
      invariant 0 <= i <= |cast.stdout|
      invariant t == RunningSum(cast.stdout, i)
      invariant forall k :: 1 <= k <= i ==> RunningSum(cast.stdout, k) <= time
      invariant renderer.screen == Replay(engine, blank, cast.stdout, i)
      invariant renderer.meta == cast && renderer.engine == engine && renderer.registry == registry
      invariant registry.emitted == old(registry.emitted)
    {
      t := t + cast.stdout[i].delay;
      if t > time {
        break;
      }
      renderer.Write(cast.stdout[i].data);
      i := i + 1;
    }
    WrittenUnique(cast.stdout, time, i);
    node := renderer.Render(Svg);
  }

  /** The frame `animate` draws for chunk i, given the style ids emitted before it. */
  function FrameAt(cast: Cast, engine: Engine, emitted: seq<Style>, i: nat): (Option<Node>, seq<Style>)
    requires i < |cast.stdout|
  {
    RenderSpec(cast, Layer(FrameStart(cast.stdout, i), FrameEnd(cast, i)),
               Replay(engine, engine.blank(cast.width, cast.height), cast.stdout, i + 1), emitted)
  }

  /** The style ids emitted once the frames of chunks 0..n-1 are drawn, starting from `emitted`. */
  function EmittedBefore(cast: Cast, engine: Engine, emitted: seq<Style>, n: nat): seq<Style>
    requires n <= |cast.stdout|
  {
    if n == 0 then emitted else FrameAt(cast, engine, EmittedBefore(cast, engine, emitted, n - 1), n - 1).1
  }

  /** The first n frames of `animate`, each drawn with the ids the frames before it left. */
  ghost predicate FramesSoFar(cast: Cast, engine: Engine, emitted: seq<Style>, frames: seq<Option<Node>>, n: nat)
    requires n <= |cast.stdout|
  {
    |frames| == n &&
    forall k :: 0 <= k < n ==> frames[k] == FrameAt(cast, engine, EmittedBefore(cast, engine, emitted, k), k).0
  }

  /** Drawing frame n after the first n frames extends them, and leaves the ids `EmittedBefore` gives for n + 1. */
  lemma FramesSoFarPush(cast: Cast, engine: Engine, emitted: seq<Style>, frames: seq<Option<Node>>, n: nat,
                        frame: Option<Node>, after: seq<Style>)
    requires n < |cast.stdout|
    requires FramesSoFar(cast, engine, emitted, frames, n)
    requires (frame, after) == FrameAt(cast, engine, EmittedBefore(cast, engine, emitted, n), n)
    ensures FramesSoFar(cast, engine, emitted, frames + [frame], n + 1)
    ensures after == EmittedBefore(cast, engine, emitted, n + 1)
  {
    assert forall k :: 0 <= k < n ==> (frames + [frame])[k] == frames[k];
  }

  /**
   * The callback `animate` maps over the chunks: write chunk i, push its
   * delay, and draw the screen as the frame timed from FrameStart to FrameEnd.
   */
  method AnimateChunk(renderer: Renderer, cast: Cast, engine: Engine, delays: seq<real>, i: nat)
    returns (frame: Option<Node>, pushed: seq<real>)
    requires i < |cast.stdout|
    requires renderer.meta == cast && renderer.engine == engine
    requires renderer.screen == Replay(engine, engine.blank(cast.width, cast.height), cast.stdout, i)
    requires |delays| == i && forall k :: 0 <= k < i ==> delays[k] == cast.stdout[k].delay
    modifies renderer, renderer.registry
    ensures renderer.screen == Replay(engine, engine.blank(cast.width, cast.height), cast.stdout, i + 1)
    ensures |pushed| == i + 1 && forall k :: 0 <= k <= i ==> pushed[k] == cast.stdout[k].delay
    ensures (frame, renderer.registry.emitted) == FrameAt(cast, engine, old(renderer.registry.emitted), i)
  {
    renderer.Write(cast.stdout[i].data);
    pushed := delays + [cast.stdout[i].delay];
    SumOfDelays(cast.stdout, pushed);
    var start := Sum(pushed);
    var end := if i + 1 < |cast.stdout| then start + cast.stdout[i + 1].delay else cast.duration;
    frame := renderer.Render(Layer(start, end));
  }

  /**
   * `animate(cast)`: one timed frame per chunk, all inside one svg; frame i
   * draws the screen after chunks 0..i from FrameStart to FrameEnd, and the
   * registry ends as the frames leave it.
   */
  method Animate(cast: Cast, engine: Engine, registry: Registry) returns (screen: Node)
    modifies registry
    ensures screen.Screen? && screen.window == Geometry.ScreenWindow(cast.width, cast.height)
    ensures |screen.children| == |cast.stdout|
    ensures forall i :: 0 <= i < |cast.stdout| ==>
      screen.children[i] == FrameAt(cast, engine, EmittedBefore(cast, engine, old(registry.emitted), i), i).0
    ensures registry.emitted == EmittedBefore(cast, engine, old(registry.emitted), |cast.stdout|)
  {
    var renderer := new Renderer(cast, engine, registry);
    var delays: seq<real> := [];
    var frames: seq<Option<Node>> := [];
    for i := 0 to |cast.stdout|
      invariant renderer.screen == Replay(engine, engine.blank(cast.width, cast.height), cast.stdout, i)
      invariant |delays| == i && forall k :: 0 <= k < i ==> delays[k] == cast.stdout[k].delay
      invariant renderer.meta == cast && renderer.engine == engine && renderer.registry == registry
      invariant FramesSoFar(cast, engine, old(registry.emitted), frames, i)
      invariant registry.emitted == EmittedBefore(cast, engine, old(registry.emitted), i)
    {
      var frame;
      frame, delays := AnimateChunk(renderer, cast, engine, delays, i);
      FramesSoFarPush(cast, engine, old(registry.emitted), frames, i, frame, registry.emitted);
      frames := frames + [frame];
    }
    screen := Screen(Geometry.ScreenWindow(cast.width, cast.height), frames);
  }

  /** Two chunks of 1 s and 2 s in a 5 s recording: the frames run from 20% to 60% and from 60% to 100%. */
  lemma TwoChunkTiming(cast: Cast)
    requires cast.duration == 5.0 && |cast.stdout| == 2
    requires cast.stdout[0].delay == 1.0 && cast.stdout[1].delay == 2.0
    ensures FrameStart(cast.stdout, 0) == 1.0 && FrameEnd(cast, 0) == 3.0
    ensures FrameStart(cast.stdout, 1) == 3.0 && FrameEnd(cast, 1) == 5.0
    ensures PercentOf(FrameStart(cast.stdout, 0), cast.duration) == Finite(20.0)
    ensures PercentOf(FrameEnd(cast, 0), cast.duration) == Finite(60.0)
    ensures PercentOf(FrameStart(cast.stdout, 1), cast.duration) == Finite(60.0)
    ensures PercentOf(FrameEnd(cast, 1), cast.duration) == Finite(100.0)
  {
    assert RunningSum(cast.stdout, 1) == 1.0;
    assert RunningSum(cast.stdout, 2) == 3.0;
    PercentValue(1.0, 5.0);
    PercentValue(3.0, 5.0);
    PercentValue(5.0, 5.0);
  }
}
