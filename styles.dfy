/**
 * Text runs as svg `text` nodes (`Group` in index.js): a run's style, its
 * CSS declaration, the style id of its class, and the `<style>` rule that is
 * emitted the first time an id is used. The ids already emitted live in one
 * registry shared by every render (a module-level array in the source).
 *
 * The id of a style is the style itself: the source hashes the style's JSON
 * form into a short string, and the model takes that hash to be injective.
 */
module Styles {
  import opened Wrappers
  import opened Extraction
  import Geometry

  /** The style object: a fill colour when the run has one, bold, underline. */
  datatype Style = Style(fill: Option<string>, bold: bool, underline: bool)

  /** A run's style; an empty foreground colour is falsy and gives no fill. */
  function StyleOf(p: Props): Style
  {
    Style(if p.fg != "" then Some(p.fg) else None, p.bold, p.underline)
  }

  /** The declarations of a style, each present only when its value is truthy. */
  function Declarations(s: Style): seq<string>
  {
    (if s.fill.Some? && s.fill.value != "" then ["fill: " + s.fill.value] else [])
      + (if s.bold then ["font-weight: bold"] else [])
      + (if s.underline then ["text-decoration: underline"] else [])
  }

  /** `Array.prototype.join`. */
  function Join(parts: seq<string>, sep: string): string
  {
    if |parts| == 0 then ""
    else if |parts| == 1 then parts[0]
    else Join(parts[..|parts| - 1], sep) + sep + parts[|parts| - 1]
  }

  /** The CSS text of a style: its declarations joined with ';'. */
  function Css(s: Style): string
  {
    Join(Declarations(s), ";")
  }

  /** Whether the style has any CSS, which is when the run gets a class. */
  predicate HasCss(s: Style)
  {
    |Css(s)| > 0
  }

  /** Joining non-empty parts gives a non-empty string exactly when there is a part. */
  lemma {:induction false} JoinEmpty(parts: seq<string>, sep: string)
    requires forall i :: 0 <= i < |parts| ==> parts[i] != ""
    ensures Join(parts, sep) == "" <==> |parts| == 0
  {
    if |parts| > 1 {
      JoinEmpty(parts[..|parts| - 1], sep);
    }
  }

  /** A run gets a class exactly when it has a fill, is bold or is underlined. */
  lemma CssPresent(p: Props)
    ensures HasCss(StyleOf(p)) <==> (p.fg != "" || p.bold || p.underline)
  {
    var d := Declarations(StyleOf(p));
    assert forall i :: 0 <= i < |d| ==> d[i] != "" by {
      forall i | 0 <= i < |d| ensures d[i] != "" {
        assert |d[i]| >= 6;
      }
    }
    JoinEmpty(d, ";");
  }

  /** The `<style>` node `.id {css}`: the class selector and the declaration text. */
  datatype Rule = Rule(id: Style, css: string)

  /**
   * An svg `text` node: its class (when the style has CSS), its position in
   * hundredths of a pixel, the `<style>` child emitted with it (if any) and
   * its text.
   */
  datatype Text = Text(className: Option<Style>, x: int, y: int, rule: Option<Rule>, text: string)

  /**
   * `Group(props, children)` as a function of the ids emitted so far: the
   * node for the run and the emitted ids afterwards.
   */
  function Draw(emitted: seq<Style>, props: Props, children: string): (Text, seq<Style>)
  {
    var style := StyleOf(props);
    var has := HasCss(style);
    var emit := has && style !in emitted;
    (Text(if has then Some(style) else None, Geometry.ProjectX(props.x as real), Geometry.TextY(props.y),
          if emit then Some(Rule(style, Css(style))) else None, children),
     if emit then emitted + [style] else emitted)
  }

  /**
   * The first use of a style with CSS produces one `<style>` rule and records
   * its id; a later use, or a style without CSS, produces none and leaves the
   * registry as it was. A run without CSS gets no class.
   */
  lemma DrawEmitsOnce(emitted: seq<Style>, props: Props, children: string)
    ensures var (node, emitted') := Draw(emitted, props, children);
      && (node.rule.Some? <==> HasCss(StyleOf(props)) && StyleOf(props) !in emitted)
      && (node.rule.Some? ==> node.rule.value == Rule(StyleOf(props), Css(StyleOf(props))) && emitted' == emitted + [StyleOf(props)])
      && (node.rule.None? ==> emitted' == emitted)
      && (node.className.Some? <==> HasCss(StyleOf(props)))
      && (node.className.Some? ==> node.className.value == StyleOf(props) && StyleOf(props) in emitted')
      && node.text == children
  {
  }

  /** The node of a run sits at the run's first column and its row's baseline. */
  lemma DrawPlacement(emitted: seq<Style>, props: Props, children: string)
    ensures Draw(emitted, props, children).0.x == 1000 * props.x
    ensures Draw(emitted, props, children).0.y == 2000 * props.y + 1600
  {
    Geometry.ColumnPosition(props.x);
    Geometry.Baseline(props.y);
  }

  /** One call of Draw per run, in order, threading the registry through. */
  function DrawAll(emitted: seq<Style>, runs: seq<(Props, string)>): (out: (seq<Text>, seq<Style>))
    ensures |out.0| == |runs|
  {
    if |runs| == 0 then ([], emitted)
    else
      var (nodes, mid) := DrawAll(emitted, runs[..|runs| - 1]);
      var (node, after) := Draw(mid, runs[|runs| - 1].0, runs[|runs| - 1].1);
      (nodes + [node], after)
  }

  /** The ids of the rules carried by a sequence of nodes, in order. */
  function RuleIds(nodes: seq<Text>): seq<Style>
  {
    if |nodes| == 0 then []
    else RuleIds(nodes[..|nodes| - 1]) + (if nodes[|nodes| - 1].rule.Some? then [nodes[|nodes| - 1].rule.value.id] else [])
  }

  predicate NoDuplicates(s: seq<Style>)
  {
    forall i, j :: 0 <= i < j < |s| ==> s[i] != s[j]
  }

  lemma RuleIdsSnoc(nodes: seq<Text>, node: Text)
    ensures RuleIds(nodes + [node]) == RuleIds(nodes) + (if node.rule.Some? then [node.rule.value.id] else [])
  {
    assert (nodes + [node])[..|nodes|] == nodes;
  }

  /**
   * After drawing a sequence of runs the registry holds the old ids followed
   * by the ids of the rules just emitted, and an id is never recorded twice.
   */
  lemma {:induction false} DrawAllRegistry(emitted: seq<Style>, runs: seq<(Props, string)>)
    requires NoDuplicates(emitted)
    ensures DrawAll(emitted, runs).1 == emitted + RuleIds(DrawAll(emitted, runs).0)
    ensures NoDuplicates(DrawAll(emitted, runs).1)
  {
    if |runs| > 0 {
      var init := runs[..|runs| - 1];
      DrawAllRegistry(emitted, init);
      var (nodes, mid) := DrawAll(emitted, init);
      var (node, after) := Draw(mid, runs[|runs| - 1].0, runs[|runs| - 1].1);
      RuleIdsSnoc(nodes, node);
      DrawEmitsOnce(mid, runs[|runs| - 1].0, runs[|runs| - 1].1);
    }
  }

  /** Every id in the registry stays there: it only grows. */
  lemma {:induction false} DrawAllGrows(emitted: seq<Style>, runs: seq<(Props, string)>)
    ensures emitted <= DrawAll(emitted, runs).1
  {
    if |runs| > 0 {
      DrawAllGrows(emitted, runs[..|runs| - 1]);
    }
  }

  /**
   * Every class a node uses is defined: by a rule emitted before the runs
   * were drawn, or by the rule of this node or of an earlier one.
   */
  lemma {:induction false} DrawAllDefinesClasses(emitted: seq<Style>, runs: seq<(Props, string)>, k: nat)
    requires k < |runs|
    requires DrawAll(emitted, runs).0[k].className.Some?
    ensures var s := DrawAll(emitted, runs).0[k].className.value;
      s in emitted || exists j :: 0 <= j <= k && DrawAll(emitted, runs).0[j].rule == Some(Rule(s, Css(s)))
  {
    var init := runs[..|runs| - 1];
    var (nodes, mid) := DrawAll(emitted, init);
    var (node, after) := Draw(mid, runs[|runs| - 1].0, runs[|runs| - 1].1);
    assert DrawAll(emitted, runs).0 == nodes + [node];
    if k < |init| {
      DrawAllDefinesClasses(emitted, init, k);
      var s := nodes[k].className.value;
      if !(s in emitted) {
        var j :| 0 <= j <= k && nodes[j].rule == Some(Rule(s, Css(s)));
        assert DrawAll(emitted, runs).0[j] == nodes[j];
      }
    } else {
      DrawEmitsOnce(mid, runs[|runs| - 1].0, runs[|runs| - 1].1);
      var s := node.className.value;
      if node.rule.None? && s !in emitted {
        DrawAllRuleOrigin(emitted, init, s);
        var j :| 0 <= j < |nodes| && nodes[j].rule == Some(Rule(s, Css(s)));
        assert DrawAll(emitted, runs).0[j] == nodes[j];
      }
    }
  }

  /** An id that the drawing added to the registry came with the rule of one of the nodes. */
  lemma {:induction false} DrawAllRuleOrigin(emitted: seq<Style>, runs: seq<(Props, string)>, s: Style)
    requires s in DrawAll(emitted, runs).1 && s !in emitted
    ensures exists j :: 0 <= j < |runs| && DrawAll(emitted, runs).0[j].rule == Some(Rule(s, Css(s)))
  {
    var init := runs[..|runs| - 1];
    var (nodes, mid) := DrawAll(emitted, init);
    var (node, after) := Draw(mid, runs[|runs| - 1].0, runs[|runs| - 1].1);
    assert DrawAll(emitted, runs).0 == nodes + [node];
    DrawEmitsOnce(mid, runs[|runs| - 1].0, runs[|runs| - 1].1);
    if s in mid {
      DrawAllRuleOrigin(emitted, init, s);
      var j :| 0 <= j < |init| && nodes[j].rule == Some(Rule(s, Css(s)));
      assert DrawAll(emitted, runs).0[j] == nodes[j];
    } else {
      assert node.rule == Some(Rule(s, Css(s)));
      assert DrawAll(emitted, runs).0[|runs| - 1] == node;
    }
  }

  /** The ids of the style rules emitted so far: the source's module-level `emitted` array. */
  class Registry {
    var emitted: seq<Style>

    constructor()
      ensures emitted == []
    {
      emitted := [];
    }

    /** `Group`: the `text` node of one run, recording its style id when a rule is emitted. */
    method Group(props: Props, children: string) returns (node: Text)
      modifies this
      ensures (node, emitted) == Draw(old(emitted), props, children)
    {
      var style := StyleOf(props);
      var css := Css(style);
      var has := |css| > 0;
      var rule: Option<Rule> := None;
      if has && style !in emitted {
        rule := Some(Rule(style, css));
        emitted := emitted + [style];
      }
      node := Text(if has then Some(style) else None, Geometry.ProjectX(props.x as real), Geometry.TextY(props.y), rule, children);
    }
  }
}
