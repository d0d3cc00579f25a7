/**
  * The walker: one recursive pass of the document tree against an ordered
  * list of transformers. Each sibling level is rebuilt first, every element
  * replaced by what the first matching transformer makes of it (or kept),
  * and then the children of every element of the rebuilt level are walked.
  */
module TreeWalker {
  import opened Wrappers
  import opened Strings
  import opened Dom
  import opened Transformers

  /** The closed set of transformers, in the form the walk dispatches on. */
  datatype Transformer =
    | VariableReplacer(variables: map<string, string>)
    | LinkReplacer
    | KatexReplacer
    | SyntaxHighlighter(syntaxSet: SyntaxSet, themes: map<string, Theme>, theme: string)

  /** `TreeWalker::matches` of each transformer. */
  predicate Matches(t: Transformer, name: string, attrs: Attrs) {
    match t
    case VariableReplacer(_) => VariableMatches(name, attrs)
    case LinkReplacer => LinkMatches(attrs)
    case KatexReplacer => KatexMatches(name)
    case SyntaxHighlighter(_, _, _) => SyntaxMatches(name)
  }

  /** `TreeWalker::replace` of each transformer, called only on an element it matches. */
  function Replace(t: Transformer, name: string, attrs: Attrs, children: seq<Node>, ctx: Context, eng: Engines): Result<seq<Node>, Error>
    requires Matches(t, name, attrs)
  {
    match t
    case VariableReplacer(variables) => VariableReplace(variables, name, attrs, children)
    case LinkReplacer => LinkReplace(eng, ctx, name, attrs, children)
    case KatexReplacer => KatexReplace(eng, name, children)
    case SyntaxHighlighter(syntaxSet, themes, theme) => SyntaxHighlight(syntaxSet, themes, theme, eng, name, attrs, children)
  }

  /** The position of the first transformer, in list order, that matches. */
  function FirstMatch(ts: seq<Transformer>, name: string, attrs: Attrs): (r: Option<nat>)
    ensures r.Some? ==> r.value < |ts| && Matches(ts[r.value], name, attrs)
    ensures r.Some? ==> forall j :: 0 <= j < r.value ==> !Matches(ts[j], name, attrs)
    ensures r.None? <==> forall j :: 0 <= j < |ts| ==> !Matches(ts[j], name, attrs)
  {
    if |ts| == 0 then None
    else if Matches(ts[0], name, attrs) then Some(0)
    else match FirstMatch(ts[1..], name, attrs)
      case None => None
      case Some(k) => Some(k + 1)
  }

  /** What one node of a level becomes: non-elements and elements no
      transformer matches stay as they are; a matched element is replaced by
      the output of the first transformer that matches it. */
  function ReplaceNode(ts: seq<Transformer>, node: Node, ctx: Context, eng: Engines): Result<seq<Node>, Error> {
    if !node.Element? then Ok([node])
    else match FirstMatch(ts, node.name, node.attrs)
      case None => Ok([node])
      case Some(k) => Replace(ts[k], node.name, node.attrs, node.children, ctx, eng)
  }

  /** Every node mapped to a list of nodes, the lists joined in order; the
      first error ends it. */
  function FlatMapOk(nodes: seq<Node>, f: Node -> Result<seq<Node>, Error>): Result<seq<Node>, Error>
    decreases |nodes|
  {
    if |nodes| == 0 then Ok([])
    else
      var front :- FlatMapOk(nodes[..|nodes| - 1], f);
      var last :- f(nodes[|nodes| - 1]);
      Ok(front + last)
  }

  /** The first phase of `walk` on one level: every node in order, the
      replacements spliced in where their element was; the first error ends it. */
  function RebuildLevel(ts: seq<Transformer>, nodes: seq<Node>, ctx: Context, eng: Engines): Result<seq<Node>, Error> {
    FlatMapOk(nodes, n => ReplaceNode(ts, n, ctx, eng))
  }

  /** An error of the mapping is final: no later node changes it. */
  lemma {:induction false} FlatMapStopsAtFirstError(nodes: seq<Node>, f: Node -> Result<seq<Node>, Error>, n: nat)
    requires n <= |nodes| && FlatMapOk(nodes[..n], f).Err?
    ensures FlatMapOk(nodes, f) == FlatMapOk(nodes[..n], f)
    decreases |nodes| - n
  {
    if n < |nodes| {
      assert nodes[..n + 1][..n] == nodes[..n];
      FlatMapStopsAtFirstError(nodes, f, n + 1);
    } else {
      assert nodes[..n] == nodes;
    }
  }

  /** Mapping a concatenation maps each part in turn: the left part's error
      comes first, then the right part's, and the outputs are joined in order. */
  lemma {:induction false} FlatMapConcat(a: seq<Node>, b: seq<Node>, f: Node -> Result<seq<Node>, Error>)
    ensures FlatMapOk(a, f).Err? ==> FlatMapOk(a + b, f) == FlatMapOk(a, f)
    ensures FlatMapOk(a, f).Ok? && FlatMapOk(b, f).Err? ==> FlatMapOk(a + b, f) == FlatMapOk(b, f)
    ensures FlatMapOk(a, f).Ok? && FlatMapOk(b, f).Ok? ==>
      FlatMapOk(a + b, f) == Ok(FlatMapOk(a, f).value + FlatMapOk(b, f).value)
    decreases |b|
  {
    if |b| == 0 {
      assert a + b == a;
      if FlatMapOk(a, f).Ok? {
        assert FlatMapOk(a, f).value + [] == FlatMapOk(a, f).value;
      }
    } else {
      var init, last := b[..|b| - 1], b[|b| - 1];
      var ab := a + b;
      assert ab[..|ab| - 1] == a + init;
      assert ab[|ab| - 1] == last;
      FlatMapConcat(a, init, f);
      var x, y, z := FlatMapOk(a, f), FlatMapOk(init, f), f(last);
      if x.Ok? && y.Ok? && z.Ok? {
        assert x.value + y.value + z.value == x.value + (y.value + z.value);
      }
    }
  }

  // ------------------------------------------------------------ termination

  /** The number of elements a highlighter matches, over a whole forest. */
  function HighlighterCount(ns: seq<Node>): nat
    decreases ns
  {
    if |ns| == 0 then 0 else NodeHighlighterCount(ns[0]) + HighlighterCount(ns[1..])
  }

  function NodeHighlighterCount(n: Node): nat
    decreases n
  {
    match n
    case Element(name, _, children) => (if SyntaxMatches(name) then 1 else 0) + HighlighterCount(children)
    case _ => 0
  }

  /** The number of nodes of a forest. */
  function Size(ns: seq<Node>): nat
    decreases ns
  {
    if |ns| == 0 then 0 else NodeSize(ns[0]) + Size(ns[1..])
  }

  function NodeSize(n: Node): nat
    decreases n
  {
    match n
    case Element(_, _, children) => 1 + Size(children)
    case _ => 1
  }

  /** `c` is walked before `bound`: fewer highlighter elements, or as many and fewer nodes. */
  predicate Below(c: seq<Node>, bound: seq<Node>) {
    HighlighterCount(c) < HighlighterCount(bound) || (HighlighterCount(c) == HighlighterCount(bound) && Size(c) < Size(bound))
  }

  predicate AtMost(a: seq<Node>, b: seq<Node>) {
    HighlighterCount(a) <= HighlighterCount(b) && Size(a) <= Size(b)
  }

  /** Every element of `level` has children below `bound`. */
  predicate LevelBelow(level: seq<Node>, bound: seq<Node>) {
    forall i :: 0 <= i < |level| && level[i].Element? ==> Below(level[i].children, bound)
  }

  /** What the walk relies on of the highlighter and the HTML parser: markup
      the highlighter generates never parses to an element the highlighter
      itself matches. Source documents may hold such elements; only generated
      markup is constrained. Without it the walk could highlight its own
      output forever. */
  ghost predicate EngineContract(eng: Engines) {
    forall code, syntaxSet, syntax, theme :: GeneratedPlain(eng, code, syntaxSet, syntax, theme)
  }

  /** Markup generated for one highlighting call, once parsed, holds no
      element the highlighter matches. */
  predicate GeneratedPlain(eng: Engines, code: string, syntaxSet: SyntaxSet, syntax: Syntax, theme: Theme) {
    var generated := eng.highlight(code, syntaxSet, syntax, theme);
    generated.Ok? && eng.parseHtml(generated.value).Ok? ==> HighlighterCount(eng.parseHtml(generated.value).value) == 0
  }

  lemma {:induction false} MeasureConcat(a: seq<Node>, b: seq<Node>)
    ensures HighlighterCount(a + b) == HighlighterCount(a) + HighlighterCount(b) && Size(a + b) == Size(a) + Size(b)
    decreases |a|
  {
    if |a| > 0 {
      assert (a + b)[0] == a[0];
      assert (a + b)[1..] == a[1..] + b;
      MeasureConcat(a[1..], b);
    } else {
      assert a + b == b;
    }
  }

  /** The children of an element of a forest are strictly smaller than it. */
  lemma {:induction false} ChildrenBelow(ns: seq<Node>, k: nat)
    requires k < |ns| && ns[k].Element?
    ensures HighlighterCount(ns[k].children) + (if SyntaxMatches(ns[k].name) then 1 else 0) <= HighlighterCount(ns)
    ensures Size(ns[k].children) < Size(ns)
    decreases k
  {
    if k > 0 {
      ChildrenBelow(ns[1..], k - 1);
    }
  }

  lemma SingletonMeasure(n: Node)
    ensures HighlighterCount([n]) == NodeHighlighterCount(n) && Size([n]) == NodeSize(n)
  {
    assert [n][1..] == [];
  }

  /** Every element a replacement produces has children below the replaced node. */
  lemma ReplaceNodeBelow(ts: seq<Transformer>, node: Node, ctx: Context, eng: Engines)
    requires EngineContract(eng)
    requires ReplaceNode(ts, node, ctx, eng).Ok?
    ensures LevelBelow(ReplaceNode(ts, node, ctx, eng).value, [node])
  {
    var out := ReplaceNode(ts, node, ctx, eng).value;
    SingletonMeasure(node);
    if node.Element? {
      ChildrenBelow([node], 0);
      match FirstMatch(ts, node.name, node.attrs)
      case None =>
      case Some(k) =>
        var t := ts[k];
        if t.SyntaxHighlighter? {
          HighlightedChildrenPlain(t.syntaxSet, t.themes, t.theme, eng, node.name, node.attrs, node.children);
        } else if t.KatexReplacer? {
          assert node.name != "katex-prelude" ==> out == [RawHTML(eng.renderKatex(node.children[0].text, KatexOpts(node.name == "katex")))];
        }
    }
  }

  /** The children of a highlighted element hold no element the highlighter matches. */
  lemma HighlightedChildrenPlain(syntaxSet: SyntaxSet, themes: map<string, Theme>, themeName: string, eng: Engines,
                                 name: string, attrs: Attrs, children: seq<Node>)
    requires EngineContract(eng) && SyntaxMatches(name)
    requires SyntaxHighlight(syntaxSet, themes, themeName, eng, name, attrs, children).Ok?
    ensures var out := SyntaxHighlight(syntaxSet, themes, themeName, eng, name, attrs, children).value;
      |out| == 1 && out[0].Element? && HighlighterCount(out[0].children) == 0
  {
    SyntaxHighlightSuccess(syntaxSet, themes, themeName, eng, name, attrs, children);
    var lang := GetAttr(attrs, "lang").value;
    var generated := eng.highlight(Deindent(children[0].text), syntaxSet, syntaxSet.byExtension[lang], themes[themeName]);
    assert GeneratedPlain(eng, Deindent(children[0].text), syntaxSet, syntaxSet.byExtension[lang], themes[themeName]);
    var parsed := eng.parseHtml(generated.value).value;
    var out := SyntaxHighlight(syntaxSet, themes, themeName, eng, name, attrs, children).value;
    assert out[0].children == parsed[0].children;
    ChildrenBelow(parsed, 0);
  }

  lemma BelowWithin(c: seq<Node>, a: seq<Node>, b: seq<Node>)
    requires Below(c, a) && AtMost(a, b)
    ensures Below(c, b)
  {
  }

  /** Every element of a rebuilt level has children below the original level. */
  lemma RebuildBelow(ts: seq<Transformer>, nodes: seq<Node>, ctx: Context, eng: Engines)
    requires EngineContract(eng)
    requires RebuildLevel(ts, nodes, ctx, eng).Ok?
    ensures LevelBelow(RebuildLevel(ts, nodes, ctx, eng).value, nodes)
  {
    var f := n => ReplaceNode(ts, n, ctx, eng);
    forall n | f(n).Ok? ensures LevelBelow(f(n).value, [n]) {
      ReplaceNodeBelow(ts, n, ctx, eng);
    }
    assert nodes[..|nodes|] == nodes;
    FlatMapBelow(nodes, f, |nodes|);
  }

  /** A rewrite whose every output element has children below the node it
      replaced keeps every element of the rewritten prefix below the level. */
  lemma {:induction false} FlatMapBelow(nodes: seq<Node>, f: Node -> Result<seq<Node>, Error>, n: nat)
    requires n <= |nodes|
    requires forall m :: f(m).Ok? ==> LevelBelow(f(m).value, [m])
    requires FlatMapOk(nodes[..n], f).Ok?
    ensures LevelBelow(FlatMapOk(nodes[..n], f).value, nodes)
    decreases n
  {
    if n > 0 {
      var init, last := nodes[..n - 1], nodes[n - 1];
      assert nodes[..n][..n - 1] == init;
      FlatMapBelow(nodes, f, n - 1);
      MeasureConcat(init, nodes[n - 1..]);
      assert init + nodes[n - 1..] == nodes;
      MeasureConcat([last], nodes[n..]);
      assert [last] + nodes[n..] == nodes[n - 1..];
      var front := FlatMapOk(init, f).value;
      var tail := f(last).value;
      var level := front + tail;
      assert FlatMapOk(nodes[..n], f).value == level;
      forall i | 0 <= i < |level| && level[i].Element? ensures Below(level[i].children, nodes) {
        if i < |front| {
          assert level[i] == front[i];
        } else {
          assert level[i] == tail[i - |front|];
          BelowWithin(level[i].children, [last], nodes);
        }
      }
    }
  }

  // ---------------------------------------------------------------- the walk

  /** `walk`, as a function of the level it is given. */
  function WalkSpec(ts: seq<Transformer>, nodes: seq<Node>, ctx: Context, eng: Engines): Result<seq<Node>, Error>
    requires EngineContract(eng)
    decreases HighlighterCount(nodes), Size(nodes), 1, 0
  {
    var level :- RebuildLevel(ts, nodes, ctx, eng);
    RebuildBelow(ts, nodes, ctx, eng);
    WalkLevel(ts, level, nodes, ctx, eng)
  }

  /** The second phase of `walk`: the children of every element of the
      rebuilt level are walked in order; the first error ends it. */
  function WalkLevel(ts: seq<Transformer>, level: seq<Node>, bound: seq<Node>, ctx: Context, eng: Engines): Result<seq<Node>, Error>
    requires EngineContract(eng) && LevelBelow(level, bound)
    decreases HighlighterCount(bound), Size(bound), 0, |level|
  {
    if |level| == 0 then Ok([])
    else
      var front :- WalkLevel(ts, level[..|level| - 1], bound, ctx, eng);
      var last := level[|level| - 1];
      if last.Element? then
        var children :- WalkSpec(ts, last.children, ctx, eng);
        Ok(front + [Element(last.name, last.attrs, children)])
      else Ok(front + [last])
  }

  /** The replacement of one node: the transformers are tried in list order
      and the first that matches replaces the element. */
  method ReplaceFirstMatching(el: Node, ts: seq<Transformer>, ctx: Context, eng: Engines) returns (r: Result<seq<Node>, Error>)
    ensures r == ReplaceNode(ts, el, ctx, eng)
  {
    if el.Element? {
      var j := 0;
      while j < |ts|
        invariant 0 <= j <= |ts|
        invariant forall k :: 0 <= k < j ==> !Matches(ts[k], el.name, el.attrs)
      {
        if Matches(ts[j], el.name, el.attrs) {
          assert FirstMatch(ts, el.name, el.attrs) == Some(j);
          return Replace(ts[j], el.name, el.attrs, el.children, ctx, eng);
        }
        j := j + 1;
      }
    }
    return Ok([el]);
  }

  /** The first phase of `walk`: the level is drained and rebuilt in order,
      each node extended by its replacement. */
  method RebuildInOrder(dom: seq<Node>, ts: seq<Transformer>, ctx: Context, eng: Engines) returns (r: Result<seq<Node>, Error>)
    ensures r == RebuildLevel(ts, dom, ctx, eng)
  {
    var level: seq<Node> := [];
    for i := 0 to |dom|
      invariant RebuildLevel(ts, dom[..i], ctx, eng) == Ok(level)
    {
      assert dom[..i + 1][..i] == dom[..i];
      var res := ReplaceFirstMatching(dom[i], ts, ctx, eng);
      match res
      case Err(e) =>
        FlatMapStopsAtFirstError(dom, n => ReplaceNode(ts, n, ctx, eng), i + 1);
        return Err(e);
      case Ok(nodes) =>
        level := level + nodes;
    }
    assert dom[..|dom|] == dom;
    return Ok(level);
  }

  /** `walk`: rebuilds the level, then walks the children of every element
      of the rebuilt level, returning the rewritten level or the first error. */
  method Walk(dom: seq<Node>, ts: seq<Transformer>, ctx: Context, eng: Engines) returns (r: Result<seq<Node>, Error>)
    requires EngineContract(eng)
    ensures r == WalkSpec(ts, dom, ctx, eng)
    decreases HighlighterCount(dom), Size(dom)
  {
    var rebuilt := RebuildInOrder(dom, ts, ctx, eng);
    if rebuilt.Err? {
      return Err(rebuilt.error);
    }
    var level := rebuilt.value;
    RebuildBelow(ts, dom, ctx, eng);
    var walked: seq<Node> := [];
    for i := 0 to |level|
      invariant LevelBelow(level[..i], dom)
      invariant WalkLevel(ts, level[..i], dom, ctx, eng) == Ok(walked)
    {
      var el := level[i];
      assert level[..i + 1][..i] == level[..i];
      if el.Element? {
        var children := Walk(el.children, ts, ctx, eng);
        match children
        case Err(e) =>
          WalkLevelStopsAtFirstError(ts, level, dom, i + 1, ctx, eng);
          assert level[..|level|] == level;
          return Err(e);
        case Ok(c) =>
          walked := walked + [Element(el.name, el.attrs, c)];
      } else {
        walked := walked + [el];
      }
    }
    assert level[..|level|] == level;
    return Ok(walked);
  }

  /** An error while walking the children of a level is final. */
  lemma {:induction false} WalkLevelStopsAtFirstError(ts: seq<Transformer>, level: seq<Node>, bound: seq<Node>, n: nat, ctx: Context, eng: Engines)
    requires EngineContract(eng) && LevelBelow(level, bound)
    requires n <= |level| && WalkLevel(ts, level[..n], bound, ctx, eng).Err?
    ensures WalkLevel(ts, level, bound, ctx, eng) == WalkLevel(ts, level[..n], bound, ctx, eng)
    decreases |level| - n
  {
    if n < |level| {
      assert level[..n + 1][..n] == level[..n];
      WalkLevelStopsAtFirstError(ts, level, bound, n + 1, ctx, eng);
    } else {
      assert level[..n] == level;
    }
  }
}

module TreeWalkerProperties {
  import opened Wrappers
  import opened Strings
  import opened Dom
  import opened Transformers
  import opened TreeWalker

  /** The element is replaced by the transformer at `k` exactly when `k` is
      the first in list order to match it; later matching transformers are
      never consulted. */
  lemma ReplaceNodeUsesFirstMatch(ts: seq<Transformer>, node: Node, ctx: Context, eng: Engines, k: nat)
    requires node.Element? && k < |ts| && Matches(ts[k], node.name, node.attrs)
    requires forall j :: 0 <= j < k ==> !Matches(ts[j], node.name, node.attrs)
    ensures ReplaceNode(ts, node, ctx, eng) == Replace(ts[k], node.name, node.attrs, node.children, ctx, eng)
  {
    var first := FirstMatch(ts, node.name, node.attrs);
    assert first.Some? && first.value == k;
  }

  /** A node's replacement is spliced in at the position of that node: what
      precedes it is the rebuilt prefix and what follows the rebuilt suffix,
      both unaffected by it, and the replacement is not rebuilt again. */
  lemma RebuildSplicesInPlace(ts: seq<Transformer>, before: seq<Node>, node: Node, after: seq<Node>, ctx: Context, eng: Engines)
    requires RebuildLevel(ts, before + [node] + after, ctx, eng).Ok?
    ensures RebuildLevel(ts, before, ctx, eng).Ok? && ReplaceNode(ts, node, ctx, eng).Ok? && RebuildLevel(ts, after, ctx, eng).Ok?
    ensures RebuildLevel(ts, before + [node] + after, ctx, eng).value
         == RebuildLevel(ts, before, ctx, eng).value + ReplaceNode(ts, node, ctx, eng).value + RebuildLevel(ts, after, ctx, eng).value
  {
    var f := n => ReplaceNode(ts, n, ctx, eng);
    FlatMapConcat(before + [node], after, f);
    FlatMapConcat(before, [node], f);
    assert [node][..0] == [];
  }

  /** A node that is not an element, or an element no transformer matches. */
  predicate Unmatched(ts: seq<Transformer>, n: Node) {
    !n.Element? || FirstMatch(ts, n.name, n.attrs).None?
  }

  /** A level none of whose nodes is matched is rebuilt as it was, in order. */
  lemma {:induction false} RebuildKeepsUnmatched(ts: seq<Transformer>, nodes: seq<Node>, ctx: Context, eng: Engines)
    requires forall i :: 0 <= i < |nodes| ==> Unmatched(ts, nodes[i])
    ensures RebuildLevel(ts, nodes, ctx, eng) == Ok(nodes)
    decreases |nodes|
  {
    if |nodes| > 0 {
      var init := nodes[..|nodes| - 1];
      RebuildKeepsUnmatched(ts, init, ctx, eng);
      assert init + [nodes[|nodes| - 1]] == nodes;
    }
  }

  /** The second phase, element by element: it succeeds exactly when walking
      the children of every element of the level succeeds; then each element
      keeps its name and attributes and gets its walked children, and every
      other node is kept. Otherwise the error is that of the first element
      whose children fail. */
  lemma {:induction false} WalkLevelResult(ts: seq<Transformer>, level: seq<Node>, bound: seq<Node>, ctx: Context, eng: Engines)
    requires EngineContract(eng) && LevelBelow(level, bound)
    ensures var r := WalkLevel(ts, level, bound, ctx, eng);
      && (r.Ok? <==> forall i :: 0 <= i < |level| && level[i].Element? ==> WalkSpec(ts, level[i].children, ctx, eng).Ok?)
      && (r.Ok? ==> |r.value| == |level| && forall i :: 0 <= i < |level| ==>
            r.value[i] == (if level[i].Element?
                           then Element(level[i].name, level[i].attrs, WalkSpec(ts, level[i].children, ctx, eng).value)
                           else level[i]))
      && (r.Err? ==>
            exists i :: 0 <= i < |level| && level[i].Element? && WalkSpec(ts, level[i].children, ctx, eng) == Err(r.error)
              && forall j :: 0 <= j < i && level[j].Element? ==> WalkSpec(ts, level[j].children, ctx, eng).Ok?)
    decreases |level|
  {
    if |level| > 0 {
      var init := level[..|level| - 1];
      assert LevelBelow(init, bound);
      WalkLevelResult(ts, init, bound, ctx, eng);
      assert forall i :: 0 <= i < |init| ==> init[i] == level[i];
    }
  }

  /** `walk` in two phases: it succeeds exactly when the level is rebuilt
      and the children of every element of the rebuilt level, new ones
      included, are walked without error. The result has one node per node
      of the rebuilt level: elements keep their name and attributes, as
      produced, and get their walked children; other nodes are unchanged. */
  lemma WalkShape(ts: seq<Transformer>, nodes: seq<Node>, ctx: Context, eng: Engines)
    requires EngineContract(eng)
    ensures var r := WalkSpec(ts, nodes, ctx, eng);
      var rebuilt := RebuildLevel(ts, nodes, ctx, eng);
      && (r.Ok? <==> rebuilt.Ok? && forall i :: 0 <= i < |rebuilt.value| && rebuilt.value[i].Element? ==>
            WalkSpec(ts, rebuilt.value[i].children, ctx, eng).Ok?)
      && (r.Ok? ==> |r.value| == |rebuilt.value| && forall i :: 0 <= i < |rebuilt.value| ==>
            var n := rebuilt.value[i];
            r.value[i] == (if n.Element? then Element(n.name, n.attrs, WalkSpec(ts, n.children, ctx, eng).value) else n))
  {
    var rebuilt := RebuildLevel(ts, nodes, ctx, eng);
    if rebuilt.Ok? {
      RebuildBelow(ts, nodes, ctx, eng);
      WalkLevelResult(ts, rebuilt.value, nodes, ctx, eng);
    }
  }

  /** Any error aborts the walk and is returned: an error of a replacement on
      the level itself, or an error from walking the children of an element
      of the rebuilt level, at any depth, when the elements before it
      were walked without error. */
  lemma WalkPropagatesErrors(ts: seq<Transformer>, nodes: seq<Node>, ctx: Context, eng: Engines)
    requires EngineContract(eng)
    ensures RebuildLevel(ts, nodes, ctx, eng).Err? ==>
      WalkSpec(ts, nodes, ctx, eng) == Err(RebuildLevel(ts, nodes, ctx, eng).error)
    ensures RebuildLevel(ts, nodes, ctx, eng).Ok? && WalkSpec(ts, nodes, ctx, eng).Err? ==>
      var level := RebuildLevel(ts, nodes, ctx, eng).value;
      exists i :: 0 <= i < |level| && level[i].Element?
        && WalkSpec(ts, level[i].children, ctx, eng) == WalkSpec(ts, nodes, ctx, eng)
        && forall j :: 0 <= j < i && level[j].Element? ==> WalkSpec(ts, level[j].children, ctx, eng).Ok?
  {
    var rebuilt := RebuildLevel(ts, nodes, ctx, eng);
    if rebuilt.Ok? {
      RebuildBelow(ts, nodes, ctx, eng);
      WalkLevelResult(ts, rebuilt.value, nodes, ctx, eng);
    }
  }

  /** No element anywhere in the forest is matched by any transformer. */
  predicate NoMatchAnywhere(ts: seq<Transformer>, nodes: seq<Node>)
    decreases nodes
  {
    forall i :: 0 <= i < |nodes| ==> NoMatchIn(ts, nodes[i])
  }

  predicate NoMatchIn(ts: seq<Transformer>, n: Node)
    decreases n
  {
    n.Element? ==> FirstMatch(ts, n.name, n.attrs).None? && NoMatchAnywhere(ts, n.children)
  }

  /** A forest in which no transformer matches anything is walked to itself. */
  lemma {:induction false} WalkIdentity(ts: seq<Transformer>, nodes: seq<Node>, ctx: Context, eng: Engines)
    requires EngineContract(eng) && NoMatchAnywhere(ts, nodes)
    ensures WalkSpec(ts, nodes, ctx, eng) == Ok(nodes)
    decreases HighlighterCount(nodes), Size(nodes), 1, 0
  {
    RebuildKeepsUnmatched(ts, nodes, ctx, eng);
    RebuildBelow(ts, nodes, ctx, eng);
    WalkLevelIdentity(ts, nodes, nodes, ctx, eng);
  }

  lemma {:induction false} WalkLevelIdentity(ts: seq<Transformer>, level: seq<Node>, bound: seq<Node>, ctx: Context, eng: Engines)
    requires EngineContract(eng) && LevelBelow(level, bound) && NoMatchAnywhere(ts, level)
    ensures WalkLevel(ts, level, bound, ctx, eng) == Ok(level)
    decreases HighlighterCount(bound), Size(bound), 0, |level|
  {
    if |level| > 0 {
      var init, last := level[..|level| - 1], level[|level| - 1];
      assert NoMatchIn(ts, last);
      WalkLevelIdentity(ts, init, bound, ctx, eng);
      if last.Element? {
        WalkIdentity(ts, last.children, ctx, eng);
      }
      assert init + [last] == level;
    }
  }

  /** A replacement is not re-tested on its own level: a variable whose value
      is itself `$`-prefixed is substituted once, although the new element
      still matches the variable transformer. */
  lemma NotRetestedExample(ctx: Context, eng: Engines)
    requires EngineContract(eng)
    ensures var ts := [VariableReplacer(map["x" := "$y", "y" := "z"])];
      WalkSpec(ts, [Element("p", [("title", "$x")], [])], ctx, eng) == Ok([Element("p", [("title", "$y")], [])])
  {
    var vars := map["x" := "$y", "y" := "z"];
    var ts := [VariableReplacer(vars)];
    var p := Element("p", [("title", "$x")], []);
    var q := Element("p", [("title", "$y")], []);
    assert "$x"[1..] == "x";
    assert StartsWith(p.attrs[0].1, '$');
    assert FirstMatch(ts, p.name, p.attrs) == Some(0);
    var r := VariableReplace(vars, p.name, p.attrs, p.children);
    assert r.Ok?;
    assert r.value[0].attrs[0] == ("title", "$y");
    assert r.value[0].attrs == q.attrs;
    assert r.value == [q];
    assert ReplaceNode(ts, p, ctx, eng) == Ok([q]);
    var f := n => ReplaceNode(ts, n, ctx, eng);
    assert [p][..0] == [];
    assert FlatMapOk([], f) == Ok([]);
    assert f(p) == Ok([q]);
    assert [] + [q] == [q];
    assert RebuildLevel(ts, [p], ctx, eng) == FlatMapOk([p], f) == Ok([q]);
    WalkIdentity(ts, [], ctx, eng);
    RebuildBelow(ts, [p], ctx, eng);
    assert WalkLevel(ts, [q], [p], ctx, eng) == Ok([q]) by {
      assert [q][..0] == [];
    }
  }

  /** List order decides between overlapping transformers: with variable
      substitution listed before KaTeX, a `$` element is a variable lookup
      (a text node or an error) and never rendered. */
  lemma VariableShadowsKatex(variables: map<string, string>, attrs: Attrs, children: seq<Node>, ctx: Context, eng: Engines)
    ensures var ts := [VariableReplacer(variables), KatexReplacer];
      var r := ReplaceNode(ts, Element("$", attrs, children), ctx, eng);
      && r == VariableReplace(variables, "$", attrs, children)
      && (r.Ok? <==> "" in variables)
      && (r.Ok? ==> r.value == [Text(variables[""])])
  {
    var ts := [VariableReplacer(variables), KatexReplacer];
    assert Matches(ts[0], "$", attrs);
    assert "$"[1..] == "";
  }
}
