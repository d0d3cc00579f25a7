/**
  * The four document transformers: variable substitution, link resolution,
  * KaTeX rendering and syntax highlighting. Each is a `matches` predicate on
  * an element's tag and attributes and a `replace` rewrite producing the
  * nodes that take the element's place.
  *
  * The engines the transformers call into (the KaTeX renderer, syntect's
  * highlighter, the HTML parser, path relativisation) are parameters:
  * fields of `Engines`. This module assumes nothing of them beyond their
  * types; the walk's termination adds one assumption (`EngineContract`).
  */
module Transformers {
  import opened Wrappers
  import opened Paths
  import opened Strings
  import opened Dom
  import opened ResourceManagement

  /** The KaTeX options the core varies: output is always HTML with `trust`
      set, and display mode is the only choice made per element. */
  datatype KatexOpts = KatexOpts(displayMode: bool)

  datatype Color = Color(r: bv8, g: bv8, b: bv8)

  /** A highlighting theme; only its background colour is observed. */
  datatype Theme = Theme(name: string, background: Option<Color>)

  /** A syntax definition, found by file extension. */
  datatype Syntax = Syntax(name: string)

  datatype SyntaxSet = SyntaxSet(byExtension: map<string, Syntax>)

  datatype Engines = Engines(
    katexVersion: string,
    renderKatex: (string, KatexOpts) -> string,
    diffPaths: (Path, Path) -> Path,
    highlight: (string, SyntaxSet, Syntax, Theme) -> Result<string, string>,
    parseHtml: string -> Result<seq<Node>, string>,
    debugQuote: string -> string)

  /** The parts of the walk's context the transformers read: the source path
      of the file being processed and the registered files, listed in the
      registry's iteration order. */
  datatype Context = Context(sourcePath: Path, files: seq<(Path, Resource)>)

  /** Rewrites every attribute value with `f`, keeping keys and order; the
      first value `f` rejects fails the whole list. */
  function MapValues(attrs: Attrs, f: string -> Result<string, Error>): (r: Result<Attrs, Error>)
    ensures r.Ok? <==> forall i :: 0 <= i < |attrs| ==> f(attrs[i].1).Ok?
    ensures r.Ok? ==> |r.value| == |attrs|
    ensures r.Ok? ==> forall i :: 0 <= i < |attrs| ==> r.value[i] == (attrs[i].0, f(attrs[i].1).value)
    ensures r.Err? ==> exists i :: 0 <= i < |attrs| && f(attrs[i].1) == Err(r.error) && (forall j :: 0 <= j < i ==> f(attrs[j].1).Ok?)
  {
    if |attrs| == 0 then Ok([])
    else
      assert forall i :: 1 <= i < |attrs| ==> attrs[i] == attrs[1..][i - 1];
      match f(attrs[0].1)
      case Err(e) => Err(e)
      case Ok(v) =>
        match MapValues(attrs[1..], f)
        case Err(e) =>
          var i :| 0 <= i < |attrs[1..]| && f(attrs[1..][i].1) == Err(e) && (forall j :: 0 <= j < i ==> f(attrs[1..][j].1).Ok?);
          assert f(attrs[i + 1].1) == Err(e);
          Err(e)
        case Ok(rest) => Ok([(attrs[0].0, v)] + rest)
  }

  // ---------------------------------------------------------------- variables

  predicate VariableMatches(name: string, attrs: Attrs) {
    StartsWith(name, '$') || exists i :: 0 <= i < |attrs| && StartsWith(attrs[i].1, '$')
  }

  /** `replace_var`: a `$name` is looked up, anything else passes. */
  function ReplaceVar(variables: map<string, string>, x: string): Result<string, Error> {
    if !StartsWith(x, '$') then Ok(x)
    else if x[1..] in variables then Ok(variables[x[1..]])
    else Err(Other("Unknown variable " + x))
  }

  /** `VariableReplacer::replace`. A `$`-tag becomes one text node with the
      variable's value, its children dropped. Any other element keeps its tag,
      children, attribute keys and order; only `$` values are substituted.
      An unknown name fails, the first one in attribute order reported. */
  function VariableReplace(variables: map<string, string>, name: string, attrs: Attrs, children: seq<Node>): (r: Result<seq<Node>, Error>)
    ensures StartsWith(name, '$') ==>
      && (r.Ok? <==> name[1..] in variables)
      && (r.Ok? ==> r.value == [Text(variables[name[1..]])])
      && (r.Err? ==> r.error == Other("Unknown variable " + name))
    ensures !StartsWith(name, '$') ==>
      && (r.Ok? <==> forall i :: 0 <= i < |attrs| && StartsWith(attrs[i].1, '$') ==> attrs[i].1[1..] in variables)
      && (r.Ok? ==>
            && |r.value| == 1 && r.value[0].Element?
            && r.value[0].name == name && r.value[0].children == children
            && |r.value[0].attrs| == |attrs|
            && forall i :: 0 <= i < |attrs| ==>
                 r.value[0].attrs[i] == (attrs[i].0, if StartsWith(attrs[i].1, '$') then variables[attrs[i].1[1..]] else attrs[i].1))
      && (r.Err? ==>
            exists i :: 0 <= i < |attrs| && StartsWith(attrs[i].1, '$') && attrs[i].1[1..] !in variables && r.error == Other("Unknown variable " + attrs[i].1)
              && forall j :: 0 <= j < i && StartsWith(attrs[j].1, '$') ==> attrs[j].1[1..] in variables)
  {
    if StartsWith(name, '$') then
      var value :- ReplaceVar(variables, name);
      Ok([Text(value)])
    else
      var newAttrs :- MapValues(attrs, x => ReplaceVar(variables, x));
      Ok([Element(name, newAttrs, children)])
  }

  // -------------------------------------------------------------------- links

  predicate LinkMatches(attrs: Attrs) {
    exists i :: 0 <= i < |attrs| && StartsWith(attrs[i].1, '@')
  }

  /** Where a link to a resource points from the source file: its output path
      relative to the source's directory, or the output path itself when the
      source path has no parent. */
  function LinkTarget(eng: Engines, sourcePath: Path, res: Resource): Path {
    match Parent(sourcePath)
    case None => res.outputPath
    case Some(sourceDir) => eng.diffPaths(res.outputPath, sourceDir)
  }

  /** `replace_link`: an `@identifier` resolves through the registered files,
      the first in iteration order with that identifier; anything else passes. */
  function ResolveLink(eng: Engines, ctx: Context, x: string): Result<string, Error> {
    if !StartsWith(x, '@') then Ok(x)
    else match FirstWithIdentifier(ctx.files, x[1..])
      case None => Err(Other("Unknown identifier: " + x))
      case Some(res) => Ok(LinkTarget(eng, ctx.sourcePath, res))
  }

  /** `LinkReplacer::replace`: one element with the same tag and children;
      each `@` value becomes the link target of a registered resource with
      that identifier, every other pair is unchanged; an identifier no
      registered resource has fails the rewrite, the first one in attribute
      order reported. */
  function LinkReplace(eng: Engines, ctx: Context, name: string, attrs: Attrs, children: seq<Node>): (r: Result<seq<Node>, Error>)
    ensures r.Ok? <==> forall i :: 0 <= i < |attrs| && StartsWith(attrs[i].1, '@') ==>
      exists k :: 0 <= k < |ctx.files| && ctx.files[k].1.identifier == attrs[i].1[1..]
    ensures r.Ok? ==>
      && |r.value| == 1 && r.value[0].Element?
      && r.value[0].name == name && r.value[0].children == children
      && |r.value[0].attrs| == |attrs|
      && forall i :: 0 <= i < |attrs| ==>
           && r.value[0].attrs[i].0 == attrs[i].0
           && (!StartsWith(attrs[i].1, '@') ==> r.value[0].attrs[i].1 == attrs[i].1)
           && (StartsWith(attrs[i].1, '@') ==>
                 exists k :: 0 <= k < |ctx.files| && ctx.files[k].1.identifier == attrs[i].1[1..] && r.value[0].attrs[i].1 == LinkTarget(eng, ctx.sourcePath, ctx.files[k].1))
    ensures r.Err? ==>
      exists i :: 0 <= i < |attrs| && StartsWith(attrs[i].1, '@') && r.error == Other("Unknown identifier: " + attrs[i].1)
        && (forall k :: 0 <= k < |ctx.files| ==> ctx.files[k].1.identifier != attrs[i].1[1..])
        && (forall j :: 0 <= j < i && StartsWith(attrs[j].1, '@') ==>
              exists k :: 0 <= k < |ctx.files| && ctx.files[k].1.identifier == attrs[j].1[1..])
  {
    var newAttrs :- MapValues(attrs, x => ResolveLink(eng, ctx, x));
    Ok([Element(name, newAttrs, children)])
  }

  /** Against an enumeration of a registry whose identifiers are unique, the
      rewrite does not depend on the order the registry is iterated in. */
  lemma LinkReplaceIndependentOfOrder(eng: Engines, ctx1: Context, ctx2: Context, m: map<Path, Resource>,
                                      name: string, attrs: Attrs, children: seq<Node>)
    requires ctx1.sourcePath == ctx2.sourcePath
    requires Enumerates(ctx1.files, m) && Enumerates(ctx2.files, m) && UniqueIdentifiers(m)
    ensures LinkReplace(eng, ctx1, name, attrs, children) == LinkReplace(eng, ctx2, name, attrs, children)
  {
    forall x ensures ResolveLink(eng, ctx1, x) == ResolveLink(eng, ctx2, x) {
      if StartsWith(x, '@') {
        LookupIndependentOfOrder(ctx1.files, ctx2.files, m, x[1..]);
      }
    }
    MapValuesPointwise(attrs, x => ResolveLink(eng, ctx1, x), x => ResolveLink(eng, ctx2, x));
  }

  /** Two rewrites that agree on every value rewrite the list alike. */
  lemma {:induction false} MapValuesPointwise(attrs: Attrs, f: string -> Result<string, Error>, g: string -> Result<string, Error>)
    requires forall i :: 0 <= i < |attrs| ==> f(attrs[i].1) == g(attrs[i].1)
    ensures MapValues(attrs, f) == MapValues(attrs, g)
    decreases |attrs|
  {
    if |attrs| > 0 {
      MapValuesPointwise(attrs[1..], f, g);
    }
  }

  // -------------------------------------------------------------------- katex

  predicate KatexMatches(name: string) {
    name == "$" || name == "katex" || name == "katex-prelude"
  }

  function PreludeHref(version: string): string {
    "https://cdn.jsdelivr.net/npm/katex@" + version + "/dist/katex.min.css"
  }

  /** `KatexReplacer::replace`, for the tags it matches. The prelude tag
      becomes one childless stylesheet `link`; `katex` (display mode) and `$`
      (inline) need exactly one text child and become one raw-HTML node. */
  function KatexReplace(eng: Engines, name: string, children: seq<Node>): (r: Result<seq<Node>, Error>)
    requires KatexMatches(name)
    ensures name == "katex-prelude" ==>
      r == Ok([Element("link", [("rel", "stylesheet"), ("href", PreludeHref(eng.katexVersion))], [])])
    ensures name != "katex-prelude" ==>
      && (r.Ok? <==> |children| == 1 && children[0].Text?)
      && (r.Ok? ==> r.value == [RawHTML(eng.renderKatex(children[0].text, KatexOpts(displayMode := name == "katex")))])
      && (r.Err? ==> r.error == Other("Katex: malformed body"))
  {
    if name == "katex-prelude" then
      Ok([Element("link", [("rel", "stylesheet"), ("href", PreludeHref(eng.katexVersion))], [])])
    else
      var opts := KatexOpts(displayMode := name == "katex");
      if |children| == 1 && children[0].Text? then
        Ok([RawHTML(eng.renderKatex(children[0].text, opts))])
      else
        Err(Other("Katex: malformed body"))
  }

  // ------------------------------------------------------------ highlighting

  predicate SyntaxMatches(name: string) {
    name == "code-hl" || name == "pre-hl"
  }

  /** Lower-case hexadecimal digit. */
  function HexDigit(d: bv8): char
    requires d < 16
  {
    if d < 10 then '0' + (d as int) as char else 'a' + (d as int - 10) as char
  }

  predicate IsLowerHexDigit(c: char) {
    '0' <= c <= '9' || 'a' <= c <= 'f'
  }

  function HexValue(c: char): nat {
    if '0' <= c <= '9' then (c - '0') as nat
    else if 'a' <= c <= 'f' then (c - 'a') as nat + 10
    else 0
  }

  /** `{:02x}`: two lower-case hexadecimal digits, read back as the byte. */
  function Hex2(b: bv8): (r: string)
    ensures |r| == 2 && IsLowerHexDigit(r[0]) && IsLowerHexDigit(r[1])
    ensures HexValue(r[0]) * 16 + HexValue(r[1]) == b as nat
  {
    [HexDigit(b >> 4), HexDigit(b & 15)]
  }

  /** The inline style for a theme background. */
  function BackgroundStyle(c: Color): (r: string)
    ensures |r| == 20 && r[..13] == "background: #" && r[19] == ';'
    ensures forall i :: 13 <= i < 19 ==> IsLowerHexDigit(r[i])
    ensures HexValue(r[13]) * 16 + HexValue(r[14]) == c.r as nat
    ensures HexValue(r[15]) * 16 + HexValue(r[16]) == c.g as nat
    ensures HexValue(r[17]) * 16 + HexValue(r[18]) == c.b as nat
  {
    "background: #" + Hex2(c.r) + Hex2(c.g) + Hex2(c.b) + ";"
  }

  /** The attributes of the generated `pre`, with the background style
      appended last when the theme has a background. */
  function WithBackground(attrs: Attrs, theme: Theme): (r: Attrs)
    ensures theme.background.None? ==> r == attrs
    ensures theme.background.Some? ==>
      && |r| == |attrs| + 1 && r[..|attrs|] == attrs
      && r[|attrs|] == ("style", BackgroundStyle(theme.background.value))
  {
    match theme.background
    case None => attrs
    case Some(c) => attrs + [("style", BackgroundStyle(c))]
  }

  /** The fixed path reported for parse errors in generated HTML. */
  const GeneratedSource: Path := "<generated-syntect>"

  /** `SyntaxHighlighter::replace`, for the tags it matches. */
  function SyntaxHighlight(syntaxSet: SyntaxSet, themes: map<string, Theme>, themeName: string, eng: Engines,
                           name: string, attrs: Attrs, children: seq<Node>): (r: Result<seq<Node>, Error>)
    requires SyntaxMatches(name)
  {
    if !(|children| == 1 && children[0].Text?) then Err(Other(name + " must contain only text children"))
    else
      var code := Deindent(children[0].text);
      match GetAttr(attrs, "lang")
      case None => Err(Other("Missing lang= attribute"))
      case Some(lang) =>
        if themeName !in themes then Err(Other("No such theme " + themeName))
        else
          var theme := themes[themeName];
          if lang !in syntaxSet.byExtension then Err(Other("Unknown language " + lang))
          else
            match eng.highlight(code, syntaxSet, syntaxSet.byExtension[lang], theme)
            case Err(e) => Err(SyntectError(e))
            case Ok(html) =>
              match eng.parseHtml(html)
              case Err(e) => Err(ParseHtmlError(GeneratedSource, e))
              case Ok(parsed) =>
                if |parsed| == 0 || !parsed[0].Element? || parsed[0].name != "pre" then
                  Err(Other("Invalid html generated by syntect: " + eng.debugQuote(html)))
                else
                  Ok([Element(if name == "pre-hl" then "pre" else "code",
                              WithBackground(parsed[0].attrs, theme), parsed[0].children)])
  }

  /** The checks of the highlighter, in the order it makes them: the body is
      one text node, the `lang` attribute (its first occurrence) is present,
      the theme exists, the language is known. Each failure is reported with
      its own message and none of the later checks is made. */
  lemma SyntaxHighlightCheckOrder(syntaxSet: SyntaxSet, themes: map<string, Theme>, themeName: string, eng: Engines,
                                  name: string, attrs: Attrs, children: seq<Node>)
    requires SyntaxMatches(name)
    ensures var r := SyntaxHighlight(syntaxSet, themes, themeName, eng, name, attrs, children);
      && (!(|children| == 1 && children[0].Text?) ==> r == Err(Other(name + " must contain only text children")))
      && (|children| == 1 && children[0].Text? ==>
            && (GetAttr(attrs, "lang").None? ==> r == Err(Other("Missing lang= attribute")))
            && (GetAttr(attrs, "lang").Some? && themeName !in themes ==> r == Err(Other("No such theme " + themeName)))
            && (GetAttr(attrs, "lang").Some? && themeName in themes && GetAttr(attrs, "lang").value !in syntaxSet.byExtension ==>
                  r == Err(Other("Unknown language " + GetAttr(attrs, "lang").value))))
  {
  }

  /** When the checks pass, the highlighter sees the deindented code, and a
      failure of the highlighter or of parsing its output is passed on. */
  lemma SyntaxHighlightEngineErrors(syntaxSet: SyntaxSet, themes: map<string, Theme>, themeName: string, eng: Engines,
                                    name: string, attrs: Attrs, code: string, lang: string)
    requires SyntaxMatches(name)
    requires GetAttr(attrs, "lang") == Some(lang) && themeName in themes && lang in syntaxSet.byExtension
    ensures var r := SyntaxHighlight(syntaxSet, themes, themeName, eng, name, attrs, [Text(code)]);
      var generated := eng.highlight(Deindent(code), syntaxSet, syntaxSet.byExtension[lang], themes[themeName]);
      && (generated.Err? ==> r == Err(SyntectError(generated.error)))
      && (generated.Ok? && eng.parseHtml(generated.value).Err? ==>
            r == Err(ParseHtmlError("<generated-syntect>", eng.parseHtml(generated.value).error)))
      && (generated.Ok? && eng.parseHtml(generated.value).Ok? ==>
            var parsed := eng.parseHtml(generated.value).value;
            (|parsed| == 0 || !parsed[0].Element? || parsed[0].name != "pre") ==>
              r == Err(Other("Invalid html generated by syntect: " + eng.debugQuote(generated.value))))
  {
  }

  /** On success the result is exactly one element, `pre` for `pre-hl` and
      `code` for `code-hl`, carrying the children and the attributes of the
      generated `pre` (the first parsed node), with the theme's background
      style appended last when it has one. */
  lemma SyntaxHighlightSuccess(syntaxSet: SyntaxSet, themes: map<string, Theme>, themeName: string, eng: Engines,
                               name: string, attrs: Attrs, children: seq<Node>)
    requires SyntaxMatches(name)
    requires SyntaxHighlight(syntaxSet, themes, themeName, eng, name, attrs, children).Ok?
    ensures var out := SyntaxHighlight(syntaxSet, themes, themeName, eng, name, attrs, children).value;
      && |children| == 1 && children[0].Text?
      && GetAttr(attrs, "lang").Some? && themeName in themes
      && var lang := GetAttr(attrs, "lang").value;
      && lang in syntaxSet.byExtension
      && var theme := themes[themeName];
      && var generated := eng.highlight(Deindent(children[0].text), syntaxSet, syntaxSet.byExtension[lang], theme);
      && generated.Ok? && eng.parseHtml(generated.value).Ok?
      && var parsed := eng.parseHtml(generated.value).value;
      && |parsed| > 0 && parsed[0].Element? && parsed[0].name == "pre"
      && |out| == 1 && out[0].Element?
      && out[0].name == (if name == "pre-hl" then "pre" else "code")
      && out[0].children == parsed[0].children
      && (theme.background.None? ==> out[0].attrs == parsed[0].attrs)
      && (theme.background.Some? ==>
            out[0].attrs == parsed[0].attrs + [("style", BackgroundStyle(theme.background.value))])
  {
  }

  /** The hex digits read back as the colour components they encode. */
  lemma BackgroundStyleExample()
    ensures BackgroundStyle(Color(0x2b, 0x30, 0x3b)) == "background: #2b303b;"
  {
    assert Hex2(0x2b) == "2b";
    assert Hex2(0x30) == "30";
    assert Hex2(0x3b) == "3b";
  }
}
