/**
  * The parsed document tree the transformers rewrite, and the error type
  * the transformers and the walker report.
  */
module Dom {
  import opened Wrappers
  import opened Paths

  /** An ordered list of attribute pairs; keys may repeat. */
  type Attrs = seq<(string, string)>

  /** A node of the document tree. Children belong to their element alone,
      so the tree is an ordinary recursive value. `RawHTML` is markup that is
      emitted verbatim; comments and doctypes pass through every rewrite. */
  datatype Node =
    | Element(name: string, attrs: Attrs, children: seq<Node>)
    | Text(text: string)
    | RawHTML(html: string)
    | Comment(comment: string)
    | Doctype(doctype: string)

  /** The error type of the walk. Foreign error payloads (the HTML parser's,
      the highlighter's, the operating system's) are kept as their messages. */
  datatype Error =
    | MalformedAttrs(keyName: string, msg: string)
    | MissingAttr(keyName: string, msg: string)
    | MissingBody(msg: string)
    | ParseHtmlError(path: Path, error: string)
    | Io(message: string)
    | SyntectError(message: string)
    | Other(message: string)

  /** `get_attr`: the value of the first pair whose key is `key`. */
  function GetAttr(attrs: Attrs, key: string): (r: Option<string>)
    ensures r.None? <==> forall i :: 0 <= i < |attrs| ==> attrs[i].0 != key
    ensures r.Some? ==> exists i :: 0 <= i < |attrs| && attrs[i] == (key, r.value) && (forall j :: 0 <= j < i ==> attrs[j].0 != key)
  {
    if |attrs| == 0 then None
    else if attrs[0].0 == key then Some(attrs[0].1)
    else
      var r := GetAttr(attrs[1..], key);
      assert forall i :: 1 <= i < |attrs| ==> attrs[i] == attrs[1..][i - 1];
      if r.Some? then
        var i :| 0 <= i < |attrs[1..]| && attrs[1..][i] == (key, r.value) && (forall j :: 0 <= j < i ==> attrs[1..][j].0 != key);
        assert attrs[i + 1] == (key, r.value);
        r
      else r
  }

  /** Pairs after the first one with the key do not change what `get_attr`
      returns, so it is insensitive to later duplicates. */
  lemma {:induction false} GetAttrIgnoresLaterPairs(attrs: Attrs, later: Attrs, key: string)
    requires GetAttr(attrs, key).Some?
    ensures GetAttr(attrs + later, key) == GetAttr(attrs, key)
    decreases |attrs|
  {
    if attrs[0].0 != key {
      assert (attrs + later)[1..] == attrs[1..] + later;
      GetAttrIgnoresLaterPairs(attrs[1..], later, key);
    }
  }
}
