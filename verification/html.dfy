/** The HTML node tree of `htmlnode.py` and its serialiser.

    A `LeafNode` carries an optional tag and an optional value; a
    `ParentNode` carries an optional tag and an optional child list. Both
    carry optional attributes (`props`), a Python dict kept here as an
    ordered list of name/value pairs. Serialisation fails, as the Python
    raises, on a valueless leaf that is not `<br>` and on a parent without
    a tag or without a child list. */
module Html {
  import opened Wrappers
  import opened Errors
  import opened Strings

  /** One attribute, rendered as ` name="value"`. */
  datatype Attr = Attr(name: string, value: string)

  datatype HtmlNode =
    | Leaf(tag: Option<string>, value: Option<string>, props: Option<seq<Attr>>)
    | Parent(tag: Option<string>, children: ChildList, props: Option<seq<Attr>>)

  /** A parent's `children`: `None`, or a list. */
  datatype ChildList = NoChildren | Children(nodes: seq<HtmlNode>)

  /** A raw-text leaf: no tag, just the text. */
  function RawText(s: string): HtmlNode {
    Leaf(None, Some(s), None)
  }

  // ---------------------------------------------------------------------
  // props_to_html
  // ---------------------------------------------------------------------

  function AttrToHtml(a: Attr): string {
    " " + a.name + "=\"" + a.value + "\""
  }

  function AttrsToHtml(attrs: seq<Attr>): string
  {
    if attrs == [] then "" else AttrToHtml(attrs[0]) + AttrsToHtml(attrs[1..])
  }

  /** `props_to_html`: empty exactly when there are no attributes (`None` or
      an empty mapping); otherwise it starts with the space that separates
      the first attribute from the tag name. */
  function PropsToHtml(props: Option<seq<Attr>>): (r: string)
    ensures r == [] <==> props.None? || props.value == []
    ensures r != [] ==> r[0] == ' '
  {
    match props
    case None => ""
    case Some(attrs) => AttrsToHtml(attrs)
  }

  /** Attributes render in insertion order, each independently of the
      others: the rendering of a concatenation is the concatenation of the
      renderings. */
  lemma {:induction false} AttrsAppend(a: seq<Attr>, b: seq<Attr>)
    ensures AttrsToHtml(a + b) == AttrsToHtml(a) + AttrsToHtml(b)
    decreases |a|
  {
    if a == [] {
      assert a + b == b;
    } else {
      AttrsAppend(a[1..], b);
      assert (a + b)[1..] == a[1..] + b;
    }
  }

  /** `s.partition(c)` when `c` occurs: the text before the first `c` and
      the text after it. */
  function Partition(s: string, c: char): (r: Option<(string, string)>)
    ensures r.None? <==> c !in s
    ensures r.Some? ==> r.value.0 + [c] + r.value.1 == s && c !in r.value.0
    decreases |s|
  {
    if s == [] then None
    else if s[0] == c then Some(([], s[1..]))
    else match Partition(s[1..], c)
      case None => None
      case Some((before, after)) => Some(([s[0]] + before, after))
  }

  lemma {:induction false} PartitionFirst(a: string, c: char, b: string)
    requires c !in a
    ensures Partition(a + [c] + b, c) == Some((a, b))
    decreases |a|
  {
    if a == [] {
      assert (a + [c] + b)[1..] == b;
    } else {
      PartitionFirst(a[1..], c, b);
      assert (a + [c] + b)[1..] == a[1..] + [c] + b;
      assert [a[0]] + a[1..] == a;
    }
  }

  /** Reads one ` name="value"` pair off the front of `s`: the name runs up
      to the first `=`, the value between the quotes that follow. Returns
      the attribute and the text after it. */
  function ParseAttr(s: string): (r: Option<(Attr, string)>)
    ensures r.Some? ==> |r.value.1| < |s|
  {
    if s == [] || s[0] != ' ' then None
    else match Partition(s[1..], '=')
      case None => None
      case Some((name, tail)) =>
        if tail == [] || tail[0] != '"' then None
        else match Partition(tail[1..], '"')
          case None => None
          case Some((value, rest)) => Some((Attr(name, value), rest))
  }

  /** Reads a whole attribute string back into the list it renders. */
  function ParseAttrs(s: string): Option<seq<Attr>>
    decreases |s|
  {
    if s == [] then Some([])
    else match ParseAttr(s)
      case None => None
      case Some((a, rest)) =>
        match ParseAttrs(rest)
        case None => None
        case Some(more) => Some([a] + more)
  }

  /** Names without `=` and values without `"` survive a rendering. */
  predicate Readable(a: Attr) {
    '=' !in a.name && '"' !in a.value
  }

  /** One rendered attribute reads back as itself, leaving what follows. */
  lemma ParseAttrStep(a: Attr, rest: string)
    requires Readable(a)
    ensures ParseAttr(AttrToHtml(a) + rest) == Some((a, rest))
  {
    var s := AttrToHtml(a) + rest;
    var tail := "\"" + a.value + "\"" + rest;
    assert s[0] == ' ';
    assert Partition(s[1..], '=') == Some((a.name, tail)) by {
      assert s[1..] == a.name + ['='] + tail;
      PartitionFirst(a.name, '=', tail);
    }
    assert tail[0] == '"';
    assert Partition(tail[1..], '"') == Some((a.value, rest)) by {
      assert tail[1..] == a.value + ['"'] + rest;
      PartitionFirst(a.value, '"', rest);
    }
  }

  /** The rendering loses nothing: the attribute list can be read back
      from it, in order, provided names hold no `=` and values no `"`. */
  lemma {:induction false} AttrsRoundTrip(attrs: seq<Attr>)
    requires forall k :: 0 <= k < |attrs| ==> Readable(attrs[k])
    ensures ParseAttrs(AttrsToHtml(attrs)) == Some(attrs)
    decreases |attrs|
  {
    if attrs != [] {
      var rest := AttrsToHtml(attrs[1..]);
      AttrsRoundTrip(attrs[1..]);
      ParseAttrStep(attrs[0], rest);
      assert AttrsToHtml(attrs) == AttrToHtml(attrs[0]) + rest;
      assert [attrs[0]] + attrs[1..] == attrs;
    }
  }

  // ---------------------------------------------------------------------
  // to_html
  // ---------------------------------------------------------------------

  /** `<tag attrs>` */
  function OpeningTag(tag: string, props: Option<seq<Attr>>): string {
    "<" + tag + PropsToHtml(props) + ">"
  }

  /** `</tag>` */
  function ClosingTag(tag: string): string {
    "</" + tag + ">"
  }

  function LeafToHtml(tag: Option<string>, value: Option<string>, props: Option<seq<Attr>>): Result<string, Error>
  {
    if value.None? && tag != Some("br") then Err(LeafWithoutValue)
    else if tag.None? then Ok(value.value)
    else if tag == Some("br") then Ok("<br>")
    else Ok(OpeningTag(tag.value, props) + value.value + ClosingTag(tag.value))
  }

  /** `to_html` of either node kind. */
  function ToHtml(n: HtmlNode): (r: Result<string, Error>)
    ensures n.Leaf? ==> (r.Err? <==> n.value.None? && n.tag != Some("br"))
    ensures n.Leaf? && r.Err? ==> r.error == LeafWithoutValue
    ensures n.Leaf? && n.tag.None? && n.value.Some? ==> r == Ok(n.value.value)
    ensures n.Leaf? && n.tag == Some("br") ==> r == Ok("<br>")
    ensures n.Leaf? && n.tag.Some? && n.tag != Some("br") && n.value.Some? ==>
      r == Ok(OpeningTag(n.tag.value, n.props) + n.value.value + ClosingTag(n.tag.value))
    ensures n.Parent? && n.tag.None? ==> r == Err(ParentWithoutTag)
    ensures n.Parent? && n.tag.Some? && n.children.NoChildren? ==> r == Err(ParentWithoutChildren)
    ensures n.Parent? && n.tag.Some? && n.children == Children([]) ==>
      r == Ok(OpeningTag(n.tag.value, n.props) + ClosingTag(n.tag.value))
  {
    match n
    case Leaf(tag, value, props) => LeafToHtml(tag, value, props)
    case Parent(None, _, _) => Err(ParentWithoutTag)
    case Parent(Some(_), NoChildren, _) => Err(ParentWithoutChildren)
    case Parent(Some(tag), Children(cs), props) =>
      match ChildrenToHtml(cs)
      case Err(e) => Err(e)
      case Ok(inner) =>
        assert cs == [] ==> inner == [];
        assert inner == [] ==> OpeningTag(tag, props) + inner == OpeningTag(tag, props);
        Ok(OpeningTag(tag, props) + inner + ClosingTag(tag))
  }

  /** The children's outputs concatenated in order; the first failing child
      stops the concatenation. */
  function ChildrenToHtml(cs: seq<HtmlNode>): Result<string, Error>
  {
    if cs == [] then Ok("")
    else
      var head :- ToHtml(cs[0]);
      var tail :- ChildrenToHtml(cs[1..]);
      Ok(head + tail)
  }

  /** The structural rules, stated node by node over the whole tree: every
      leaf has a value or is `<br>`, every parent has a tag and a child
      list. */
  predicate WellFormed(n: HtmlNode) {
    match n
    case Leaf(tag, value, _) => value.Some? || tag == Some("br")
    case Parent(tag, NoChildren, _) => false
    case Parent(tag, Children(cs), _) =>
      tag.Some? && forall i :: 0 <= i < |cs| ==> WellFormed(cs[i])
  }

  /** Serialisation succeeds exactly on well-formed trees: any faulty node
      anywhere below makes the whole tree fail. */
  lemma {:induction false} SerialisesIffWellFormed(n: HtmlNode)
    ensures ToHtml(n).Ok? <==> WellFormed(n)
    decreases n, 1
  {
    match n
    case Leaf(_, _, _) =>
    case Parent(None, _, _) =>
    case Parent(Some(_), NoChildren, _) =>
    case Parent(Some(_), Children(cs), _) =>
      ChildrenSerialiseIffWellFormed(cs);
  }

  lemma {:induction false} ChildrenSerialiseIffWellFormed(cs: seq<HtmlNode>)
    ensures ChildrenToHtml(cs).Ok? <==> forall i :: 0 <= i < |cs| ==> WellFormed(cs[i])
    decreases cs, 0
  {
    if cs != [] {
      SerialisesIffWellFormed(cs[0]);
      ChildrenSerialiseIffWellFormed(cs[1..]);
      assert forall i :: 1 <= i < |cs| ==> cs[i] == cs[1..][i - 1];
    }
  }

  predicate AllSerialise(cs: seq<HtmlNode>) {
    forall i :: 0 <= i < |cs| ==> ToHtml(cs[i]).Ok?
  }

  /** Each child's serialisation, in order. */
  function Outputs(cs: seq<HtmlNode>): seq<string>
    requires AllSerialise(cs)
  {
    seq(|cs|, i requires 0 <= i < |cs| => ToHtml(cs[i]).value)
  }

  lemma {:induction false} ChildrenConcatenate(cs: seq<HtmlNode>)
    requires AllSerialise(cs)
    ensures ChildrenToHtml(cs) == Ok(Join(Outputs(cs), ""))
    decreases |cs|
  {
    if cs != [] {
      ChildrenConcatenate(cs[1..]);
      var outs := Outputs(cs);
      assert outs[1..] == Outputs(cs[1..]);
      assert outs[0] == ToHtml(cs[0]).value;
      if |cs| == 1 {
        assert ChildrenToHtml(cs[1..]) == Ok("");
        assert outs[0] + "" == outs[0];
      } else {
        assert Join(outs, "") == outs[0] + "" + Join(outs[1..], "");
        assert outs[0] + "" == outs[0];
      }
    }
  }

  /** A parent with a tag and serialisable children renders as its opening
      tag with attributes, then every child's output in order, then its
      closing tag. */
  lemma ParentRendersChildrenInOrder(tag: string, cs: seq<HtmlNode>, props: Option<seq<Attr>>)
    requires AllSerialise(cs)
    ensures ToHtml(Parent(Some(tag), Children(cs), props))
         == Ok(OpeningTag(tag, props) + Join(Outputs(cs), "") + ClosingTag(tag))
  {
    ChildrenConcatenate(cs);
  }

  lemma {:induction false} ChildrenFailAtFirst(cs: seq<HtmlNode>, k: nat)
    requires k < |cs| && ToHtml(cs[k]).Err?
    requires forall i :: 0 <= i < k ==> ToHtml(cs[i]).Ok?
    ensures ChildrenToHtml(cs) == Err(ToHtml(cs[k]).error)
    decreases k
  {
    if k > 0 {
      ChildrenFailAtFirst(cs[1..], k - 1);
    }
  }

  /** A failing child makes its parent fail, with the error of the first
      failing child. */
  lemma ParentFailsWithFirstChildError(tag: string, cs: seq<HtmlNode>, props: Option<seq<Attr>>, k: nat)
    requires k < |cs| && ToHtml(cs[k]).Err?
    requires forall i :: 0 <= i < k ==> ToHtml(cs[i]).Ok?
    ensures ToHtml(Parent(Some(tag), Children(cs), props)) == Err(ToHtml(cs[k]).error)
  {
    ChildrenFailAtFirst(cs, k);
  }
}
