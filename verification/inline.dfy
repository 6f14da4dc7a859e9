/** `split_nodes_delimiter` of `inline.py`: one stage of the inline
    tokenizer. Only plain-text nodes are re-split on the delimiter; the
    sections at even positions stay plain (and vanish when empty), the
    sections at odd positions take the target type (and stay even when
    empty). */
module Inline {
  import opened Wrappers
  import opened Errors
  import opened Strings
  import opened Runs

  datatype TextType = Text | Bold | Italic | Code | Link | Image

  /** A typed run of inline text; `url` only matters for links and images. */
  datatype TextNode = TextNode(text: string, textType: TextType, url: Option<string>)

  function Plain(s: string): TextNode {
    TextNode(s, Text, None)
  }

  /** The node, if any, made from the section at position `index` of a
      split. */
  function SectionNode(section: string, textType: TextType, index: nat): seq<TextNode> {
    if index % 2 == 1 then [TextNode(section, textType, None)]
    else if section == [] then []
    else [Plain(section)]
  }

  /** The nodes made from `sections`, whose first element sits at position
      `index` of the whole split. */
  function SectionNodes(sections: seq<string>, textType: TextType, index: nat): seq<TextNode>
    decreases |sections|
  {
    if sections == [] then []
    else SectionNode(sections[0], textType, index) + SectionNodes(sections[1..], textType, index + 1)
  }

  /** A plain node the splitter refuses: `text.count(delimiter)` is odd,
      or the delimiter is empty (then `split` itself raises). */
  predicate Rejects(node: TextNode, delimiter: string) {
    node.textType == Text && (delimiter == [] || Count(node.text, delimiter) % 2 == 1)
  }

  /** What the loop body does with one node. */
  function SplitNode(node: TextNode, delimiter: string, textType: TextType): Result<seq<TextNode>, Error>
  {
    if node.textType != Text then Ok([node])
    else if delimiter == [] then
      // "".count gives len(text) + 1; when that is even, split("") raises
      if (|node.text| + 1) % 2 == 1 then Err(UnmatchedDelimiter) else Err(EmptySeparator)
    else if Count(node.text, delimiter) % 2 != 0 then Err(UnmatchedDelimiter)
    else Ok(SectionNodes(Split(node.text, delimiter), textType, 0))
  }

  /** `split_nodes_delimiter`: fails exactly when some plain node is
      rejected, with the unmatched-delimiter error whenever the delimiter is
      not empty; otherwise the per-node results concatenated in order. */
  function SplitNodesDelimiter(oldNodes: seq<TextNode>, delimiter: string, textType: TextType)
    : Result<seq<TextNode>, Error>
    decreases |oldNodes|
  {
    if oldNodes == [] then Ok([])
    else
      match SplitNode(oldNodes[0], delimiter, textType)
      case Err(e) => Err(e)
      case Ok(head) =>
        match SplitNodesDelimiter(oldNodes[1..], delimiter, textType)
        case Err(e) => Err(e)
        case Ok(tail) => Ok(head + tail)
  }

  /** The split fails exactly when some plain node is rejected, and with
      the unmatched-delimiter error whenever the delimiter is not empty. */
  lemma {:induction false} SplitNodesFails(ns: seq<TextNode>, d: string, t: TextType)
    ensures SplitNodesDelimiter(ns, d, t).Err? <==> exists i :: 0 <= i < |ns| && Rejects(ns[i], d)
    ensures SplitNodesDelimiter(ns, d, t).Err? && d != [] ==> SplitNodesDelimiter(ns, d, t).error == UnmatchedDelimiter
    decreases |ns|
  {
    if ns != [] {
      SplitNodesFails(ns[1..], d, t);
      assert forall i :: 1 <= i < |ns| ==> ns[i] == ns[1..][i - 1];
    }
  }

  // ---------------------------------------------------------------------
  // Order: the result is built node by node
  // ---------------------------------------------------------------------

  /** The splitter is the `extend` loop with `SplitNode` as its step. */
  lemma {:induction false} SplitNodesIsConcat(ns: seq<TextNode>, d: string, t: TextType)
    ensures SplitNodesDelimiter(ns, d, t) == ConcatAll(ns, n => SplitNode(n, d, t))
    decreases |ns|
  {
    if ns != [] {
      SplitNodesIsConcat(ns[1..], d, t);
    }
  }

  /** Splitting two runs of nodes one after the other is splitting their
      concatenation: each input node contributes its output in place. */
  lemma SplitNodesAppend(a: seq<TextNode>, b: seq<TextNode>, d: string, t: TextType)
    requires SplitNodesDelimiter(a, d, t).Ok? && SplitNodesDelimiter(b, d, t).Ok?
    ensures SplitNodesDelimiter(a + b, d, t)
         == Ok(SplitNodesDelimiter(a, d, t).value + SplitNodesDelimiter(b, d, t).value)
  {
    SplitNodesIsConcat(a, d, t);
    SplitNodesIsConcat(b, d, t);
    SplitNodesIsConcat(a + b, d, t);
    ConcatAllAppend(a, b, n => SplitNode(n, d, t));
  }

  /** Nodes that are not plain pass through unchanged. */
  lemma NonPlainUnchanged(node: TextNode, d: string, t: TextType)
    requires node.textType != Text
    ensures SplitNodesDelimiter([node], d, t) == Ok([node])
  {
    assert [node][1..] == [];
    assert [node] + [] == [node];
  }

  predicate IsOther(n: TextNode, t: TextType) {
    n.textType != Text && n.textType != t
  }

  /** The nodes neither plain nor of the target type. */
  function Others(ns: seq<TextNode>, t: TextType): seq<TextNode>
    decreases |ns|
  {
    if ns == [] then []
    else if IsOther(ns[0], t) then [ns[0]] + Others(ns[1..], t)
    else Others(ns[1..], t)
  }

  lemma {:induction false} OthersAppend(a: seq<TextNode>, b: seq<TextNode>, t: TextType)
    ensures Others(a + b, t) == Others(a, t) + Others(b, t)
    decreases |a|
  {
    if a == [] {
      assert a + b == b;
    } else {
      OthersAppend(a[1..], b, t);
      assert (a + b)[0] == a[0];
      assert (a + b)[1..] == a[1..] + b;
      if IsOther(a[0], t) {
        assert [a[0]] + (Others(a[1..], t) + Others(b, t)) == ([a[0]] + Others(a[1..], t)) + Others(b, t);
      }
    }
  }

  lemma {:induction false} SectionNodesHaveNoOthers(secs: seq<string>, t: TextType, i: nat)
    ensures Others(SectionNodes(secs, t, i), t) == []
    decreases |secs|
  {
    if secs != [] {
      SectionNodesHaveNoOthers(secs[1..], t, i + 1);
      var head := SectionNode(secs[0], t, i);
      OthersAppend(head, SectionNodes(secs[1..], t, i + 1), t);
      if head != [] {
        assert head[1..] == [];
      }
    }
  }

  /** Every node that is neither plain nor of the target type is copied to
      the output, and these copies keep their relative order. */
  lemma {:induction false} OthersPreserved(ns: seq<TextNode>, d: string, t: TextType)
    requires SplitNodesDelimiter(ns, d, t).Ok?
    ensures Others(SplitNodesDelimiter(ns, d, t).value, t) == Others(ns, t)
    decreases |ns|
  {
    if ns != [] {
      OthersPreserved(ns[1..], d, t);
      var head := SplitNode(ns[0], d, t).value;
      OthersAppend(head, SplitNodesDelimiter(ns[1..], d, t).value, t);
      if ns[0].textType == Text {
        SectionNodesHaveNoOthers(Split(ns[0].text, d), t, 0);
      }
    }
  }

  // ---------------------------------------------------------------------
  // Round trip: putting the delimiters back gives the source text
  // ---------------------------------------------------------------------

  /** The markdown a node stands for: a target-type node wrapped in the
      delimiter, any other node as its text. */
  function Markdown(n: TextNode, d: string, t: TextType): string {
    if n.textType == t then d + n.text + d else n.text
  }

  function Render(ns: seq<TextNode>, d: string, t: TextType): string
    decreases |ns|
  {
    if ns == [] then "" else Markdown(ns[0], d, t) + Render(ns[1..], d, t)
  }

  lemma {:induction false} RenderAppend(a: seq<TextNode>, b: seq<TextNode>, d: string, t: TextType)
    ensures Render(a + b, d, t) == Render(a, d, t) + Render(b, d, t)
    decreases |a|
  {
    if a == [] {
      assert a + b == b;
    } else {
      assert (a + b)[1..] == a[1..] + b;
      RenderAppend(a[1..], b, d, t);
    }
  }

  lemma RenderOne(n: TextNode, d: string, t: TextType)
    ensures Render([n], d, t) == Markdown(n, d, t)
  {
    assert [n][1..] == [];
  }

  lemma RenderSection(s: string, d: string, t: TextType, i: nat)
    requires t != Text
    ensures Render(SectionNode(s, t, i), d, t) == if i % 2 == 1 then d + s + d else s
  {
    if i % 2 == 1 {
      RenderOne(TextNode(s, t, None), d, t);
    } else if s != [] {
      RenderOne(Plain(s), d, t);
    }
  }

  /** From an even position with an odd number of sections left, the
      rendered nodes are the sections joined by the delimiter. */
  lemma {:induction false} RenderFromEven(secs: seq<string>, d: string, t: TextType, i: nat)
    requires t != Text && i % 2 == 0 && |secs| % 2 == 1
    ensures Render(SectionNodes(secs, t, i), d, t) == Join(secs, d)
    decreases |secs|
  {
    var head := SectionNode(secs[0], t, i);
    var rest := SectionNodes(secs[1..], t, i + 1);
    assert SectionNodes(secs, t, i) == head + rest;
    RenderAppend(head, rest, d, t);
    RenderSection(secs[0], d, t, i);
    if |secs| == 1 {
      assert rest == [];
      assert secs[0] + "" == secs[0];
    } else {
      EvenStep(i, |secs|);
      RenderFromOdd(secs[1..], d, t, i + 1);
      JoinCons(secs, d);
    }
  }

  /** From an odd position with an even, non-zero number of sections left,
      they are that join with one more delimiter in front. */
  lemma {:induction false} RenderFromOdd(secs: seq<string>, d: string, t: TextType, i: nat)
    requires t != Text && i % 2 == 1 && |secs| % 2 == 0 && secs != []
    ensures Render(SectionNodes(secs, t, i), d, t) == d + Join(secs, d)
    decreases |secs|
  {
    var s, tail := secs[0], secs[1..];
    var head := SectionNode(s, t, i);
    var rest := SectionNodes(tail, t, i + 1);
    var j := Join(tail, d);
    assert Render(SectionNodes(secs, t, i), d, t) == Render(head, d, t) + Render(rest, d, t) by {
      assert SectionNodes(secs, t, i) == head + rest;
      RenderAppend(head, rest, d, t);
    }
    assert Render(head, d, t) == d + s + d by {
      RenderSection(s, d, t, i);
    }
    assert Render(rest, d, t) == j by {
      OddStep(i, |secs|);
      RenderFromEven(tail, d, t, i + 1);
    }
    assert Join(secs, d) == s + (d + j) by {
      JoinCons(secs, d);
    }
    assert (d + s + d) + j == d + (s + (d + j));
  }

  lemma EvenStep(i: nat, n: nat)
    requires i % 2 == 0 && n % 2 == 1 && n > 1
    ensures (i + 1) % 2 == 1 && (n - 1) % 2 == 0 && n - 1 > 0
  {
  }

  lemma OddStep(i: nat, n: nat)
    requires i % 2 == 1 && n % 2 == 0 && n > 0
    ensures (i + 1) % 2 == 0 && (n - 1) % 2 == 1
  {
  }

  lemma JoinCons(secs: seq<string>, d: string)
    requires |secs| >= 2
    ensures Join(secs, d) == secs[0] + (d + Join(secs[1..], d))
  {
  }

  /** Writing every target-type node back between delimiters gives the text
      before the split: splitting changes the representation, never the
      markdown. For a single plain node this is its original text. */
  lemma {:induction false} SplitRoundTrip(ns: seq<TextNode>, d: string, t: TextType)
    requires t != Text
    requires SplitNodesDelimiter(ns, d, t).Ok?
    ensures Render(SplitNodesDelimiter(ns, d, t).value, d, t) == Render(ns, d, t)
    decreases |ns|
  {
    if ns != [] {
      SplitRoundTrip(ns[1..], d, t);
      var head := SplitNode(ns[0], d, t).value;
      RenderAppend(head, SplitNodesDelimiter(ns[1..], d, t).value, d, t);
      if ns[0].textType == Text {
        var s := ns[0].text;
        RenderFromEven(Split(s, d), d, t, 0);
        JoinSplit(s, d);
        assert Render(head, d, t) == s;
      } else {
        RenderOne(ns[0], d, t);
      }
    }
  }

  // ---------------------------------------------------------------------
  // Shape of the produced nodes
  // ---------------------------------------------------------------------

  /** A node made by the splitter: untyped URL, no delimiter inside, plain
      or of the target type, and never an empty plain node. */
  predicate Produced(n: TextNode, d: string, t: TextType) {
    && n.url.None?
    && !Contains(n.text, d)
    && (n.textType == Text || n.textType == t)
    && (n.textType == Text ==> n.text != [])
  }

  lemma {:induction false} SectionNodesProduced(secs: seq<string>, d: string, t: TextType, i: nat)
    requires t != Text
    requires forall k :: 0 <= k < |secs| ==> !Contains(secs[k], d)
    ensures forall k :: 0 <= k < |SectionNodes(secs, t, i)| ==> Produced(SectionNodes(secs, t, i)[k], d, t)
    decreases |secs|
  {
    if secs != [] {
      SectionNodesProduced(secs[1..], d, t, i + 1);
      assert !Contains(secs[0], d);
      var head := SectionNode(secs[0], t, i);
      var rest := SectionNodes(secs[1..], t, i + 1);
      assert forall k :: 0 <= k < |head| ==> Produced(head[k], d, t);
      assert forall k :: |head| <= k < |head + rest| ==> (head + rest)[k] == rest[k - |head|];
    }
  }

  /** Every output node is either a non-plain input node passed through or
      a node the splitter produced; produced nodes never contain the
      delimiter and are never empty plain text. */
  lemma {:induction false} OutputNodesAccountedFor(ns: seq<TextNode>, d: string, t: TextType)
    requires t != Text
    requires SplitNodesDelimiter(ns, d, t).Ok?
    ensures var out := SplitNodesDelimiter(ns, d, t).value;
      forall k :: 0 <= k < |out| ==> Accounted(out[k], ns, d, t)
    decreases |ns|
  {
    if ns != [] {
      var head := SplitNode(ns[0], d, t).value;
      var tail := SplitNodesDelimiter(ns[1..], d, t).value;
      assert forall k :: 0 <= k < |head| ==> Accounted(head[k], ns, d, t) by {
        if ns[0].textType == Text {
          SplitPiecesFree(ns[0].text, d);
          SectionNodesProduced(Split(ns[0].text, d), d, t, 0);
        } else {
          assert head == [ns[0]];
        }
      }
      assert forall k :: 0 <= k < |tail| ==> Accounted(tail[k], ns, d, t) by {
        OutputNodesAccountedFor(ns[1..], d, t);
        forall k | 0 <= k < |tail|
          ensures Accounted(tail[k], ns, d, t)
        {
          assert Accounted(tail[k], ns[1..], d, t);
          assert tail[k] in ns[1..] ==> tail[k] in ns;
        }
      }
      AccountedAppend(head, tail, ns, d, t);
    }
  }

  /** Every output node is either a non-plain input node passed through or
      a node the splitter produced. */
  predicate Accounted(n: TextNode, ns: seq<TextNode>, d: string, t: TextType) {
    (n.textType != Text && n in ns) || Produced(n, d, t)
  }

  lemma AccountedAppend(head: seq<TextNode>, tail: seq<TextNode>, ns: seq<TextNode>, d: string, t: TextType)
    requires forall k :: 0 <= k < |head| ==> Accounted(head[k], ns, d, t)
    requires forall k :: 0 <= k < |tail| ==> Accounted(tail[k], ns, d, t)
    ensures forall k :: 0 <= k < |head + tail| ==> Accounted((head + tail)[k], ns, d, t)
  {
    forall k | 0 <= k < |head + tail|
      ensures Accounted((head + tail)[k], ns, d, t)
    {
      if k >= |head| {
        assert (head + tail)[k] == tail[k - |head|];
      }
    }
  }

  function CountOfType(ns: seq<TextNode>, t: TextType): nat
    decreases |ns|
  {
    if ns == [] then 0 else (if ns[0].textType == t then 1 else 0) + CountOfType(ns[1..], t)
  }

  lemma {:induction false} CountOfTypeAppend(a: seq<TextNode>, b: seq<TextNode>, t: TextType)
    ensures CountOfType(a + b, t) == CountOfType(a, t) + CountOfType(b, t)
    decreases |a|
  {
    if a == [] {
      assert a + b == b;
    } else {
      CountOfTypeAppend(a[1..], b, t);
      assert (a + b)[0] == a[0];
      assert (a + b)[1..] == a[1..] + b;
    }
  }

  lemma {:induction false} SectionNodesTyped(secs: seq<string>, t: TextType, i: nat)
    requires t != Text
    ensures CountOfType(SectionNodes(secs, t, i), t) == (|secs| + i % 2) / 2
    decreases |secs|
  {
    if secs != [] {
      SectionNodesTyped(secs[1..], t, i + 1);
      var head := SectionNode(secs[0], t, i);
      CountOfTypeAppend(head, SectionNodes(secs[1..], t, i + 1), t);
      assert CountOfType(head, t) == if i % 2 == 1 then 1 else 0 by {
        if i % 2 == 1 {
          assert head == [TextNode(secs[0], t, None)];
          assert head[1..] == [];
        } else if head != [] {
          assert head == [Plain(secs[0])];
          assert head[1..] == [];
        }
      }
      HalfStep(|secs| - 1, i);
    }
  }

  lemma HalfStep(n: nat, i: nat)
    ensures (n + (i + 1) % 2) / 2 + (if i % 2 == 1 then 1 else 0) == (n + 1 + i % 2) / 2
  {
  }

  /** A plain node with `2m` delimiters yields exactly `m` target-type
      nodes: every odd section is kept, even an empty one. */
  lemma OneTypedNodePerPair(node: TextNode, d: string, t: TextType)
    requires t != Text && node.textType == Text
    requires SplitNode(node, d, t).Ok?
    ensures CountOfType(SplitNode(node, d, t).value, t) == Count(node.text, d) / 2
  {
    SectionNodesTyped(Split(node.text, d), t, 0);
  }
}
