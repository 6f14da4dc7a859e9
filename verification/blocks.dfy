/** The block layer of `blocks.py`: cutting a document into blocks,
    deciding what kind of block each one is, and building one HTML subtree
    per block under a `div`. */
module Blocks {
  import opened Wrappers
  import opened Errors
  import opened Strings
  import opened Html
  import opened Runs

  datatype BlockType = Paragraph | Heading | CodeBlock | Quote | UnorderedList | OrderedList

  // ---------------------------------------------------------------------
  // markdown_to_blocks
  // ---------------------------------------------------------------------

  /** What the segmenter hands on: a non-empty, stripped text without a
      blank line in it. */
  predicate IsBlock(b: string) {
    b != [] && IsStripped(b) && !Contains(b, "\n\n")
  }

  /** Strip every piece and keep the non-empty results, in order. */
  function CleanPieces(pieces: seq<string>): (r: seq<string>)
    ensures |r| <= |pieces|
    ensures forall k :: 0 <= k < |r| ==> r[k] != [] && IsStripped(r[k])
    decreases |pieces|
  {
    if pieces == [] then []
    else
      var b := Strip(pieces[0]);
      var rest := CleanPieces(pieces[1..]);
      if b == [] then rest else [b] + rest
  }

  /** Stripping cannot create a separator. */
  lemma StripFree(s: string, d: string)
    requires !Contains(s, d)
    ensures !Contains(Strip(s), d)
  {
    var a := StripIsInfix(s);
    OccurrenceFree(s, Strip(s), a, d);
  }

  lemma {:induction false} CleanPiecesFree(pieces: seq<string>, d: string)
    requires forall k :: 0 <= k < |pieces| ==> !Contains(pieces[k], d)
    ensures forall k :: 0 <= k < |CleanPieces(pieces)| ==> !Contains(CleanPieces(pieces)[k], d)
    decreases |pieces|
  {
    if pieces != [] {
      CleanPiecesFree(pieces[1..], d);
      var b := Strip(pieces[0]);
      var rest := CleanPieces(pieces[1..]);
      if b != [] {
        assert !Contains(b, d) by {
          StripFree(pieces[0], d);
        }
        var r := [b] + rest;
        assert CleanPieces(pieces) == r;
        forall k | 0 <= k < |r|
          ensures !Contains(r[k], d)
        {
          if k > 0 {
            assert r[k] == rest[k - 1];
          }
        }
      }
    }
  }

  /** `markdown_to_blocks`: split on `"\n\n"`, strip, drop the empty ones.
      Every block is non-empty, stripped and free of blank lines, and there
      are never more blocks than pieces of the split. */
  function MarkdownToBlocks(markdown: string): (r: seq<string>)
    ensures |r| <= Count(markdown, "\n\n") + 1
    ensures forall k :: 0 <= k < |r| ==> IsBlock(r[k])
  {
    var pieces := Split(markdown, "\n\n");
    SplitPiecesFree(markdown, "\n\n");
    CleanPiecesFree(pieces, "\n\n");
    CleanPieces(pieces)
  }

  lemma {:induction false} CleanPiecesOfBlocks(bs: seq<string>)
    requires forall k :: 0 <= k < |bs| ==> IsBlock(bs[k])
    ensures CleanPieces(bs) == bs
    decreases |bs|
  {
    if bs != [] {
      assert IsBlock(bs[0]);
      CleanPiecesOfBlocks(bs[1..]);
      assert [bs[0]] + bs[1..] == bs;
    }
  }

  lemma BlocksDoNotStraddle(bs: seq<string>)
    requires forall k :: 0 <= k < |bs| ==> IsBlock(bs[k])
    ensures forall k :: 0 <= k < |bs| - 1 ==> NoStraddle(bs[k], "\n\n")
  {
    forall k | 0 <= k < |bs| - 1
      ensures NoStraddle(bs[k], "\n\n")
    {
      var b := bs[k];
      assert IsBlock(b);
      assert !IsSpace(b[|b| - 1]);
      BlankLineNoStraddle(b);
    }
  }

  lemma SegmentsOf(markdown: string)
    ensures MarkdownToBlocks(markdown) == CleanPieces(Split(markdown, "\n\n"))
  {
  }

  /** Blocks joined with blank lines are segmented back into the same
      blocks, in the same order. */
  lemma BlocksRoundTrip(bs: seq<string>)
    requires forall k :: 0 <= k < |bs| ==> IsBlock(bs[k])
    ensures MarkdownToBlocks(Join(bs, "\n\n")) == bs
  {
    var m := Join(bs, "\n\n");
    SegmentsOf(m);
    if bs == [] {
      assert Split(m, "\n\n") == [""];
      assert Strip("") == "";
    } else {
      BlocksDoNotStraddle(bs);
      assert IsBlock(bs[|bs| - 1]);
      SplitJoin(bs, "\n\n");
      CleanPiecesOfBlocks(bs);
    }
  }

  /** Segmenting is idempotent: re-joining the blocks and segmenting again
      changes nothing. */
  lemma BlocksIdempotent(markdown: string)
    ensures MarkdownToBlocks(Join(MarkdownToBlocks(markdown), "\n\n")) == MarkdownToBlocks(markdown)
  {
    BlocksRoundTrip(MarkdownToBlocks(markdown));
  }

  /** A text without blank lines is one block, or none when it is only
      whitespace. */
  lemma SingleSegment(s: string)
    requires !Contains(s, "\n\n")
    ensures MarkdownToBlocks(s) == (if Strip(s) == [] then [] else [Strip(s)])
  {
    SplitFree(s, "\n\n");
    SegmentsOf(s);
    CleanPiecesCons(s, []);
  }

  /** A text without blank lines, followed by a blank line, contributes its
      stripped self (if any) before the blocks of what follows. */
  lemma BlocksOfPrefix(a: string, rest: string)
    requires !Contains(a, "\n\n") && (a == [] || a[|a| - 1] != '\n')
    ensures MarkdownToBlocks(a + "\n\n" + rest)
         == (if Strip(a) == [] then [] else [Strip(a)]) + MarkdownToBlocks(rest)
  {
    BlankLineNoStraddle(a);
    SplitAfter(a, "\n\n", rest);
    SegmentsOf(a + "\n\n" + rest);
    SegmentsOf(rest);
    CleanPiecesCons(a, Split(rest, "\n\n"));
  }

  lemma CleanPiecesCons(p: string, ps: seq<string>)
    ensures CleanPieces([p] + ps) == (if Strip(p) == [] then [] else [Strip(p)]) + CleanPieces(ps)
  {
    var qs := [p] + ps;
    assert qs[0] == p;
    assert qs[1..] == ps;
    if Strip(p) == [] {
      assert [] + CleanPieces(ps) == CleanPieces(ps);
    }
  }

  predicate AllBlocks(bs: seq<string>) {
    forall k :: 0 <= k < |bs| ==> IsBlock(bs[k])
  }

  lemma BlocksTail(bs: seq<string>)
    requires |bs| >= 1 && AllBlocks(bs)
    ensures IsBlock(bs[0]) && AllBlocks(bs[1..])
  {
    assert forall k :: 0 <= k < |bs| - 1 ==> bs[1..][k] == bs[k + 1];
  }

  /** A block with at most one line break on either side has no blank line
      and strips back to the block. */
  lemma BreaksAroundBlock(pre: string, b: string, post: string)
    requires IsBlock(b) && (pre == "" || pre == "\n") && (post == "" || post == "\n")
    ensures !Contains(pre + b + post, "\n\n")
    ensures Strip(pre + b + post) == b
  {
    var s := pre + b + post;
    forall i: nat | i <= |s|
      ensures !OccursAt(s, "\n\n", i)
    {
      if i + 2 <= |s| {
        if i < |pre| {
          assert s[i..i + 2][1] == b[0];
        } else if i + 1 == |pre| + |b| {
          assert s[i..i + 2][0] == b[|b| - 1];
        } else if i + 1 < |pre| + |b| {
          var t := i - |pre|;
          assert s[i] == b[t] && s[i + 1] == b[t + 1];
          assert s[i..i + 2] == [s[i], s[i + 1]];
          assert b[t..t + 2] == [b[t], b[t + 1]];
          assert !OccursAt(b, "\n\n", t);
        }
      }
    }
    StripUnique(pre, b, post);
  }

  /** Blocks joined with blank lines and followed by one line break, as a
      file ending in a newline is, segment back into the same blocks. */
  lemma {:induction false} TrailingBreakRoundTrip(bs: seq<string>)
    requires |bs| >= 1 && AllBlocks(bs)
    ensures MarkdownToBlocks(Join(bs, "\n\n") + "\n") == bs
    decreases |bs|
  {
    var b := bs[0];
    BlocksTail(bs);
    if |bs| == 1 {
      BreaksAroundBlock("", b, "\n");
      assert "" + b + "\n" == Join(bs, "\n\n") + "\n";
      SingleSegment(b + "\n");
    } else {
      var j := Join(bs[1..], "\n\n");
      assert Join(bs, "\n\n") + "\n" == b + "\n\n" + (j + "\n") by {
        assert Join(bs, "\n\n") == b + "\n\n" + j;
        Regroup([], b, "\n\n", j, "\n");
      }
      FirstBlock(b, j + "\n");
      TrailingBreakRoundTrip(bs[1..]);
      ConsTail(bs);
    }
  }

  /** A block followed by a blank line is the first block, as it stands. */
  lemma FirstBlock(b: string, rest: string)
    requires IsBlock(b)
    ensures MarkdownToBlocks(b + "\n\n" + rest) == [b] + MarkdownToBlocks(rest)
  {
    BreaksAroundBlock("", b, "");
    assert "" + b + "" == b;
    BlocksOfPrefix(b, rest);
  }

  lemma ConsTail<T>(s: seq<T>)
    requires |s| >= 1
    ensures [s[0]] + s[1..] == s
  {
  }

  lemma Regroup<T>(x: seq<T>, b: seq<T>, y: seq<T>, j: seq<T>, z: seq<T>)
    ensures x + (b + y + j) + z == (x + b) + y + (j + z)
  {
  }

  /** Surrounding the blocks with a line break on each side changes
      nothing: the text of a triple-quoted Python string segments into the
      blocks written between its quotes. */
  lemma PaddedRoundTrip(bs: seq<string>)
    requires |bs| >= 1 && AllBlocks(bs)
    ensures MarkdownToBlocks("\n" + Join(bs, "\n\n") + "\n") == bs
  {
    var b := bs[0];
    BlocksTail(bs);
    if |bs| == 1 {
      assert Join(bs, "\n\n") == b;
      BreaksAroundBlock("\n", b, "\n");
      SingleSegment("\n" + b + "\n");
    } else {
      var j := Join(bs[1..], "\n\n");
      assert "\n" + Join(bs, "\n\n") + "\n" == ("\n" + b) + "\n\n" + (j + "\n") by {
        assert Join(bs, "\n\n") == b + "\n\n" + j;
        Regroup("\n", b, "\n\n", j, "\n");
      }
      LeadingBreakBlock(b, j + "\n");
      TrailingBreakRoundTrip(bs[1..]);
      ConsTail(bs);
    }
  }

  /** A first block after one line break comes out stripped, before the
      blocks of the rest. */
  lemma LeadingBreakBlock(b: string, rest: string)
    requires IsBlock(b)
    ensures MarkdownToBlocks(("\n" + b) + "\n\n" + rest) == [b] + MarkdownToBlocks(rest)
  {
    var a := "\n" + b;
    BreaksAroundBlock("\n", b, "");
    assert "\n" + b + "" == a;
    assert a[|a| - 1] == b[|b| - 1];
    BlocksOfPrefix(a, rest);
  }

  // ---------------------------------------------------------------------
  // block_to_blocktype
  // ---------------------------------------------------------------------

  function Lines(block: string): (r: seq<string>)
    ensures |r| >= 1
  {
    Split(block, "\n")
  }

  /** Both the first and the last line are at least three characters, the
      first opens with three backticks and the last closes with three. */
  predicate CodeFence(lines: seq<string>)
    requires |lines| >= 1
  {
    var first, last := lines[0], lines[|lines| - 1];
    |first| >= 3 && |last| >= 3 && first[..3] == "```" && last[|last| - 3..] == "```"
  }

  predicate HashPrefix(line: string, k: nat) {
    k <= |line| && forall j :: 0 <= j < k ==> line[j] == '#'
  }

  /** `k` hashes, 1 to 6 of them, then a space. */
  predicate HeadingAt(line: string, k: nat) {
    1 <= k <= 6 && k < |line| && HashPrefix(line, k) && line[k] == ' '
  }

  predicate HeadingLine(line: string) {
    exists k: nat :: 1 <= k <= 6 && HeadingAt(line, k)
  }

  /** The quote test one line must pass. As written, a line shorter than two
      characters passes whatever it holds (`strict == false`); the strict
      reading demands a leading `>` on every line. */
  predicate QuoteOk(line: string, strict: bool) {
    if strict then line != [] && line[0] == '>' else |line| < 2 || line[0] == '>'
  }

  predicate IsMarker(c: char) {
    c == '-' || c == '*' || c == '+'
  }

  /** Line `i` is the first non-empty line. */
  predicate FirstNonEmptyAt(lines: seq<string>, i: nat) {
    i < |lines| && lines[i] != [] && forall j :: 0 <= j < i ==> lines[j] == []
  }

  /** The marker loop of `get_list_seperator`: the first non-empty line
      decides, and only a leading `-`, `*` or `+` makes a list, whose marker
      is that character followed by a space. */
  function ListMarker(lines: seq<string>): (r: (string, bool))
    ensures r.1 <==> exists i :: 0 <= i < |lines| && FirstNonEmptyAt(lines, i) && IsMarker(lines[i][0])
    ensures r.1 ==> exists i :: 0 <= i < |lines| && FirstNonEmptyAt(lines, i) && r.0 == [lines[i][0], ' ']
    ensures !r.1 ==> r.0 == ""
    decreases |lines|
  {
    if lines == [] then ("", false)
    else if lines[0] == [] then
      var r := ListMarker(lines[1..]);
      assert forall i :: 0 <= i < |lines[1..]| ==> (FirstNonEmptyAt(lines[1..], i) <==> FirstNonEmptyAt(lines, i + 1));
      assert forall i :: 0 < i < |lines| ==> (FirstNonEmptyAt(lines, i) <==> FirstNonEmptyAt(lines[1..], i - 1));
      assert !FirstNonEmptyAt(lines, 0);
      r
    else
      assert FirstNonEmptyAt(lines, 0);
      assert forall i :: 0 < i < |lines| ==> !FirstNonEmptyAt(lines, i);
      if lines[0][0] == '-' then ("- ", true)
      else if lines[0][0] == '*' then ("* ", true)
      else if lines[0][0] == '+' then ("+ ", true)
      else ("", false)
  }

  /** `get_list_seperator`. */
  function GetListSeparator(block: string): (string, bool) {
    ListMarker(Lines(block))
  }

  predicate NumberedLine(line: string, i: nat) {
    NatToString(i + 1) + ". " <= line
  }

  predicate AnyHeading(lines: seq<string>) {
    exists k :: 0 <= k < |lines| && HeadingLine(lines[k])
  }

  predicate AllQuote(lines: seq<string>, strict: bool) {
    forall k :: 0 <= k < |lines| ==> QuoteOk(lines[k], strict)
  }

  predicate AllStartWith(lines: seq<string>, prefix: string) {
    forall k :: 0 <= k < |lines| ==> prefix <= lines[k]
  }

  predicate AllNumbered(lines: seq<string>) {
    forall k :: 0 <= k < |lines| ==> NumberedLine(lines[k], k)
  }

  /** The classification chain of `block_to_blocktype`, in its order: code,
      heading, quote, unordered list, ordered list, paragraph. */
  function Classify(block: string, strict: bool): BlockType {
    var lines := Lines(block);
    if CodeFence(lines) then CodeBlock
    else LineVerdict(lines, GetListSeparator(block), strict)
  }

  /** The rest of the chain, once the code check has failed. */
  function LineVerdict(lines: seq<string>, marker: (string, bool), strict: bool): BlockType {
    if AnyHeading(lines) then Heading
    else if AllQuote(lines, strict) then Quote
    else if marker.1 && AllStartWith(lines, marker.0) then UnorderedList
    else if AllNumbered(lines) then OrderedList
    else Paragraph
  }

  /** `block_to_blocktype` as written. */
  function BlockToBlockType(block: string): BlockType {
    Classify(block, false)
  }

  /** The corrected block kind: the strict quote test, under which every
      line of a quote has the `>` the quote builder looks for. */
  function BlockKind(block: string): BlockType {
    Classify(block, true)
  }

  // ---------------------------------------------------------------------
  // What the precedence chain amounts to
  // ---------------------------------------------------------------------

  /** Every line starts with the marker character of the first line
      followed by a space. */
  predicate MarkerList(lines: seq<string>) {
    |lines| >= 1 && lines[0] != [] && IsMarker(lines[0][0]) && AllStartWith(lines, [lines[0][0], ' '])
  }

  lemma HeadingLineShape(line: string)
    requires HeadingLine(line)
    ensures |line| >= 2 && line[0] == '#'
  {
    var k: nat :| 1 <= k <= 6 && HeadingAt(line, k);
  }

  lemma NumberedLineShape(line: string, i: nat)
    requires NumberedLine(line, i)
    ensures |line| >= 3 && IsDigit(line[0]) && (i == 0 ==> line[0] == '1')
  {
    var p := NatToString(i + 1);
    assert line[0] == (p + ". ")[0] == p[0];
    assert i == 0 ==> p == "1";
  }

  /** The list flag of the chain, with `get_list_seperator` unfolded. */
  lemma ListMarkerIff(lines: seq<string>)
    requires |lines| >= 1
    ensures (ListMarker(lines).1 && AllStartWith(lines, ListMarker(lines).0)) <==> MarkerList(lines)
  {
    var r := ListMarker(lines);
    if MarkerList(lines) {
      assert FirstNonEmptyAt(lines, 0);
      forall i | 0 < i < |lines|
        ensures !FirstNonEmptyAt(lines, i)
      {
      }
    }
    if r.1 && AllStartWith(lines, r.0) {
      var i :| 0 <= i < |lines| && FirstNonEmptyAt(lines, i) && r.0 == [lines[i][0], ' '];
      assert r.0 <= lines[0];
      assert i == 0;
    }
  }

  /** The heading, quote, list and numbering tests exclude one another,
      and a code fence excludes all but the heading test. */
  lemma KindsExclusive(lines: seq<string>, strict: bool)
    requires |lines| >= 1
    ensures AllQuote(lines, strict) ==> !AnyHeading(lines)
    ensures MarkerList(lines) ==> !AnyHeading(lines) && !AllQuote(lines, strict)
    ensures AllNumbered(lines) ==> !AnyHeading(lines) && !AllQuote(lines, strict) && !MarkerList(lines)
    ensures CodeFence(lines) ==> !AllQuote(lines, strict) && !MarkerList(lines) && !AllNumbered(lines)
  {
    forall k | 0 <= k < |lines| && HeadingLine(lines[k])
      ensures !QuoteOk(lines[k], strict) && !(lines[0] != [] && IsMarker(lines[0][0]) && [lines[0][0], ' '] <= lines[k])
      ensures !NumberedLine(lines[k], k)
    {
      HeadingLineShape(lines[k]);
      if NumberedLine(lines[k], k) {
        NumberedLineShape(lines[k], k);
      }
    }
    if AllNumbered(lines) {
      assert NumberedLine(lines[0], 0);
      NumberedLineShape(lines[0], 0);
    }
    if CodeFence(lines) {
      assert lines[0][0] == lines[0][..3][0] == '`';
    }
  }

  /** The precedence among heading, quote and the two lists never decides
      anything: each kind holds exactly when its own test holds and the
      block is not fenced code. Only code over heading is a real choice. */
  lemma ClassifyOrderFree(block: string, strict: bool)
    ensures var lines := Lines(block);
      && (Classify(block, strict) == CodeBlock <==> CodeFence(lines))
      && (Classify(block, strict) == Heading <==> !CodeFence(lines) && AnyHeading(lines))
      && (Classify(block, strict) == Quote <==> !CodeFence(lines) && AllQuote(lines, strict))
      && (Classify(block, strict) == UnorderedList <==> !CodeFence(lines) && MarkerList(lines))
      && (Classify(block, strict) == OrderedList <==> !CodeFence(lines) && AllNumbered(lines))
      && (Classify(block, strict) == Paragraph <==>
            !CodeFence(lines) && !AnyHeading(lines) && !AllQuote(lines, strict)
            && !MarkerList(lines) && !AllNumbered(lines))
  {
    var lines := Lines(block);
    KindsExclusive(lines, strict);
    ListMarkerIff(lines);
  }

  /** Position `k` of the heading scan: a `#` not followed by a space. */
  predicate HashNotHeading(line: string, k: nat) {
    k + 1 < |line| && line[k] == '#' && line[k + 1] != ' '
  }

  /** The heading scan of one line stopped at `j` without finding `#`
      followed by a space: either it ran through all `length` positions or
      it met a character other than `#`. */
  lemma NoHeadingScanned(line: string, j: int, length: int)
    requires length == (if 6 < |line| - 1 then 6 else |line| - 1)
    requires 0 <= j
    requires j >= length || (j < |line| && line[j] != '#')
    requires forall k :: 0 <= k < j ==> HashNotHeading(line, k)
    ensures !HeadingLine(line)
  {
    forall k: nat | 1 <= k <= 6
      ensures !HeadingAt(line, k)
    {
      if k - 1 < j {
        assert HashNotHeading(line, k - 1);
      } else if j < length {
        assert j < k && line[j] != '#';
      }
    }
  }

  /** The inner loop of `block_to_blocktype` over the first characters of
      one line: it answers "heading" exactly for a heading line. */
  method ScanHeading(line: string) returns (found: bool)
    ensures found <==> HeadingLine(line)
  {
    var length := if 6 < |line| - 1 then 6 else |line| - 1;
    var j := 0;
    while j < length
      invariant 0 <= j && (j <= length || j == 0)
      invariant forall k :: 0 <= k < j ==> HashNotHeading(line, k)
    {
      if line[j] == '#' {
        if line[j + 1] == ' ' {
          assert HashPrefix(line, j + 1) by {
            forall k | 0 <= k < j + 1
              ensures line[k] == '#'
            {
              if k < j {
                assert HashNotHeading(line, k);
              }
            }
          }
          assert HeadingAt(line, j + 1);
          return true;
        }
      } else {
        break;
      }
      j := j + 1;
    }
    NoHeadingScanned(line, j, length);
    return false;
  }

  /** The loops of `block_to_blocktype`, statement for statement: the code
      check first, then one pass over the lines that returns at the first
      heading line and otherwise clears the quote, list and numbering flags
      line by line. The answer is the precedence chain of `Classify`. */
  method ClassifyBlock(block: string) returns (r: BlockType)
    ensures r == BlockToBlockType(block)
  {
    var lines := Split(block, "\n");
    assert lines == Lines(block);
    var marker := GetListSeparator(block);
    var first, last := lines[0], lines[|lines| - 1];
    if |first| >= 3 && |last| >= 3 && first[..3] == "```" && last[|last| - 3..] == "```" {
      assert CodeFence(lines);
      return CodeBlock;
    }
    assert !CodeFence(lines);
    r := ScanLines(lines, marker);
  }

  lemma PrefixStep(lines: seq<string>, i: nat, prefix: string)
    requires i < |lines|
    ensures (forall k :: 0 <= k < i + 1 ==> prefix <= lines[k])
        <==> (forall k :: 0 <= k < i ==> prefix <= lines[k]) && prefix <= lines[i]
  {
  }

  lemma NumberedStep(lines: seq<string>, i: nat)
    requires i < |lines|
    ensures (forall k :: 0 <= k < i + 1 ==> NumberedLine(lines[k], k))
        <==> (forall k :: 0 <= k < i ==> NumberedLine(lines[k], k)) && NumberedLine(lines[i], i)
  {
  }

  /** The pass over the lines: returns at the first heading line, otherwise
      clears the quote, list and numbering flags line by line. */
  method ScanLines(lines: seq<string>, marker: (string, bool)) returns (r: BlockType)
    ensures r == LineVerdict(lines, marker, false)
  {
    var isQuote, isOl := true, true;
    var sep, isUl := marker.0, marker.1;
    var i := 0;
    while i < |lines|
      invariant 0 <= i <= |lines|
      invariant forall k :: 0 <= k < i ==> !HeadingLine(lines[k])
      invariant isQuote <==> forall k :: 0 <= k < i ==> QuoteOk(lines[k], false)
      invariant isUl <==> marker.1 && forall k :: 0 <= k < i ==> sep <= lines[k]
      invariant isOl <==> forall k :: 0 <= k < i ==> NumberedLine(lines[k], k)
    {
      var line := lines[i];
      var length := if 6 < |line| - 1 then 6 else |line| - 1;
      var heading := ScanHeading(line);
      if heading {
        assert HeadingLine(lines[i]);
        assert AnyHeading(lines);
        return Heading;
      }
      assert (length > 0 && line[0] != '>') == !QuoteOk(line, false);
      if length > 0 && line[0] != '>' {
        isQuote := false;
      }
      if !(sep <= line) {
        isUl := false;
      }
      if !(NatToString(i + 1) + ". " <= line) {
        isOl := false;
      }
      PrefixStep(lines, i, sep);
      NumberedStep(lines, i);
      i := i + 1;
    }
    assert !AnyHeading(lines);
    if isQuote {
      r := Quote;
    } else if isUl {
      r := UnorderedList;
    } else if isOl {
      r := OrderedList;
    } else {
      r := Paragraph;
    }
  }

  // ---------------------------------------------------------------------
  // Builders
  // ---------------------------------------------------------------------

  /** `text_to_children`: the inline tokenizer and the conversion of its
      nodes to HTML nodes, which this model leaves open. */
  type InlineParser = string -> Result<seq<HtmlNode>, Error>

  /** `ParentNode(tag, children)` without attributes. */
  function Node(tag: string, children: seq<HtmlNode>): HtmlNode {
    Parent(Some(tag), Children(children), None)
  }

  /** `LeafNode("br", None)`. */
  function BreakLeaf(): HtmlNode {
    Leaf(Some("br"), None, None)
  }

  /** Build one node per element, in order; the first failure is the
      answer. */
  function MapAll<T>(xs: seq<T>, f: T -> Result<HtmlNode, Error>): (r: Result<seq<HtmlNode>, Error>)
    ensures r.Ok? <==> forall k :: 0 <= k < |xs| ==> f(xs[k]).Ok?
    ensures r.Ok? ==> |r.value| == |xs| && forall k :: 0 <= k < |xs| ==> r.value[k] == f(xs[k]).value
    ensures r.Err? ==> exists k :: 0 <= k < |xs| && f(xs[k]).Err? && r.error == f(xs[k]).error
                                   && forall j :: 0 <= j < k ==> f(xs[j]).Ok?
    decreases |xs|
  {
    if xs == [] then Ok([])
    else
      assert forall k :: 1 <= k < |xs| ==> xs[k] == xs[1..][k - 1];
      match f(xs[0])
      case Err(e) => Err(e)
      case Ok(head) =>
        match MapAll(xs[1..], f)
        case Err(e) => Err(e)
        case Ok(tail) => Ok([head] + tail)
  }

  /** The text of a list line: everything after its first space. */
  function ItemText(line: string): Result<string, Error> {
    match IndexOf(line, ' ')
    case None => Err(SubstringNotFound)
    case Some(i) => Ok(line[i + 1..])
  }

  function ListItem(line: string, inline: InlineParser): Result<HtmlNode, Error> {
    var text :- ItemText(line);
    var cs :- inline(text);
    Ok(Node("li", cs))
  }

  /** `create_list_html_node`: one `li` per line, in order, under `tag`. */
  function CreateList(tag: string, block: string, inline: InlineParser): (r: Result<HtmlNode, Error>)
    ensures r.Ok? <==> forall k :: 0 <= k < |Lines(block)| ==> ListItem(Lines(block)[k], inline).Ok?
    ensures r.Ok? ==> r.value.Parent? && r.value.tag == Some(tag) && r.value.children.Children?
                      && |r.value.children.nodes| == |Lines(block)|
                      && forall k :: 0 <= k < |Lines(block)| ==>
                           r.value.children.nodes[k] == ListItem(Lines(block)[k], inline).value
  {
    var items :- MapAll(Lines(block), line => ListItem(line, inline));
    Ok(Node(tag, items))
  }

  /** A marker without spaces, a space, then the item text: the item is
      that text. */
  lemma ItemAfterMarker(marker: string, text: string)
    requires ' ' !in marker
    ensures ItemText(marker + " " + text) == Ok(text)
  {
    var line := marker + " " + text;
    assert line == marker + [' '] + text;
    IndexAfter(marker, ' ', text);
    assert line[|marker| + 1..] == text;
  }

  /** `"#" * k` */
  function Hashes(k: nat): (r: string)
    ensures |r| == k && forall i :: 0 <= i < k ==> r[i] == '#'
  {
    seq(k, _ => '#')
  }

  /** `create_heading_html_node`: the level is the number of `#` before the
      first space, and the text starts one past the hashes. */
  function CreateHeading(block: string, inline: InlineParser): Result<HtmlNode, Error> {
    match IndexOf(block, ' ')
    case None => Err(SubstringNotFound)
    case Some(i) =>
      var count := Count(block[..i], "#");
      CountAtMostLength(block[..i], "#");
      var cs :- inline(block[count + 1..]);
      Ok(Node("h" + NatToString(count), cs))
  }

  lemma {:induction false} CountHashes(k: nat)
    ensures Count(Hashes(k), "#") == k
    decreases k
  {
    if k > 0 {
      assert "#" <= Hashes(k);
      assert Hashes(k)[1..] == Hashes(k - 1);
      CountHashes(k - 1);
    }
  }

  /** A heading line `"#" * k + " " + text` becomes `h{k}` over the inline
      nodes of `text`. */
  lemma HeadingBuilt(k: nat, text: string, inline: InlineParser)
    ensures CreateHeading(Hashes(k) + " " + text, inline)
         == (if inline(text).Ok? then Ok(Node("h" + NatToString(k), inline(text).value))
             else Err(inline(text).error))
  {
    var block := Hashes(k) + " " + text;
    assert ' ' !in Hashes(k);
    ItemAfterMarker(Hashes(k), text);
    var i := IndexOf(block, ' ').value;
    assert i == k;
    assert block[..k] == Hashes(k);
    CountHashes(k);
    assert block[k + 1..] == text;
  }

  /** A single line of one to six hashes, a space and text is a heading
      block, under either quote test. */
  lemma HeadingClassified(k: nat, text: string, strict: bool)
    requires 1 <= k <= 6 && '\n' !in text
    ensures Classify(Hashes(k) + " " + text, strict) == Heading
  {
    var block := Hashes(k) + " " + text;
    assert '\n' !in Hashes(k) + " ";
    assert '\n' !in block by {
      assert forall i :: 0 <= i < |block| ==> block[i] != '\n' by {
        forall i | 0 <= i < |block|
          ensures block[i] != '\n'
        {
          if i > k {
            assert block[i] == text[i - k - 1];
          }
        }
      }
    }
    CharFree(block, '\n');
    SplitFree(block, "\n");
    assert Lines(block) == [block];
    assert HeadingAt(block, k);
    assert HeadingLine(Lines(block)[0]);
    ClassifyOrderFree(block, strict);
  }

  /** A single line that opens with `#` but fails the heading test (seven
      hashes, or no space after them) is a paragraph, under either quote
      test. */
  lemma HashLineIsParagraph(line: string, strict: bool)
    requires |line| >= 2 && line[0] == '#' && '\n' !in line && !HeadingLine(line)
    ensures Classify(line, strict) == Paragraph
  {
    CharFree(line, '\n');
    SplitFree(line, "\n");
    var lines := Lines(line);
    assert lines == [line];
    assert !AnyHeading(lines);
    assert !QuoteOk(line, strict);
    assert !NumberedLine(line, 0) by {
      assert NatToString(1) == "1";
    }
    assert !CodeFence(lines) by {
      if |line| >= 3 {
        assert line[..3][0] == '#';
      }
    }
    ClassifyOrderFree(line, strict);
  }

  /** The code text: the lines strictly between the first and the last,
      joined by line breaks, plus a final line break. */
  function CodeContent(block: string): string {
    var lines := Lines(block);
    if |lines| <= 2 then "\n" else Join(lines[1..|lines| - 1], "\n") + "\n"
  }

  /** `create_codeblock_html_node`: a `pre` holding one `code` leaf. It never
      fails, whatever the fences look like. */
  function CreateCode(block: string): (r: HtmlNode)
    ensures ToHtml(r) == Ok("<pre><code>" + CodeContent(block) + "</code></pre>")
  {
    CodeRenders(CodeContent(block));
    Node("pre", [Leaf(Some("code"), Some(CodeContent(block)), None)])
  }

  /** A `pre` holding one `code` leaf renders as the text between the two
      pairs of tags. */
  lemma CodeRenders(c: string)
    ensures ToHtml(Node("pre", [Leaf(Some("code"), Some(c), None)]))
         == Ok("<pre><code>" + c + "</code></pre>")
  {
    var code := Leaf(Some("code"), Some(c), None);
    assert PropsToHtml(None) == "";
    assert OpeningTag("code", None) == "<code>" && ClosingTag("code") == "</code>";
    assert OpeningTag("pre", None) == "<pre>" && ClosingTag("pre") == "</pre>";
    assert ToHtml(code) == Ok("<code>" + c + "</code>");
    ParentRendersChildrenInOrder("pre", [code], None);
    assert Outputs([code]) == ["<code>" + c + "</code>"];
    assert Join(Outputs([code]), "") == "<code>" + c + "</code>";
    assert "<pre>" + ("<code>" + c + "</code>") + "</pre>" == "<pre><code>" + c + "</code></pre>";
  }

  /** Nothing of the code is lost: with at least three lines, the block is
      its first line, a line break, the code text and its last line. With
      fewer lines the code text is a lone line break. */
  lemma CodeReassembles(block: string)
    ensures var lines := Lines(block);
      && (|lines| >= 3 ==> block == lines[0] + "\n" + CodeContent(block) + lines[|lines| - 1])
      && (|lines| <= 2 ==> CodeContent(block) == "\n")
  {
    var lines := Lines(block);
    if |lines| >= 3 {
      JoinSplit(block, "\n");
      var mid := lines[1..|lines| - 1];
      var last := lines[|lines| - 1];
      assert lines[1..] == mid + [last];
      JoinSnoc(mid, last, "\n");
      assert Join(lines, "\n") == lines[0] + "\n" + Join(lines[1..], "\n");
      var jm := Join(mid, "\n");
      assert lines[0] + "\n" + (jm + "\n" + last) == lines[0] + "\n" + (jm + "\n") + last;
    }
  }

  /** The paragraph text: line breaks become spaces. */
  function ParagraphText(block: string): (r: string)
    ensures r == Join(Lines(block), " ")
  {
    NewlinesToSpaces(block);
    ReplaceChar(block, '\n', ' ')
  }

  /** Replacing every line break by a space is joining the lines with
      spaces. */
  lemma {:induction false} NewlinesToSpaces(s: string)
    ensures ReplaceChar(s, '\n', ' ') == Join(Split(s, "\n"), " ")
    decreases |s|
  {
    if |s| > 0 {
      var r := ReplaceChar(s, '\n', ' ');
      NewlinesToSpaces(s[1..]);
      assert r[1..] == ReplaceChar(s[1..], '\n', ' ');
      assert r == [r[0]] + r[1..];
      var rest := Split(s[1..], "\n");
      if "\n" <= s {
        assert s[1..] == s[|"\n"|..];
        assert Split(s, "\n") == [""] + rest;
        assert ([""] + rest)[1..] == rest;
        assert Join([""] + rest, " ") == "" + " " + Join(rest, " ");
      } else {
        assert s[0] != '\n';
        JoinConsFirst(s[0], rest, " ");
      }
    }
  }

  /** `create_paragraph_html_node` */
  function CreateParagraph(block: string, inline: InlineParser): Result<HtmlNode, Error> {
    var cs :- inline(ParagraphText(block));
    Ok(Node("p", cs))
  }

  /** A paragraph is a `p` over the inline nodes of the block's lines joined
      by single spaces, or fails with the parser's error on that text. */
  lemma ParagraphBuilt(block: string, inline: InlineParser)
    ensures var text := Join(Lines(block), " ");
      CreateParagraph(block, inline)
        == if inline(text).Ok? then Ok(Node("p", inline(text).value)) else Err(inline(text).error)
  {
  }

  /** One line of a quote: the text after its first `>`, with leading
      whitespace dropped, goes to the inline parser; an empty one becomes a
      line break. */
  function QuoteLineNodes(line: string, inline: InlineParser): Result<seq<HtmlNode>, Error> {
    match IndexOf(line, '>')
    case None => Err(SubstringNotFound)
    case Some(i) =>
      var content := TrimStart(line[i + 1..]);
      if content == [] then Ok([BreakLeaf()]) else inline(content)
  }

  /** `>` and whitespace, then text: the text goes to the inline parser. */
  lemma QuoteLineText(pre: string, text: string, inline: InlineParser)
    requires AllSpace(pre) && text != [] && !IsSpace(text[0])
    ensures QuoteLineNodes(">" + pre + text, inline) == inline(text)
  {
    var line := ">" + pre + text;
    assert IndexOf(line, '>') == Some(0);
    assert line[1..] == pre + text;
    TrimStartSpaces(pre, text);
  }

  /** `>` and nothing but whitespace: a line break. */
  lemma QuoteLineBlank(pre: string, inline: InlineParser)
    requires AllSpace(pre)
    ensures QuoteLineNodes(">" + pre, inline) == Ok([BreakLeaf()])
  {
    var line := ">" + pre;
    assert IndexOf(line, '>') == Some(0);
    assert line[1..] == pre + [];
    TrimStartSpaces(pre, []);
  }

  /** The per-line step of the quote builder. */
  function QuoteStep(inline: InlineParser): string -> Result<seq<HtmlNode>, Error> {
    line => QuoteLineNodes(line, inline)
  }

  /** `create_quote_html_node`: the nodes of all lines, one after the other,
      directly under `blockquote`. */
  function CreateQuote(block: string, inline: InlineParser): (r: Result<HtmlNode, Error>)
    ensures r.Ok? <==> forall k :: 0 <= k < |Lines(block)| ==> QuoteLineNodes(Lines(block)[k], inline).Ok?
    ensures r.Ok? ==> r.value.Parent? && r.value.tag == Some("blockquote") && r.value.props.None?
                      && r.value.children.Children?
                      && forall n :: n in r.value.children.nodes ==>
                           exists k :: 0 <= k < |Lines(block)| && QuoteLineNodes(Lines(block)[k], inline).Ok?
                                     && n in QuoteLineNodes(Lines(block)[k], inline).value
  {
    var lines := Lines(block);
    assert forall k :: 0 <= k < |lines| ==> QuoteStep(inline)(lines[k]) == QuoteLineNodes(lines[k], inline);
    var cs :- ConcatAll(lines, QuoteStep(inline));
    Ok(Node("blockquote", cs))
  }

  /** A one-line quote holds exactly the nodes of that line. */
  lemma QuoteOneLine(line: string, inline: InlineParser)
    requires '\n' !in line && QuoteLineNodes(line, inline).Ok?
    ensures CreateQuote(line, inline) == Ok(Node("blockquote", QuoteLineNodes(line, inline).value))
  {
    CharFree(line, '\n');
    SplitFree(line, "\n");
    ConcatAllOne(line, QuoteStep(inline));
  }

  /** The nodes of a quote's first line come first, followed by those of
      the remaining lines in order: the lines' runs are concatenated in
      line order. */
  lemma QuoteLinesInOrder(first: string, rest: string, inline: InlineParser)
    requires '\n' !in first
    requires QuoteLineNodes(first, inline).Ok? && CreateQuote(rest, inline).Ok?
    ensures CreateQuote(first + "\n" + rest, inline)
         == Ok(Node("blockquote", QuoteLineNodes(first, inline).value + CreateQuote(rest, inline).value.children.nodes))
  {
    CharFree(first, '\n');
    SplitAfter(first, "\n", rest);
    var f := QuoteStep(inline);
    ConcatAllOne(first, f);
    ConcatAllAppend([first], Lines(rest), f);
  }

  // ---------------------------------------------------------------------
  // markdown_to_html_node
  // ---------------------------------------------------------------------

  /** The builder the block's kind selects: under `block_to_blocktype` as
      written when `strict` is false, under the strict quote test when it
      is true. */
  function BlockToHtml(block: string, inline: InlineParser, strict: bool): Result<HtmlNode, Error> {
    match Classify(block, strict)
    case CodeBlock => Ok(CreateCode(block))
    case Quote => CreateQuote(block, inline)
    case Heading => CreateHeading(block, inline)
    case UnorderedList => CreateList("ul", block, inline)
    case OrderedList => CreateList("ol", block, inline)
    case Paragraph => CreateParagraph(block, inline)
  }

  /** The loop of `markdown_to_html_node` over the blocks: a `div` with
      exactly one child per block, the child of block `k` at position `k`;
      it fails exactly when some block's builder fails, with the error of
      the first such block. */
  function Convert(markdown: string, inline: InlineParser, strict: bool): (r: Result<HtmlNode, Error>)
    ensures var blocks := MarkdownToBlocks(markdown);
      && (r.Ok? <==> forall k :: 0 <= k < |blocks| ==> BlockToHtml(blocks[k], inline, strict).Ok?)
      && (r.Ok? ==> r.value.Parent? && r.value.tag == Some("div") && r.value.props.None?
                    && r.value.children.Children? && |r.value.children.nodes| == |blocks|
                    && forall k :: 0 <= k < |blocks| ==>
                         r.value.children.nodes[k] == BlockToHtml(blocks[k], inline, strict).value)
      && (r.Err? ==> exists k :: 0 <= k < |blocks| && BlockToHtml(blocks[k], inline, strict).Err?
                       && r.error == BlockToHtml(blocks[k], inline, strict).error
                       && forall j :: 0 <= j < k ==> BlockToHtml(blocks[j], inline, strict).Ok?)
  {
    var nodes :- MapAll(MarkdownToBlocks(markdown), block => BlockToHtml(block, inline, strict));
    Ok(Node("div", nodes))
  }

  /** `markdown_to_html_node` as written: each block goes to the builder
      that `block_to_blocktype` selects. */
  function MarkdownToHtmlNode(markdown: string, inline: InlineParser): Result<HtmlNode, Error> {
    Convert(markdown, inline, false)
  }

  /** The conversion with the strict quote test in place of the one as
      written. */
  function MarkdownToHtmlNodeStrict(markdown: string, inline: InlineParser): Result<HtmlNode, Error> {
    Convert(markdown, inline, true)
  }

  /** A document that is a single block converts as that block does: a
      `div` around the block's tree, or the block's error. */
  lemma OneBlockDocument(markdown: string, inline: InlineParser, strict: bool)
    requires MarkdownToBlocks(markdown) == [markdown]
    ensures BlockToHtml(markdown, inline, strict).Ok? ==>
              Convert(markdown, inline, strict) == Ok(Node("div", [BlockToHtml(markdown, inline, strict).value]))
    ensures BlockToHtml(markdown, inline, strict).Err? ==>
              Convert(markdown, inline, strict) == Err(BlockToHtml(markdown, inline, strict).error)
  {
    var r := Convert(markdown, inline, strict);
    if r.Ok? {
      assert r.value.children.nodes == [BlockToHtml(markdown, inline, strict).value];
    }
  }

  lemma {:induction false} CleanBlankPieces(pieces: seq<string>)
    requires forall k :: 0 <= k < |pieces| ==> AllSpace(pieces[k])
    ensures CleanPieces(pieces) == []
    decreases |pieces|
  {
    if pieces != [] {
      assert AllSpace(pieces[0]);
      CleanBlankPieces(pieces[1..]);
    }
  }

  /** A document of nothing but whitespace, the empty one included, has no
      blocks and becomes an empty `div`, whatever the inline parser. */
  lemma BlankDocument(markdown: string, inline: InlineParser)
    requires AllSpace(markdown)
    ensures MarkdownToBlocks(markdown) == []
    ensures MarkdownToHtmlNode(markdown, inline) == Ok(Parent(Some("div"), Children([]), None))
    ensures ToHtml(MarkdownToHtmlNode(markdown, inline).value) == Ok("<div></div>")
  {
    BlankHasNoBlocks(markdown);
    NoBlocksDocument(markdown, inline, false);
    EmptyDivRenders();
  }

  lemma BlankHasNoBlocks(markdown: string)
    requires AllSpace(markdown)
    ensures MarkdownToBlocks(markdown) == []
  {
    var pieces := Split(markdown, "\n\n");
    forall k | 0 <= k < |pieces|
      ensures AllSpace(pieces[k])
    {
      forall i | 0 <= i < |pieces[k]|
        ensures IsSpace(pieces[k][i])
      {
        var c := pieces[k][i];
        InSplitPiece(markdown, "\n\n", k, c);
        var j :| 0 <= j < |markdown| && markdown[j] == c;
      }
    }
    CleanBlankPieces(pieces);
    SegmentsOf(markdown);
  }

  /** A document without blocks converts to an empty `div`. */
  lemma NoBlocksDocument(markdown: string, inline: InlineParser, strict: bool)
    requires MarkdownToBlocks(markdown) == []
    ensures Convert(markdown, inline, strict) == Ok(Node("div", []))
  {
    assert Convert(markdown, inline, strict).value.children.nodes == [];
  }

  lemma EmptyDivRenders()
    ensures ToHtml(Node("div", [])) == Ok("<div></div>")
  {
    assert OpeningTag("div", None) == "<div>";
    assert ClosingTag("div") == "</div>";
    assert ToHtml(Node("div", [])) == Ok("<div>" + "</div>");
    assert "<div>" + "</div>" == "<div></div>";
  }

  /** The inline parser never fails. */
  ghost predicate InlineTotal(inline: InlineParser) {
    forall s :: inline(s).Ok?
  }

  /** The inline parser never fails and only returns well-formed nodes. */
  ghost predicate InlineSound(inline: InlineParser) {
    forall s :: inline(s).Ok? && forall k :: 0 <= k < |inline(s).value| ==> WellFormed(inline(s).value[k])
  }

  lemma SpaceInHeadingLine(line: string)
    requires HeadingLine(line)
    ensures ' ' in line
  {
    var k: nat :| 1 <= k <= 6 && HeadingAt(line, k);
    assert line[k] == ' ';
  }

  lemma HeadingBuilds(block: string, inline: InlineParser)
    requires InlineTotal(inline) && AnyHeading(Lines(block))
    ensures CreateHeading(block, inline).Ok?
  {
    var lines := Lines(block);
    var k :| 0 <= k < |lines| && HeadingLine(lines[k]);
    SpaceInHeadingLine(lines[k]);
    InSplitPiece(block, "\n", k, ' ');
    var i := IndexOf(block, ' ').value;
    CountAtMostLength(block[..i], "#");
    assert inline(block[Count(block[..i], "#") + 1..]).Ok?;
  }

  lemma QuoteBuilds(block: string, inline: InlineParser)
    requires InlineTotal(inline) && AllQuote(Lines(block), true)
    ensures CreateQuote(block, inline).Ok?
  {
    var lines := Lines(block);
    forall k | 0 <= k < |lines|
      ensures QuoteLineNodes(lines[k], inline).Ok?
    {
      var line := lines[k];
      assert QuoteOk(line, true);
      assert line[0] in line;
      var i := IndexOf(line, '>').value;
      assert inline(TrimStart(line[i + 1..])).Ok?;
    }
  }

  /** A space at position `p` of a line gives the item text. */
  lemma ItemBuilds(line: string, p: nat, inline: InlineParser)
    requires InlineTotal(inline) && p < |line| && line[p] == ' '
    ensures ListItem(line, inline).Ok?
  {
    assert line[p] in line;
    assert inline(ItemText(line).value).Ok?;
  }

  lemma ListBuilds(tag: string, block: string, inline: InlineParser)
    requires InlineTotal(inline)
    requires MarkerList(Lines(block)) || AllNumbered(Lines(block))
    ensures CreateList(tag, block, inline).Ok?
  {
    var lines := Lines(block);
    forall k | 0 <= k < |lines|
      ensures ListItem(lines[k], inline).Ok?
    {
      var line := lines[k];
      if MarkerList(lines) {
        assert [lines[0][0], ' '] <= line;
        ItemBuilds(line, 1, inline);
      } else {
        var p := NatToString(k + 1);
        assert NumberedLine(line, k);
        assert line[|p| + 1] == (p + ". ")[|p| + 1];
        ItemBuilds(line, |p| + 1, inline);
      }
    }
  }

  /** With a parser that never fails, the quote builder succeeds exactly
      when every line has a `>`. */
  lemma QuoteBuildsIff(block: string, inline: InlineParser)
    requires InlineTotal(inline)
    ensures CreateQuote(block, inline).Ok? <==> forall k :: 0 <= k < |Lines(block)| ==> '>' in Lines(block)[k]
  {
    var lines := Lines(block);
    forall k | 0 <= k < |lines|
      ensures QuoteLineNodes(lines[k], inline).Ok? <==> '>' in lines[k]
    {
      var line := lines[k];
      if '>' in line {
        var i := IndexOf(line, '>').value;
        assert inline(TrimStart(line[i + 1..])).Ok?;
      }
    }
  }

  /** A block the classifier calls a quote although one of its lines has
      no `>` for the quote builder to find. */
  predicate QuoteWithoutMarker(block: string, strict: bool) {
    Classify(block, strict) == Quote && exists k :: 0 <= k < |Lines(block)| && '>' !in Lines(block)[k]
  }

  /** The strict test never lets such a block through. */
  lemma StrictQuotesMarked(block: string)
    ensures !QuoteWithoutMarker(block, true)
  {
    ClassifyOrderFree(block, true);
    if Classify(block, true) == Quote {
      var lines := Lines(block);
      forall k | 0 <= k < |lines|
        ensures '>' in lines[k]
      {
        assert QuoteOk(lines[k], true);
        assert lines[k][0] in lines[k];
      }
    }
  }

  /** With a parser that never fails, the builder the block's kind selects
      fails exactly on a quote block with a line lacking `>`: every heading
      block has a space, and every list line has a space after its marker
      or number. Under the strict test it never fails. */
  lemma BlockBuilds(block: string, inline: InlineParser, strict: bool)
    requires InlineTotal(inline)
    ensures BlockToHtml(block, inline, strict).Ok? <==> !QuoteWithoutMarker(block, strict)
    ensures strict ==> BlockToHtml(block, inline, strict).Ok?
  {
    StrictQuotesMarked(block);
    ClassifyOrderFree(block, strict);
    match Classify(block, strict) {
      case CodeBlock =>
      case Paragraph =>
        assert inline(ParagraphText(block)).Ok?;
      case Heading =>
        HeadingBuilds(block, inline);
      case Quote =>
        QuoteBuildsIff(block, inline);
      case UnorderedList =>
        ListBuilds("ul", block, inline);
      case OrderedList =>
        ListBuilds("ol", block, inline);
    }
  }

  /** The converter fails only where the inline parser or a quote line
      without `>` makes it fail: with a parser that never fails, the
      conversion as written fails exactly when some block is such a quote,
      and under the strict test every document converts. */
  lemma ConvertsWhenInlineDoes(markdown: string, inline: InlineParser, strict: bool)
    requires InlineTotal(inline)
    ensures Convert(markdown, inline, strict).Ok? <==>
      forall k :: 0 <= k < |MarkdownToBlocks(markdown)| ==> !QuoteWithoutMarker(MarkdownToBlocks(markdown)[k], strict)
    ensures strict ==> Convert(markdown, inline, strict).Ok?
  {
    var blocks := MarkdownToBlocks(markdown);
    forall k | 0 <= k < |blocks|
      ensures BlockToHtml(blocks[k], inline, strict).Ok? <==> !QuoteWithoutMarker(blocks[k], strict)
      ensures strict ==> BlockToHtml(blocks[k], inline, strict).Ok?
    {
      BlockBuilds(blocks[k], inline, strict);
    }
  }

  /** Every node of a sound parser's output is well formed. */
  lemma InlineNodesWellFormed(inline: InlineParser, s: string, n: HtmlNode)
    requires InlineSound(inline) && n in inline(s).value
    ensures WellFormed(n)
  {
    var k :| 0 <= k < |inline(s).value| && inline(s).value[k] == n;
  }

  lemma QuoteLineWellFormed(line: string, inline: InlineParser, n: HtmlNode)
    requires InlineSound(inline) && QuoteLineNodes(line, inline).Ok?
    requires n in QuoteLineNodes(line, inline).value
    ensures WellFormed(n)
  {
    var j := IndexOf(line, '>').value;
    var content := TrimStart(line[j + 1..]);
    if content == [] {
      assert QuoteLineNodes(line, inline).value == [BreakLeaf()];
      assert n == BreakLeaf();
    } else {
      assert QuoteLineNodes(line, inline) == inline(content);
      InlineNodesWellFormed(inline, content, n);
    }
  }

  lemma QuoteWellFormed(block: string, inline: InlineParser)
    requires InlineSound(inline) && CreateQuote(block, inline).Ok?
    ensures WellFormed(CreateQuote(block, inline).value)
  {
    var lines := Lines(block);
    var f := QuoteStep(inline);
    var cs := ConcatAll(lines, f).value;
    forall i | 0 <= i < |cs|
      ensures WellFormed(cs[i])
    {
      var n := cs[i];
      assert n in cs;
      var k :| 0 <= k < |lines| && f(lines[k]).Ok? && n in f(lines[k]).value;
      assert f(lines[k]) == QuoteLineNodes(lines[k], inline);
      QuoteLineWellFormed(lines[k], inline, n);
    }
  }

  lemma NodeOfInlineWellFormed(tag: string, s: string, inline: InlineParser)
    requires InlineSound(inline)
    ensures inline(s).Ok? && WellFormed(Node(tag, inline(s).value))
  {
  }

  lemma HeadingWellFormed(block: string, inline: InlineParser)
    requires InlineSound(inline) && CreateHeading(block, inline).Ok?
    ensures WellFormed(CreateHeading(block, inline).value)
  {
    var i := IndexOf(block, ' ').value;
    CountAtMostLength(block[..i], "#");
    var count := Count(block[..i], "#");
    NodeOfInlineWellFormed("h" + NatToString(count), block[count + 1..], inline);
  }

  lemma ParagraphWellFormed(block: string, inline: InlineParser)
    requires InlineSound(inline)
    ensures CreateParagraph(block, inline).Ok? && WellFormed(CreateParagraph(block, inline).value)
  {
    NodeOfInlineWellFormed("p", ParagraphText(block), inline);
  }

  lemma ListWellFormed(tag: string, block: string, inline: InlineParser)
    requires InlineSound(inline) && CreateList(tag, block, inline).Ok?
    ensures WellFormed(CreateList(tag, block, inline).value)
  {
    var lines := Lines(block);
    var items := CreateList(tag, block, inline).value.children.nodes;
    forall k | 0 <= k < |items|
      ensures WellFormed(items[k])
    {
      NodeOfInlineWellFormed("li", ItemText(lines[k]).value, inline);
    }
  }

  /** With a sound inline parser every block that builds becomes a
      well-formed tree, and under the strict test every block builds. */
  lemma BlockWellFormed(block: string, inline: InlineParser, strict: bool)
    requires InlineSound(inline)
    ensures BlockToHtml(block, inline, strict).Ok? ==> WellFormed(BlockToHtml(block, inline, strict).value)
    ensures strict ==> BlockToHtml(block, inline, strict).Ok?
  {
    BlockBuilds(block, inline, strict);
    if BlockToHtml(block, inline, strict).Ok? {
      match Classify(block, strict) {
        case CodeBlock =>
        case Paragraph =>
          ParagraphWellFormed(block, inline);
        case Heading =>
          HeadingWellFormed(block, inline);
        case Quote =>
          QuoteWellFormed(block, inline);
        case UnorderedList =>
          ListWellFormed("ul", block, inline);
        case OrderedList =>
          ListWellFormed("ol", block, inline);
      }
    }
  }

  /** With an inline parser that never fails and only returns well-formed
      nodes, a converted tree always serialises: no node of the builders'
      own making is ever rejected by `to_html`. Under the strict test every
      document converts. */
  lemma ConvertedTreeSerialises(markdown: string, inline: InlineParser, strict: bool)
    requires InlineSound(inline)
    ensures Convert(markdown, inline, strict).Ok? ==> ToHtml(Convert(markdown, inline, strict).value).Ok?
    ensures strict ==> Convert(markdown, inline, strict).Ok?
  {
    var blocks := MarkdownToBlocks(markdown);
    forall k | 0 <= k < |blocks|
      ensures BlockToHtml(blocks[k], inline, strict).Ok? ==> WellFormed(BlockToHtml(blocks[k], inline, strict).value)
      ensures strict ==> BlockToHtml(blocks[k], inline, strict).Ok?
    {
      BlockWellFormed(blocks[k], inline, strict);
    }
    if Convert(markdown, inline, strict).Ok? {
      var div := Convert(markdown, inline, strict).value;
      var cs := div.children.nodes;
      assert forall k :: 0 <= k < |cs| ==> WellFormed(cs[k]);
      assert WellFormed(div);
      SerialisesIffWellFormed(div);
    }
  }

  /** A quote block with a line that has no `>` fails whatever the inline
      parser does. */
  lemma QuoteLineUnmarked(block: string, k: nat, inline: InlineParser)
    requires k < |Lines(block)| && '>' !in Lines(block)[k]
    ensures CreateQuote(block, inline).Err?
  {
    assert QuoteLineNodes(Lines(block)[k], inline).Err?;
  }

  /** When that line is the second and the first is `"> "` and text that
      parses, the missing `>` is the reason. */
  lemma QuoteSecondLineUnmarked(block: string, text: string, second: string, inline: InlineParser)
    requires Lines(block) == ["> " + text, second]
    requires text != [] && !IsSpace(text[0]) && '>' !in second
    requires inline(text).Ok?
    ensures CreateQuote(block, inline) == Err(SubstringNotFound)
  {
    var lines := Lines(block);
    assert IsSpace(' ');
    QuoteLineText(" ", text, inline);
    assert lines[0] == ">" + " " + text;
    QuoteLinesSecondUnmarked(lines, inline);
  }

  lemma QuoteLinesSecondUnmarked(lines: seq<string>, inline: InlineParser)
    requires |lines| == 2 && QuoteLineNodes(lines[0], inline).Ok? && '>' !in lines[1]
    ensures ConcatAll(lines, QuoteStep(inline)) == Err(SubstringNotFound)
  {
    var f := QuoteStep(inline);
    assert f(lines[0]) == QuoteLineNodes(lines[0], inline);
    assert f(lines[1]) == QuoteLineNodes(lines[1], inline);
    SecondFails(lines, f);
  }

  /** Of two items, the first converting and the second failing, the
      second's error is the result. */
  lemma SecondFails<T>(xs: seq<T>, f: T -> Result<seq<HtmlNode>, Error>)
    requires |xs| == 2 && f(xs[0]).Ok? && f(xs[1]).Err?
    ensures ConcatAll(xs, f) == Err(f(xs[1]).error)
  {
    assert xs[1..][0] == xs[1];
  }

  // ---------------------------------------------------------------------
  // The quote test as written: a one-character line without `>`
  // ---------------------------------------------------------------------

  /** The two-line block `"> "`, text, a line break, one character. */
  function UnmarkedBlock(text: string, c: char): string {
    "> " + text + "\n" + [c]
  }

  lemma UnmarkedLines(text: string, c: char)
    requires '\n' !in text && c != '\n'
    ensures Lines(UnmarkedBlock(text, c)) == ["> " + text, [c]]
  {
    var first := "> " + text;
    assert '\n' !in first;
    CharFree(first, '\n');
    CharFree([c], '\n');
    SplitAfter(first, "\n", [c]);
    SplitFree([c], "\n");
  }

  /** A single line break followed by something else is no blank line. */
  lemma OneBreak(first: string, c: char)
    requires '\n' !in first && c != '\n'
    ensures !Contains(first + "\n" + [c], "\n\n")
  {
    var s := first + "\n" + [c];
    assert forall i :: 0 <= i < |first| ==> s[i] == first[i];
    forall i: nat | i <= |s|
      ensures !OccursAt(s, "\n\n", i)
    {
      if i + 2 <= |s| {
        assert s[i] != '\n' || s[i + 1] != '\n';
      }
    }
  }

  /** The block is a block of its own: stripped, without a blank line. */
  lemma UnmarkedIsBlock(text: string, c: char)
    requires '\n' !in text && c != '\n' && !IsSpace(c)
    ensures MarkdownToBlocks(UnmarkedBlock(text, c)) == [UnmarkedBlock(text, c)]
  {
    var block := UnmarkedBlock(text, c);
    OneBreak("> " + text, c);
    assert IsStripped(block);
    StripUnique([], block, []);
    assert [] + block + [] == block;
    SingleSegment(block);
  }

  /** As written the block is a quote, since its second line is too short
      to be checked; the strict test makes it a paragraph. */
  lemma UnmarkedClassified(text: string, c: char)
    requires '\n' !in text && c != '\n' && c != '>'
    ensures BlockToBlockType(UnmarkedBlock(text, c)) == Quote
    ensures BlockKind(UnmarkedBlock(text, c)) == Paragraph
  {
    var block := UnmarkedBlock(text, c);
    UnmarkedLines(text, c);
    var lines := Lines(block);
    assert !HeadingLine(lines[0]) by {
      assert !HashPrefix(lines[0], 1);
    }
    assert !HeadingLine(lines[1]);
    assert !AnyHeading(lines);
    assert !CodeFence(lines);
    assert QuoteOk(lines[0], false) && QuoteOk(lines[1], false);
    assert !QuoteOk(lines[1], true);
    assert !MarkerList(lines);
    assert !NumberedLine(lines[0], 0) by {
      assert NatToString(1) == "1";
    }
    ClassifyOrderFree(block, false);
    ClassifyOrderFree(block, true);
  }

  /** The quote builder fails on such a block, with the missing `>` as
      the reason once the text parses. */
  lemma UnmarkedQuoteFails(text: string, c: char, inline: InlineParser)
    requires text != [] && !IsSpace(text[0]) && '\n' !in text && c != '>' && c != '\n'
    ensures CreateQuote(UnmarkedBlock(text, c), inline).Err?
    ensures inline(text).Ok? ==> CreateQuote(UnmarkedBlock(text, c), inline) == Err(SubstringNotFound)
  {
    var block := UnmarkedBlock(text, c);
    UnmarkedLines(text, c);
    QuoteLineUnmarked(block, 1, inline);
    if inline(text).Ok? {
      QuoteSecondLineUnmarked(block, text, [c], inline);
    }
  }

  /** So does the conversion as written of the document made of it. */
  lemma UnmarkedConversionFails(text: string, c: char, inline: InlineParser)
    requires text != [] && !IsSpace(text[0]) && '\n' !in text
    requires c != '>' && !IsSpace(c)
    ensures MarkdownToHtmlNode(UnmarkedBlock(text, c), inline).Err?
    ensures inline(text).Ok? ==> MarkdownToHtmlNode(UnmarkedBlock(text, c), inline) == Err(SubstringNotFound)
  {
    var block := UnmarkedBlock(text, c);
    var q := CreateQuote(block, inline);
    assert q.Err? && (inline(text).Ok? ==> q == Err(SubstringNotFound)) by {
      UnmarkedQuoteFails(text, c, inline);
    }
    assert BlockToHtml(block, inline, false) == q by {
      UnmarkedClassified(text, c);
    }
    assert MarkdownToHtmlNode(block, inline) == Err(q.error) by {
      UnmarkedIsBlock(text, c);
      OneBlockDocument(block, inline, false);
    }
  }

  /** The quote test as written lets a line of one character through
      without a `>`, and the quote builder then raises on that line. Every
      document made of `"> "` and text, a line break and one character
      other than `>` is one block, a quote as written, and a failure of the
      quote builder and so of the whole conversion, with the missing `>` as
      the reason once the text parses. The strict test makes it a
      paragraph. */
  lemma QuoteWithoutMarkerFails(text: string, c: char, inline: InlineParser)
    requires text != [] && !IsSpace(text[0]) && '\n' !in text
    requires c != '>' && !IsSpace(c)
    ensures MarkdownToBlocks(UnmarkedBlock(text, c)) == [UnmarkedBlock(text, c)]
    ensures BlockToBlockType(UnmarkedBlock(text, c)) == Quote
    ensures CreateQuote(UnmarkedBlock(text, c), inline).Err?
    ensures MarkdownToHtmlNode(UnmarkedBlock(text, c), inline).Err?
    ensures inline(text).Ok? ==> MarkdownToHtmlNode(UnmarkedBlock(text, c), inline) == Err(SubstringNotFound)
    ensures BlockKind(UnmarkedBlock(text, c)) == Paragraph
  {
    UnmarkedIsBlock(text, c);
    UnmarkedClassified(text, c);
    UnmarkedQuoteFails(text, c, inline);
    UnmarkedConversionFails(text, c, inline);
  }
}
