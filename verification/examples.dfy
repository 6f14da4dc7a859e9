/** Worked cases from the repository's unit tests, stated as lemmas about
    the model. */
module Examples {
  import opened Wrappers
  import opened Errors
  import opened Strings
  import opened Html
  import opened Inline
  import opened Blocks
  import opened Title

  /** A text without line breaks is a single line. */
  lemma OneLine(s: string)
    requires '\n' !in s
    ensures Split(s, "\n") == [s]
  {
    CharFree(s, '\n');
    SplitFree(s, "\n");
  }

  lemma TitleOfHeader()
    ensures ExtractTitle("# header") == Ok("header")
  {
    var pad, title := " ", "header";
    assert "#" + pad + title == "# header";
    TitleOnlyLine(pad, title);
  }

  /** Any number of spaces may sit between the hash and the title. */
  lemma TitleOfSpacedHeader()
    ensures ExtractTitle("#              header") == Ok("header")
  {
    var pad, title := "              ", "header";
    assert "#" + pad + title == "#              header";
    TitleOnlyLine(pad, title);
  }

  /** A second-level heading is not a title. */
  lemma NoTitleInSubheading()
    ensures ExtractTitle("## header") == Err(NoTitle)
  {
    OneLine("## header");
    assert !IsTitleLine("## header");
  }

  // ---------------------------------------------------------------------
  // block_to_blocktype
  // ---------------------------------------------------------------------

  /** Lines without breaks, joined by breaks, are the lines of the block. */
  lemma LinesOf(ps: seq<string>)
    requires |ps| >= 1 && forall k :: 0 <= k < |ps| ==> '\n' !in ps[k]
    ensures Lines(Join(ps, "\n")) == ps
  {
    forall k | 0 <= k < |ps|
      ensures !Contains(ps[k], "\n") && NoStraddle(ps[k], "\n")
    {
      CharFree(ps[k], '\n');
    }
    SplitJoin(ps, "\n");
  }

  lemma HeadingExample()
    ensures BlockToBlockType("# hello sir") == Heading
  {
    var text := "hello sir";
    assert Hashes(1) + " " + text == "# hello sir";
    HeadingClassified(1, text, false);
  }

  /** One to six hashes before the space: every level is a heading. */
  lemma HeadingLevelsExample()
    ensures forall k :: 1 <= k <= 6 ==> BlockToBlockType(Hashes(k) + " hello sir") == Heading
  {
    forall k | 1 <= k <= 6
      ensures BlockToBlockType(Hashes(k) + " hello sir") == Heading
    {
      var text := "hello sir";
      HeadingClassified(k, text, false);
      assert Hashes(k) + " " + text == Hashes(k) + " hello sir";
    }
  }

  /** Seven hashes make a paragraph. */
  lemma SevenHashesExample()
    ensures BlockToBlockType("####### hello sir") == Paragraph
  {
    var line := Hashes(7) + " hello sir";
    assert line == "####### hello sir";
    assert '\n' !in line by {
      assert forall i :: 0 <= i < |line| ==> line[i] != '\n';
    }
    forall k: nat | 1 <= k <= 6
      ensures !HeadingAt(line, k)
    {
      assert line[k] == Hashes(7)[k];
    }
    HashLineIsParagraph(line, false);
  }

  /** So does a missing space after the hashes. */
  lemma NoSpaceExample()
    ensures BlockToBlockType("#######hello sir") == Paragraph
  {
    var line := Hashes(7) + "hello sir";
    assert line == "#######hello sir";
    assert '\n' !in line by {
      assert forall i :: 0 <= i < |line| ==> line[i] != '\n';
    }
    forall k: nat | 1 <= k <= 6
      ensures !HeadingAt(line, k)
    {
      assert line[k] == Hashes(7)[k];
    }
    HashLineIsParagraph(line, false);
  }

  lemma QuoteExample()
    ensures BlockToBlockType(">This\n>is\n>a\n>quote") == Quote
  {
    var ps := [">This", ">is", ">a", ">quote"];
    assert Join(ps, "\n") == ">This\n>is\n>a\n>quote";
    LinesOf(ps);
    assert !CodeFence(ps);
    assert AllQuote(ps, false);
    ClassifyOrderFree(Join(ps, "\n"), false);
  }

  /** A two-character line without `>` is enough to break the quote. */
  lemma BrokenQuoteExample()
    ensures BlockToBlockType(">This\nis\n>a\n>quote") == Paragraph
  {
    var ps := [">This", "is", ">a", ">quote"];
    assert Join(ps, "\n") == ">This\nis\n>a\n>quote";
    LinesOf(ps);
    BrokenQuoteTests(ps);
    ClassifyOrderFree(Join(ps, "\n"), false);
  }

  lemma BrokenQuoteTests(ps: seq<string>)
    requires ps == [">This", "is", ">a", ">quote"]
    ensures !CodeFence(ps) && !AnyHeading(ps) && !AllQuote(ps, false)
    ensures !MarkerList(ps) && !AllNumbered(ps)
  {
    assert !QuoteOk(ps[1], false);
    assert !HeadingLine(ps[0]) && !HeadingLine(ps[1]) && !HeadingLine(ps[2]) && !HeadingLine(ps[3]);
    assert !NumberedLine(ps[0], 0) by {
      assert NatToString(1) == "1";
    }
  }

  /** Only a line opening with `#` can pass the heading test. */
  lemma NoHashNoHeading(line: string)
    requires line == [] || line[0] != '#'
    ensures !HeadingLine(line)
  {
    forall k: nat | 1 <= k <= 6 && k <= |line|
      ensures !HashPrefix(line, k)
    {
      assert line[0] != '#';
    }
  }

  /** Only a line opening with a digit can pass the numbering test. */
  lemma NoDigitNotNumbered(line: string, i: nat)
    requires line != [] && !IsDigit(line[0])
    ensures !NumberedLine(line, i)
  {
    var p := NatToString(i + 1);
    assert (p + ". ")[0] == p[0];
  }

  /** The numbering test on a line opening with the wrong digit. */
  lemma WrongDigitNotNumbered(line: string, i: nat)
    requires i < 9 && line != [] && line[0] != Digit(i + 1)
    ensures !NumberedLine(line, i)
  {
    var p := NatToString(i + 1);
    assert p == [Digit(i + 1)];
    assert (p + ". ")[0] == p[0];
  }

  lemma UnorderedListExample()
    ensures BlockToBlockType("- Flour\n- Cheese\n- Tomatoes") == UnorderedList
  {
    var ps := ["- Flour", "- Cheese", "- Tomatoes"];
    assert Join(ps, "\n") == "- Flour\n- Cheese\n- Tomatoes";
    LinesOf(ps);
    ListTests(ps);
    ClassifyOrderFree(Join(ps, "\n"), false);
  }

  lemma ListTests(ps: seq<string>)
    requires ps == ["- Flour", "- Cheese", "- Tomatoes"]
    ensures !CodeFence(ps) && MarkerList(ps)
  {
    assert ps[0][..3] != "```" by {
      assert ps[0][0] == '-';
    }
    assert AllStartWith(ps, "- ");
  }

  /** Every item needs the space after its marker. */
  lemma MissingSpaceListExample()
    ensures BlockToBlockType("- Flour\n-Cheese\n- Tomatoes") == Paragraph
  {
    var ps := ["- Flour", "-Cheese", "- Tomatoes"];
    assert Join(ps, "\n") == "- Flour\n-Cheese\n- Tomatoes";
    LinesOf(ps);
    NotAListTests(ps);
    ClassifyOrderFree(Join(ps, "\n"), false);
  }

  lemma NotAListTests(ps: seq<string>)
    requires ps == ["- Flour", "-Cheese", "- Tomatoes"]
    ensures !CodeFence(ps) && !AnyHeading(ps) && !AllQuote(ps, false)
    ensures !MarkerList(ps) && !AllNumbered(ps)
  {
    assert !QuoteOk(ps[0], false);
    assert ps[1][1] != ' ';
    NoHashNoHeading(ps[0]);
    NoHashNoHeading(ps[1]);
    NoHashNoHeading(ps[2]);
    NoDigitNotNumbered(ps[0], 0);
  }

  /** The marker of the first line must open every line. */
  lemma MixedMarkerExample()
    ensures BlockToBlockType("- Flour\n2. Cheese\n- Tomatoes") == Paragraph
  {
    var ps := ["- Flour", "2. Cheese", "- Tomatoes"];
    assert Join(ps, "\n") == "- Flour\n2. Cheese\n- Tomatoes";
    LinesOf(ps);
    MixedMarkerTests(ps);
    ClassifyOrderFree(Join(ps, "\n"), false);
  }

  lemma MixedMarkerTests(ps: seq<string>)
    requires ps == ["- Flour", "2. Cheese", "- Tomatoes"]
    ensures !CodeFence(ps) && !AnyHeading(ps) && !AllQuote(ps, false)
    ensures !MarkerList(ps) && !AllNumbered(ps)
  {
    assert !QuoteOk(ps[0], false);
    assert ps[1][0] != '-';
    NoHashNoHeading(ps[0]);
    NoHashNoHeading(ps[1]);
    NoHashNoHeading(ps[2]);
    NoDigitNotNumbered(ps[0], 0);
  }

  lemma OrderedListExample()
    ensures BlockToBlockType("1. Flour\n2. Cheese\n3. Tomatoes") == OrderedList
  {
    var ps := ["1. Flour", "2. Cheese", "3. Tomatoes"];
    assert Join(ps, "\n") == "1. Flour\n2. Cheese\n3. Tomatoes";
    LinesOf(ps);
    OrderedListTests(ps);
    ClassifyOrderFree(Join(ps, "\n"), false);
  }

  lemma OrderedListTests(ps: seq<string>)
    requires ps == ["1. Flour", "2. Cheese", "3. Tomatoes"]
    ensures !CodeFence(ps) && AllNumbered(ps)
  {
    assert ps[0][..3] != "```" by {
      assert ps[0][0] == '1';
    }
    assert NatToString(1) == "1" && NatToString(2) == "2" && NatToString(3) == "3";
    assert "1. " <= ps[0] && "2. " <= ps[1] && "3. " <= ps[2];
    assert NumberedLine(ps[0], 0) && NumberedLine(ps[1], 1) && NumberedLine(ps[2], 2);
  }

  /** The numbers must run 1, 2, 3 without a gap. */
  lemma SkippedNumberExample()
    ensures BlockToBlockType("1. Flour\n3. Cheese\n4. Tomatoes") == Paragraph
  {
    var ps := ["1. Flour", "3. Cheese", "4. Tomatoes"];
    assert Join(ps, "\n") == "1. Flour\n3. Cheese\n4. Tomatoes";
    LinesOf(ps);
    SkippedNumberTests(ps);
    ClassifyOrderFree(Join(ps, "\n"), false);
  }

  lemma SkippedNumberTests(ps: seq<string>)
    requires ps == ["1. Flour", "3. Cheese", "4. Tomatoes"]
    ensures !CodeFence(ps) && !AnyHeading(ps) && !AllQuote(ps, false)
    ensures !MarkerList(ps) && !AllNumbered(ps)
  {
    assert !QuoteOk(ps[0], false);
    NoHashNoHeading(ps[0]);
    NoHashNoHeading(ps[1]);
    NoHashNoHeading(ps[2]);
    assert ps[1][0] == '3';
    WrongDigitNotNumbered(ps[1], 1);
  }

  lemma CodeExample()
    ensures BlockToBlockType("```const test = \"Hello\";\nconsole.log(test);```") == CodeBlock
  {
    CodeBlockOf("```const test = \"Hello\";\nconsole.log(test);```");
  }

  lemma CodeBlockOf(block: string)
    requires block == "```const test = \"Hello\";\nconsole.log(test);```"
    ensures BlockToBlockType(block) == CodeBlock
  {
    var ps := ["```const test = \"Hello\";", "console.log(test);```"];
    assert Join(ps, "\n") == "```const test = \"Hello\";\nconsole.log(test);```";
    LinesOf(ps);
    CodeTests(ps);
  }

  lemma CodeTests(ps: seq<string>)
    requires ps == ["```const test = \"Hello\";", "console.log(test);```"]
    ensures CodeFence(ps)
  {
    var last := ps[1];
    assert ps[0][..3] == "```";
    assert last[|last| - 3..] == "```";
  }

  /** One backtick short at each end is no fence. */
  lemma ShortFenceExample()
    ensures BlockToBlockType("`const test = \"Hello\";\nconsole.log(test);``") == Paragraph
  {
    ShortFenceOf("`const test = \"Hello\";\nconsole.log(test);``");
  }

  lemma ShortFenceOf(block: string)
    requires block == "`const test = \"Hello\";\nconsole.log(test);``"
    ensures BlockToBlockType(block) == Paragraph
  {
    var ps := ["`const test = \"Hello\";", "console.log(test);``"];
    assert Join(ps, "\n") == "`const test = \"Hello\";\nconsole.log(test);``";
    LinesOf(ps);
    ShortFenceTests(ps);
    ClassifyOrderFree(Join(ps, "\n"), false);
  }

  lemma ShortFenceTests(ps: seq<string>)
    requires ps == ["`const test = \"Hello\";", "console.log(test);``"]
    ensures !CodeFence(ps) && !AnyHeading(ps) && !AllQuote(ps, false)
    ensures !MarkerList(ps) && !AllNumbered(ps)
  {
    assert ps[0][..3] != "```" by {
      assert ps[0][1] == 'c';
    }
    assert !QuoteOk(ps[0], false);
    NoHashNoHeading(ps[0]);
    NoHashNoHeading(ps[1]);
    NoDigitNotNumbered(ps[0], 0);
  }

  lemma ParagraphExample()
    ensures BlockToBlockType("This is just a paragraph") == Paragraph
  {
    var line := "This is just a paragraph";
    LinesOf([line]);
    assert Join([line], "\n") == line;
    ParagraphTests([line]);
    ClassifyOrderFree(line, false);
  }

  lemma ParagraphTests(ps: seq<string>)
    requires ps == ["This is just a paragraph"]
    ensures !CodeFence(ps) && !AnyHeading(ps) && !AllQuote(ps, false)
    ensures !MarkerList(ps) && !AllNumbered(ps)
  {
    assert ps[0][..3] != "```" by {
      assert ps[0][0] == 'T';
    }
    assert !QuoteOk(ps[0], false);
    NoHashNoHeading(ps[0]);
    NoDigitNotNumbered(ps[0], 0);
  }

  // ---------------------------------------------------------------------
  // markdown_to_blocks
  // ---------------------------------------------------------------------

  /** A text without line breaks has no blank line either. */
  lemma NoBreakNoBlankLine(s: string)
    requires '\n' !in s
    ensures !Contains(s, "\n\n")
  {
    forall i: nat | i <= |s|
      ensures !OccursAt(s, "\n\n", i)
    {
      if i + 2 <= |s| {
        assert s[i] in s;
      }
    }
  }

  /** A line break before a line: no blank line, and it strips back to
      the line. */
  lemma BreakThenLine(b: string)
    requires b != [] && IsStripped(b) && '\n' !in b
    ensures !Contains("\n" + b, "\n\n")
    ensures Strip("\n" + b) == b
  {
    var nb := "\n" + b;
    forall i: nat | i <= |nb|
      ensures !OccursAt(nb, "\n\n", i)
    {
      if i + 2 <= |nb| {
        assert nb[i + 1] == b[i];
        assert b[i] in b;
        assert nb[i..i + 2][1] == nb[i + 1];
      }
    }
    assert IsSpace('\n');
    assert nb == "\n" + b + "";
    StripUnique("\n", b, "");
  }

  /** A third line break only adds whitespace to the next block, which
      stripping removes. */
  lemma ExtraBreak(a: string, b: string)
    requires a != [] && IsStripped(a) && '\n' !in a
    requires b != [] && IsStripped(b) && '\n' !in b
    ensures MarkdownToBlocks(a + "\n\n" + ("\n" + b)) == [a, b]
  {
    NoBreakNoBlankLine(a);
    BlocksOfPrefix(a, "\n" + b);
    assert Strip(a) == a;
    BreakThenLine(b);
    SingleSegment("\n" + b);
  }

  /** Non-empty lines without line breaks, joined by single breaks, hold
      no blank line. */
  lemma {:induction false} JoinedLinesNoBlankLine(ls: seq<string>)
    requires |ls| >= 1 && forall k :: 0 <= k < |ls| ==> ls[k] != [] && '\n' !in ls[k]
    ensures !Contains(Join(ls, "\n"), "\n\n")
    decreases |ls|
  {
    var l := ls[0];
    assert l != [] && '\n' !in l;
    if |ls| == 1 {
      NoBreakNoBlankLine(l);
    } else {
      var t := Join(ls[1..], "\n");
      assert ls[1..][0] != [] && '\n' !in ls[1..][0];
      assert t[0] == ls[1..][0][0];
      JoinedLinesNoBlankLine(ls[1..]);
      var s := l + "\n" + t;
      assert Join(ls, "\n") == s;
      forall i: nat | i <= |s|
        ensures !OccursAt(s, "\n\n", i)
      {
        if i + 2 <= |s| {
          if i < |l| {
            assert s[i..i + 2][0] == l[i];
            assert l[i] in l;
          } else if i == |l| {
            assert s[i..i + 2][1] == t[0];
          } else {
            assert s[i..i + 2] == t[i - |l| - 1..i - |l| + 1];
            assert !OccursAt(t, "\n\n", i - |l| - 1);
          }
        }
      }
    }
  }

  /** Lines like those of a paragraph make a block once the text has no
      whitespace at either end. */
  lemma LinesBlock(ls: seq<string>)
    requires |ls| >= 1 && forall k :: 0 <= k < |ls| ==> ls[k] != [] && '\n' !in ls[k]
    requires IsStripped(Join(ls, "\n"))
    ensures IsBlock(Join(ls, "\n"))
  {
    JoinedLinesNoBlankLine(ls);
    assert Join(ls, "\n") != [] by {
      assert |Join(ls, "\n")| >= |ls[0]| by {
        if |ls| > 1 {
          assert Join(ls, "\n") == ls[0] + "\n" + Join(ls[1..], "\n");
        }
      }
    }
  }

  /** A paragraph line: non-empty, without a line break, and without
      whitespace at either end. */
  predicate PlainLine(l: string) {
    l != [] && '\n' !in l && IsStripped(l)
  }

  /** Two pieces make a paragraph line when neither holds a line break,
      the first opens and the second closes without whitespace. */
  lemma PlainPair(a: string, b: string)
    requires a != [] && '\n' !in a && !IsSpace(a[0])
    requires b != [] && '\n' !in b && !IsSpace(b[|b| - 1])
    ensures PlainLine(a + b)
  {
    assert (a + b)[0] == a[0];
    assert (a + b)[|a + b| - 1] == b[|b| - 1];
  }

  /** The two long lines of the segmenter tests, each written in two
      pieces so that the prover checks each piece on its own. */
  lemma LongLinesPlain()
    ensures PlainLine("This is another paragraph " + "with _italic_ text and `code` here")
    ensures PlainLine("This is the same " + "paragraph on a new line")
  {
    PlainPair("This is another paragraph ", "with _italic_ text and `code` here");
    PlainPair("This is the same ", "paragraph on a new line");
  }

  lemma OneLineBlock(l: string)
    requires PlainLine(l)
    ensures IsBlock(l)
  {
    LinesBlock([l]);
  }

  lemma TwoLineBlock(l1: string, l2: string)
    requires PlainLine(l1) && PlainLine(l2)
    ensures IsBlock(l1 + "\n" + l2)
  {
    var ls := [l1, l2];
    assert ls[1..] == [l2];
    assert Join(ls, "\n") == l1 + "\n" + l2;
    LinesBlock(ls);
  }

  /** A join starts where its first piece starts and ends where its last
      piece ends. */
  lemma JoinEnds(ps: seq<string>, d: string)
    requires |ps| >= 1 && ps[0] != [] && ps[|ps| - 1] != []
    ensures var j := Join(ps, d);
      j != [] && j[0] == ps[0][0] && j[|j| - 1] == ps[|ps| - 1][|ps[|ps| - 1]| - 1]
  {
    JoinLast(ps, d);
    if |ps| > 1 {
      assert Join(ps, d) == ps[0] + (d + Join(ps[1..], d));
    }
  }

  lemma {:induction false} JoinLast(ps: seq<string>, d: string)
    requires |ps| >= 1 && ps[|ps| - 1] != []
    ensures var j := Join(ps, d);
      j != [] && j[|j| - 1] == ps[|ps| - 1][|ps[|ps| - 1]| - 1]
    decreases |ps|
  {
    if |ps| > 1 {
      var rest := Join(ps[1..], d);
      JoinLast(ps[1..], d);
      assert Join(ps, d) == (ps[0] + d) + rest;
    }
  }

  /** A one-line block and two two-line blocks, joined by blank lines and
      with a line break at each end, segment into those three blocks. */
  lemma PaddedThreeBlocks(a: string, b1: string, b2: string, c1: string, c2: string)
    requires PlainLine(a) && PlainLine(b1) && PlainLine(b2) && PlainLine(c1) && PlainLine(c2)
    ensures var bs := [a, b1 + "\n" + b2, c1 + "\n" + c2];
      MarkdownToBlocks("\n" + Join(bs, "\n\n") + "\n") == bs
  {
    var bs := [a, b1 + "\n" + b2, c1 + "\n" + c2];
    OneLineBlock(a);
    TwoLineBlock(b1, b2);
    TwoLineBlock(c1, c2);
    assert AllBlocks(bs);
    PaddedRoundTrip(bs);
  }

  /** Lines with no blank line between them, with a line break at each
      end, are one block. */
  lemma PaddedLines(ls: seq<string>)
    requires |ls| >= 1 && forall k :: 0 <= k < |ls| ==> PlainLine(ls[k])
    ensures MarkdownToBlocks("\n" + Join(ls, "\n") + "\n") == [Join(ls, "\n")]
  {
    var b := Join(ls, "\n");
    assert IsBlock(b) by {
      assert PlainLine(ls[0]) && PlainLine(ls[|ls| - 1]);
      JoinEnds(ls, "\n");
      LinesBlock(ls);
    }
    BreaksAroundBlock("\n", b, "\n");
    SingleSegment("\n" + b + "\n");
  }

  /** test_markdown_to_blocks: the text between the triple quotes is the
      three blocks joined by blank lines, with a line break at each end. */
  lemma MarkdownBlocksExample()
    ensures var bs := ["This is **bolded** paragraph",
                       ("This is another paragraph " + "with _italic_ text and `code` here") + "\n"
                       + ("This is the same " + "paragraph on a new line"),
                       "- This is a list" + "\n" + "- with items"];
      MarkdownToBlocks("\n" + Join(bs, "\n\n") + "\n") == bs
  {
    LongLinesPlain();
    PaddedThreeBlocks("This is **bolded** paragraph",
                      "This is another paragraph " + "with _italic_ text and `code` here",
                      "This is the same " + "paragraph on a new line",
                      "- This is a list", "- with items");
  }

  /** test_markdown_to_blocks_headings: six one-line blocks. */
  lemma HeadingBlocksExample()
    ensures var bs := ["# h1 Heading", "## h2 Heading", "### h3 Heading",
                       "#### h4 Heading", "##### h5 Heading", "###### h6 Heading"];
      MarkdownToBlocks("\n" + Join(bs, "\n\n") + "\n") == bs
  {
    var bs := ["# h1 Heading", "## h2 Heading", "### h3 Heading",
               "#### h4 Heading", "##### h5 Heading", "###### h6 Heading"];
    forall k | 0 <= k < |bs|
      ensures IsBlock(bs[k])
    {
      OneLineBlock(bs[k]);
    }
    PaddedRoundTrip(bs);
  }

  /** test_markdown_to_blocks_singlebock: five lines without a blank line
      between them are one block. */
  lemma SingleBlockExample()
    ensures var ls := ["This is **bolded** paragraph",
                       "This is another paragraph " + "with _italic_ text and `code` here",
                       "This is the same " + "paragraph on a new line",
                       "- This is a list", "- with items"];
      MarkdownToBlocks("\n" + Join(ls, "\n") + "\n") == [Join(ls, "\n")]
  {
    var ls := ["This is **bolded** paragraph",
               "This is another paragraph " + "with _italic_ text and `code` here",
               "This is the same " + "paragraph on a new line",
               "- This is a list", "- with items"];
    LongLinesPlain();
    forall k | 0 <= k < |ls|
      ensures PlainLine(ls[k])
    {
    }
    PaddedLines(ls);
  }

  lemma ExcessiveNewlinesExample()
    ensures MarkdownToBlocks("Hi\n\n\nMy name is bobby") == ["Hi", "My name is bobby"]
  {
    var a, b := "Hi", "My name is bobby";
    assert a + "\n\n" + ("\n" + b) == "Hi\n\n\nMy name is bobby";
    ExtraBreak(a, b);
  }

  // ---------------------------------------------------------------------
  // split_nodes_delimiter
  // ---------------------------------------------------------------------

  /** One delimited span inside plain text splits into three nodes. */
  lemma OneSpan(a: string, b: string, c: string, d: string, t: TextType)
    requires d != [] && d[0] !in a && d[0] !in b && d[0] !in c && a != [] && c != []
    ensures SplitNodesDelimiter([Plain(a + d + b + d + c)], d, t)
         == Ok([Plain(a), TextNode(b, t, None), Plain(c)])
  {
    var ps := [a, b, c];
    HeadFree(a, d);
    HeadFree(b, d);
    HeadFree(c, d);
    assert Join(ps, d) == a + d + (b + d + c) by {
      assert Join(ps[1..], d) == b + d + Join(ps[2..], d);
    }
    assert a + d + (b + d + c) == a + d + b + d + c;
    SplitJoin(ps, d);
    var s := a + d + b + d + c;
    assert Split(s, d) == ps;
    assert Count(s, d) == 2;
    var out := [Plain(a), TextNode(b, t, None), Plain(c)];
    assert SectionNodes(ps, t, 0) == out by {
      assert ps[1..] == [b, c];
      assert [b, c][1..] == [c];
      assert [c][1..] == [];
      assert SectionNodes([c], t, 2) == [Plain(c)];
      assert SectionNodes([b, c], t, 1) == [TextNode(b, t, None), Plain(c)];
    }
    assert SplitNode(Plain(s), d, t) == Ok(out);
    assert [Plain(s)][1..] == [];
    assert SplitNodesDelimiter([], d, t) == Ok([]);
    assert out + [] == out;
  }

  /** Plain text without the delimiter comes out as it went in. */
  lemma NoSpan(s: string, d: string, t: TextType)
    requires d != [] && d[0] !in s && s != []
    ensures SplitNodesDelimiter([Plain(s)], d, t) == Ok([Plain(s)])
  {
    HeadFree(s, d);
    SplitFree(s, d);
    assert Count(s, d) == 0;
    assert [s][1..] == [];
    assert SectionNodes([s], t, 0) == [Plain(s)];
    assert SplitNode(Plain(s), d, t) == Ok([Plain(s)]);
    assert [Plain(s)][1..] == [];
    assert SplitNodesDelimiter([], d, t) == Ok([]);
    assert [Plain(s)] + [] == [Plain(s)];
  }

  lemma CodeSpanExample()
    ensures SplitNodesDelimiter([Plain("This is text with a `code block` word")], "`", Code)
         == Ok([Plain("This is text with a "), TextNode("code block", Code, None), Plain(" word")])
  {
    var a, b, c := "This is text with a ", "code block", " word";
    assert a + "`" + b + "`" + c == "This is text with a `code block` word";
    OneSpan(a, b, c, "`", Code);
  }

  lemma ItalicSpanExample()
    ensures SplitNodesDelimiter([Plain("This is text with a _italic block_ word")], "_", Italic)
         == Ok([Plain("This is text with a "), TextNode("italic block", Italic, None), Plain(" word")])
  {
    var a, b, c := "This is text with a ", "italic block", " word";
    assert a + "_" + b + "_" + c == "This is text with a _italic block_ word";
    OneSpan(a, b, c, "_", Italic);
  }

  /** A two-character delimiter: `**` around a word. */
  lemma BoldSpanExample()
    ensures SplitNodesDelimiter([Plain("This is text with a **bold** word")], "**", Bold)
         == Ok([Plain("This is text with a "), TextNode("bold", Bold, None), Plain(" word")])
  {
    var a, b, c := "This is text with a ", "bold", " word";
    assert a + "**" + b + "**" + c == "This is text with a **bold** word";
    OneSpan(a, b, c, "**", Bold);
  }

  /** The stages of the multiple-sections test: code spans first, then
      italic, then bold, each stage fed the previous stage's nodes. */
  function ThreeStages(s: string): Result<seq<TextNode>, Error> {
    var code :- SplitNodesDelimiter([Plain(s)], "`", Code);
    var italic :- SplitNodesDelimiter(code, "_", Italic);
    SplitNodesDelimiter(italic, "**", Bold)
  }

  /** None of the three delimiters' characters. */
  predicate Unmarked(s: string) {
    '`' !in s && '_' !in s && '*' !in s
  }

  /** Splitting a list of nodes is splitting its first node and then the
      rest. */
  lemma SplitFirstThenRest(n: TextNode, rest: seq<TextNode>, d: string, t: TextType)
    requires SplitNodesDelimiter([n], d, t).Ok? && SplitNodesDelimiter(rest, d, t).Ok?
    ensures SplitNodesDelimiter([n] + rest, d, t)
         == Ok(SplitNodesDelimiter([n], d, t).value + SplitNodesDelimiter(rest, d, t).value)
  {
    SplitNodesAppend([n], rest, d, t);
  }

  /** The code stage: one code span at the end. */
  lemma CodeStage(x: string, g: string, h: string)
    requires '`' !in x && '`' !in g && '`' !in h && x != [] && h != []
    ensures SplitNodesDelimiter([Plain(x + "`" + g + "`" + h)], "`", Code)
         == Ok([Plain(x), TextNode(g, Code, None), Plain(h)])
  {
    OneSpan(x, g, h, "`", Code);
  }

  lemma Nest3<T>(x1: T, x2: T, x3: T)
    ensures [x1] + ([x2] + [x3]) == [x1, x2, x3]
  {
  }

  lemma Nest5<T>(x1: T, x2: T, x3: T, x4: T, x5: T)
    ensures [x1] + ([x2] + ([x3] + ([x4] + [x5]))) == [x1, x2, x3, x4, x5]
  {
  }

  lemma Nest7<T>(x1: T, x2: T, x3: T, x4: T, x5: T, x6: T, x7: T)
    ensures [x1] + ([x2] + ([x3, x4, x5] + ([x6] + [x7]))) == [x1, x2, x3, x4, x5, x6, x7]
  {
  }

  /** The italic stage on the code stage's three nodes. */
  lemma ItalicStage(a: string, b: string, y: string, g: string, h: string)
    requires '_' !in a && '_' !in b && '_' !in y && '_' !in h && a != [] && y != [] && h != []
    ensures SplitNodesDelimiter([Plain(a + "_" + b + "_" + y), TextNode(g, Code, None), Plain(h)], "_", Italic)
         == Ok([Plain(a), TextNode(b, Italic, None), Plain(y), TextNode(g, Code, None), Plain(h)])
  {
    var d, t := "_", Italic;
    var n1, n2, n3 := Plain(a + "_" + b + "_" + y), TextNode(g, Code, None), Plain(h);
    var m1, m2, m3 := Plain(a), TextNode(b, Italic, None), Plain(y);
    OneSpan(a, b, y, d, t);
    NonPlainUnchanged(n2, d, t);
    NoSpan(h, d, t);
    SplitFirstThenRest(n2, [n3], d, t);
    SplitFirstThenRest(n1, [n2] + [n3], d, t);
    Nest3(n1, n2, n3);
    assert [m1, m2, m3] + ([n2] + [n3]) == [m1, m2, m3, n2, n3];
  }

  /** The bold stage on the italic stage's five nodes. */
  lemma BoldStage(a: string, b: string, c: string, e: string, f: string, g: string, h: string)
    requires '*' !in a && '*' !in c && '*' !in e && '*' !in f && '*' !in h
    requires a != [] && c != [] && f != [] && h != []
    ensures SplitNodesDelimiter([Plain(a), TextNode(b, Italic, None), Plain(c + "**" + e + "**" + f),
                                 TextNode(g, Code, None), Plain(h)], "**", Bold)
         == Ok([Plain(a), TextNode(b, Italic, None), Plain(c), TextNode(e, Bold, None), Plain(f),
                TextNode(g, Code, None), Plain(h)])
  {
    var d, t := "**", Bold;
    var n1, n2, n3, n4, n5 := Plain(a), TextNode(b, Italic, None), Plain(c + "**" + e + "**" + f),
                              TextNode(g, Code, None), Plain(h);
    var m1, m2, m3 := Plain(c), TextNode(e, Bold, None), Plain(f);
    NoSpan(a, d, t);
    NonPlainUnchanged(n2, d, t);
    OneSpan(c, e, f, d, t);
    NonPlainUnchanged(n4, d, t);
    NoSpan(h, d, t);
    SplitFirstThenRest(n4, [n5], d, t);
    SplitFirstThenRest(n3, [n4] + [n5], d, t);
    SplitFirstThenRest(n2, [n3] + ([n4] + [n5]), d, t);
    SplitFirstThenRest(n1, [n2] + ([n3] + ([n4] + [n5])), d, t);
    Nest5(n1, n2, n3, n4, n5);
    Nest7(n1, n2, m1, m2, m3, n4, n5);
  }

  /** Text with an italic, a bold and a code span goes through the three
      stages into seven nodes, the spans typed and the text around them
      plain. */
  lemma ThreeStagesShape(a: string, b: string, c: string, e: string, f: string, g: string, h: string)
    requires Unmarked(a) && Unmarked(b) && Unmarked(c) && Unmarked(e) && Unmarked(f) && Unmarked(g) && Unmarked(h)
    requires a != [] && c != [] && f != [] && h != []
    ensures ThreeStages((a + "_" + b + "_" + c) + ("**" + e + "**" + f) + ("`" + g + "`" + h))
         == Ok([Plain(a), TextNode(b, Italic, None), Plain(c), TextNode(e, Bold, None), Plain(f),
                TextNode(g, Code, None), Plain(h)])
  {
    var y := c + "**" + e + "**" + f;
    var x := a + "_" + b + "_" + y;
    assert x + "`" + g + "`" + h == (a + "_" + b + "_" + c) + ("**" + e + "**" + f) + ("`" + g + "`" + h);
    assert '`' !in x && '_' !in y;
    CodeStage(x, g, h);
    ItalicStage(a, b, y, g, h);
    BoldStage(a, b, c, e, f, g, h);
  }

  lemma MultipleSectionsExample()
    ensures ThreeStages("This is _text_ **with** a `code block` word")
         == Ok([Plain("This is "), TextNode("text", Italic, None), Plain(" "), TextNode("with", Bold, None),
                Plain(" a "), TextNode("code block", Code, None), Plain(" word")])
  {
    MultipleSectionsPieces();
    MultipleSectionsUnmarked();
    ThreeStagesShape("This is ", "text", " ", "with", " a ", "code block", " word");
  }

  lemma MultipleSectionsPieces()
    ensures "This is _text_ **with** a `code block` word"
         == ("This is " + "_" + "text" + "_" + " ") + ("**" + "with" + "**" + " a ")
            + ("`" + "code block" + "`" + " word")
  {
    var p1, p2, p3 := "This is _text_ ", "**with** a ", "`code block` word";
    assert p1 == "This is " + "_" + "text" + "_" + " ";
    assert p2 == "**" + "with" + "**" + " a ";
    assert p3 == "`" + "code block" + "`" + " word";
    MultipleSectionsText(p1 + p2 + p3);
  }

  lemma MultipleSectionsText(s: string)
    requires s == "This is _text_ " + "**with** a " + "`code block` word"
    ensures s == "This is _text_ **with** a `code block` word"
  {
  }

  lemma MultipleSectionsUnmarked()
    ensures Unmarked("This is ") && Unmarked("text") && Unmarked(" ") && Unmarked("with")
    ensures Unmarked(" a ") && Unmarked("code block") && Unmarked(" word")
  {
  }

  // ---------------------------------------------------------------------
  // props_to_html and the whole conversion
  // ---------------------------------------------------------------------

  lemma HrefExample()
    ensures PropsToHtml(Some([Attr("href", "https://example.com")])) == " href=\"https://example.com\""
  {
    var attrs := [Attr("href", "https://example.com")];
    assert attrs[1..] == [];
  }

  /** Attributes render in insertion order, each after its own space. */
  lemma MultiplePropsExample()
    ensures PropsToHtml(Some([Attr("src", "https://example.com/goofy.jpg"), Attr("alt", "this is a goofy image")]))
         == " src=\"" + "https://example.com/goofy.jpg" + "\"" + " alt=\"" + "this is a goofy image" + "\""
  {
    var u, v := "https://example.com/goofy.jpg", "this is a goofy image";
    var src, alt := Attr("src", u), Attr("alt", v);
    assert AttrsToHtml([src, alt]) == AttrToHtml(src) + AttrToHtml(alt) by {
      AttrsAppend([src], [alt]);
      OneAttr(src);
      OneAttr(alt);
      assert [src] + [alt] == [src, alt];
    }
    NamedAttr("src", " src=\"", u);
    NamedAttr("alt", " alt=\"", v);
  }

  lemma NamedAttr(name: string, opening: string, value: string)
    requires opening == " " + name + "=\""
    ensures AttrToHtml(Attr(name, value)) == opening + value + "\""
  {
  }

  lemma OneAttr(a: Attr)
    ensures AttrsToHtml([a]) == AttrToHtml(a)
  {
    assert [a][1..] == [];
  }

  lemma NoPropsExample()
    ensures PropsToHtml(None) == "" && PropsToHtml(Some([])) == ""
  {
  }

  /** An empty document is an empty `div`, whatever the inline parser. */
  lemma EmptyDocumentExample(inline: InlineParser)
    ensures ToHtml(MarkdownToHtmlNode("", inline).value) == Ok("<div></div>")
  {
    BlankDocument("", inline);
  }
}
