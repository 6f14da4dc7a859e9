/** `extract_title` of `generate_page.py`: the page title is the first line
    that opens with `"# "`, without its leading hashes and surrounding
    whitespace. */
module Title {
  import opened Wrappers
  import opened Errors
  import opened Strings

  /** A line the title search accepts. */
  predicate IsTitleLine(line: string) {
    "# " <= line
  }

  /** The title a title line gives: `line.lstrip("#").strip()`. */
  function TitleOf(line: string): string {
    Strip(TrimStartChar(line, '#'))
  }

  /** The loop over the lines: the position of the first title line. */
  function FirstTitleLine(lines: seq<string>): (r: Option<nat>)
    ensures r.None? <==> forall k :: 0 <= k < |lines| ==> !IsTitleLine(lines[k])
    ensures r.Some? ==> r.value < |lines| && IsTitleLine(lines[r.value])
                        && forall j :: 0 <= j < r.value ==> !IsTitleLine(lines[j])
    decreases |lines|
  {
    if lines == [] then None
    else if IsTitleLine(lines[0]) then Some(0)
    else match FirstTitleLine(lines[1..])
      case None => None
      case Some(k) => Some(k + 1)
  }

  /** `extract_title`: fails exactly when no line opens with `"# "`;
      otherwise the title of the first line that does, which is stripped
      and never spans a line break. */
  function ExtractTitle(markdown: string): (r: Result<string, Error>)
    ensures r.Err? <==> forall k :: 0 <= k < |Split(markdown, "\n")| ==> !IsTitleLine(Split(markdown, "\n")[k])
    ensures r.Err? ==> r.error == NoTitle
    ensures r.Ok? ==> IsStripped(r.value) && '\n' !in r.value
    ensures r.Ok? ==> (exists k :: 0 <= k < |Split(markdown, "\n")| && r.value == TitleOf(Split(markdown, "\n")[k])
                                   && IsTitleLine(Split(markdown, "\n")[k])
                                   && forall j :: 0 <= j < k ==> !IsTitleLine(Split(markdown, "\n")[j]))
  {
    var lines := Split(markdown, "\n");
    match FirstTitleLine(lines)
    case None => Err(NoTitle)
    case Some(k) =>
      SplitPiecesFree(markdown, "\n");
      CharNotContained(lines[k], '\n');
      TitleHasNoBreak(lines[k]);
      Ok(TitleOf(lines[k]))
  }

  /** A title is cut out of its line, so a line without breaks gives a
      title without breaks. */
  lemma TitleHasNoBreak(line: string)
    requires '\n' !in line
    ensures '\n' !in TitleOf(line)
  {
    var t := TrimStartChar(line, '#');
    assert t == line[|line| - |t|..];
    assert forall x :: x in t ==> x in line;
    StripKeepsOut(t, '\n');
  }

  lemma StripKeepsOut(s: string, c: char)
    requires c !in s
    ensures c !in Strip(s)
  {
    var r := Strip(s);
    var a := StripIsInfix(s);
    forall x | x in r
      ensures x in s
    {
      var k :| 0 <= k < |r| && r[k] == x;
      assert r[k] == s[a + k];
    }
  }

  /** The title of a line made of one `#`, whitespace starting with a
      space, and a stripped text is that text, even when the text itself
      opens with `#`. */
  lemma TitleOfPadded(pad: string, title: string)
    requires pad != [] && pad[0] == ' ' && AllSpace(pad)
    requires title != [] && IsStripped(title)
    ensures IsTitleLine("#" + pad + title)
    ensures TitleOf("#" + pad + title) == title
  {
    var line := "#" + pad + title;
    var after := pad + title;
    assert line[1..] == after;
    assert TrimStartChar(line, '#') == TrimStartChar(after, '#');
    assert TrimStartChar(after, '#') == after;
    assert line[..2] == "# ";
    assert after == pad + title + "";
    StripUnique(pad, title, "");
  }

  /** A document whose first line is a title line gives that line's title
      back, whatever follows. */
  lemma TitleRoundTrip(pad: string, title: string, rest: string)
    requires pad != [] && pad[0] == ' ' && AllSpace(pad) && '\n' !in pad
    requires title != [] && IsStripped(title) && '\n' !in title
    ensures ExtractTitle("#" + pad + title + "\n" + rest) == Ok(title)
  {
    var line := "#" + pad + title;
    assert '\n' !in line;
    CharFree(line, '\n');
    SplitAfter(line, "\n", rest);
    var md := "#" + pad + title + "\n" + rest;
    assert md == line + "\n" + rest;
    var lines := Split(md, "\n");
    assert lines[0] == line;
    TitleOfPadded(pad, title);
    assert FirstTitleLine(lines) == Some(0);
  }

  /** The same for a document that is nothing but its title line. */
  lemma TitleOnlyLine(pad: string, title: string)
    requires pad != [] && pad[0] == ' ' && AllSpace(pad) && '\n' !in pad
    requires title != [] && IsStripped(title) && '\n' !in title
    ensures ExtractTitle("#" + pad + title) == Ok(title)
  {
    var line := "#" + pad + title;
    assert '\n' !in line;
    CharFree(line, '\n');
    SplitFree(line, "\n");
    TitleOfPadded(pad, title);
    assert FirstTitleLine([line]) == Some(0);
  }
}
