/** The handful of Python `str` operations the converter relies on:
    `split`, `count`, `join`, `strip`/`lstrip`, `index`, `replace` and the
    decimal rendering of an `int`, over `string` = `seq<char>`. */
module Strings {
  import opened Wrappers

  /** The ASCII characters `str.isspace` accepts, which are the ones
      `strip()` and `lstrip()` remove by default. */
  predicate IsSpace(c: char) {
    c == ' ' || c == '\t' || c == '\n' || c == '\r'
    || c == '\U{0B}' || c == '\U{0C}' || ('\U{1C}' <= c <= '\U{1F}')
  }

  predicate AllSpace(s: string) {
    forall i :: 0 <= i < |s| ==> IsSpace(s[i])
  }

  /** No whitespace at either end: what `strip()` leaves behind. */
  predicate IsStripped(s: string) {
    s == [] || (!IsSpace(s[0]) && !IsSpace(s[|s| - 1]))
  }

  /** `d` occurs in `s` starting at index `i`. */
  predicate OccursAt(s: string, d: string, i: nat) {
    i + |d| <= |s| && s[i..i + |d|] == d
  }

  /** Python's `d in s`. */
  predicate Contains(s: string, d: string) {
    exists i: nat :: i <= |s| && OccursAt(s, d, i)
  }

  /** No occurrence of `d` in `p + d` starts inside `p`: once `p` is followed
      by a separator, the first separator the scan finds is that one. */
  predicate NoStraddle(p: string, d: string) {
    forall i: nat :: i < |p| ==> !OccursAt(p + d, d, i)
  }

  // ---------------------------------------------------------------------
  // count / split / join
  // ---------------------------------------------------------------------

  /** `s.count(d)` for a non-empty `d`: non-overlapping occurrences, scanned
      from the left. */
  function Count(s: string, d: string): nat
    requires d != []
    decreases |s|
  {
    if |s| == 0 then 0
    else if d <= s then 1 + Count(s[|d|..], d)
    else Count(s[1..], d)
  }

  /** `s.split(d)` for a non-empty `d`: the pieces between the occurrences
      `Count` counts. There is always one piece more than occurrences. */
  function Split(s: string, d: string): (r: seq<string>)
    requires d != []
    ensures |r| == Count(s, d) + 1
    decreases |s|
  {
    if |s| == 0 then [""]
    else if d <= s then [""] + Split(s[|d|..], d)
    else
      var rest := Split(s[1..], d);
      [[s[0]] + rest[0]] + rest[1..]
  }

  /** `d.join(ps)`. */
  function Join(ps: seq<string>, d: string): string
  {
    if |ps| == 0 then ""
    else if |ps| == 1 then ps[0]
    else ps[0] + d + Join(ps[1..], d)
  }

  lemma JoinConsFirst(c: char, ps: seq<string>, d: string)
    requires |ps| >= 1
    ensures Join([[c] + ps[0]] + ps[1..], d) == [c] + Join(ps, d)
  {
    var qs := [[c] + ps[0]] + ps[1..];
    assert qs[1..] == ps[1..];
  }

  /** Joining the pieces of a split with the same separator gives the
      original string back. */
  lemma {:induction false} JoinSplit(s: string, d: string)
    requires d != []
    ensures Join(Split(s, d), d) == s
    decreases |s|
  {
    if |s| == 0 {
    } else if d <= s {
      var rest := Split(s[|d|..], d);
      JoinSplit(s[|d|..], d);
      assert Split(s, d) == [""] + rest;
      assert ([""] + rest)[1..] == rest;
      assert s == d + s[|d|..];
    } else {
      var rest := Split(s[1..], d);
      JoinSplit(s[1..], d);
      JoinConsFirst(s[0], rest, d);
      assert s == [s[0]] + s[1..];
    }
  }

  /** There are never more occurrences than characters. */
  lemma {:induction false} CountAtMostLength(s: string, d: string)
    requires d != []
    ensures Count(s, d) <= |s|
    decreases |s|
  {
    if |s| > 0 {
      if d <= s {
        CountAtMostLength(s[|d|..], d);
      } else {
        CountAtMostLength(s[1..], d);
      }
    }
  }

  /** Joining one more piece at the end appends the separator and it. */
  lemma {:induction false} JoinSnoc(ps: seq<string>, x: string, d: string)
    requires ps != []
    ensures Join(ps + [x], d) == Join(ps, d) + d + x
    decreases |ps|
  {
    var qs := ps + [x];
    assert qs[0] == ps[0];
    if |ps| > 1 {
      assert qs[1..] == ps[1..] + [x];
      JoinSnoc(ps[1..], x, d);
      var j := Join(ps[1..], d);
      assert ps[0] + d + (j + d + x) == (ps[0] + d + j) + d + x;
    }
  }

  /** A character of one piece is a character of the joined string. */
  lemma {:induction false} InJoin(ps: seq<string>, k: nat, c: char, d: string)
    requires k < |ps| && c in ps[k]
    ensures c in Join(ps, d)
    decreases |ps|
  {
    if |ps| > 1 {
      var rest := Join(ps[1..], d);
      assert Join(ps, d) == (ps[0] + d) + rest;
      if k == 0 {
        assert (ps[0] + d) + rest == ps[0] + (d + rest);
      } else {
        assert ps[1..][k - 1] == ps[k];
        InJoin(ps[1..], k - 1, c, d);
      }
    }
  }

  /** A character of a piece of a split is a character of the string. */
  lemma InSplitPiece(s: string, d: string, k: nat, c: char)
    requires d != [] && k < |Split(s, d)| && c in Split(s, d)[k]
    ensures c in s
  {
    InJoin(Split(s, d), k, c, d);
    JoinSplit(s, d);
  }

  /** Not containing the one-character string `[c]` is not containing `c`. */
  lemma CharNotContained(s: string, c: char)
    requires !Contains(s, [c])
    ensures c !in s
  {
    forall i | 0 <= i < |s|
      ensures s[i] != c
    {
      assert !OccursAt(s, [c], i);
      assert s[i..i + 1] == [s[i]];
    }
  }

  /** The first piece of a split is a prefix of the string split. */
  lemma {:induction false} SplitFirstIsPrefix(s: string, d: string)
    requires d != []
    ensures Split(s, d)[0] <= s
    decreases |s|
  {
    if |s| == 0 {
    } else if d <= s {
    } else {
      SplitFirstIsPrefix(s[1..], d);
    }
  }

  lemma ConsFree(c: char, p: string, d: string)
    requires d != []
    requires !Contains(p, d)
    requires !(d <= [c] + p)
    ensures !Contains([c] + p, d)
  {
    var q := [c] + p;
    forall i: nat | i <= |q|
      ensures !OccursAt(q, d, i)
    {
      if i == 0 {
        if |d| <= |q| {
          assert q[0..|d|] == q[..|d|];
        }
      } else {
        assert !OccursAt(p, d, i - 1);
        if i + |d| <= |q| {
          assert q[i..i + |d|] == p[i - 1..i - 1 + |d|];
        }
      }
    }
  }

  /** No piece of a split contains the separator. */
  lemma {:induction false} SplitPiecesFree(s: string, d: string)
    requires d != []
    ensures forall k :: 0 <= k < |Split(s, d)| ==> !Contains(Split(s, d)[k], d)
    decreases |s|
  {
    if |s| == 0 {
      assert !OccursAt("", d, 0);
    } else if d <= s {
      var rest := Split(s[|d|..], d);
      SplitPiecesFree(s[|d|..], d);
      assert Split(s, d) == [""] + rest;
      assert !OccursAt("", d, 0);
    } else {
      var rest := Split(s[1..], d);
      SplitPiecesFree(s[1..], d);
      SplitFirstIsPrefix(s[1..], d);
      var p := [s[0]] + rest[0];
      assert p <= s;
      if |d| <= |p| {
        assert p[..|d|] == s[..|d|];
      }
      ConsFree(s[0], rest[0], d);
      assert Split(s, d) == [p] + rest[1..];
    }
  }

  /** A string without the separator splits into itself alone. */
  lemma {:induction false} SplitFree(p: string, d: string)
    requires d != []
    requires !Contains(p, d)
    ensures Split(p, d) == [p]
    decreases |p|
  {
    if |p| == 0 {
    } else {
      assert !OccursAt(p, d, 0);
      TailFree(p, d);
      SplitFree(p[1..], d);
      assert p == [p[0]] + p[1..];
    }
  }

  /** Dropping the first character keeps a string free of `d`. */
  lemma TailFree(p: string, d: string)
    requires |p| > 0 && !Contains(p, d)
    ensures !Contains(p[1..], d)
  {
    forall i: nat | i <= |p[1..]|
      ensures !OccursAt(p[1..], d, i)
    {
      assert !OccursAt(p, d, i + 1);
      if i + |d| <= |p[1..]| {
        assert p[1..][i..i + |d|] == p[i + 1..i + 1 + |d|];
      }
    }
  }

  lemma NoStraddleHead(p: string, d: string, rest: string)
    requires |p| > 0 && NoStraddle(p, d)
    ensures !(d <= p + d + rest)
  {
    assert !OccursAt(p + d, d, 0);
    assert (p + d)[0..|d|] == (p + d + rest)[..|d|];
  }

  lemma NoStraddleTail(p: string, d: string)
    requires |p| > 0 && NoStraddle(p, d)
    ensures NoStraddle(p[1..], d)
  {
    forall i: nat | i < |p| - 1
      ensures !OccursAt(p[1..] + d, d, i)
    {
      assert !OccursAt(p + d, d, i + 1);
      if i + |d| <= |p[1..] + d| {
        assert (p[1..] + d)[i..i + |d|] == (p + d)[i + 1..i + 1 + |d|];
      }
    }
  }

  /** A piece followed by a separator it does not straddle is split off
      first, unchanged. */
  lemma {:induction false} SplitAfter(p: string, d: string, rest: string)
    requires d != []
    requires NoStraddle(p, d)
    ensures Split(p + d + rest, d) == [p] + Split(rest, d)
    decreases |p|
  {
    var s := p + d + rest;
    if |p| == 0 {
      assert s == d + rest;
      assert d <= s by {
        assert s[..|d|] == d;
      }
      assert s[|d|..] == rest;
      assert p == "";
    } else {
      NoStraddleTail(p, d);
      SplitAfter(p[1..], d, rest);
      SplitAfterCons(p, d, rest);
    }
  }

  /** The step of `SplitAfter`: the first character of the piece joins the
      first piece of the rest. */
  lemma SplitAfterCons(p: string, d: string, rest: string)
    requires d != [] && |p| > 0 && NoStraddle(p, d)
    requires Split(p[1..] + d + rest, d) == [p[1..]] + Split(rest, d)
    ensures Split(p + d + rest, d) == [p] + Split(rest, d)
  {
    var s := p + d + rest;
    var q := p[1..] + d + rest;
    assert s[1..] == q by {
      DropFirst(p, d + rest);
      assert s == p + (d + rest) && q == p[1..] + (d + rest);
    }
    NoStraddleHead(p, d, rest);
    SplitNoPrefix(s, d);
    var tail := Split(q, d);
    assert tail[0] == p[1..] && tail[1..] == Split(rest, d);
    assert [s[0]] + p[1..] == p by {
      assert s[0] == p[0];
    }
  }

  lemma DropFirst(p: string, x: string)
    requires |p| > 0
    ensures (p + x)[1..] == p[1..] + x
  {
  }

  /** One step of `Split` where the separator does not start the text. */
  lemma SplitNoPrefix(s: string, d: string)
    requires d != [] && |s| > 0 && !(d <= s)
    ensures Split(s, d) == [[s[0]] + Split(s[1..], d)[0]] + Split(s[1..], d)[1..]
  {
  }

  /** Splitting a join gives back the pieces, provided none of them
      contains the separator and none but the last straddles it. */
  lemma {:induction false} SplitJoin(ps: seq<string>, d: string)
    requires d != [] && |ps| >= 1
    requires forall k :: 0 <= k < |ps| - 1 ==> NoStraddle(ps[k], d)
    requires !Contains(ps[|ps| - 1], d)
    ensures Split(Join(ps, d), d) == ps
    decreases |ps|
  {
    if |ps| == 1 {
      SplitFree(ps[0], d);
    } else {
      SplitJoin(ps[1..], d);
      SplitAfter(ps[0], d, Join(ps[1..], d));
    }
  }

  /** With a one-character separator, not containing the character is all
      it takes to be a piece. */
  lemma CharFree(p: string, c: char)
    requires c !in p
    ensures !Contains(p, [c]) && NoStraddle(p, [c])
  {
    forall i: nat | i <= |p|
      ensures !OccursAt(p, [c], i)
    {
      if i < |p| {
        assert p[i] in p;
        assert p[i..i + 1] == [p[i]];
      }
    }
    forall i: nat | i < |p|
      ensures !OccursAt(p + [c], [c], i)
    {
      assert p[i] in p;
      assert (p + [c])[i..i + 1] == [p[i]];
    }
  }

  /** A string without the first character of a separator neither
      contains it nor straddles it. */
  lemma HeadFree(p: string, d: string)
    requires d != [] && d[0] !in p
    ensures !Contains(p, d) && NoStraddle(p, d)
  {
    forall i: nat | i <= |p|
      ensures !OccursAt(p, d, i)
    {
      if i + |d| <= |p| {
        assert p[i] in p;
        assert p[i..i + |d|][0] == p[i];
      }
    }
    forall i: nat | i < |p|
      ensures !OccursAt(p + d, d, i)
    {
      assert p[i] in p;
      if i + |d| <= |p + d| {
        assert (p + d)[i..i + |d|][0] == p[i];
      }
    }
  }

  /** A piece without a blank line that does not end in a line break does
      not straddle the `"\n\n"` that follows it. */
  lemma BlankLineNoStraddle(p: string)
    requires !Contains(p, "\n\n")
    requires p == [] || p[|p| - 1] != '\n'
    ensures NoStraddle(p, "\n\n")
  {
    var d := "\n\n";
    forall i: nat | i < |p|
      ensures !OccursAt(p + d, d, i)
    {
      if i + 2 <= |p| {
        assert !OccursAt(p, d, i);
        assert (p + d)[i..i + 2] == p[i..i + 2];
      } else {
        assert (p + d)[i] == p[|p| - 1];
      }
    }
  }

  /** A piece of a string inherits the absence of a separator. */
  lemma InfixFree(s: string, a: nat, b: nat, d: string)
    requires a <= b <= |s|
    requires !Contains(s, d)
    ensures !Contains(s[a..b], d)
  {
    var t := s[a..b];
    forall i: nat | i <= |t|
      ensures !OccursAt(t, d, i)
    {
      assert !OccursAt(s, d, a + i);
      if i + |d| <= |t| {
        var u, w := t[i..i + |d|], s[a + i..a + i + |d|];
        assert forall j :: 0 <= j < |d| ==> u[j] == w[j];
      }
    }
  }

  /** A string found inside another inherits the absence of a separator. */
  lemma OccurrenceFree(s: string, r: string, a: nat, d: string)
    requires OccursAt(s, r, a)
    requires !Contains(s, d)
    ensures !Contains(r, d)
  {
    InfixFree(s, a, a + |r|, d);
  }

  // ---------------------------------------------------------------------
  // strip / lstrip
  // ---------------------------------------------------------------------

  /** `s.lstrip()`: drops leading whitespace and nothing else. */
  function TrimStart(s: string): (r: string)
    ensures |r| <= |s|
    ensures r == s[|s| - |r|..]
    ensures AllSpace(s[..|s| - |r|])
    ensures r == [] || !IsSpace(r[0])
    decreases |s|
  {
    if |s| > 0 && IsSpace(s[0]) then TrimStart(s[1..]) else s
  }

  /** `s.rstrip()`: drops trailing whitespace and nothing else. */
  function TrimEnd(s: string): (r: string)
    ensures |r| <= |s|
    ensures r == s[..|r|]
    ensures AllSpace(s[|r|..])
    ensures r == [] || !IsSpace(r[|r| - 1])
    decreases |s|
  {
    if |s| > 0 && IsSpace(s[|s| - 1]) then
      var r := TrimEnd(s[..|s| - 1]);
      assert s[..|s| - 1][..|r|] == s[..|r|];
      assert s[|r|..] == s[..|s| - 1][|r|..] + [s[|s| - 1]];
      r
    else s
  }

  /** `s.strip()`: the result has no surrounding whitespace, is empty
      exactly when `s` is all whitespace, and leaves an already stripped
      string alone. */
  function Strip(s: string): (r: string)
    ensures |r| <= |s|
    ensures IsStripped(r)
    ensures r == [] <==> AllSpace(s)
    ensures IsStripped(s) ==> r == s
  {
    var t := TrimStart(s);
    var r := TrimEnd(t);
    assert r == [] ==> AllSpace(s) by {
      if r == [] {
        assert t[|r|..] == t;
        assert s[..|s| - |t|] == s;
      }
    }
    r
  }

  /** What `strip()` keeps is a piece of `s` flanked by whitespace only. */
  lemma StripIsInfix(s: string) returns (a: nat)
    ensures a <= |s| && OccursAt(s, Strip(s), a)
    ensures AllSpace(s[..a]) && AllSpace(s[a + |Strip(s)|..])
  {
    var t := TrimStart(s);
    var r := TrimEnd(t);
    assert Strip(s) == r;
    a := |s| - |t|;
    InfixOfSuffix(s, t, r);
  }

  /** A prefix `r` of a suffix `t` of `s` sits in `s` where `t` starts. */
  lemma InfixOfSuffix(s: string, t: string, r: string)
    requires |t| <= |s| && t == s[|s| - |t|..]
    requires |r| <= |t| && r == t[..|r|] && AllSpace(t[|r|..])
    ensures OccursAt(s, r, |s| - |t|)
    ensures AllSpace(s[|s| - |t| + |r|..])
  {
    var a := |s| - |t|;
    assert s[a..a + |r|] == t[..|r|];
    assert s[a + |r|..] == t[|r|..];
  }

  lemma {:induction false} TrimStartSpaces(pre: string, x: string)
    requires AllSpace(pre) && (x == [] || !IsSpace(x[0]))
    ensures TrimStart(pre + x) == x
    decreases |pre|
  {
    if pre == [] {
      assert pre + x == x;
    } else {
      assert (pre + x)[0] == pre[0];
      assert (pre + x)[1..] == pre[1..] + x;
      TrimStartSpaces(pre[1..], x);
    }
  }

  lemma {:induction false} TrimEndSpaces(x: string, post: string)
    requires AllSpace(post) && (x == [] || !IsSpace(x[|x| - 1]))
    ensures TrimEnd(x + post) == x
    decreases |post|
  {
    if post == [] {
      assert x + post == x;
    } else {
      var s := x + post;
      assert s[|s| - 1] == post[|post| - 1];
      assert s[..|s| - 1] == x + post[..|post| - 1];
      TrimEndSpaces(x, post[..|post| - 1]);
    }
  }

  /** Stripping a stripped text surrounded by whitespace gives exactly that
      text. */
  lemma StripUnique(pre: string, mid: string, post: string)
    requires AllSpace(pre) && AllSpace(post) && IsStripped(mid) && mid != []
    ensures Strip(pre + mid + post) == mid
  {
    assert pre + mid + post == pre + (mid + post);
    assert (mid + post)[0] == mid[0];
    TrimStartSpaces(pre, mid + post);
    TrimEndSpaces(mid, post);
  }

  predicate AllChar(s: string, c: char) {
    forall i :: 0 <= i < |s| ==> s[i] == c
  }

  /** `s.lstrip(c)`: drops the leading copies of `c`. */
  function TrimStartChar(s: string, c: char): (r: string)
    ensures |r| <= |s|
    ensures r == s[|s| - |r|..]
    ensures AllChar(s[..|s| - |r|], c)
    ensures r == [] || r[0] != c
    decreases |s|
  {
    if |s| > 0 && s[0] == c then TrimStartChar(s[1..], c) else s
  }

  // ---------------------------------------------------------------------
  // index / replace / str(int)
  // ---------------------------------------------------------------------

  /** `s.index(c)`, with `None` where Python raises `ValueError`: the first
      position holding `c`. */
  function IndexOf(s: string, c: char): (r: Option<nat>)
    ensures r.None? <==> c !in s
    ensures r.Some? ==> r.value < |s| && s[r.value] == c && c !in s[..r.value]
  {
    if |s| == 0 then None
    else if s[0] == c then Some(0)
    else match IndexOf(s[1..], c)
      case None => None
      case Some(k) =>
        assert s[..k + 1] == [s[0]] + s[1..][..k];
        Some(k + 1)
  }

  /** The first `c` after a `c`-free prefix is found right after it. */
  lemma {:induction false} IndexAfter(p: string, c: char, rest: string)
    requires c !in p
    ensures IndexOf(p + [c] + rest, c) == Some(|p|)
    decreases |p|
  {
    var s := p + [c] + rest;
    if p != [] {
      assert p[0] in p;
      assert s[1..] == p[1..] + [c] + rest;
      assert forall x :: x in p[1..] ==> x in p;
      IndexAfter(p[1..], c, rest);
    }
  }

  /** `s.replace(a, b)` for single characters. */
  function ReplaceChar(s: string, a: char, b: char): (r: string)
    ensures |r| == |s|
    ensures a != b ==> a !in r
    ensures forall i :: 0 <= i < |s| && s[i] != a ==> r[i] == s[i]
  {
    seq(|s|, i requires 0 <= i < |s| => if s[i] == a then b else s[i])
  }

  function Digit(n: nat): (c: char)
    requires n < 10
  {
    "0123456789"[n]
  }

  function DigitValue(c: char): nat
  {
    if '0' <= c <= '9' then (c as int - '0' as int) as nat else 0
  }

  predicate IsDigit(c: char) {
    '0' <= c <= '9'
  }

  /** `str(n)` for a natural number: its decimal digits, most significant
      first. */
  function NatToString(n: nat): (r: string)
    ensures |r| >= 1
    ensures forall i :: 0 <= i < |r| ==> IsDigit(r[i])
    decreases n
  {
    if n < 10 then [Digit(n)] else NatToString(n / 10) + [Digit(n % 10)]
  }

  /** `int(s)` for a string of decimal digits. */
  function DigitsToNat(s: string): nat
    decreases |s|
  {
    if |s| == 0 then 0 else 10 * DigitsToNat(s[..|s| - 1]) + DigitValue(s[|s| - 1])
  }

  /** Reading the rendered digits back gives the number. */
  lemma {:induction false} DigitsRoundTrip(n: nat)
    ensures DigitsToNat(NatToString(n)) == n
    decreases n
  {
    var r := NatToString(n);
    if n < 10 {
      assert r[..0] == [];
    } else {
      DigitsRoundTrip(n / 10);
      assert r[..|r| - 1] == NatToString(n / 10);
    }
  }
}
