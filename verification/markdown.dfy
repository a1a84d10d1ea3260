/**
 * The post-processing that turns the rendered text table into a markdown
 * table: drop the first and last line (the outer borders), turn every `+`
 * into `|`, and mark the last column right-aligned by rewriting each
 * line-final `--|` into `-:|`. The rendered text comes from a third-party
 * table library, so these functions take any string.
 */
module Markdown {

  /** `s.split("\n")`: the pieces between newlines; never empty. */
  function SplitLines(s: string): (lines: seq<string>)
    ensures |lines| >= 1
    ensures forall i :: 0 <= i < |lines| ==> '\n' !in lines[i]
  {
    if s == [] then [""]
    else if s[0] == '\n' then [""] + SplitLines(s[1..])
    else
      var rest := SplitLines(s[1..]);
      [[s[0]] + rest[0]] + rest[1..]
  }

  /** `"\n".join(lines)`. */
  function JoinLines(lines: seq<string>): string
  {
    if lines == [] then ""
    else if |lines| == 1 then lines[0]
    else lines[0] + "\n" + JoinLines(lines[1..])
  }

  /** Joining the pieces of a split gives back the text. */
  lemma {:induction false} JoinSplit(s: string)
    ensures JoinLines(SplitLines(s)) == s
  {
    if s != [] {
      JoinSplit(s[1..]);
      var rest := SplitLines(s[1..]);
      if s[0] == '\n' {
        assert ([""] + rest)[1..] == rest;
      } else {
        var lines := [[s[0]] + rest[0]] + rest[1..];
        assert lines[1..] == rest[1..];
        if |rest| > 1 {
          assert rest == [rest[0]] + rest[1..];
          assert JoinLines(rest) == rest[0] + "\n" + JoinLines(rest[1..]);
        }
      }
    }
  }

  /** A newline splits the text into the lines before it and the lines after it. */
  lemma {:induction false} SplitAround(a: string, b: string)
    ensures SplitLines(a + "\n" + b) == SplitLines(a) + SplitLines(b)
  {
    if a == [] {
      assert a + "\n" + b == "\n" + b;
      assert ("\n" + b)[1..] == b;
    } else {
      assert (a + "\n" + b)[0] == a[0];
      assert (a + "\n" + b)[1..] == a[1..] + "\n" + b;
      SplitAround(a[1..], b);
    }
  }

  /** A line without newline splits into just itself. */
  lemma {:induction false} SplitSingle(line: string)
    requires '\n' !in line
    ensures SplitLines(line) == [line]
  {
    if line != [] {
      SplitSingle(line[1..]);
      assert [line[0]] + line[1..] == line;
    }
  }

  /** Splitting a join of newline-free lines gives back the lines. */
  lemma {:induction false} SplitJoin(lines: seq<string>)
    requires |lines| >= 1
    requires forall i :: 0 <= i < |lines| ==> '\n' !in lines[i]
    ensures SplitLines(JoinLines(lines)) == lines
  {
    if |lines| == 1 {
      SplitSingle(lines[0]);
    } else {
      SplitJoin(lines[1..]);
      SplitAround(lines[0], JoinLines(lines[1..]));
      SplitSingle(lines[0]);
      assert lines == [lines[0]] + lines[1..];
    }
  }

  /** `"\n".join(table.split("\n")[1:-1])`. */
  function DropFirstLastLine(table: string): string
  {
    var lines := SplitLines(table);
    if |lines| < 2 then "" else JoinLines(lines[1..|lines| - 1])
  }

  /**
   * Exactly the first and the last line go: whatever stands between the
   * first and the last newline is kept as it is.
   */
  lemma DropFirstLastLineKeepsMiddle(first: string, middle: string, last: string)
    requires '\n' !in first && '\n' !in last
    ensures DropFirstLastLine(first + "\n" + middle + "\n" + last) == middle
  {
    var s := first + "\n" + middle + "\n" + last;
    assert s == first + "\n" + (middle + "\n" + last);
    SplitAround(first, middle + "\n" + last);
    SplitAround(middle, last);
    SplitSingle(first);
    SplitSingle(last);
    var lines := SplitLines(s);
    assert lines == [first] + SplitLines(middle) + [last];
    assert lines[1..|lines| - 1] == SplitLines(middle);
    JoinSplit(middle);
  }

  /** Text with fewer than two newlines has no middle, and nothing is left. */
  lemma DropFirstLastLineShort(a: string, b: string)
    requires '\n' !in a && '\n' !in b
    ensures DropFirstLastLine(a) == ""
    ensures DropFirstLastLine(a + "\n" + b) == ""
  {
    SplitSingle(a);
    SplitSingle(b);
    SplitAround(a, b);
  }

  /** `re.sub(r"\+", "|", s)`: every `+` becomes `|`, nothing else changes. */
  function ReplacePlus(s: string): (r: string)
    ensures |r| == |s|
    ensures forall i :: 0 <= i < |s| ==> r[i] == if s[i] == '+' then '|' else s[i]
    ensures '+' !in r
  {
    if s == [] then []
    else [if s[0] == '+' then '|' else s[0]] + ReplacePlus(s[1..])
  }

  /** The pattern `--|` followed by a newline. */
  const Separator: string := "--|\n"

  /** The rewrite of one separator: the last dash becomes the alignment colon. */
  const RightAligned: string := "-:|\n"

  /**
   * Position `i` holds the second dash of an occurrence of `--|\n`, the one
   * character the alignment rewrite changes.
   */
  predicate AlignSite(s: string, i: int)
  {
    1 <= i && i + 3 <= |s| && s[i - 1..i + 3] == Separator
  }

  /** A site, character by character. */
  lemma AlignSiteChars(s: string, i: int)
    ensures AlignSite(s, i) <==>
      1 <= i && i + 3 <= |s| && s[i - 1] == '-' && s[i] == '-' && s[i + 1] == '|' && s[i + 2] == '\n'
  {
    if 1 <= i && i + 3 <= |s| {
      assert s[i - 1..i + 3] == [s[i - 1], s[i], s[i + 1], s[i + 2]];
    }
  }

  /** After a separator, sites are those of the remaining text, shifted by four. */
  lemma SitesAfterSeparator(s: string, i: int)
    requires |s| >= 4 && s[..4] == Separator && 0 <= i < |s|
    ensures i < 4 ==> (AlignSite(s, i) <==> i == 1)
    ensures i >= 4 ==> (AlignSite(s, i) <==> AlignSite(s[4..], i - 4))
  {
    assert s[0] == s[..4][0] && s[1] == s[..4][1] && s[2] == s[..4][2] && s[3] == s[..4][3];
    AlignSiteChars(s, i);
    if i >= 4 {
      AlignSiteChars(s[4..], i - 4);
    }
  }

  /** Where no separator starts, sites are those of the rest of the text, shifted by one. */
  lemma SitesAfterChar(s: string, i: int)
    requires s != [] && !(|s| >= 4 && s[..4] == Separator) && 0 <= i < |s|
    ensures i == 0 ==> !AlignSite(s, i)
    ensures i >= 1 ==> (AlignSite(s, i) <==> AlignSite(s[1..], i - 1))
  {
    AlignSiteChars(s, i);
    if i == 1 && |s| >= 4 {
      AlignSiteChars(s[..4], 1);
    } else if i > 1 {
      AlignSiteChars(s[1..], i - 1);
    }
  }

  /**
   * `re.sub(r"--\|\n", "-:|\n", s)`: scanning left to right, each occurrence
   * is replaced and scanning resumes after it. Occurrences cannot overlap,
   * so every occurrence is rewritten and only its second dash changes.
   */
  function RightAlign(s: string): (r: string)
    ensures |r| == |s|
    ensures forall i :: 0 <= i < |s| ==> r[i] == if AlignSite(s, i) then ':' else s[i]
  {
    if |s| >= 4 && s[..4] == Separator then
      var r := RightAligned + RightAlign(s[4..]);
      forall i | 0 <= i < |s|
        ensures r[i] == if AlignSite(s, i) then ':' else s[i]
      {
        SitesAfterSeparator(s, i);
        if i < 4 {
          assert s[i] == Separator[i];
        }
      }
      r
    else if s == [] then []
    else
      var r := [s[0]] + RightAlign(s[1..]);
      forall i | 0 <= i < |s|
        ensures r[i] == if AlignSite(s, i) then ':' else s[i]
      {
        SitesAfterChar(s, i);
      }
      r
  }

  /** The rewrite leaves no `--|` before a newline behind, so it creates no new site. */
  lemma {:induction false} RightAlignLeavesNoSite(s: string, i: int)
    ensures !AlignSite(RightAlign(s), i)
  {
    var r := RightAlign(s);
    AlignSiteChars(r, i);
    if AlignSite(r, i) {
      assert r[i - 1] != ':' && r[i] != ':' && r[i + 1] != ':' && r[i + 2] != ':';
      assert !AlignSite(s, i - 1) && !AlignSite(s, i) && !AlignSite(s, i + 1) && !AlignSite(s, i + 2);
      AlignSiteChars(s, i);
      assert false;
    }
  }

  /** Rewriting twice is rewriting once. */
  lemma RightAlignIdempotent(s: string)
    ensures RightAlign(RightAlign(s)) == RightAlign(s)
  {
    var r := RightAlign(s);
    forall i | 0 <= i < |r|
      ensures RightAlign(r)[i] == r[i]
    {
      RightAlignLeavesNoSite(s, i);
    }
  }

  /** The whole post-processing of `get_account_classification_table`. */
  function MarkdownTable(rendered: string): (r: string)
    ensures '+' !in r
  {
    var s := ReplacePlus(DropFirstLastLine(rendered));
    var r := RightAlign(s);
    assert forall i :: 0 <= i < |r| ==> r[i] != '+';
    r
  }

  /**
   * For a rendering with a top border line, a body and a bottom border line,
   * the markdown table is the body with `+` turned into `|` and the second
   * dash of every line-final `--|` turned into `:`; nothing else changes.
   */
  lemma MarkdownTableOfBordered(top: string, body: string, bottom: string)
    requires '\n' !in top && '\n' !in bottom
    ensures |MarkdownTable(top + "\n" + body + "\n" + bottom)| == |body|
    ensures forall i :: 0 <= i < |body| ==>
      MarkdownTable(top + "\n" + body + "\n" + bottom)[i] ==
        if AlignSite(ReplacePlus(body), i) then ':'
        else if body[i] == '+' then '|'
        else body[i]
  {
    DropFirstLastLineKeepsMiddle(top, body, bottom);
  }

  /** A separator row ending a line gets its colon; one that ends the text does not. */
  lemma SeparatorRowExample()
    ensures RightAlign("|--|--|\n") == "|--|-:|\n"
    ensures RightAlign("|--|--|") == "|--|--|"
  {
    var s := "|--|--|\n";
    forall i | 0 <= i < |s|
      ensures AlignSite(s, i) <==> i == 5
    {
      AlignSiteChars(s, i);
    }
    var t := "|--|--|";
    forall i | 0 <= i < |t|
      ensures !AlignSite(t, i)
    {
      AlignSiteChars(t, i);
    }
  }
}
