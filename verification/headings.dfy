/** The markdown side of parse_markdown: the post title comes from the
    first match of `^#\s+(.+)`, that match is cut out of the body, and the
    matches of `^##\s+(.+)` in the body are collected for image placement.

    Both patterns have the shape `^#\s+(.+)` and are compiled with
    MULTILINE: `^` matches at the start of the text and just after every
    newline, the greedy `\s+` may run on across newlines (giving back
    characters when `.+` needs them), and `.` matches anything but a
    newline, so the group runs to the end of its line. */
module MarkdownHeadings {
  import opened Text

  predicate NotNewline(c: char) {
    c != '\n'
  }

  /** End of the run of characters satisfying `p` that starts at `from`. */
  function RunEnd(t: string, from: nat, p: char -> bool): (k: nat)
    requires from <= |t|
    ensures from <= k <= |t|
    ensures forall i :: from <= i < k ==> p(t[i])
    ensures k < |t| ==> !p(t[k])
    decreases |t| - from
  {
    if from == |t| || !p(t[from]) then from else RunEnd(t, from + 1, p)
  }

  /** `^` under MULTILINE. */
  predicate AtLineStart(s: string, p: nat) {
    p <= |s| && (p == 0 || s[p - 1] == '\n')
  }

  // ---------------------------------------------------------------------
  // One heading line
  // ---------------------------------------------------------------------

  /** A way for `hashes \s+ (.+)` to match at the start of `t` with the group
      occupying [g, e): the hashes, a non-empty run of whitespace up to `g`,
      then a non-empty run of characters other than a newline up to `e`, and
      the greedy `.+` only stops at a newline or at the end of the text. */
  ghost predicate Parses(t: string, hashes: string, g: int, e: int) {
    && hashes <= t
    && |hashes| < g < e <= |t|
    && (forall i :: |hashes| <= i < g ==> IsSpace(t[i]))
    && (forall i :: g <= i < e ==> t[i] != '\n')
    && (e == |t| || t[e] == '\n')
  }

  /** Backtracking of the greedy `\s+`: the largest position in [lo, hi]
      at which `.+` can start, that is, one holding a character other than
      a newline. */
  function GroupStart(t: string, lo: nat, hi: nat): (r: Option<nat>)
    requires lo <= hi <= |t|
    ensures r.Some? ==> lo <= r.value <= hi && r.value < |t| && t[r.value] != '\n'
    ensures r.Some? ==> forall j :: r.value < j <= hi && j < |t| ==> t[j] == '\n'
    ensures r.None? ==> forall j :: lo <= j <= hi && j < |t| ==> t[j] == '\n'
    decreases hi
  {
    if hi < |t| && t[hi] != '\n' then Some(hi)
    else if hi <= lo then None
    else GroupStart(t, lo, hi - 1)
  }

  /** The match of `hashes \s+ (.+)` at the very start of `t`, as the
      group's bounds: the whitespace run is taken whole, then given back one
      character at a time until the group can start. */
  function LineMatch(t: string, hashes: string): (r: Option<(nat, nat)>)
    ensures r.Some? ==> Parses(t, hashes, r.value.0, r.value.1)
  {
    if !(hashes <= t) then None
    else
      var a := |hashes|;
      var w := RunEnd(t, a, IsSpace);
      if w == a then None
      else
        match GroupStart(t, a + 1, w)
        case None => None
        case Some(g) =>
          var e := RunEnd(t, g, NotNewline);
          Some((g, e))
  }

  /** LineMatch misses no match, and among all the ways the pattern can
      match it picks the one the regex engine picks: the longest whitespace
      run, and then the group up to the end of the line. */
  lemma LineMatchGreedy(t: string, hashes: string, g: int, e: int)
    requires Parses(t, hashes, g, e)
    ensures LineMatch(t, hashes).Some?
    ensures g <= LineMatch(t, hashes).value.0
    ensures g == LineMatch(t, hashes).value.0 ==> e == LineMatch(t, hashes).value.1
  {
    var a := |hashes|;
    var w := RunEnd(t, a, IsSpace);
    assert g <= w;
    assert t[g] != '\n';
    var gs := GroupStart(t, a + 1, w);
    assert gs.Some?;
    if gs.value == g {
      var e' := RunEnd(t, g, NotNewline);
      assert e' == e;
    }
  }

  /** When the group starts with a visible character, the match is the
      obvious one. */
  lemma LineMatchPlain(t: string, hashes: string, g: int, e: int)
    requires Parses(t, hashes, g, e) && !IsSpace(t[g])
    ensures LineMatch(t, hashes) == Some((g, e))
  {
    LineMatchGreedy(t, hashes, g, e);
    var w := RunEnd(t, |hashes|, IsSpace);
    assert w <= g;
  }

  /** A line made of the hashes, one space and a text that starts with a
      visible character matches, with that text as its group. */
  lemma HeadingLine(hashes: string, t: string, rest: string)
    requires t != [] && !IsSpace(t[0]) && '\n' !in t
    requires rest == [] || rest[0] == '\n'
    ensures var s := hashes + " " + t + rest;
            var g := |hashes| + 1;
            HeadingAt(s, 0, hashes) == Some((g, g + |t|)) && s[g..g + |t|] == t
  {
    var s := hashes + " " + t + rest;
    var g := |hashes| + 1;
    var e := g + |t|;
    forall i | g <= i < e ensures s[i] != '\n' {
      assert s[i] == t[i - g];
    }
    assert e < |s| ==> s[e] == rest[0];
    assert s[g] == t[0];
    assert s[..|hashes|] == hashes;
    assert Parses(s, hashes, g, e);
    LineMatchPlain(s, hashes, g, e);
    assert s[0..] == s;
    assert s[g..e] == t;
  }

  /** The heading match at position `p` of `s` (honouring `^`), with the
      group's bounds as positions of `s`. */
  function HeadingAt(s: string, p: nat, hashes: string): (r: Option<(nat, nat)>)
    requires p <= |s|
    ensures r.Some? ==> AtLineStart(s, p) && p + |hashes| < r.value.0 < r.value.1 <= |s|
    ensures r.Some? ==> '\n' !in s[r.value.0..r.value.1]
    ensures r.Some? ==> r.value.1 == |s| || s[r.value.1] == '\n'
  {
    if !AtLineStart(s, p) then None
    else
      match LineMatch(s[p..], hashes)
      case None => None
      case Some(m) =>
        assert s[p..][m.0..m.1] == s[p + m.0..p + m.1];
        Some((p + m.0, p + m.1))
  }

  /** A `##` line never matches the title pattern: its second `#` is not
      whitespace. */
  lemma DoubleHashIsNoTitle(s: string, p: nat)
    requires p + 2 <= |s| && s[p] == '#' && s[p + 1] == '#'
    ensures HeadingAt(s, p, "#").None?
  {
    if AtLineStart(s, p) {
      assert s[p..][1] == '#';
    }
  }

  /** A `###` line never matches the section pattern, at its start or
      inside it. */
  lemma TripleHashIsNoSection(s: string, p: nat)
    requires p + 3 <= |s| && s[p] == '#' && s[p + 1] == '#' && s[p + 2] == '#'
    ensures HeadingAt(s, p, "##").None?
    ensures HeadingAt(s, p + 1, "##").None? && HeadingAt(s, p + 2, "##").None?
  {
    if AtLineStart(s, p) {
      assert s[p..][2] == '#';
    }
  }

  // ---------------------------------------------------------------------
  // The title and the body
  // ---------------------------------------------------------------------

  /** re.search: the leftmost heading match at or after `from`, as
      (start, group start, group end). */
  function FirstHeading(s: string, hashes: string, from: nat): (r: Option<(nat, nat, nat)>)
    requires from <= |s|
    ensures r.Some? ==> from <= r.value.0 <= |s|
    ensures r.Some? ==> HeadingAt(s, r.value.0, hashes) == Some((r.value.1, r.value.2))
    ensures r.Some? ==> forall q :: from <= q < r.value.0 ==> HeadingAt(s, q, hashes).None?
    ensures r.None? ==> forall q :: from <= q <= |s| ==> HeadingAt(s, q, hashes).None?
    decreases |s| - from
  {
    match HeadingAt(s, from, hashes)
    case Some(m) => Some((from, m.0, m.1))
    case None => if from == |s| then None else FirstHeading(s, hashes, from + 1)
  }

  /** The post title and the markdown body. */
  datatype Parsed = Parsed(title: string, body: string)

  /** Where `re.sub(r'^#\s+.+\n?', '', raw, count=1)` stops cutting: the
      end of the group, and one newline after it if there is one. */
  function LineCut(raw: string, e: nat): (cut: nat)
    requires e <= |raw|
    ensures e <= cut <= |raw|
    ensures cut == e + 1 <==> e < |raw| && raw[e] == '\n'
  {
    if e < |raw| && raw[e] == '\n' then e + 1 else e
  }

  /** The title and the body of parse_markdown: the title is the stripped
      group of the first `^#\s+(.+)` match, or the file stem without one; the
      heading's whole match and at most one newline after it are cut out
      (re.sub with count=1 finds the same first match), and the rest is
      stripped. */
  function ExtractTitle(raw: string, stem: string): (r: Parsed)
    ensures (forall q :: 0 <= q <= |raw| ==> HeadingAt(raw, q, "#").None?) ==> r == Parsed(stem, Strip(raw))
    ensures FirstHeading(raw, "#", 0).Some? ==>
              var h := FirstHeading(raw, "#", 0).value;
              && h.0 < h.1 < h.2 <= |raw|
              && r.title == Strip(raw[h.1..h.2])
              && r.body == Strip(raw[..h.0] + raw[LineCut(raw, h.2)..])
    ensures FirstHeading(raw, "#", 0).Some? ==> '\n' !in r.title && |r.body| < |raw|
  {
    match FirstHeading(raw, "#", 0)
    case None => Parsed(stem, Strip(raw))
    case Some(h) =>
      var group := raw[h.1..h.2];
      var rest := raw[..h.0] + raw[LineCut(raw, h.2)..];
      StripIsSlice(group);
      StripIsSlice(rest);
      Parsed(Strip(group), Strip(rest))
  }

  /** Strip gives a slice of its argument. */
  lemma StripIsSlice(s: string)
    ensures |Strip(s)| <= |s|
    ensures forall i :: 0 <= i < |Strip(s)| ==> Strip(s)[i] in s
  {
    var a := TrimStart(s, IsSpace);
    assert forall i :: 0 <= i < |Strip(s)| ==> Strip(s)[i] == s[a + i];
  }

  /** A file that opens with a plain `# ` heading line: the title is the
      heading text, stripped, and the body is everything after that line,
      stripped, later `#` lines included. */
  lemma TitleOfFirstLine(t: string, rest: string, stem: string)
    requires t != [] && !IsSpace(t[0]) && '\n' !in t
    ensures ExtractTitle("# " + t + "\n" + rest, stem) == Parsed(Strip(t), Strip(rest))
  {
    var raw := "# " + t + "\n" + rest;
    HeadingLine("#", t, "\n" + rest);
    assert raw == "#" + " " + t + ("\n" + rest);
    var e := 2 + |t|;
    assert raw[e] == '\n';
    assert raw[..0] + raw[e + 1..] == rest;
  }

  /** A title line after other lines that hold no title match (front matter,
      say): the title is its text, stripped, and the body is everything
      else, with the title line and its newline cut out, stripped. */
  lemma TitleAfterPrefix(pre: string, t: string, rest: string, stem: string)
    requires pre == [] || pre[|pre| - 1] == '\n'
    requires forall q :: 0 <= q < |pre| ==> HeadingAt(pre + "# " + t + "\n" + rest, q, "#").None?
    requires t != [] && !IsSpace(t[0]) && '\n' !in t
    ensures ExtractTitle(pre + "# " + t + "\n" + rest, stem) == Parsed(Strip(t), Strip(pre + rest))
  {
    var raw := pre + "# " + t + "\n" + rest;
    var p, g, e := |pre|, |pre| + 2, |pre| + 2 + |t|;
    TitleLineSplit(pre, t, rest);
    TitleLineAt(pre, t, rest, "#" + " " + t + ("\n" + rest), raw);
    FirstHeadingAt(raw, "#", p, g, e);
    assert raw[g..e] == t;
    assert LineCut(raw, e) == e + 1;
    assert raw[..p] + raw[e + 1..] == pre + rest;
  }

  /** The title line behind `pre` matches, with `t` as its group. */
  lemma TitleLineAt(pre: string, t: string, rest: string, line: string, raw: string)
    requires pre == [] || pre[|pre| - 1] == '\n'
    requires t != [] && !IsSpace(t[0]) && '\n' !in t
    requires line == "#" + " " + t + ("\n" + rest) && raw == pre + line
    ensures HeadingAt(raw, |pre|, "#") == Some((|pre| + 2, |pre| + 2 + |t|))
    ensures raw[|pre| + 2..|pre| + 2 + |t|] == t && raw[|pre| + 2 + |t|] == '\n'
  {
    HeadingLine("#", t, "\n" + rest);
    HeadingAtShift(pre, line, 0, "#");
    assert raw[|pre| + 2..|pre| + 2 + |t|] == line[2..2 + |t|];
  }

  /** The title line, regrouped. */
  lemma TitleLineSplit(pre: string, t: string, rest: string)
    ensures pre + "# " + t + "\n" + rest == pre + ("#" + " " + t + ("\n" + rest))
  {
  }

  /** A match with no match before it is the one re.search finds. */
  lemma FirstHeadingAt(s: string, hashes: string, p: nat, g: nat, e: nat)
    requires p <= |s| && HeadingAt(s, p, hashes) == Some((g, e))
    requires forall q :: 0 <= q < p ==> HeadingAt(s, q, hashes).None?
    ensures FirstHeading(s, hashes, 0) == Some((p, g, e))
  {
  }

  /** A title line may start on the line after the `#`: `\s+` runs across
      the newline. */
  lemma TitleAcrossNewline(stem: string)
    ensures ExtractTitle("#\nHello", stem).title == "Hello"
  {
    var raw := "#\nHello";
    assert Parses(raw, "#", 2, 7);
    assert raw[2] == 'H';
    LineMatchPlain(raw, "#", 2, 7);
    assert raw[0..] == raw;
    assert raw[2..7] == "Hello";
    TrimByOfTrimmed("Hello", IsSpace);
  }

  // ---------------------------------------------------------------------
  // The section index
  // ---------------------------------------------------------------------

  /** The heading match tried at every position of `s`, as a table
      indexed by position. */
  function HeadingTable(s: string, hashes: string): (table: seq<Option<(nat, nat)>>)
    ensures HeadingTableShape(s, table)
    ensures forall q :: 0 <= q < |table| ==> table[q] == HeadingAt(s, q, hashes)
  {
    seq(|s| + 1, q requires 0 <= q <= |s| => HeadingAt(s, q, hashes))
  }

  /** Every entry of a match table lies after its position, inside the
      text, and holds no newline. */
  ghost predicate HeadingTableShape(s: string, table: seq<Option<(nat, nat)>>) {
    && |table| == |s| + 1
    && forall q :: 0 <= q < |table| && table[q].Some? ==>
         q < table[q].value.0 < table[q].value.1 <= |s| && '\n' !in s[table[q].value.0..table[q].value.1]
  }

  /** re.findall from `from` on, given the match at every position: each
      match's group, scanning on from the end of the match. */
  function ScanHeadings(s: string, table: seq<Option<(nat, nat)>>, from: nat): (r: seq<string>)
    requires HeadingTableShape(s, table) && from <= |s|
    ensures forall k :: 0 <= k < |r| ==> r[k] != [] && '\n' !in r[k]
    decreases |s| - from
  {
    if from == |s| then []
    else
      match table[from]
      case Some(m) => [s[m.0..m.1]] + ScanHeadings(s, table, m.1)
      case None => ScanHeadings(s, table, from + 1)
  }

  /** `re.findall(r'^##\s+(.+)', body, re.MULTILINE)`: the groups of the
      `## ` heading lines of the body, in order. */
  function H2Sections(body: string): (r: seq<string>)
    ensures forall k :: 0 <= k < |r| ==> r[k] != [] && '\n' !in r[k]
  {
    ScanHeadings(body, HeadingTable(body, "##"), 0)
  }

  /** Matching only looks at the text from the match position on, and at the
      character before it for `^`. */
  lemma HeadingAtShift(pre: string, rest: string, q: nat, hashes: string)
    requires q <= |rest|
    requires q > 0 || pre == [] || pre[|pre| - 1] == '\n'
    ensures HeadingAt(pre + rest, |pre| + q, hashes) == Moved(HeadingAt(rest, q, hashes), |pre|)
  {
    var s := pre + rest;
    assert s[|pre| + q..] == rest[q..];
    assert AtLineStart(s, |pre| + q) == AtLineStart(rest, q) by {
      if q > 0 {
        assert s[|pre| + q - 1] == rest[q - 1];
      }
    }
  }

  /** A match moved `d` positions to the right. */
  function Moved(m: Option<(nat, nat)>, d: nat): (r: Option<(nat, nat)>)
    ensures r.Some? == m.Some?
    ensures r.Some? ==> r.value.0 == m.value.0 + d && r.value.1 == m.value.1 + d
  {
    match m
    case None => None
    case Some(v) => Some((v.0 + d, v.1 + d))
  }

  /** Two tables that agree, up to the move, from some position on give
      the same scan from there. */
  lemma {:induction false} ScanShift(pre: string, rest: string, t1: seq<Option<(nat, nat)>>,
                                     t2: seq<Option<(nat, nat)>>, q: nat)
    requires HeadingTableShape(pre + rest, t1) && HeadingTableShape(rest, t2) && q <= |rest|
    requires forall j :: q <= j <= |rest| ==> t1[|pre| + j] == Moved(t2[j], |pre|)
    ensures ScanHeadings(pre + rest, t1, |pre| + q) == ScanHeadings(rest, t2, q)
    decreases |rest| - q
  {
    if q < |rest| {
      var s := pre + rest;
      assert t1[|pre| + q] == Moved(t2[q], |pre|);
      if t2[q].Some? {
        var m := t2[q].value;
        ScanShift(pre, rest, t1, t2, m.1);
        SliceAfter(pre, rest, m.0, m.1);
      } else {
        ScanShift(pre, rest, t1, t2, q + 1);
      }
    }
  }

  /** The section scan of a text behind a finished line is the scan of that
      text alone. */
  lemma SectionsShift(pre: string, rest: string)
    requires pre == [] || pre[|pre| - 1] == '\n'
    ensures ScanHeadings(pre + rest, HeadingTable(pre + rest, "##"), |pre|) == H2Sections(rest)
  {
    var t1 := HeadingTable(pre + rest, "##");
    var t2 := HeadingTable(rest, "##");
    forall j | 0 <= j <= |rest|
      ensures t1[|pre| + j] == Moved(t2[j], |pre|)
    {
      HeadingAtShift(pre, rest, j, "##");
    }
    ScanShift(pre, rest, t1, t2, 0);
  }

  /** Scanning over positions where nothing matches moves on without a
      section. */
  lemma {:induction false} ScanSkips(s: string, table: seq<Option<(nat, nat)>>, from: nat, stop: nat)
    requires HeadingTableShape(s, table) && from <= stop <= |s|
    requires forall q :: from <= q < stop ==> table[q].None?
    ensures ScanHeadings(s, table, from) == ScanHeadings(s, table, stop)
    decreases stop
  {
    if from < stop {
      ScanSkips(s, table, from, stop - 1);
    }
  }

  /** A section match at the start of the text gives its group as the first
      section; the scan goes on after the line that holds the group. */
  lemma SectionsAtMatch(s: string, g: nat, e: nat)
    requires HeadingAt(s, 0, "##") == Some((g, e))
    ensures H2Sections(s) == [s[g..e]] + (if e < |s| then H2Sections(s[e + 1..]) else [])
  {
    var table := HeadingTable(s, "##");
    assert table[0] == Some((g, e));
    assert H2Sections(s) == [s[g..e]] + ScanHeadings(s, table, e);
    if e < |s| {
      assert s[e - 1] == s[g..e][e - 1 - g];
      assert table[e].None?;
      assert s == s[..e + 1] + s[e + 1..];
      SectionsShift(s[..e + 1], s[e + 1..]);
    }
  }

  /** A line without a section match adds nothing: the scan goes on with the
      next line. */
  lemma SectionsSkipLine(line: string, rest: string)
    requires '\n' !in line
    requires HeadingAt(line + "\n" + rest, 0, "##").None?
    ensures H2Sections(line + "\n" + rest) == H2Sections(rest)
  {
    var pre := line + "\n";
    var s := pre + rest;
    assert s == line + "\n" + rest;
    var table := HeadingTable(s, "##");
    forall q | 0 < q < |pre|
      ensures table[q].None?
    {
      assert s[q - 1] == line[q - 1];
    }
    ScanSkips(s, table, 0, |pre|);
    SectionsShift(pre, rest);
  }

  /** A last line without a section match gives no section. */
  lemma SectionsLastLine(line: string)
    requires '\n' !in line
    requires HeadingAt(line, 0, "##").None?
    ensures H2Sections(line) == []
  {
    var table := HeadingTable(line, "##");
    forall q | 0 < q < |line|
      ensures table[q].None?
    {
      assert line[q - 1] in line;
    }
    ScanSkips(line, table, 0, |line|);
  }

  /** A plain `## ` line contributes its text, unstripped, as the next
      section, and the scan goes on with the following lines. */
  lemma SectionOfFirstLine(t: string, rest: string)
    requires t != [] && !IsSpace(t[0]) && '\n' !in t
    ensures H2Sections("## " + t + "\n" + rest) == [t] + H2Sections(rest)
  {
    var line := "## " + t + "\n";
    var s := line + rest;
    var table := HeadingTable(s, "##");
    HeadingLine("##", t, "\n" + rest);
    assert s == "##" + " " + t + ("\n" + rest);
    var e := 3 + |t|;
    assert s[e..][0] == '\n';
    assert table[0] == Some((3, e));
    assert table[e].None?;
    assert ScanHeadings(s, table, e) == ScanHeadings(s, table, |line|);
    SectionsShift(line, rest);
  }

  /** A body with an introduction line before its only section. */
  lemma IntroThenSection()
    ensures H2Sections("Intro\n## A\n") == ["A"]
  {
    IntroLine();
    SectionsSkipLine("Intro", "## A\n");
    SectionA();
  }

  lemma IntroLine()
    ensures "Intro\n## A\n" == "Intro" + "\n" + "## A\n"
    ensures HeadingAt("Intro\n## A\n", 0, "##").None?
  {
    assert "Intro\n## A\n"[0] != '#';
  }

  lemma SectionA()
    ensures H2Sections("## A\n") == ["A"]
  {
    assert "## A\n" == "## " + "A" + "\n" + "";
    SectionOfFirstLine("A", "");
  }
}
