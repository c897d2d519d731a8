/** The block segmenter of convert_to_gutenberg_blocks: one left-to-right
    pass over the rendered HTML that finds the leftmost, non-overlapping
    matches of the alternation

      <table>.*?</table> | <blockquote>.*?</blockquote> | <ul>.*?</ul>
      | <ol>.*?</ol> | <h2[^>]*>.*?</h2> | <h3[^>]*>.*?</h3> | <p>.*?</p>

    with `.` matching newlines. Each element runs from its opening text to
    the first closing tag after it; text that starts no match is skipped. */
module Segmenter {
  import opened Text

  datatype Kind = TableKind | QuoteKind | BulletKind | NumberedKind | H2Kind | H3Kind | ParaKind

  /** The alternatives in the order the pattern lists them. */
  const Kinds: seq<Kind> := [TableKind, QuoteKind, BulletKind, NumberedKind, H2Kind, H3Kind, ParaKind]

  predicate IsHeadingKind(k: Kind) {
    k == H2Kind || k == H3Kind
  }

  /** The literal text each alternative starts with. A heading's opening tag
      may carry attributes, so only `<h2` / `<h3` is fixed; `[^>]*>` then runs
      to the first `>`. */
  function OpenTag(k: Kind): (t: string)
    ensures |t| >= 3 && t[0] == '<'
  {
    match k
    case TableKind => "<table>"
    case QuoteKind => "<blockquote>"
    case BulletKind => "<ul>"
    case NumberedKind => "<ol>"
    case H2Kind => "<h2"
    case H3Kind => "<h3"
    case ParaKind => "<p>"
  }

  function CloseTag(k: Kind): (t: string)
    ensures |t| >= 4
  {
    match k
    case TableKind => "</table>"
    case QuoteKind => "</blockquote>"
    case BulletKind => "</ul>"
    case NumberedKind => "</ol>"
    case H2Kind => "</h2>"
    case H3Kind => "</h3>"
    case ParaKind => "</p>"
  }

  /** One match: the element occupies [start, end) and its content
      [innerStart, innerEnd). */
  datatype Span = Span(kind: Kind, start: nat, innerStart: nat, innerEnd: nat, end: nat)

  /** The shape of one match with opening text `open` and closing tag
      `close`, stated directly: the opening text at `start`; for a heading,
      the rest of the opening tag up to its first `>`; the content up to the
      FIRST closing tag after it. */
  ghost predicate Delimits(html: string, open: string, close: string, heading: bool,
                           start: int, innerStart: int, innerEnd: int, end: int)
  {
    && Opens(html, open, heading, start, innerStart)
    && innerStart <= innerEnd
    && Occurs(html, close, innerEnd)
    && Absent(html, close, innerStart, innerEnd)
    && end == innerEnd + |close|
  }

  /** The opening part of a match: the opening text at `start` and, for a
      heading, the rest of the tag up to its first `>`; the content starts
      at `innerStart`. */
  ghost predicate Opens(html: string, open: string, heading: bool, start: int, innerStart: int) {
    && Occurs(html, open, start)
    && (if heading then
          && start + |open| < innerStart
          && Occurs(html, ">", innerStart - 1)
          && Absent(html, ">", start + |open|, innerStart - 1)
        else
          innerStart == start + |open|)
  }

  /** What the alternative for `m.kind` matches at `m.start`. */
  ghost predicate IsMatch(html: string, m: Span) {
    Delimits(html, OpenTag(m.kind), CloseTag(m.kind), IsHeadingKind(m.kind),
             m.start, m.innerStart, m.innerEnd, m.end)
  }

  /** Some alternative matches at position `q`. */
  ghost predicate MatchesAt(html: string, q: int) {
    exists m: Span :: m.start == q && IsMatch(html, m)
  }

  lemma MatchBounds(html: string, m: Span)
    requires IsMatch(html, m)
    ensures m.start + |OpenTag(m.kind)| <= m.innerStart <= m.innerEnd < m.end <= |html|
  {
  }

  /** At most one opening text occurs at any position, so the order of the
      alternatives never decides anything. */
  lemma OpenTagsExclusive(html: string, p: nat, k1: Kind, k2: Kind)
    requires Occurs(html, OpenTag(k1), p) && Occurs(html, OpenTag(k2), p)
    ensures k1 == k2
  {
    assert OpenTag(k1)[1] == html[p + 1] == OpenTag(k2)[1];
    assert OpenTag(k1)[2] == html[p + 2] == OpenTag(k2)[2];
  }

  /** A match is determined by where it starts. */
  lemma MatchUnique(html: string, m1: Span, m2: Span)
    requires IsMatch(html, m1) && IsMatch(html, m2) && m1.start == m2.start
    ensures m1 == m2
  {
    OpenTagsExclusive(html, m1.start, m1.kind, m2.kind);
    DelimitsUnique(html, OpenTag(m1.kind), CloseTag(m1.kind), IsHeadingKind(m1.kind),
                   m1.start, m1.innerStart, m1.innerEnd, m1.end, m2.innerStart, m2.innerEnd, m2.end);
  }

  /** With the delimiters fixed, the start of a match fixes the rest of it:
      each part ends at the first occurrence of what closes it. */
  lemma DelimitsUnique(html: string, open: string, close: string, heading: bool, start: int,
                       is1: int, ie1: int, e1: int, is2: int, ie2: int, e2: int)
    requires Delimits(html, open, close, heading, start, is1, ie1, e1)
    requires Delimits(html, open, close, heading, start, is2, ie2, e2)
    ensures is1 == is2 && ie1 == ie2 && e1 == e2
  {
    if heading {
      FirstOccurrenceUnique(html, ">", start + |open|, is1 - 1, is2 - 1);
    }
    FirstOccurrenceUnique(html, close, is1, ie1, ie2);
  }

  /** The content and closing tag of a match with delimiters `open` and
      `close` tried at `p`: for a heading the opening tag runs on to its
      first `>`, and the content runs to the first closing tag after it.
      The result is (innerStart, innerEnd, end). */
  function FindDelimited(html: string, open: string, close: string, heading: bool, p: nat)
    : (r: Option<(nat, nat, nat)>)
    requires p <= |html|
    ensures r.Some? ==> Delimits(html, open, close, heading, p, r.value.0, r.value.1, r.value.2)
  {
    match ContentStart(html, open, heading, p)
    case None => None
    case Some(contentStart) =>
      match FindFrom(html, close, contentStart)
      case None => None
      case Some(contentEnd) =>
        AbsentIff(html, close, contentStart, contentEnd);
        Some((contentStart, contentEnd, contentEnd + |close|))
  }

  /** Where the content of a match tried at `p` starts, if the opening part
      matches there. */
  function ContentStart(html: string, open: string, heading: bool, p: nat): (r: Option<nat>)
    requires p <= |html|
    ensures r.Some? ==> r.value <= |html| && Opens(html, open, heading, p, r.value)
  {
    if !Occurs(html, open, p) then None
    else if !heading then Some(p + |open|)
    else
      match FindFrom(html, ">", p + |open|)
      case None => None
      case Some(gt) =>
        AbsentIff(html, ">", p + |open|, gt);
        Some(gt + 1)
  }

  /** FindDelimited finds every match with its delimiters at `p`. */
  lemma FindDelimitedComplete(html: string, open: string, close: string, heading: bool,
                              p: nat, innerStart: int, innerEnd: int, end: int)
    requires p <= |html| && Delimits(html, open, close, heading, p, innerStart, innerEnd, end)
    ensures FindDelimited(html, open, close, heading, p) == Some((innerStart, innerEnd, end))
  {
    ContentStartComplete(html, open, heading, p, innerStart);
    FindFromExact(html, close, innerStart, innerEnd);
  }

  /** ContentStart finds the content start of every opening part at `p`. */
  lemma ContentStartComplete(html: string, open: string, heading: bool, p: nat, innerStart: int)
    requires p <= |html| && Opens(html, open, heading, p, innerStart)
    ensures ContentStart(html, open, heading, p) == Some(innerStart)
  {
    if heading {
      FindFromExact(html, ">", p + |open|, innerStart - 1);
    }
  }

  /** The alternative for `k` tried at position `p`. */
  function MatchAt(html: string, p: nat, k: Kind): (r: Option<Span>)
    requires p <= |html|
    ensures r.Some? ==> r.value.kind == k && r.value.start == p && IsMatch(html, r.value)
  {
    match FindDelimited(html, OpenTag(k), CloseTag(k), IsHeadingKind(k), p)
    case None => None
    case Some(t) => Some(Span(k, p, t.0, t.1, t.2))
  }

  /** The first alternative of `ks` that matches at `p`. */
  function FirstMatchAmong(html: string, p: nat, ks: seq<Kind>): (r: Option<Span>)
    requires p <= |html|
    ensures r.Some? ==> r.value.kind in ks && r.value.start == p && IsMatch(html, r.value)
    ensures r.None? ==> forall k :: k in ks ==> MatchAt(html, p, k).None?
    decreases |ks|
  {
    if ks == [] then None
    else
      match MatchAt(html, p, ks[0])
      case Some(m) => Some(m)
      case None => FirstMatchAmong(html, p, ks[1..])
  }

  /** The whole alternation tried at `p`. */
  function FirstMatchAt(html: string, p: nat): (r: Option<Span>)
    requires p <= |html|
    ensures r.Some? ==> r.value.start == p && IsMatch(html, r.value)
  {
    FirstMatchAmong(html, p, Kinds)
  }

  /** When no alternative is found at `p`, none matches there at all. */
  lemma FirstMatchAtComplete(html: string, p: nat)
    requires p <= |html| && FirstMatchAt(html, p).None?
    ensures !MatchesAt(html, p)
  {
    forall m: Span | m.start == p
      ensures !IsMatch(html, m)
    {
      AllKinds(m.kind);
      MatchAtComplete(html, p, m);
    }
  }

  /** When the alternative for a kind fails at `p`, no match of that kind
      starts there. */
  lemma MatchAtComplete(html: string, p: nat, m: Span)
    requires p <= |html| && m.start == p && MatchAt(html, p, m.kind).None?
    ensures !IsMatch(html, m)
  {
    if IsMatch(html, m) {
      FindDelimitedComplete(html, OpenTag(m.kind), CloseTag(m.kind), IsHeadingKind(m.kind),
                            p, m.innerStart, m.innerEnd, m.end);
    }
  }

  lemma AllKinds(k: Kind)
    ensures k in Kinds
  {
    match k
    case TableKind =>
    case QuoteKind =>
    case BulletKind =>
    case NumberedKind =>
    case H2Kind =>
    case H3Kind =>
    case ParaKind =>
  }

  /** Position `q` lies inside one of the spans. */
  ghost predicate Covered(spans: seq<Span>, q: int) {
    exists i :: 0 <= i < |spans| && spans[i].start <= q < spans[i].end
  }

  /** The outcome of trying the alternation at every position of a text of
      length |table|: a match found at `p` starts at `p` and ends after it,
      inside the text. */
  predicate SpanTableShape(table: seq<Option<Span>>) {
    forall p :: 0 <= p < |table| && table[p].Some? ==>
      table[p].value.start == p < table[p].value.end <= |table|
  }

  /** The alternation tried at every position of `html`. */
  function MatchTable(html: string): (table: seq<Option<Span>>)
    ensures |table| == |html| && SpanTableShape(table)
    ensures forall p :: 0 <= p < |html| && table[p].Some? ==> IsMatch(html, table[p].value)
  {
    var table := seq(|html|, p requires 0 <= p < |html| => FirstMatchAt(html, p));
    assert SpanTableShape(table) by {
      forall p | 0 <= p < |table| && table[p].Some?
        ensures table[p].value.start == p < table[p].value.end <= |table|
      {
        MatchBounds(html, table[p].value);
      }
    }
    table
  }

  /** MatchTable holds what the alternation finds at each position. */
  lemma MatchTableAt(html: string, p: nat)
    requires p < |html|
    ensures MatchTable(html)[p] == FirstMatchAt(html, p)
  {
  }

  /** The finditer loop over a table of per-position outcomes: from `from`,
      take the match found there and resume at its end, or move on by one
      position when there is none. */
  function ScanSpans(table: seq<Option<Span>>, from: nat): (spans: seq<Span>)
    requires SpanTableShape(table) && from <= |table|
    ensures forall i :: 0 <= i < |spans| ==> from <= spans[i].start < spans[i].end <= |table|
    ensures forall i :: 0 <= i < |spans| - 1 ==> spans[i].end <= spans[i + 1].start
    decreases |table| - from
  {
    if from == |table| then []
    else
      match table[from]
      case None => ScanSpans(table, from + 1)
      case Some(m) => [m] + ScanSpans(table, m.end)
  }

  /** Every span the scan takes is one found in the table at its start. */
  lemma {:induction false} ScanFromTable(table: seq<Option<Span>>, from: nat)
    requires SpanTableShape(table) && from <= |table|
    ensures forall i :: 0 <= i < |ScanSpans(table, from)| ==>
              table[ScanSpans(table, from)[i].start] == Some(ScanSpans(table, from)[i])
    decreases |table| - from
  {
    if from < |table| {
      if table[from].None? {
        ScanFromTable(table, from + 1);
      } else {
        ScanFromTable(table, table[from].value.end);
      }
    }
  }

  /** The scan skips no position where the table has a match: each such
      position lies inside one of the spans taken. */
  lemma {:induction false} ScanCovers(table: seq<Option<Span>>, from: nat, q: nat)
    requires SpanTableShape(table) && from <= q < |table| && table[q].Some?
    ensures Covered(ScanSpans(table, from), q)
    decreases |table| - from
  {
    var spans := ScanSpans(table, from);
    if table[from].None? {
      ScanCovers(table, from + 1, q);
      var i :| 0 <= i < |ScanSpans(table, from + 1)| && ScanSpans(table, from + 1)[i].start <= q < ScanSpans(table, from + 1)[i].end;
      assert spans[i] == ScanSpans(table, from + 1)[i];
    } else {
      var m := table[from].value;
      assert spans == [m] + ScanSpans(table, m.end);
      if q < m.end {
        assert spans[0].start <= q < spans[0].end;
      } else {
        ScanCovers(table, m.end, q);
        CoveredCons(m, ScanSpans(table, m.end), q);
      }
    }
  }

  lemma CoveredCons(m: Span, rest: seq<Span>, q: int)
    requires Covered(rest, q)
    ensures Covered([m] + rest, q)
  {
    var i :| 0 <= i < |rest| && rest[i].start <= q < rest[i].end;
    assert ([m] + rest)[i + 1] == rest[i];
  }

  /** pattern.finditer(html): the leftmost match, then the leftmost match
      from where it ended, and so on, as a sequence of matches in increasing,
      non-overlapping order. */
  function Segment(html: string): (spans: seq<Span>)
    ensures forall i :: 0 <= i < |spans| ==> spans[i].start < spans[i].end <= |html|
    ensures forall i :: 0 <= i < |spans| - 1 ==> spans[i].end <= spans[i + 1].start
  {
    ScanSpans(MatchTable(html), 0)
  }

  /** Every segment is a match of the alternation, and what the alternation
      finds at its start. */
  lemma SegmentMatches(html: string)
    ensures forall i :: 0 <= i < |Segment(html)| ==>
              IsMatch(html, Segment(html)[i])
              && FirstMatchAt(html, Segment(html)[i].start) == Some(Segment(html)[i])
  {
    ScanFromTable(MatchTable(html), 0);
  }

  /** Nothing that could match is skipped: every position where some
      alternative matches lies inside one of the segments. So no match begins
      between or after them, and the text there is what gets dropped. */
  lemma SegmentCovers(html: string, q: nat)
    requires q < |html| && MatchesAt(html, q)
    ensures Covered(Segment(html), q)
  {
    if FirstMatchAt(html, q).None? {
      FirstMatchAtComplete(html, q);
      assert false;
    }
    MatchTableAt(html, q);
    ScanCovers(MatchTable(html), 0, q);
  }

  /** The element text of a match. */
  function Element(html: string, m: Span): string
    requires IsMatch(html, m)
  {
    MatchBounds(html, m);
    html[m.start..m.end]
  }

  /** The if-chain that names an element by how it starts (startswith for
      the fixed tags, re.match('<h2') / re.match('<h3') for headings). */
  function Classify(element: string): (r: Option<Kind>)
    ensures r.Some? ==> OpenTag(r.value) <= element
  {
    ClassifyAmong(element, Kinds)
  }

  function ClassifyAmong(element: string, ks: seq<Kind>): (r: Option<Kind>)
    ensures r.Some? ==> OpenTag(r.value) <= element
    decreases |ks|
  {
    if ks == [] then None
    else if OpenTag(ks[0]) <= element then Some(ks[0])
    else ClassifyAmong(element, ks[1..])
  }

  /** A match moved to the start of its own element text. */
  function Shift(m: Span): (r: Span)
    requires m.start <= m.innerStart <= m.innerEnd <= m.end
    ensures r.kind == m.kind && r.start == 0 && r.end == m.end - m.start
  {
    Span(m.kind, 0, m.innerStart - m.start, m.innerEnd - m.start, m.end - m.start)
  }

  /** The content of a match. */
  function Inner(html: string, m: Span): string
    requires m.innerStart <= m.innerEnd <= |html|
  {
    html[m.innerStart..m.innerEnd]
  }

  /** A match seen on its own: cut out of the document, an element is still a
      match of the same alternative at position 0, with the same content. */
  lemma ElementIsMatch(html: string, m: Span)
    requires IsMatch(html, m)
    ensures m.start <= m.innerStart <= m.innerEnd <= m.end <= |html|
    ensures MatchAt(Element(html, m), 0, m.kind) == Some(Shift(m))
    ensures Inner(Element(html, m), Shift(m)) == Inner(html, m)
  {
    ShiftedMatch(html, m);
    MatchAtFinds(Element(html, m), Shift(m));
    ElementInner(html, m);
  }

  lemma ElementInner(html: string, m: Span)
    requires m.start <= m.innerStart <= m.innerEnd <= m.end <= |html|
    ensures Inner(html[m.start..m.end], Shift(m)) == Inner(html, m)
  {
    var m' := Shift(m);
    SliceOfSlice(html, m.start, m.end, m'.innerStart, m'.innerEnd);
  }

  /** The alternative for a kind finds every match of that kind: MatchAt is
      sound and complete for IsMatch. */
  lemma MatchAtFinds(html: string, m: Span)
    requires IsMatch(html, m)
    ensures m.start <= |html| && MatchAt(html, m.start, m.kind) == Some(m)
  {
    MatchBounds(html, m);
    if MatchAt(html, m.start, m.kind).None? {
      MatchAtComplete(html, m.start, m);
      assert false;
    }
    MatchUnique(html, MatchAt(html, m.start, m.kind).value, m);
  }

  lemma ShiftedMatch(html: string, m: Span)
    requires IsMatch(html, m)
    ensures m.start <= m.innerStart <= m.innerEnd <= m.end <= |html|
    ensures IsMatch(Element(html, m), Shift(m))
  {
    MatchBounds(html, m);
    var m' := Shift(m);
    ShiftedDelimits(html, OpenTag(m'.kind), CloseTag(m'.kind), IsHeadingKind(m'.kind),
                    m.start, m.innerStart, m.innerEnd, m.end,
                    Element(html, m), m'.innerStart, m'.innerEnd, m'.end);
  }

  /** A match cut out of its document, exactly from its start to its end,
      is still a match, shifted to position 0: `e` is the cut-out text and
      the primed positions are the shifted ones. */
  lemma ShiftedDelimits(html: string, open: string, close: string, heading: bool,
                        start: nat, innerStart: nat, innerEnd: nat, end: nat,
                        e: string, innerStart': int, innerEnd': int, end': int)
    requires start <= end <= |html| && e == html[start..end]
    requires innerStart' == innerStart - start && innerEnd' == innerEnd - start && end' == end - start
    requires Delimits(html, open, close, heading, start, innerStart, innerEnd, end)
    ensures Delimits(e, open, close, heading, 0, innerStart', innerEnd', end')
  {
    ShiftedOpens(html, open, heading, start, innerStart, end);
    ShiftedCloses(html, close, start, innerStart, innerEnd, end);
  }

  lemma ShiftedCloses(html: string, close: string, start: nat, innerStart: nat, innerEnd: nat, end: nat)
    requires start <= innerStart <= innerEnd && end == innerEnd + |close| <= |html|
    requires Occurs(html, close, innerEnd) && Absent(html, close, innerStart, innerEnd)
    ensures Occurs(html[start..end], close, innerEnd - start)
    ensures Absent(html[start..end], close, innerStart - start, innerEnd - start)
  {
    OccursInSlice(html, start, end, close, innerEnd - start);
    AbsentInSlice(html, start, end, close, innerStart - start, innerEnd - start);
  }

  lemma ShiftedOpens(html: string, open: string, heading: bool, start: nat, innerStart: nat, end: nat)
    requires start <= end <= |html| && innerStart <= end
    requires Opens(html, open, heading, start, innerStart)
    ensures Opens(html[start..end], open, heading, 0, innerStart - start)
  {
    OccursInSlice(html, start, end, open, 0);
    if heading {
      OccursInSlice(html, start, end, ">", innerStart - 1 - start);
      AbsentInSlice(html, start, end, ">", |open|, innerStart - start - 1);
    }
  }

  /** The if-chain names every element after the alternative that matched it. */
  lemma ClassifyElement(html: string, m: Span)
    requires IsMatch(html, m)
    ensures Classify(Element(html, m)) == Some(m.kind)
  {
    ShiftedMatch(html, m);
    var e := Element(html, m);
    assert Occurs(e, OpenTag(m.kind), 0);
    ClassifyOpening(e, m.kind);
  }

  /** A text that opens with the opening text of `k` is classified as `k`. */
  lemma ClassifyOpening(e: string, k: Kind)
    requires Occurs(e, OpenTag(k), 0)
    ensures Classify(e) == Some(k)
  {
    AllKinds(k);
    ClassifyAmongFinds(e, Kinds, k);
  }

  lemma {:induction false} ClassifyAmongFinds(e: string, ks: seq<Kind>, k: Kind)
    requires k in ks && Occurs(e, OpenTag(k), 0)
    ensures ClassifyAmong(e, ks) == Some(k)
    decreases |ks|
  {
    if OpenTag(ks[0]) <= e {
      assert e[..|OpenTag(ks[0])|] == OpenTag(ks[0]);
      OpenTagsExclusive(e, 0, ks[0], k);
    } else {
      ClassifyAmongFinds(e, ks[1..], k);
    }
  }
}
