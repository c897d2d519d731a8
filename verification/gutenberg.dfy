/** The Gutenberg block serializer (convert_to_gutenberg_blocks): every
    element the segmenter finds becomes one block, wrapped in the comment
    markers of its kind, and the blocks are joined by blank lines. */
module Gutenberg {
  import opened Text
  import opened Segmenter
  import opened ListItems

  /** The blank line between two blocks of the output. */
  const BlockSeparator: string := "\n\n"

  type HeadingLevel = l: int | l == 2 || l == 3 witness 2

  /** One serialized block and the text it carries. */
  datatype Block =
    | Table(element: string)
    | Quote(text: string)
    | List(ordered: bool, items: seq<string>)
    | Heading(level: HeadingLevel, text: string)
    | Paragraph(element: string)

  /** The element kind a block is made from. */
  function BlockKind(b: Block): Kind {
    match b
    case Table(_) => TableKind
    case Quote(_) => QuoteKind
    case List(ordered, _) => if ordered then NumberedKind else BulletKind
    case Heading(level, _) => if level == 2 then H2Kind else H3Kind
    case Paragraph(_) => ParaKind
  }

  /** The block name inside the comment markers. */
  function BlockName(k: Kind): string {
    match k
    case TableKind => "table"
    case QuoteKind => "quote"
    case BulletKind => "list"
    case NumberedKind => "list"
    case H2Kind => "heading"
    case H3Kind => "heading"
    case ParaKind => "paragraph"
  }

  /** The attributes of the opening marker. */
  function Attributes(k: Kind): string {
    match k
    case NumberedKind => " {\"ordered\":true}"
    case H2Kind => " {\"level\":2}"
    case H3Kind => " {\"level\":3}"
    case _ => ""
  }

  /** The HTML tag that opens the content inside the markers. */
  function ContentOpen(k: Kind): string {
    match k
    case TableKind => "<figure class=\"wp-block-table\">"
    case QuoteKind => "<blockquote class=\"wp-block-quote\">"
    case BulletKind => "<ul class=\"wp-block-list\">"
    case NumberedKind => "<ol class=\"wp-block-list\">"
    case H2Kind => "<h2 class=\"wp-block-heading\">"
    case H3Kind => "<h3 class=\"wp-block-heading\">"
    case ParaKind => ""
  }

  /** The HTML tag that closes the content inside the markers. */
  function ContentClose(k: Kind): string {
    match k
    case TableKind => "</figure>"
    case QuoteKind => "</blockquote>"
    case BulletKind => "</ul>"
    case NumberedKind => "</ol>"
    case H2Kind => "</h2>"
    case H3Kind => "</h3>"
    case ParaKind => ""
  }

  /** The opening marker line of a block. */
  function StartMarker(k: Kind): string {
    "<!-- wp:" + BlockName(k) + Attributes(k) + " -->"
  }

  /** The closing marker line of a block. */
  function EndMarker(k: Kind): string {
    "<!-- /wp:" + BlockName(k) + " -->"
  }

  /** The text before a block's content. */
  function BlockOpen(k: Kind): string {
    StartMarker(k) + "\n" + ContentOpen(k)
  }

  /** The text after a block's content. */
  function BlockClose(k: Kind): string {
    ContentClose(k) + "\n" + EndMarker(k)
  }

  /** What stands between a block's markers. */
  function Content(b: Block): string {
    match b
    case Table(element) => element
    case Quote(text) => text
    case List(_, items) => ItemsMarkup(items)
    case Heading(_, text) => text
    case Paragraph(element) => element
  }

  /** The markup of one block: its kind's opening text, its content, and
      its kind's closing text. */
  function Render(b: Block): (r: string)
    ensures Wraps(r, BlockOpen(BlockKind(b)), Content(b), BlockClose(BlockKind(b)))
  {
    var k := BlockKind(b);
    Sandwich(BlockOpen(k), Content(b), BlockClose(k));
    BlockOpen(k) + Content(b) + BlockClose(k)
  }

  /** Each block opens with its `<!-- wp:name … -->` marker line and closes
      with its `<!-- /wp:name -->` marker line; the content sits between the
      marker lines and the content tags. */
  lemma RenderShape(b: Block)
    ensures var k := BlockKind(b);
            Render(b) == StartMarker(k) + "\n" + ContentOpen(k) + Content(b) + ContentClose(k) + "\n" + EndMarker(k)
    ensures "<!-- wp:" + BlockName(BlockKind(b)) <= Render(b)
    ensures var end := EndMarker(BlockKind(b));
            |end| <= |Render(b)| && Render(b)[|Render(b)| - |end|..] == end
  {
    var k := BlockKind(b);
    var marker := "<!-- wp:" + BlockName(k);
    Sandwich(marker, Attributes(k) + " -->" + "\n" + ContentOpen(k) + Content(b) + ContentClose(k) + "\n", EndMarker(k));
  }

  /** The characters at positions 8, 13 and 25 of each opening marker:
      together they tell the seven markers apart. */
  function Signature(k: Kind): (char, char, char) {
    match k
    case TableKind => ('t', ' ', ' ')
    case QuoteKind => ('q', ' ', 'u')
    case BulletKind => ('l', '-', 's')
    case NumberedKind => ('l', '{', 'r')
    case H2Kind => ('h', 'n', '2')
    case H3Kind => ('h', 'n', '3')
    case ParaKind => ('p', 'r', 'p')
  }

  lemma OpenSignature(k: Kind)
    ensures |BlockOpen(k)| > 25 || k == ParaKind
    ensures |BlockOpen(k)| > 13
    ensures BlockOpen(k)[8] == Signature(k).0 && BlockOpen(k)[13] == Signature(k).1
    ensures k != ParaKind ==> BlockOpen(k)[25] == Signature(k).2
  {
    match k
    case TableKind => TableSignature();
    case QuoteKind => QuoteSignature();
    case BulletKind => BulletSignature();
    case NumberedKind => NumberedSignature();
    case H2Kind => H2Signature();
    case H3Kind => H3Signature();
    case ParaKind => ParaSignature();
  }

  lemma TableSignature()
    ensures |BlockOpen(TableKind)| > 25 && BlockOpen(TableKind)[8] == 't' && BlockOpen(TableKind)[13] == ' ' && BlockOpen(TableKind)[25] == ' '
  {
  }

  lemma QuoteSignature()
    ensures |BlockOpen(QuoteKind)| > 25 && BlockOpen(QuoteKind)[8] == 'q' && BlockOpen(QuoteKind)[13] == ' ' && BlockOpen(QuoteKind)[25] == 'u'
  {
  }

  lemma BulletSignature()
    ensures |BlockOpen(BulletKind)| > 25 && BlockOpen(BulletKind)[8] == 'l' && BlockOpen(BulletKind)[13] == '-' && BlockOpen(BulletKind)[25] == 's'
  {
  }

  lemma NumberedSignature()
    ensures |BlockOpen(NumberedKind)| > 25 && BlockOpen(NumberedKind)[8] == 'l' && BlockOpen(NumberedKind)[13] == '{' && BlockOpen(NumberedKind)[25] == 'r'
  {
  }

  lemma H2Signature()
    ensures |BlockOpen(H2Kind)| > 25 && BlockOpen(H2Kind)[8] == 'h' && BlockOpen(H2Kind)[13] == 'n' && BlockOpen(H2Kind)[25] == '2'
  {
  }

  lemma H3Signature()
    ensures |BlockOpen(H3Kind)| > 25 && BlockOpen(H3Kind)[8] == 'h' && BlockOpen(H3Kind)[13] == 'n' && BlockOpen(H3Kind)[25] == '3'
  {
  }

  lemma ParaSignature()
    ensures |BlockOpen(ParaKind)| == 22 && BlockOpen(ParaKind)[8] == 'p' && BlockOpen(ParaKind)[13] == 'r'
  {
  }

  /** No two kinds' opening markers agree: whichever one a text starts with
      names the kind. */
  lemma BlockOpenExclusive(s: string, k1: Kind, k2: Kind)
    requires BlockOpen(k1) <= s && BlockOpen(k2) <= s
    ensures k1 == k2
  {
    OpenSignature(k1);
    OpenSignature(k2);
    assert BlockOpen(k1)[8] == s[8] == BlockOpen(k2)[8];
    assert BlockOpen(k1)[13] == s[13] == BlockOpen(k2)[13];
    if k1 != ParaKind && k2 != ParaKind {
      assert BlockOpen(k1)[25] == s[25] == BlockOpen(k2)[25];
    }
  }

  /** A block's text may hold anything except, in a list, a closing `</li>`
      inside an item (the item would end there). */
  ghost predicate WellFormed(b: Block) {
    b.List? ==> forall i :: 0 <= i < |b.items| ==> NoItemClose(b.items[i])
  }

  /** The block of kind `k` that carries `content`. */
  function FromContent(k: Kind, content: string): (b: Block)
    ensures BlockKind(b) == k
  {
    match k
    case TableKind => Table(content)
    case QuoteKind => Quote(content)
    case BulletKind => List(false, ItemTexts(content))
    case NumberedKind => List(true, ItemTexts(content))
    case H2Kind => Heading(2, content)
    case H3Kind => Heading(3, content)
    case ParaKind => Paragraph(content)
  }

  /** `s` starts with the opening text of kind `k` and ends with its
      closing text, the two not overlapping. */
  predicate Encloses(s: string, k: Kind) {
    BlockOpen(k) <= s && |BlockOpen(k)| + |BlockClose(k)| <= |s|
    && s[|s| - |BlockClose(k)|..] == BlockClose(k)
  }

  /** Reads one block's markup back: the kind whose markers enclose the text,
      and what lies between them. */
  function ParseBlock(s: string): (r: Option<Block>)
  {
    match FindKind(s, Kinds)
    case None => None
    case Some(k) => Some(FromContent(k, s[|BlockOpen(k)|..|s| - |BlockClose(k)|]))
  }

  /** The first kind of `ks` whose markers enclose `s`. */
  function FindKind(s: string, ks: seq<Kind>): (r: Option<Kind>)
    ensures r.Some? ==> r.value in ks && Encloses(s, r.value)
    decreases |ks|
  {
    if ks == [] then None
    else if Encloses(s, ks[0]) then Some(ks[0])
    else FindKind(s, ks[1..])
  }

  /** Serialization loses nothing: every well-formed block is read back from
      its markup. */
  lemma ParseRender(b: Block)
    requires WellFormed(b)
    ensures ParseBlock(Render(b)) == Some(b)
  {
    var k := BlockKind(b);
    AllKinds(k);
    FindKindFinds(Render(b), Kinds, k);
    FromContentOfBlock(b);
  }

  /** A block is recovered from its kind and its content. */
  lemma FromContentOfBlock(b: Block)
    requires WellFormed(b)
    ensures FromContent(BlockKind(b), Content(b)) == b
  {
    if b.List? {
      ItemTextsOfMarkup(b.items);
    }
  }

  /** `s` starts with `a`, ends with `z`, and holds `c` between them. */
  ghost predicate Wraps(s: string, a: string, c: string, z: string) {
    && a <= s && |a| + |z| <= |s|
    && s[|s| - |z|..] == z
    && s[|a|..|s| - |z|] == c
  }

  /** The parts of a three-piece concatenation can be cut back out. */
  lemma Sandwich(a: string, c: string, z: string)
    ensures Wraps(a + c + z, a, c, z)
  {
    var s := a + c + z;
    assert s[..|a|] == a;
    assert s[|a| + |c|..] == z;
    assert s[|a|..|a| + |c|] == c;
  }

  /** The scan over the kinds stops at the kind whose opening marker the
      text starts with. */
  lemma {:induction false} FindKindFinds(s: string, ks: seq<Kind>, k: Kind)
    requires k in ks && Encloses(s, k)
    ensures FindKind(s, ks) == Some(k)
    decreases |ks|
  {
    if ks[0] != k {
      if BlockOpen(ks[0]) <= s {
        BlockOpenExclusive(s, ks[0], k);
      }
      assert k in ks[1..];
      FindKindFinds(s, ks[1..], k);
    }
  }

  /** re.search of the alternative for `k` in `e`: the leftmost position,
      from `p` on, where it matches. */
  function SearchFrom(e: string, k: Kind, p: nat): (r: Option<Span>)
    requires p <= |e|
    ensures r.Some? ==> p <= r.value.start && r.value.kind == k && IsMatch(e, r.value)
    ensures r.Some? ==> r.value.innerStart <= r.value.innerEnd <= |e|
    decreases |e| - p
  {
    match MatchAt(e, p, k)
    case Some(m) =>
      MatchBounds(e, m);
      Some(m)
    case None => if p == |e| then None else SearchFrom(e, k, p + 1)
  }

  /** No match of the alternative for `k` starts in [lo, hi). */
  ghost predicate NoMatchBetween(e: string, k: Kind, lo: nat, hi: nat)
    requires hi <= |e| + 1
  {
    forall q :: lo <= q < hi ==> MatchAt(e, q, k).None?
  }

  /** The search is leftmost: no match of the alternative starts between
      `p` and the one found, and it fails only when none starts anywhere
      from `p` on. */
  lemma {:induction false} SearchFromLeftmost(e: string, k: Kind, p: nat)
    requires p <= |e|
    ensures LeftmostFrom(e, k, p)
    decreases |e| - p
  {
    if MatchAt(e, p, k).Some? {
      LeftmostHere(e, k, p);
    } else if p == |e| {
      LeftmostAtEnd(e, k, p);
    } else {
      SearchFromLeftmost(e, k, p + 1);
      LeftmostStep(e, k, p);
    }
  }

  /** The two halves of leftmost search from `p`. */
  ghost predicate LeftmostFrom(e: string, k: Kind, p: nat)
    requires p <= |e|
  {
    && (SearchFrom(e, k, p).Some? ==> NoMatchBetween(e, k, p, SearchFrom(e, k, p).value.start))
    && (SearchFrom(e, k, p).None? <==> NoMatchBetween(e, k, p, |e| + 1))
  }

  lemma LeftmostHere(e: string, k: Kind, p: nat)
    requires p <= |e| && MatchAt(e, p, k).Some?
    ensures LeftmostFrom(e, k, p)
  {
    var here := MatchAt(e, p, k);
    assert SearchFrom(e, k, p) == here;
    assert NoMatchBetween(e, k, p, p);
    assert !NoMatchBetween(e, k, p, |e| + 1);
  }

  lemma LeftmostAtEnd(e: string, k: Kind, p: nat)
    requires p == |e| && MatchAt(e, p, k).None?
    ensures LeftmostFrom(e, k, p)
  {
    assert SearchFrom(e, k, p).None?;
  }

  lemma LeftmostStep(e: string, k: Kind, p: nat)
    requires p < |e| && MatchAt(e, p, k).None?
    requires LeftmostFrom(e, k, p + 1)
    ensures LeftmostFrom(e, k, p)
  {
    var r := SearchFrom(e, k, p + 1);
    assert SearchFrom(e, k, p) == r;
    var hi := if r.Some? then r.value.start else |e| + 1;
    NoMatchExtend(e, k, p, hi);
    NoMatchExtend(e, k, p, |e| + 1);
  }

  lemma NoMatchExtend(e: string, k: Kind, p: nat, hi: nat)
    requires p < hi <= |e| + 1 && MatchAt(e, p, k).None?
    ensures NoMatchBetween(e, k, p + 1, hi) <==> NoMatchBetween(e, k, p, hi)
  {
  }

  /** The block made from one element, following the if-chain on how the
      element starts; an element no branch accepts makes no block. */
  function ElementToBlock(e: string): (r: Option<Block>)
    ensures r.Some? ==> Classify(e).Some? && BlockKind(r.value) == Classify(e).value
    ensures Classify(e).None? ==> r.None?
    ensures Classify(e).Some? ==>
              (r.None? <==> IsHeadingKind(Classify(e).value) && SearchFrom(e, Classify(e).value, 0).None?)
  {
    match Classify(e)
    case None => None
    case Some(k) => KindToBlock(e, k)
  }

  /** The branch of the if-chain for kind `k`: a heading needs its content
      searched again, and without a match there is no block; every other
      kind always makes one. */
  function KindToBlock(e: string, k: Kind): (r: Option<Block>)
    ensures r.Some? ==> BlockKind(r.value) == k
    ensures !IsHeadingKind(k) ==> r.Some?
    ensures IsHeadingKind(k) ==> (r.None? <==> SearchFrom(e, k, 0).None?)
  {
    if IsHeadingKind(k) then HeadingBlock(e, k) else Some(OtherBlock(e, k))
  }

  /** A heading's content is searched again and kept as is. */
  function HeadingBlock(e: string, k: Kind): (r: Option<Block>)
    requires IsHeadingKind(k)
    ensures r.Some? ==> BlockKind(r.value) == k
    ensures r.None? <==> SearchFrom(e, k, 0).None?
  {
    match SearchFrom(e, k, 0)
    case None => None
    case Some(m) => Some(Heading(if k == H2Kind then 2 else 3, Inner(e, m)))
  }

  /** A table or paragraph keeps the whole element; a blockquote's content
      is searched again and stripped ('' when the search fails); a list keeps
      the stripped text of each item. */
  function OtherBlock(e: string, k: Kind): (b: Block)
    requires !IsHeadingKind(k)
    ensures BlockKind(b) == k
  {
    match k
    case TableKind => Table(e)
    case QuoteKind =>
      var inner := SearchFrom(e, QuoteKind, 0);
      Quote(if inner.Some? then Strip(Inner(e, inner.value)) else "")
    case BulletKind => List(false, StripAll(ItemTexts(e)))
    case NumberedKind => List(true, StripAll(ItemTexts(e)))
    case ParaKind => Paragraph(e)
  }

  /** A list element's block holds exactly what _convert_list_items makes
      of the element. */
  lemma ListBlockContent(e: string, k: Kind)
    requires k == BulletKind || k == NumberedKind
    ensures KindToBlock(e, k).Some?
    ensures Content(KindToBlock(e, k).value) == ConvertListItems(e)
  {
  }

  /** The block a match stands for, read off the match itself: tables and
      paragraphs keep the whole element, a blockquote its content stripped,
      a list the stripped text of each item, a heading its content untrimmed. */
  function BlockOf(html: string, m: Span): (b: Block)
    requires IsMatch(html, m)
    ensures BlockKind(b) == m.kind
  {
    MatchBounds(html, m);
    var e := Element(html, m);
    var inner := Inner(html, m);
    match m.kind
    case TableKind => Table(e)
    case QuoteKind => Quote(Strip(inner))
    case BulletKind => List(false, StripAll(ItemTexts(e)))
    case NumberedKind => List(true, StripAll(ItemTexts(e)))
    case H2Kind => Heading(2, inner)
    case H3Kind => Heading(3, inner)
    case ParaKind => Paragraph(e)
  }

  /** The block of a list match holds what _convert_list_items makes of
      the matched element. */
  lemma BlockOfListContent(html: string, m: Span)
    requires IsMatch(html, m)
    requires m.kind == BulletKind || m.kind == NumberedKind
    ensures Content(BlockOf(html, m)) == ConvertListItems(Element(html, m))
  {
  }

  /** Searching an element again for its own alternative finds the match at
      its start. */
  lemma SearchElement(html: string, m: Span)
    requires IsMatch(html, m)
    ensures m.start <= m.innerStart <= m.innerEnd <= m.end <= |html|
    ensures SearchFrom(Element(html, m), m.kind, 0) == Some(Shift(m))
    ensures Inner(Element(html, m), Shift(m)) == Inner(html, m)
  {
    ElementIsMatch(html, m);
  }

  /** The if-chain turns every element into the block its match stands for:
      each kind lands in its own branch, and the repeated search inside a
      blockquote or heading finds the same content. */
  lemma ElementToBlockSpec(html: string, m: Span)
    requires IsMatch(html, m)
    ensures ElementToBlock(Element(html, m)) == Some(BlockOf(html, m))
  {
    ClassifyElement(html, m);
    SearchElement(html, m);
  }

  /** Blocks of list items never hold a closing `</li>` inside an item. */
  lemma BlockOfWellFormed(html: string, m: Span)
    requires IsMatch(html, m)
    ensures WellFormed(BlockOf(html, m))
  {
    var b := BlockOf(html, m);
    if b.List? {
      var items := ItemTexts(Element(html, m));
      forall i | 0 <= i < |b.items|
        ensures NoItemClose(b.items[i])
      {
        StripKeepsNoItemClose(items[i]);
      }
    }
  }

  /** The blocks of the matches of `html`, in order (one per element the
      if-chain accepts). */
  function Blocks(html: string): (bs: seq<Block>)
    ensures |bs| == |Segment(html)|
    ensures forall i :: 0 <= i < |Segment(html)| ==>
              IsMatch(html, Segment(html)[i]) && bs[i] == BlockOf(html, Segment(html)[i])
  {
    SegmentMatches(html);
    BlocksOfSpec(html, Segment(html));
    BlocksOf(html, Segment(html))
  }

  function BlocksOf(html: string, spans: seq<Span>): (bs: seq<Block>)
    requires forall i :: 0 <= i < |spans| ==> IsMatch(html, spans[i])
    ensures |bs| <= |spans|
  {
    if spans == [] then []
    else
      match ElementToBlock(Element(html, spans[0]))
      case Some(b) => [b] + BlocksOf(html, spans[1..])
      case None => BlocksOf(html, spans[1..])
  }

  /** One block per match, in match order, each the block that match stands
      for. */
  lemma {:induction false} BlocksOfSpec(html: string, spans: seq<Span>)
    requires forall i :: 0 <= i < |spans| ==> IsMatch(html, spans[i])
    ensures |BlocksOf(html, spans)| == |spans|
    ensures forall i :: 0 <= i < |spans| ==> BlocksOf(html, spans)[i] == BlockOf(html, spans[i])
  {
    if spans != [] {
      var tail := spans[1..];
      var b := BlockOf(html, spans[0]);
      ElementToBlockSpec(html, spans[0]);
      assert BlocksOf(html, spans) == [b] + BlocksOf(html, tail);
      BlocksOfSpec(html, tail);
      ConsIndex(b, BlocksOf(html, tail), spans, html);
    }
  }

  /** Indexing a block list with one block in front. */
  lemma ConsIndex(b: Block, bs: seq<Block>, spans: seq<Span>, html: string)
    requires spans != [] && |bs| == |spans| - 1
    requires forall i :: 0 <= i < |spans| ==> IsMatch(html, spans[i])
    requires b == BlockOf(html, spans[0])
    requires forall i :: 0 <= i < |spans| - 1 ==> bs[i] == BlockOf(html, spans[1..][i])
    ensures |[b] + bs| == |spans|
    ensures forall i :: 0 <= i < |spans| ==> ([b] + bs)[i] == BlockOf(html, spans[i])
  {
    forall i | 0 <= i < |spans|
      ensures ([b] + bs)[i] == BlockOf(html, spans[i])
    {
      if i > 0 {
        assert spans[1..][i - 1] == spans[i];
      }
    }
  }

  function Renders(bs: seq<Block>): (rs: seq<string>)
    ensures |rs| == |bs|
    ensures forall i :: 0 <= i < |bs| ==> rs[i] == Render(bs[i])
  {
    seq(|bs|, i requires 0 <= i < |bs| => Render(bs[i]))
  }

  /** convert_to_gutenberg_blocks(html): the blocks' markup joined by blank
      lines. The output is tiled exactly: block `i` at its offset, a blank
      line right after it, block `i + 1` right after that, and nothing after
      the last block; with no blocks it is empty. */
  function Convert(html: string): (r: string)
    ensures Tiled(r, Renders(Blocks(html)), BlockSeparator)
  {
    JoinTiles(Renders(Blocks(html)), BlockSeparator);
    Join(Renders(Blocks(html)), BlockSeparator)
  }

  /** The blocks of a document: exactly one per match of the segmenter, in
      left-to-right order, each the block that match stands for and each
      well-formed. */
  lemma BlocksSpec(html: string)
    ensures |Blocks(html)| == |Segment(html)|
    ensures forall i :: 0 <= i < |Segment(html)| ==>
              IsMatch(html, Segment(html)[i]) && Blocks(html)[i] == BlockOf(html, Segment(html)[i])
    ensures forall i :: 0 <= i < |Blocks(html)| ==> WellFormed(Blocks(html)[i])
  {
    SegmentMatches(html);
    var spans := Segment(html);
    BlocksOfSpec(html, spans);
    forall i | 0 <= i < |spans|
      ensures WellFormed(Blocks(html)[i])
    {
      BlockOfWellFormed(html, spans[i]);
    }
  }

  /** Tile `i` of the output (see Convert) is the markup of the block that
      the segmenter's match `i` stands for: the output follows the matches
      one for one, in order. */
  lemma ConvertInOrder(html: string, i: nat)
    requires i < |Segment(html)|
    ensures IsMatch(html, Segment(html)[i])
    ensures i < |Renders(Blocks(html))|
    ensures Renders(Blocks(html))[i] == Render(BlockOf(html, Segment(html)[i]))
  {
    assert Blocks(html)[i] == BlockOf(html, Segment(html)[i]);
  }

  /** Each block of the output can be read back as the block its match
      stands for. */
  lemma ConvertReadsBack(html: string, i: nat)
    requires i < |Blocks(html)|
    ensures ParseBlock(Renders(Blocks(html))[i]) == Some(Blocks(html)[i])
  {
    BlocksSpec(html);
    ParseRender(Blocks(html)[i]);
  }

  /** A document without any match converts to the empty string. */
  lemma ConvertNoMatches(html: string)
    requires forall q :: 0 <= q < |html| ==> !MatchesAt(html, q)
    ensures Convert(html) == ""
  {
    if Segment(html) != [] {
      SegmentMatches(html);
      var m := Segment(html)[0];
      MatchBounds(html, m);
      assert MatchesAt(html, m.start);
    }
    BlocksSpec(html);
  }
}
