/** Inline image placement (insert_inline_images): for each heading of the
    image map, in the map's order, an image block is spliced in right after
    the first level-2 heading block of the post whose text matches the
    heading, ignoring case. A heading with no such block changes nothing. */
module InlineImages {
  import opened Text
  import Gutenberg

  /** The image block inserted after a heading. */
  function ImageBlock(url: string, heading: string): string {
    "\n\n<!-- wp:image {\"sizeSlug\":\"large\"} -->\n"
    + "<figure class=\"wp-block-image size-large\">"
    + "<img src=\"" + url + "\" alt=\"" + heading + "\"/>"
    + "</figure>\n"
    + "<!-- /wp:image -->"
  }

  /** What the search pattern matches: the serialized level-2 heading block
      of the heading. */
  function HeadingBlock(heading: string): string {
    Gutenberg.Render(Gutenberg.Heading(2, heading))
  }

  /** `a` occurs in `s` at `i`, ignoring case. */
  predicate OccursIgnoringCase(s: string, a: string, i: int) {
    Occurs(LowerStr(s), LowerStr(a), i)
  }

  /** Where the image for `heading` goes: just after the first match of
      its heading block, ignoring case. */
  function Anchor(body: string, heading: string): (r: Option<nat>)
    ensures r.Some? ==> |HeadingBlock(heading)| <= r.value <= |body|
    ensures r.Some? ==> OccursIgnoringCase(body, HeadingBlock(heading), r.value - |HeadingBlock(heading)|)
    ensures r.Some? ==> forall j :: 0 <= j < r.value - |HeadingBlock(heading)| ==>
                          !OccursIgnoringCase(body, HeadingBlock(heading), j)
    ensures r.None? ==> forall j :: !OccursIgnoringCase(body, HeadingBlock(heading), j)
  {
    var pat := HeadingBlock(heading);
    var i := Find(LowerStr(body), LowerStr(pat));
    if i.None? then None else Some(i.value + |pat|)
  }

  /** One iteration of the loop: pattern.sub with count=1, keeping the
      matched text as it was and putting the image block after it. */
  function InsertOne(body: string, heading: string, url: string): (r: string)
    ensures Anchor(body, heading).None? ==> r == body
    ensures Anchor(body, heading).Some? ==>
              var k := Anchor(body, heading).value;
              var image := ImageBlock(url, heading);
              && |r| == |body| + |image|
              && r[..k] == body[..k]
              && r[k..k + |image|] == image
              && r[k + |image|..] == body[k..]
  {
    var anchor := Anchor(body, heading);
    if anchor.None? then body
    else
      var k := anchor.value;
      Splice(body, k, ImageBlock(url, heading));
      body[..k] + ImageBlock(url, heading) + body[k..]
  }

  /** The total length of the image blocks of `entries`. */
  function ImagesLength(entries: seq<(string, string)>): nat
    decreases |entries|
  {
    if entries == [] then 0
    else |ImageBlock(entries[0].1, entries[0].0)| + ImagesLength(entries[1..])
  }

  /** insert_inline_images: the entries are (heading, media URL) pairs in
      the map's order. Each entry adds at most its own image block. */
  function InsertAll(body: string, entries: seq<(string, string)>): (r: string)
    ensures |body| <= |r| <= |body| + ImagesLength(entries)
    decreases |entries|
  {
    if entries == [] then body
    else InsertAll(InsertOne(body, entries[0].0, entries[0].1), entries[1..])
  }

  // ---------------------------------------------------------------------
  // Undoing the insertions
  // ---------------------------------------------------------------------

  /** Where each entry's image went, in the body as it was when the entry's
      turn came. */
  function Anchors(body: string, entries: seq<(string, string)>): (r: seq<Option<nat>>)
    ensures |r| == |entries|
    decreases |entries|
  {
    if entries == [] then []
    else [Anchor(body, entries[0].0)]
         + Anchors(InsertOne(body, entries[0].0, entries[0].1), entries[1..])
  }

  /** Cut the image block of `entry` back out at `anchor`, if it went in. */
  function RemoveOne(s: string, entry: (string, string), anchor: Option<nat>): string {
    var n := |ImageBlock(entry.1, entry.0)|;
    if anchor.None? || anchor.value + n > |s| then s
    else s[..anchor.value] + s[anchor.value + n..]
  }

  /** Cut all image blocks back out, the last one first. */
  function RemoveAll(s: string, entries: seq<(string, string)>, anchors: seq<Option<nat>>): string
    requires |anchors| == |entries|
    decreases |entries|
  {
    if entries == [] then s
    else RemoveOne(RemoveAll(s, entries[1..], anchors[1..]), entries[0], anchors[0])
  }

  /** Cutting the image block back out of one insertion gives the body
      that went in. */
  lemma InsertOneUndo(body: string, heading: string, url: string)
    ensures RemoveOne(InsertOne(body, heading, url), (heading, url), Anchor(body, heading)) == body
  {
    var anchor := Anchor(body, heading);
    if anchor.Some? {
      var k := anchor.value;
      var r := InsertOne(body, heading, url);
      var n := |ImageBlock(url, heading)|;
      assert r[..k] + r[k + n..] == body[..k] + body[k..];
      assert body[..k] + body[k..] == body;
    }
  }

  /** Deleting the inserted image blocks, last one first, recovers the
      input. */
  lemma {:induction false} InsertAllUndo(body: string, entries: seq<(string, string)>)
    ensures RemoveAll(InsertAll(body, entries), entries, Anchors(body, entries)) == body
    decreases |entries|
  {
    if entries != [] {
      var e := entries[0];
      var next := InsertOne(body, e.0, e.1);
      InsertAllUndo(next, entries[1..]);
      InsertOneUndo(body, e.0, e.1);
    }
  }

  // ---------------------------------------------------------------------
  // Where the image goes
  // ---------------------------------------------------------------------

  lemma LowerStrSlice(s: string, i: nat, j: nat)
    requires i <= j <= |s|
    ensures LowerStr(s)[i..j] == LowerStr(s[i..j])
  {
  }

  /** Headings that differ only in case have heading blocks that differ
      only in case. */
  lemma HeadingBlockIgnoringCase(h1: string, h2: string)
    requires LowerStr(h1) == LowerStr(h2)
    ensures LowerStr(HeadingBlock(h1)) == LowerStr(HeadingBlock(h2))
  {
    var k := Gutenberg.BlockKind(Gutenberg.Heading(2, h1));
    var open, close := Gutenberg.BlockOpen(k), Gutenberg.BlockClose(k);
    assert HeadingBlock(h1) == open + h1 + close;
    assert HeadingBlock(h2) == open + h2 + close;
    LowerStrConcat(open + h1, close);
    LowerStrConcat(open, h1);
    LowerStrConcat(open + h2, close);
    LowerStrConcat(open, h2);
  }

  /** A level-2 heading block for the same heading up to case is found, and
      the image goes after it or after an earlier one. */
  lemma AnchorFindsHeadingBlock(body: string, i: nat, shown: string, heading: string)
    requires Occurs(body, HeadingBlock(shown), i)
    requires LowerStr(shown) == LowerStr(heading)
    ensures Anchor(body, heading).Some?
    ensures Anchor(body, heading).value <= i + |HeadingBlock(heading)|
  {
    var pat := HeadingBlock(heading);
    HeadingBlockIgnoringCase(shown, heading);
    LowerStrSlice(body, i, i + |pat|);
    assert OccursIgnoringCase(body, pat, i);
  }

  /** A heading block at the front gets the image right after it. */
  lemma InsertAfterHeadingBlock(heading: string, url: string, rest: string)
    ensures InsertOne(HeadingBlock(heading) + rest, heading, url)
              == HeadingBlock(heading) + ImageBlock(url, heading) + rest
  {
    var pat := HeadingBlock(heading);
    var body := pat + rest;
    AnchorFindsHeadingBlock(body, 0, heading, heading);
    var k := Anchor(body, heading).value;
    assert k == |pat|;
    var r := InsertOne(body, heading, url);
    assert r == r[..k] + r[k..k + |ImageBlock(url, heading)|] + r[k + |ImageBlock(url, heading)|..];
    assert body[..k] == pat && body[k..] == rest;
  }

  /** The placement is not idempotent: running the same entry again finds
      the same heading block and inserts a second image. */
  lemma InsertOneAgain(body: string, heading: string, url: string)
    requires Anchor(body, heading).Some?
    ensures var once := InsertOne(body, heading, url);
            Anchor(once, heading) == Anchor(body, heading)
            && |InsertOne(once, heading, url)| == |body| + 2 * |ImageBlock(url, heading)|
  {
    var k := Anchor(body, heading).value;
    var once := InsertOne(body, heading, url);
    var n := |HeadingBlock(heading)|;
    AnchorIsFind(body, heading);
    LowerSamePrefix(body, once, k);
    FindKeptByPrefix(LowerStr(body), LowerStr(once), LowerStr(HeadingBlock(heading)), k - n);
    AnchorIsFind(once, heading);
  }

  /** The anchor is the end of the first case-folded occurrence. */
  lemma AnchorIsFind(body: string, heading: string)
    ensures var i := Find(LowerStr(body), LowerStr(HeadingBlock(heading)));
            Anchor(body, heading) == if i.None? then None else Some(i.value + |HeadingBlock(heading)|)
  {
  }

  /** Texts that agree up to `k` agree up to `k` once lowered. */
  lemma LowerSamePrefix(a: string, b: string, k: nat)
    requires k <= |a| && k <= |b| && a[..k] == b[..k]
    ensures LowerStr(a)[..k] == LowerStr(b)[..k]
  {
    forall i | 0 <= i < k
      ensures LowerStr(a)[i] == LowerStr(b)[i]
    {
      assert a[i] == a[..k][i] == b[..k][i] == b[i];
    }
  }

  /** An entry whose heading has no block in the body changes nothing, and
      neither does a whole map of such entries. */
  lemma {:induction false} InsertAllNoMatch(body: string, entries: seq<(string, string)>)
    requires forall k :: 0 <= k < |entries| ==> Anchor(body, entries[k].0).None?
    ensures InsertAll(body, entries) == body
    decreases |entries|
  {
    if entries != [] {
      assert InsertOne(body, entries[0].0, entries[0].1) == body;
      InsertAllNoMatch(body, entries[1..]);
    }
  }
}
