/** The list-item sub-segmenter (_convert_list_items): find every
    `<li>…</li>` element of a list, leftmost first and each ending at the
    nearest closing tag, and wrap its stripped text as a list-item block. */
module ListItems {
  import opened Text

  const ItemOpen: string := "<li>"
  const ItemClose: string := "</li>"

  /** Marker text before and after the `<li>` element of one list-item block. */
  const ItemBlockStart: string := "<!-- wp:list-item -->\n"
  const ItemBlockEnd: string := "\n<!-- /wp:list-item -->\n"

  /** `t` contains no closing `</li>`: true of every item text found by a
      shortest match. */
  ghost predicate NoItemClose(t: string) {
    forall j :: !Occurs(t, ItemClose, j)
  }

  /** re.findall(r'<li>(.*?)</li>', html, re.DOTALL): the text between each
      leftmost `<li>` and the first `</li>` after it, scanning on from the
      end of that match. The first `<li>` with no `</li>` after it ends the
      scan, since no later `<li>` can have one either. */
  function ItemTexts(html: string): (items: seq<string>)
    ensures forall k :: 0 <= k < |items| ==> NoItemClose(items[k])
    decreases |html|, 1
  {
    var open := Find(html, ItemOpen);
    if open.None? then [] else ItemTextsAfterOpen(html[open.value + |ItemOpen|..])
  }

  /** The scan of ItemTexts just after an `<li>`: the item runs to the first
      `</li>`, and without one the scan is over. */
  function ItemTextsAfterOpen(rest: string): (items: seq<string>)
    ensures forall k :: 0 <= k < |items| ==> NoItemClose(items[k])
    decreases |rest|, 0
  {
    match Find(rest, ItemClose)
    case None => []
    case Some(j) =>
      var item := rest[..j];
      assert NoItemClose(item) by {
        forall k ensures !Occurs(item, ItemClose, k) {
          if 0 <= k && k + |ItemClose| <= j {
            assert item[k..k + |ItemClose|] == rest[k..k + |ItemClose|];
            assert !Occurs(rest, ItemClose, k);
          }
        }
      }
      [item] + ItemTexts(rest[j + |ItemClose|..])
  }

  /** One list-item block around an already stripped item text. */
  function ItemBlock(text: string): string {
    ItemBlockStart + ItemOpen + text + ItemClose + ItemBlockEnd
  }

  /** The list-item blocks of `items`, one after another. */
  function ItemsMarkup(items: seq<string>): (r: string)
    ensures items == [] ==> r == ""
    decreases |items|
  {
    if items == [] then "" else ItemBlock(items[0]) + ItemsMarkup(items[1..])
  }

  /** Strip each item text. */
  function StripAll(items: seq<string>): (r: seq<string>)
    ensures |r| == |items|
    ensures forall k :: 0 <= k < |items| ==> r[k] == Strip(items[k])
  {
    seq(|items|, k requires 0 <= k < |items| => Strip(items[k]))
  }

  /** The list-item block of each item, in order. */
  function ItemBlocks(items: seq<string>): (r: seq<string>)
    ensures |r| == |items|
    ensures forall k :: 0 <= k < |items| ==> r[k] == ItemBlock(items[k])
  {
    seq(|items|, k requires 0 <= k < |items| => ItemBlock(items[k]))
  }

  /** _convert_list_items(list_html): one list-item block per `<li>` match,
      each around the stripped item text, with nothing between the blocks. */
  function ConvertListItems(listHtml: string): (r: string)
    ensures ItemTexts(listHtml) == [] ==> r == ""
    ensures Tiled(r, ItemBlocks(StripAll(ItemTexts(listHtml))), "")
    ensures ItemTexts(r) == StripAll(ItemTexts(listHtml))
  {
    var items := StripAll(ItemTexts(listHtml));
    StripAllKeepsNoItemClose(ItemTexts(listHtml));
    ItemTextsOfMarkup(items);
    ItemsMarkupIsJoin(items);
    JoinTiles(ItemBlocks(items), "");
    ItemsMarkup(items)
  }

  /** The list-item markup is the `"".join` of the item blocks. */
  lemma {:induction false} ItemsMarkupIsJoin(items: seq<string>)
    ensures ItemsMarkup(items) == Join(ItemBlocks(items), "")
    decreases |items|
  {
    if items != [] {
      var tail := items[1..];
      ItemsMarkupIsJoin(tail);
      assert ItemBlocks(items) == [ItemBlock(items[0])] + ItemBlocks(tail);
      JoinCons(ItemBlock(items[0]), ItemBlocks(tail), "");
    }
  }

  /** Stripping cannot create a `</li>`: the result is a slice. */
  lemma StripKeepsNoItemClose(t: string)
    requires NoItemClose(t)
    ensures NoItemClose(Strip(t))
  {
    var a := TrimStart(t, IsSpace);
    var b := TrimEnd(t, IsSpace);
    var r := Strip(t);
    assert r == t[a..b];
    forall k | 0 <= k && k + |ItemClose| <= |r|
      ensures !Occurs(r, ItemClose, k)
    {
      OccursInSlice(t, a, b, ItemClose, k);
    }
  }

  /** No `<li>` starts inside the marker text of a list-item block, whatever
      follows it. */
  lemma NoOpenInMarkers(rest: string)
    ensures forall j :: 0 <= j < |ItemBlockStart| ==> !Occurs(ItemBlockStart + rest, ItemOpen, j)
    ensures forall j :: 0 <= j < |ItemBlockEnd| ==> !Occurs(ItemBlockEnd + rest, ItemOpen, j)
  {
    assert '<' !in ItemBlockStart[1..];
    NoOccurrenceBefore(ItemBlockStart, rest, ItemOpen);
    assert '<' !in ItemBlockEnd[2..];
    assert ItemBlockEnd[0] != '<';
    NoOccurrenceBefore(ItemBlockEnd, rest, ItemOpen);
  }

  /** Reading the list items back out of the list-item markup gives the items
      that went in, in the same order and the same number: one block per
      item. */
  lemma {:induction false} ItemTextsOfMarkup(items: seq<string>)
    requires forall k :: 0 <= k < |items| ==> NoItemClose(items[k])
    ensures ItemTexts(ItemsMarkup(items)) == items
    decreases |items|
  {
    if items != [] {
      var tail := items[1..];
      assert ItemsMarkup(items) == ItemBlock(items[0]) + ItemsMarkup(tail);
      assert forall k :: 0 <= k < |tail| ==> tail[k] == items[k + 1];
      ItemTextsOfBlock(items[0], ItemsMarkup(tail));
      ItemTextsOfMarkup(tail);
      assert items == [items[0]] + tail;
    }
  }

  /** One list-item block in front of more markup contributes its text as
      the next item. */
  lemma ItemTextsOfBlock(t: string, tail: string)
    requires NoItemClose(t)
    ensures ItemTexts(ItemBlock(t) + tail) == [t] + ItemTexts(tail)
  {
    var y := ItemBlockEnd + tail;
    var z := ItemOpen + (t + ItemClose + y);
    assert ItemBlock(t) + tail == ItemBlockStart + z;
    NoOpenInMarkers(z);
    ItemTextsSkip(ItemBlockStart, z);
    ItemTextsAtOpen(t + ItemClose + y);
    ItemTextsAfterItem(t, y);
    NoOpenInMarkers(tail);
    ItemTextsSkip(ItemBlockEnd, tail);
  }

  /** A string that starts with `<li>` is scanned from just after it. */
  lemma ItemTextsAtOpen(x: string)
    ensures ItemTexts(ItemOpen + x) == ItemTextsAfterOpen(x)
  {
    var s := ItemOpen + x;
    assert Occurs(s, ItemOpen, 0);
    assert s[|ItemOpen|..] == x;
  }

  /** After an `<li>`, an item text free of `</li>` and its closing tag yield
      that text as the next item. */
  lemma ItemTextsAfterItem(t: string, y: string)
    requires NoItemClose(t)
    ensures ItemTextsAfterOpen(t + ItemClose + y) == [t] + ItemTexts(y)
  {
    var rest := t + ItemClose + y;
    FindAfterClean(t, ItemClose, y);
    assert rest[..|t|] == t;
    assert rest[|t| + |ItemClose|..] == y;
  }

  /** Text in which no `<li>` starts can be dropped from the front. */
  lemma ItemTextsSkip(a: string, b: string)
    requires forall j :: 0 <= j < |a| ==> !Occurs(a + b, ItemOpen, j)
    ensures ItemTexts(a + b) == ItemTexts(b)
  {
    var s := a + b;
    FindShift(a, b, ItemOpen);
    var fb, fs := Find(b, ItemOpen), Find(s, ItemOpen);
    if fb.Some? {
      var i, j := fb.value, fs.value;
      assert s[j + |ItemOpen|..] == b[i + |ItemOpen|..];
    }
  }

  /** Stripping every item of a list keeps each free of `</li>`. */
  lemma StripAllKeepsNoItemClose(items: seq<string>)
    requires forall k :: 0 <= k < |items| ==> NoItemClose(items[k])
    ensures forall k :: 0 <= k < |items| ==> NoItemClose(StripAll(items)[k])
  {
    forall k | 0 <= k < |items|
      ensures NoItemClose(StripAll(items)[k])
    {
      StripKeepsNoItemClose(items[k]);
    }
  }
}
