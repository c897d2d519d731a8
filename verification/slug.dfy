/** The file-name slug of an inline image (generate_inline_image):
    lower-case the heading, replace every run of characters outside
    [a-z0-9] by one '-', then strip '-' from both ends. */
module Slug {
  import opened Text

  predicate IsSlugChar(c: char) {
    'a' <= c <= 'z' || '0' <= c <= '9'
  }

  predicate IsDash(c: char) {
    c == '-'
  }

  predicate IsSeparator(c: char) {
    !IsSlugChar(c)
  }

  /** The characters of `s` that satisfy [a-z0-9], in order. */
  function SlugChars(s: string): string
    decreases |s|
  {
    if s == [] then []
    else if IsSlugChar(s[0]) then [s[0]] + SlugChars(s[1..])
    else SlugChars(s[1..])
  }

  lemma {:induction false} SlugCharsConcat(a: string, b: string)
    ensures SlugChars(a + b) == SlugChars(a) + SlugChars(b)
    decreases |a|
  {
    if a == [] {
      assert a + b == b;
    } else {
      assert (a + b)[1..] == a[1..] + b;
      SlugCharsConcat(a[1..], b);
    }
  }

  /** Drop the leading run of separators. */
  function DropSeparators(s: string): (r: string)
    ensures |r| <= |s| && r == s[|s| - |r|..]
    ensures r != [] ==> IsSlugChar(r[0])
    ensures forall i :: 0 <= i < |s| - |r| ==> IsSeparator(s[i])
    ensures s != [] && IsSeparator(s[0]) ==> |r| < |s|
    ensures SlugChars(r) == SlugChars(s)
  {
    var k := SkipWhile(s, IsSeparator);
    SlugCharsConcat(s[..k], s[k..]);
    assert s == s[..k] + s[k..];
    NoSlugChars(s[..k]);
    s[k..]
  }

  lemma {:induction false} NoSlugChars(s: string)
    requires forall i :: 0 <= i < |s| ==> IsSeparator(s[i])
    ensures SlugChars(s) == []
    decreases |s|
  {
    if s != [] {
      NoSlugChars(s[1..]);
    }
  }

  /** re.sub(r'[^a-z0-9]+', '-', s): each maximal run of separators becomes
      a single '-'. */
  function Collapse(s: string): (r: string)
    ensures forall i :: 0 <= i < |r| ==> IsSlugChar(r[i]) || IsDash(r[i])
    ensures forall i :: 0 <= i < |r| - 1 ==> !(IsDash(r[i]) && IsDash(r[i + 1]))
    ensures s != [] ==> r != [] && (IsDash(r[0]) <==> IsSeparator(s[0]))
    decreases |s|
  {
    if s == [] then []
    else if IsSlugChar(s[0]) then [s[0]] + Collapse(s[1..])
    else "-" + Collapse(DropSeparators(s))
  }

  /** Collapsing keeps every letter and digit, in order. */
  lemma {:induction false} CollapseKeepsSlugChars(s: string)
    ensures SlugChars(Collapse(s)) == SlugChars(s)
    decreases |s|
  {
    if s != [] {
      if IsSlugChar(s[0]) {
        CollapseKeepsSlugChars(s[1..]);
        SlugCharsConcat([s[0]], Collapse(s[1..]));
      } else {
        var t := DropSeparators(s);
        CollapseKeepsSlugChars(t);
        SlugCharsConcat("-", Collapse(t));
      }
    }
  }

  // ---------------------------------------------------------------------
  // Words: the reference description of the slug
  // ---------------------------------------------------------------------

  /** A non-empty run of letters and digits. */
  predicate IsWord(w: string) {
    w != [] && forall i :: 0 <= i < |w| ==> IsSlugChar(w[i])
  }

  /** The maximal runs of [a-z0-9] in `s`, in order. */
  function Words(s: string): (ws: seq<string>)
    ensures forall k :: 0 <= k < |ws| ==> IsWord(ws[k])
    decreases |s|
  {
    var i := SkipWhile(s, IsSeparator);
    if i == |s| then []
    else
      var j := i + SkipWhile(s[i..], IsSlugChar);
      assert s[i..][0] == s[i];
      assert forall k :: i <= k < j ==> s[k] == s[i..][k - i];
      [s[i..j]] + Words(s[j..])
  }

  /** A dash in front when `s` opens with a separator. */
  function LeadDash(s: string): string {
    if s != [] && IsSeparator(s[0]) then "-" else ""
  }

  /** A dash behind when `s` holds a word and ends with a separator. */
  function TrailDash(s: string): string {
    if Words(s) != [] && IsSeparator(s[|s| - 1]) then "-" else ""
  }

  /** Words joined by dashes start and end with a letter or digit. */
  lemma {:induction false} JoinedWordsEnds(ws: seq<string>)
    requires forall k :: 0 <= k < |ws| ==> IsWord(ws[k])
    ensures ws != [] ==> Join(ws, "-") != []
    ensures Join(ws, "-") != [] ==>
              IsSlugChar(Join(ws, "-")[0]) && IsSlugChar(Join(ws, "-")[|Join(ws, "-")| - 1])
    decreases |ws|
  {
    if |ws| > 1 {
      var rest := Join(ws[1..], "-");
      JoinedWordsEnds(ws[1..]);
      assert Join(ws, "-") == ws[0] + "-" + rest;
    } else if |ws| == 1 {
      assert IsWord(ws[0]);
    }
  }

  /** Words without a word are all separators. */
  lemma NoWords(s: string)
    requires Words(s) == []
    ensures forall i :: 0 <= i < |s| ==> IsSeparator(s[i])
  {
  }

  /** Separators in front change no word. */
  lemma WordsAfterSeparators(s: string)
    ensures Words(DropSeparators(s)) == Words(s)
  {
    var i := SkipWhile(s, IsSeparator);
    var t := DropSeparators(s);
    assert t == s[i..];
    assert SkipWhile(t, IsSeparator) == 0;
    if i < |s| {
      var j := i + SkipWhile(s[i..], IsSlugChar);
      assert t[0..] == t;
      assert t[..j - i] == s[i..j];
      assert t[j - i..] == s[j..];
    }
  }

  /** A run of letters and digits passes through Collapse unchanged. */
  lemma {:induction false} CollapseSlugRun(w: string, u: string)
    requires forall i :: 0 <= i < |w| ==> IsSlugChar(w[i])
    ensures Collapse(w + u) == w + Collapse(u)
    decreases |w|
  {
    if w != [] {
      var v := w[1..];
      CollapseFirstSlug(w, u);
      CollapseSlugRun(v, u);
      ConsAssoc(w, Collapse(u));
    } else {
      assert w + u == u;
    }
  }

  /** One letter or digit in front passes through Collapse. */
  lemma CollapseFirstSlug(w: string, u: string)
    requires w != [] && forall i :: 0 <= i < |w| ==> IsSlugChar(w[i])
    ensures forall i :: 0 <= i < |w| - 1 ==> IsSlugChar(w[1..][i])
    ensures Collapse(w + u) == [w[0]] + Collapse(w[1..] + u)
  {
    assert (w + u)[0] == w[0];
    assert (w + u)[1..] == w[1..] + u;
  }

  /** Splitting off the first element of a non-empty sequence. */
  lemma ConsAssoc(w: string, c: string)
    requires w != []
    ensures [w[0]] + (w[1..] + c) == w + c
  {
    assert w == [w[0]] + w[1..];
  }

  /** The equation of CollapseWords. */
  ghost predicate CollapsesToWords(s: string) {
    Collapse(s) == LeadDash(s) + Join(Words(s), "-") + TrailDash(s)
  }

  /** re.sub(r'[^a-z0-9]+', '-', s) in full: the words of `s` joined by one
      dash each, with one more dash in front when `s` opens with a
      separator and one behind when it ends with one after a word. */
  lemma {:induction false} CollapseWords(s: string)
    ensures Collapse(s) == LeadDash(s) + Join(Words(s), "-") + TrailDash(s)
    decreases |s|
  {
    if s == [] {
    } else if IsSeparator(s[0]) {
      CollapseWords(DropSeparators(s));
      CollapseWordsAfterSeparators(s);
    } else {
      var k := SkipWhile(s, IsSlugChar);
      var w, u := s[..k], s[k..];
      assert s == w + u;
      CollapseWords(u);
      CollapseWordsAfterWord(w, u);
    }
  }

  /** The step of CollapseWords over a leading run of separators. */
  lemma CollapseWordsAfterSeparators(s: string)
    requires s != [] && IsSeparator(s[0])
    requires CollapsesToWords(DropSeparators(s))
    ensures CollapsesToWords(s)
  {
    var t := DropSeparators(s);
    WordsAfterSeparators(s);
    CollapseAtSeparator(s);
    DashesAfterSeparators(s);
    Regroup(Collapse(s), Collapse(t), LeadDash(t), Join(Words(s), "-"), TrailDash(t));
  }

  /** A leading run of separators collapses to one dash. */
  lemma CollapseAtSeparator(s: string)
    requires s != [] && IsSeparator(s[0])
    ensures Collapse(s) == "-" + Collapse(DropSeparators(s))
  {
  }

  /** Dropping the leading separators leaves no dash in front and the same
      dash behind. */
  lemma DashesAfterSeparators(s: string)
    requires s != [] && IsSeparator(s[0])
    ensures LeadDash(DropSeparators(s)) == "" && LeadDash(s) == "-"
    ensures TrailDash(DropSeparators(s)) == TrailDash(s)
  {
    var t := DropSeparators(s);
    WordsAfterSeparators(s);
    if Words(t) != [] {
      assert t[|t| - 1] == s[|s| - 1];
    }
  }

  /** The sequence algebra of the separator step. */
  lemma Regroup(cs: string, ct: string, lt: string, j: string, tt: string)
    requires ct == lt + j + tt && cs == "-" + ct && lt == ""
    ensures cs == "-" + j + tt
  {
  }

  /** The step of CollapseWords over a leading word. */
  lemma CollapseWordsAfterWord(w: string, u: string)
    requires IsWord(w) && (u == [] || IsSeparator(u[0]))
    requires CollapsesToWords(u)
    ensures CollapsesToWords(w + u)
  {
    CollapseSlugRun(w, u);
    WordsOfWord(w, u);
    WordDashes(w, u);
    JoinCons(w, Words(u), "-");
    RegroupWord(Collapse(w + u), w, Collapse(u), LeadDash(u), Join(Words(u), "-"), TrailDash(u),
                Join(Words(w + u), "-"), TrailDash(w + u), LeadDash(w + u));
  }

  /** The dashes around a text that opens with a word. */
  lemma WordDashes(w: string, u: string)
    requires IsWord(w) && (u == [] || IsSeparator(u[0]))
    ensures LeadDash(w + u) == ""
    ensures u == [] ==> TrailDash(w + u) == "" && Words(u) == []
    ensures u != [] ==> LeadDash(u) == "-"
    ensures u != [] && Words(u) == [] ==> TrailDash(w + u) == "-" && TrailDash(u) == ""
    ensures Words(u) != [] ==> TrailDash(w + u) == TrailDash(u)
  {
    WordsOfWord(w, u);
    EndsOfConcat(w, u);
    if u != [] && Words(u) == [] {
      NoWords(u);
    }
  }

  /** The first and last characters of `w + u`. */
  lemma EndsOfConcat(w: string, u: string)
    requires w != []
    ensures (w + u)[0] == w[0]
    ensures u == [] ==> (w + u)[|w + u| - 1] == w[|w| - 1]
    ensures u != [] ==> (w + u)[|w + u| - 1] == u[|u| - 1]
  {
  }

  /** The sequence algebra of the word step. */
  lemma RegroupWord(cs: string, w: string, cu: string, lu: string, ju: string, tu: string,
                    js: string, ts: string, ls: string)
    requires cs == w + cu && cu == lu + ju + tu && ls == ""
    requires lu == "" ==> ju == "" && tu == "" && ts == "" && js == w
    requires lu == "-" && ju == "" ==> tu == "" && ts == "-" && js == w
    requires lu == "-" && ju != "" ==> ts == tu && js == w + "-" + ju
    requires lu == "" || lu == "-"
    ensures cs == ls + js + ts
  {
  }

  /** A text that opens with a word has that word first. */
  lemma WordsOfWord(w: string, u: string)
    requires IsWord(w) && (u == [] || IsSeparator(u[0]))
    ensures Words(w + u) == [w] + Words(u)
  {
    var s := w + u;
    assert SkipWhile(s, IsSeparator) == 0 by {
      assert s[0] == w[0];
    }
    assert s[0..] == s;
    assert SkipWhile(s, IsSlugChar) == |w| by {
      SkipWord(w, u);
    }
    assert s[0..|w|] == w;
    assert s[|w|..] == u;
  }

  /** The letters and digits at the front of `w + u` are exactly `w`. */
  lemma {:induction false} SkipWord(w: string, u: string)
    requires forall i :: 0 <= i < |w| ==> IsSlugChar(w[i])
    requires u == [] || IsSeparator(u[0])
    ensures SkipWhile(w + u, IsSlugChar) == |w|
    decreases |w|
  {
    if w == [] {
      assert w + u == u;
    } else {
      assert (w + u)[1..] == w[1..] + u;
      assert forall i :: 0 <= i < |w| - 1 ==> w[1..][i] == w[i + 1];
      SkipWord(w[1..], u);
    }
  }

  /** The padding around the joined words is made of dashes. */
  lemma DashPads(s: string)
    ensures forall i :: 0 <= i < |LeadDash(s)| ==> IsDash(LeadDash(s)[i])
    ensures forall i :: 0 <= i < |TrailDash(s)| ==> IsDash(TrailDash(s)[i])
  {
  }

  /** Trimming the dashes off the collapsed text leaves the words joined by
      single dashes. */
  lemma TrimmedCollapse(s: string)
    ensures TrimBy(Collapse(s), IsDash) == Join(Words(s), "-")
  {
    CollapseWords(s);
    JoinedWordsEnds(Words(s));
    DashPads(s);
    TrimByFrame(Collapse(s), LeadDash(s), Join(Words(s), "-"), TrailDash(s), IsDash);
  }

  /** The slug of `heading`: its lower-cased words joined by single dashes. */
  function Slug(heading: string): (r: string)
    ensures r == Join(Words(LowerStr(heading)), "-")
    ensures forall i :: 0 <= i < |r| ==> IsSlugChar(r[i]) || IsDash(r[i])
    ensures r != [] ==> !IsDash(r[0]) && !IsDash(r[|r| - 1])
    ensures forall i :: 0 <= i < |r| - 1 ==> !(IsDash(r[i]) && IsDash(r[i + 1]))
  {
    var s := LowerStr(heading);
    TrimmedShape(Collapse(s));
    TrimmedCollapse(s);
    TrimBy(Collapse(s), IsDash)
  }

  /** Trimming the dashes off a text of letters, digits and single dashes
      leaves such a text that neither starts nor ends with a dash. */
  lemma TrimmedShape(c: string)
    requires forall i :: 0 <= i < |c| ==> IsSlugChar(c[i]) || IsDash(c[i])
    requires forall i :: 0 <= i < |c| - 1 ==> !(IsDash(c[i]) && IsDash(c[i + 1]))
    ensures var r := TrimBy(c, IsDash);
            && (forall i :: 0 <= i < |r| ==> IsSlugChar(r[i]) || IsDash(r[i]))
            && (r != [] ==> !IsDash(r[0]) && !IsDash(r[|r| - 1]))
            && (forall i :: 0 <= i < |r| - 1 ==> !(IsDash(r[i]) && IsDash(r[i + 1])))
  {
    var r := TrimBy(c, IsDash);
    assert forall i :: 0 <= i < |r| ==> r[i] == c[TrimStart(c, IsDash) + i];
  }

  /** Trimming dashes loses no letter or digit. */
  lemma TrimDashesKeepsSlugChars(c: string)
    ensures SlugChars(TrimBy(c, IsDash)) == SlugChars(c)
  {
    var i := TrimStart(c, IsDash);
    var j := TrimEnd(c, IsDash);
    DashesHaveNoSlugChars(c, 0, i);
    DashesHaveNoSlugChars(c, j, |c|);
    assert c == c[0..i] + c[i..j] + c[j..|c|];
    SlugCharsBetween(c[0..i], c[i..j], c[j..|c|]);
  }

  lemma DashesHaveNoSlugChars(c: string, lo: nat, hi: nat)
    requires lo <= hi <= |c|
    requires forall k :: lo <= k < hi ==> IsDash(c[k])
    ensures SlugChars(c[lo..hi]) == []
  {
    var d := c[lo..hi];
    forall k | 0 <= k < |d| ensures IsSeparator(d[k]) {
      assert d[k] == c[lo + k];
    }
    NoSlugChars(d);
  }

  lemma SlugCharsBetween(front: string, middle: string, back: string)
    requires SlugChars(front) == [] && SlugChars(back) == []
    ensures SlugChars(front + middle + back) == SlugChars(middle)
  {
    SlugCharsConcat(front + middle, back);
    SlugCharsConcat(front, middle);
  }

  /** The slug holds exactly the letters and digits of the lower-cased
      heading, in order; in particular it is empty exactly when there are
      none. */
  lemma SlugKeepsSlugChars(heading: string)
    ensures SlugChars(Slug(heading)) == SlugChars(LowerStr(heading))
    ensures Slug(heading) == [] <==> SlugChars(LowerStr(heading)) == []
  {
    TrimDashesKeepsSlugChars(Collapse(LowerStr(heading)));
    CollapseKeepsSlugChars(LowerStr(heading));
  }

  /** A string already in slug shape is its own slug. */
  lemma {:induction false} CollapseOfSlugShaped(s: string)
    requires forall i :: 0 <= i < |s| ==> IsSlugChar(s[i]) || IsDash(s[i])
    requires forall i :: 0 <= i < |s| - 1 ==> !(IsDash(s[i]) && IsDash(s[i + 1]))
    ensures Collapse(s) == s
    decreases |s|
  {
    if s != [] {
      if IsSlugChar(s[0]) {
        CollapseOfSlugShaped(s[1..]);
      } else {
        var t := DropSeparators(s);
        assert |s| > 1 ==> IsSlugChar(s[1]);
        assert t == s[1..];
        CollapseOfSlugShaped(t);
      }
    }
  }

  /** Slugging a slug changes nothing. */
  lemma SlugIdempotent(heading: string)
    ensures Slug(Slug(heading)) == Slug(heading)
  {
    var r := Slug(heading);
    assert LowerStr(r) == r;
    CollapseOfSlugShaped(r);
    TrimByOfTrimmed(r, IsDash);
  }

  /** A space between two words becomes one dash. */
  lemma TwoWords()
    ensures Slug("A b") == "a-b"
  {
    TwoWordsLowered();
    TwoWordsSplit();
    JoinCons("a", ["b"], "-");
  }

  lemma TwoWordsLowered()
    ensures LowerStr("A b") == "a b"
  {
  }

  lemma TwoWordsSplit()
    ensures Words("a b") == ["a", "b"]
  {
    assert "a b" == "a" + " " + "b";
    WordsOfTwo("a", " ", "b");
  }

  /** Two words with a run of separators between them. */
  lemma WordsOfTwo(w1: string, sep: string, w2: string)
    requires IsWord(w1) && IsWord(w2)
    requires sep != [] && forall i :: 0 <= i < |sep| ==> IsSeparator(sep[i])
    ensures Words(w1 + sep + w2) == [w1, w2]
  {
    assert w1 + sep + w2 == w1 + (sep + w2);
    WordsOfWord(w1, sep + w2);
    WordsOfSeparatedWord(sep, w2);
  }

  /** A run of separators and then one word: that word alone. */
  lemma WordsOfSeparatedWord(sep: string, w: string)
    requires IsWord(w)
    requires forall i :: 0 <= i < |sep| ==> IsSeparator(sep[i])
    ensures Words(sep + w) == [w]
  {
    DropSeparatorsBefore(sep, w);
    WordsAfterSeparators(sep + w);
    assert w + [] == w;
    WordsOfWord(w, []);
  }

  /** Dropping a run of separators in front of a word leaves the word. */
  lemma DropSeparatorsBefore(sep: string, w: string)
    requires forall i :: 0 <= i < |sep| ==> IsSeparator(sep[i])
    requires w != [] && IsSlugChar(w[0])
    ensures DropSeparators(sep + w) == w
  {
    var s := sep + w;
    var r := DropSeparators(s);
    assert s[|sep|] == w[0];
    assert forall i :: 0 <= i < |sep| ==> s[i] == sep[i];
    assert r != [] ==> r[0] == s[|s| - |r|];
    assert |r| == |w|;
    assert s[|sep|..] == w;
  }
}
