/** parse_markdown as a whole, once the file has been read: the title and
    the markdown body, the body rendered to HTML and serialized as blocks,
    and the section index of the body. The markdown renderer is not part of
    this model and is passed in as `render`. */
module Publish {
  import opened Text
  import MarkdownHeadings
  import Gutenberg

  /** What parse_markdown returns. */
  datatype Post = Post(title: string, bodyHtml: string, sections: seq<string>)

  function ParseMarkdown(raw: string, stem: string, render: string -> string): (r: Post)
    ensures forall k :: 0 <= k < |r.sections| ==> r.sections[k] != [] && '\n' !in r.sections[k]
    ensures (forall q :: 0 <= q <= |raw| ==> MarkdownHeadings.HeadingAt(raw, q, "#").None?) ==>
              && r.title == stem
              && r.bodyHtml == Gutenberg.Convert(render(Strip(raw)))
              && r.sections == MarkdownHeadings.H2Sections(Strip(raw))
    ensures MarkdownHeadings.FirstHeading(raw, "#", 0).Some? ==>
              var h := MarkdownHeadings.FirstHeading(raw, "#", 0).value;
              var body := Strip(raw[..h.0] + raw[MarkdownHeadings.LineCut(raw, h.2)..]);
              && r.title == Strip(raw[h.1..h.2])
              && r.bodyHtml == Gutenberg.Convert(render(body))
              && r.sections == MarkdownHeadings.H2Sections(body)
  {
    var parsed := MarkdownHeadings.ExtractTitle(raw, stem);
    Post(parsed.title,
         Gutenberg.Convert(render(parsed.body)),
         MarkdownHeadings.H2Sections(parsed.body))
  }

  /** A file that opens with a plain `# ` line: that line gives the title,
      and everything after it is the body that is rendered and indexed. */
  lemma ParseTitledFile(t: string, rest: string, stem: string, render: string -> string)
    requires t != [] && !IsSpace(t[0]) && '\n' !in t
    ensures var post := ParseMarkdown("# " + t + "\n" + rest, stem, render);
            && post.title == Strip(t)
            && post.bodyHtml == Gutenberg.Convert(render(Strip(rest)))
            && post.sections == MarkdownHeadings.H2Sections(Strip(rest))
  {
    MarkdownHeadings.TitleOfFirstLine(t, rest, stem);
  }
}
