/** The text layout of a PDF page as PyMuPDF's `extractDICT` reports it: blocks of
    lines of spans, each span with its text and the name of its font. */
module Layout {
  import opened Text

  datatype Span = Span(text: string, font: string)
  datatype Line = Line(spans: seq<Span>)
  datatype Block = Block(lines: seq<Line>)
  datatype Page = Page(blocks: seq<Block>)

  /** `span["font"].lower().count("bold")` is non-zero. */
  predicate IsBold(s: Span) {
    Contains(Lower(s.font), "bold")
  }

  /** The spans of some lines, in line then span order. */
  function LinesSpans(lines: seq<Line>): seq<Span> {
    if |lines| == 0 then [] else lines[0].spans + LinesSpans(lines[1..])
  }

  /** The spans of some blocks, in block, line, span order. */
  function BlocksSpans(blocks: seq<Block>): seq<Span> {
    if |blocks| == 0 then [] else LinesSpans(blocks[0].lines) + BlocksSpans(blocks[1..])
  }

  function PageSpans(page: Page): seq<Span> {
    BlocksSpans(page.blocks)
  }

  lemma {:induction false} BlocksSpansAppend(a: seq<Block>, b: seq<Block>)
    ensures BlocksSpans(a + b) == BlocksSpans(a) + BlocksSpans(b)
  {
    if |a| == 0 {
      assert a + b == b;
    } else {
      assert (a + b)[0] == a[0] && (a + b)[1..] == a[1..] + b;
      BlocksSpansAppend(a[1..], b);
    }
  }
}
