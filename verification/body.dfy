/** The body pass of the font-heuristic table extractor
    (`ParserPDF._find_content_for_dosar` and `extract_dosar_data`): the stripped
    span texts of the non-bold lines are collected block by block and joined
    with `"$"` into one row per block that yields a non-empty join. */
module Body {
  import opened Common
  import opened Text
  import opened Layout
  import Headers
  import AppTypes

  /** `any(s["font"].lower().count("bold") for s in line["spans"])` */
  predicate HasBoldSpan(line: Line) {
    exists i :: 0 <= i < |line.spans| && IsBold(line.spans[i])
  }

  /** The stripped texts of some spans, in order. */
  function StrippedTexts(spans: seq<Span>): (r: seq<string>)
    ensures |r| == |spans|
  {
    if |spans| == 0 then []
    else StrippedTexts(spans[..|spans| - 1]) + [Strip(spans[|spans| - 1].text)]
  }

  /** Each cell is its span's stripped text. */
  lemma {:induction false} StrippedTextsAt(spans: seq<Span>, i: nat)
    requires i < |spans|
    ensures StrippedTexts(spans)[i] == Strip(spans[i].text)
  {
    if i < |spans| - 1 {
      StrippedTextsAt(spans[..|spans| - 1], i);
    }
  }

  /** What one line adds to the accumulator: nothing when any span is bold. */
  function LineCells(line: Line): seq<string> {
    if HasBoldSpan(line) then [] else StrippedTexts(line.spans)
  }

  /** What the lines of a block add, in line order. */
  function LinesCells(lines: seq<Line>): seq<string> {
    if |lines| == 0 then []
    else LinesCells(lines[..|lines| - 1]) + LineCells(lines[|lines| - 1])
  }

  function BlockCells(b: Block): seq<string> {
    LinesCells(b.lines)
  }

  /** The rows of the blocks still to scan, given what the accumulator holds:
      the block's cells are appended; a non-empty join is emitted and clears
      the accumulator, an empty one leaves it as it is. */
  function ScanFrom(blocks: seq<Block>, pending: seq<string>): seq<string> {
    if |blocks| == 0 then []
    else
      var acc := pending + BlockCells(blocks[0]);
      var raw := Join(acc, "$");
      if raw == "" then ScanFrom(blocks[1..], acc)
      else [raw] + ScanFrom(blocks[1..], [])
  }

  /** The rows of one page: the accumulator starts empty on every page. */
  function PageRows(page: Page): seq<string> {
    ScanFrom(page.blocks, [])
  }

  /** The rows of a document, in page order. */
  function BodyRows(pages: seq<Page>): seq<string> {
    if |pages| == 0 then []
    else BodyRows(pages[..|pages| - 1]) + PageRows(pages[|pages| - 1])
  }

  /** `_find_content_for_dosar`: the headers (whose errors propagate) and the rows. */
  function Content(pages: seq<Page>): Result<(seq<string>, seq<string>)> {
    match Headers.Columns(pages)
    case Err(e) => Err(e)
    case Ok(columns) => Ok((columns, BodyRows(pages)))
  }

  /** `_find_content_for_dosar`, with the loops of the source: the page loop
      here, the block loop in `ScanPage`, the line and span loops in
      `CollectLines`. */
  method FindContent(pages: seq<Page>) returns (r: Result<(seq<string>, seq<string>)>)
    ensures r == Content(pages)
  {
    var columns := Headers.FindColumns(pages);
    if columns.Err? {
      return Err(columns.error);
    }
    var contents: seq<string> := [];
    var p := 0;
    while p < |pages|
      invariant 0 <= p <= |pages|
      invariant contents == BodyRows(pages[..p])
    {
      var rows := ScanPage(pages[p].blocks);
      assert pages[..p + 1][..p] == pages[..p];
      contents := contents + rows;
      p := p + 1;
    }
    assert pages[..|pages|] == pages;
    return Ok((columns.value, contents));
  }

  /** The block loop of one page: `line_content` starts empty, takes each
      block's cells, and is cleared only after a row is emitted. */
  method ScanPage(blocks: seq<Block>) returns (rows: seq<string>)
    ensures rows == ScanFrom(blocks, [])
  {
    rows := [];
    var lineContent: seq<string> := [];
    var b := 0;
    while b < |blocks|
      invariant 0 <= b <= |blocks|
      invariant rows + ScanFrom(blocks[b..], lineContent) == ScanFrom(blocks, [])
    {
      ScanStep(blocks, b, lineContent);
      lineContent := CollectLines(blocks[b].lines, lineContent);
      var lineRaw := Join(lineContent, "$");
      if lineRaw != "" {
        AppendAssoc(rows, [lineRaw], ScanFrom(blocks[b + 1..], []));
        rows := rows + [lineRaw];
        lineContent := [];
      }
      b := b + 1;
    }
    assert blocks[b..] == [];
    assert rows + [] == rows;
  }

  /** The line and span loops of one block: the stripped texts of every line
      without a bold span are appended to the accumulator. */
  method CollectLines(lines: seq<Line>, lineContent: seq<string>) returns (acc: seq<string>)
    ensures acc == lineContent + LinesCells(lines)
  {
    acc := lineContent;
    var l := 0;
    while l < |lines|
      invariant 0 <= l <= |lines|
      invariant acc == lineContent + LinesCells(lines[..l])
    {
      var line := lines[l];
      assert lines[..l + 1][..l] == lines[..l];
      if !HasBoldSpan(line) {
        acc := CollectSpans(line.spans, acc);
      } else {
        assert acc + [] == acc;
      }
      AppendAssoc(lineContent, LinesCells(lines[..l]), LineCells(line));
      l := l + 1;
    }
    assert lines[..|lines|] == lines;
  }

  /** The span loop of one line: the stripped text of each span is appended. */
  method CollectSpans(spans: seq<Span>, start: seq<string>) returns (acc: seq<string>)
    ensures acc == start + StrippedTexts(spans)
  {
    acc := start;
    var s := 0;
    while s < |spans|
      invariant 0 <= s <= |spans|
      invariant acc == start + StrippedTexts(spans[..s])
    {
      assert spans[..s + 1][..s] == spans[..s];
      acc := acc + [Strip(spans[s].text)];
      s := s + 1;
    }
    assert spans[..|spans|] == spans;
  }

  /** One block of the scan. */
  lemma ScanStep(blocks: seq<Block>, b: nat, pending: seq<string>)
    requires b < |blocks|
    ensures var acc := pending + BlockCells(blocks[b]);
      ScanFrom(blocks[b..], pending) ==
        if Join(acc, "$") == "" then ScanFrom(blocks[b + 1..], acc)
        else [Join(acc, "$")] + ScanFrom(blocks[b + 1..], [])
  {
    assert blocks[b..][0] == blocks[b] && blocks[b..][1..] == blocks[b + 1..];
  }

  /** `extract_dosar_data`: a missing file raises `FileNotFoundError`; otherwise
      each row becomes a `Dosar` stamped with the caller's article and year. */
  function ExtractDosarData(fileExists: bool, pages: seq<Page>, articolulNum: int, year: int)
    : (r: Result<seq<AppTypes.Dosar>>)
    ensures !fileExists ==> r == Err(FileNotFoundError)
    ensures fileExists && Content(pages).Err? ==> r == Err(Content(pages).error)
    ensures fileExists && Content(pages).Ok? ==>
      r.Ok? && |r.value| == |BodyRows(pages)|
      && forall i :: 0 <= i < |r.value| ==>
           r.value[i] == AppTypes.NewDosar(articolulNum, year, BodyRows(pages)[i])
  {
    if !fileExists then Err(FileNotFoundError)
    else
      match Content(pages)
      case Err(e) => Err(e)
      case Ok((_, rows)) => Ok(Stamp(rows, articolulNum, year))
  }

  function Stamp(rows: seq<string>, articolulNum: int, year: int): (r: seq<AppTypes.Dosar>)
    ensures |r| == |rows|
    ensures forall i :: 0 <= i < |rows| ==> r[i] == AppTypes.NewDosar(articolulNum, year, rows[i])
  {
    if |rows| == 0 then []
    else [AppTypes.NewDosar(articolulNum, year, rows[0])] + Stamp(rows[1..], articolulNum, year)
  }

  // ---------------------------------------------------------------------------
  // Properties of the body pass

  /** No emitted row is the empty string, and a scan emits at most one row per
      block. */
  lemma {:induction false} ScanRowsNonEmpty(blocks: seq<Block>, pending: seq<string>)
    ensures |ScanFrom(blocks, pending)| <= |blocks|
    ensures forall i :: 0 <= i < |ScanFrom(blocks, pending)| ==> ScanFrom(blocks, pending)[i] != ""
  {
    if |blocks| > 0 {
      var acc := pending + BlockCells(blocks[0]);
      ScanRowsNonEmpty(blocks[1..], acc);
      ScanRowsNonEmpty(blocks[1..], []);
    }
  }

  lemma {:induction false} BodyRowsNonEmpty(pages: seq<Page>)
    ensures forall i :: 0 <= i < |BodyRows(pages)| ==> BodyRows(pages)[i] != ""
  {
    if |pages| > 0 {
      BodyRowsNonEmpty(pages[..|pages| - 1]);
      ScanRowsNonEmpty(pages[|pages| - 1].blocks, []);
    }
  }

  /** Rows keep page order: the rows of two runs of pages are the rows of the
      first followed by those of the second. */
  lemma {:induction false} BodyRowsAppend(a: seq<Page>, b: seq<Page>)
    ensures BodyRows(a + b) == BodyRows(a) + BodyRows(b)
    decreases |b|
  {
    if |b| == 0 {
      assert a + b == a;
    } else {
      var b0 := b[..|b| - 1];
      assert (a + b)[..|a + b| - 1] == a + b0;
      assert (a + b)[|a + b| - 1] == b[|b| - 1];
      BodyRowsAppend(a, b0);
      AppendAssoc(BodyRows(a), BodyRows(b0), PageRows(b[|b| - 1]));
    }
  }

  /** The cells of two runs of lines are those of the first then the second. */
  lemma {:induction false} LinesCellsAppend(a: seq<Line>, b: seq<Line>)
    ensures LinesCells(a + b) == LinesCells(a) + LinesCells(b)
    decreases |b|
  {
    if |b| == 0 {
      assert a + b == a;
    } else {
      var b0 := b[..|b| - 1];
      assert (a + b)[..|a + b| - 1] == a + b0;
      assert (a + b)[|a + b| - 1] == b[|b| - 1];
      LinesCellsAppend(a, b0);
      AppendAssoc(LinesCells(a), LinesCells(b0), LineCells(b[|b| - 1]));
    }
  }

  /** A line with a bold span contributes nothing to its block. */
  lemma BoldLineIgnored(a: seq<Line>, bold: Line, c: seq<Line>)
    requires HasBoldSpan(bold)
    ensures LinesCells(a + [bold] + c) == LinesCells(a + c)
  {
    var x := a + [bold];
    assert x[..|x| - 1] == a && x[|x| - 1] == bold;
    assert LinesCells(x) == LinesCells(a) + [];
    assert LinesCells(a) + [] == LinesCells(a);
    LinesCellsAppend(x, c);
    LinesCellsAppend(a, c);
  }

  /** The rows depend on the blocks only through their cells. */
  lemma {:induction false} ScanByCells(x: seq<Block>, y: seq<Block>, pending: seq<string>)
    requires |x| == |y|
    requires forall i :: 0 <= i < |x| ==> BlockCells(x[i]) == BlockCells(y[i])
    ensures ScanFrom(x, pending) == ScanFrom(y, pending)
  {
    if |x| > 0 {
      var acc := pending + BlockCells(x[0]);
      assert forall i :: 0 <= i < |x| - 1 ==> BlockCells(x[1..][i]) == BlockCells(y[1..][i]) by {
        assert forall i :: 0 <= i < |x| - 1 ==> x[1..][i] == x[i + 1] && y[1..][i] == y[i + 1];
      }
      ScanByCells(x[1..], y[1..], acc);
      ScanByCells(x[1..], y[1..], []);
    }
  }

  /** The cells of each block, joined. */
  function BlockJoins(blocks: seq<Block>): seq<string> {
    if |blocks| == 0 then [] else [Join(BlockCells(blocks[0]), "$")] + BlockJoins(blocks[1..])
  }

  /** When every block's own cells join to a non-empty text, nothing is ever
      carried over and the page has exactly one row per block, in block order. */
  lemma {:induction false} ScanWithoutCarry(blocks: seq<Block>)
    requires forall i :: 0 <= i < |blocks| ==> Join(BlockCells(blocks[i]), "$") != ""
    ensures ScanFrom(blocks, []) == BlockJoins(blocks)
  {
    if |blocks| > 0 {
      assert [] + BlockCells(blocks[0]) == BlockCells(blocks[0]);
      assert forall i :: 0 <= i < |blocks| - 1 ==> blocks[1..][i] == blocks[i + 1];
      ScanWithoutCarry(blocks[1..]);
    }
  }

  /** A block whose accumulated cells join to nothing is held back: its cells
      stay in the accumulator and are joined with the next block's. */
  lemma ScanCarries(blocks: seq<Block>, pending: seq<string>)
    requires |blocks| > 0 && Join(pending + BlockCells(blocks[0]), "$") == ""
    ensures ScanFrom(blocks, pending) == ScanFrom(blocks[1..], pending + BlockCells(blocks[0]))
    ensures pending + BlockCells(blocks[0]) == [] || pending + BlockCells(blocks[0]) == [""]
  {
    JoinEmpty(pending + BlockCells(blocks[0]), "$");
  }

  lemma OneLineBlock(line: Line)
    requires !HasBoldSpan(line)
    ensures BlockCells(Block([line])) == StrippedTexts(line.spans)
  {
    var x := [line];
    assert x[..|x| - 1] == [] && x[|x| - 1] == line;
    assert LinesCells(x) == LinesCells([]) + LineCells(line);
    assert [] + StrippedTexts(line.spans) == StrippedTexts(line.spans);
  }

  /** The literal cells of the examples below. */
  lemma StripPlain(a: string, b: string, c: string, d: string)
    requires a == "1" && b == "Popescu Ion" && c == " " && d == "a"
    ensures Strip(a) == a && Strip(b) == b && Strip(c) == "" && Strip(d) == d
  {
    Headers.StripUnpadded(a);
    Headers.StripUnpadded(b);
    Headers.StripUnpadded(d);
    assert TrimLeft(c) == "";
  }

  /** Spans `"1"` and `"Popescu Ion"` on one plain line of a block give the row
      `"1$Popescu Ion"`. */
  lemma RowExample(a: string, b: string, font: string)
    requires a == "1" && b == "Popescu Ion" && !Contains(Lower(font), "bold")
    ensures PageRows(Page([Block([Line([Span(a, font), Span(b, font)])])])) == ["1$Popescu Ion"]
  {
    StripPlain(a, b, " ", "a");
    var spans := [Span(a, font), Span(b, font)];
    var line := Line(spans);
    assert !HasBoldSpan(line);
    OneLineBlock(line);
    var cells := StrippedTexts(spans);
    assert cells == [a, b];
    assert Join(cells, "$") == a + "$" + b by {
      assert cells[1..] == [b];
    }
    var blocks := [Block([line])];
    ScanStep(blocks, 0, []);
    assert blocks[1..] == [];
    assert [] + cells == cells;
    JoinLiteral(a, b);
  }

  lemma JoinLiteral(a: string, b: string)
    requires a == "1" && b == "Popescu Ion"
    ensures a + "$" + b == "1$Popescu Ion"
  {
  }

  /** A block whose only cell strips to `""` is not emitted, and its empty cell
      is joined in front of the next block's: `[" "]` then `["a"]` gives the
      single row `"$a"`. */
  lemma CarryExample(c: string, d: string, font: string)
    requires c == " " && d == "a" && !Contains(Lower(font), "bold")
    ensures PageRows(Page([Block([Line([Span(c, font)])]), Block([Line([Span(d, font)])])])) == ["$a"]
  {
    StripPlain("1", "Popescu Ion", c, d);
    var l1, l2 := Line([Span(c, font)]), Line([Span(d, font)]);
    assert !HasBoldSpan(l1) && !HasBoldSpan(l2);
    OneLineBlock(l1);
    OneLineBlock(l2);
    assert StrippedTexts(l1.spans) == [""];
    assert StrippedTexts(l2.spans) == [d];
    var blocks := [Block([l1]), Block([l2])];
    ScanStep(blocks, 0, []);
    assert [] + [""] == [""];
    ScanStep(blocks, 1, [""]);
    assert blocks[2..] == [];
    var acc := [""] + [d];
    assert acc == ["", d] && acc[1..] == [d];
    assert Join(acc, "$") == "" + "$" + d;
    JoinCarryLiteral(d);
  }

  lemma JoinCarryLiteral(d: string)
    requires d == "a"
    ensures "" + "$" + d == "$a"
  {
  }
}
