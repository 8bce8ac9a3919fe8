/** The header pass of the font-heuristic table extractor
    (`ParserPDF._find_columns_for_dosar`): the bold spans of the first page,
    then an in-place fix-up that joins a header wrapped over two spans. */
module Headers {
  import opened Common
  import opened Text
  import opened Layout

  /** The texts of the bold spans, in order: the list comprehension that builds
      `columns`. */
  function BoldTexts(spans: seq<Span>): seq<string> {
    if |spans| == 0 then []
    else (if IsBold(spans[0]) then [spans[0].text] else []) + BoldTexts(spans[1..])
  }

  /** Filtering distributes over concatenation; with `BoldTextsSingle` this
      says the pass keeps exactly the bold spans, in their layout order. */
  lemma {:induction false} BoldTextsAppend(a: seq<Span>, b: seq<Span>)
    ensures BoldTexts(a + b) == BoldTexts(a) + BoldTexts(b)
  {
    if |a| == 0 {
      assert a + b == b;
    } else {
      assert (a + b)[0] == a[0] && (a + b)[1..] == a[1..] + b;
      BoldTextsAppend(a[1..], b);
      var h := if IsBold(a[0]) then [a[0].text] else [];
      assert BoldTexts(a + b) == h + BoldTexts(a[1..] + b);
      assert BoldTexts(a) == h + BoldTexts(a[1..]);
      assert h + (BoldTexts(a[1..]) + BoldTexts(b)) == (h + BoldTexts(a[1..])) + BoldTexts(b);
    }
  }

  /** A single span contributes its text exactly when its font is bold. */
  lemma BoldTextsSingle(x: Span)
    ensures BoldTexts([x]) == (if IsBold(x) then [x.text] else [])
  {
    assert [x][1..] == [];
    assert BoldTexts([x]) == (if IsBold(x) then [x.text] else []) + BoldTexts([]);
  }

  /** `columns.index(c)`: the first position holding `c`. */
  function IndexOf(s: seq<string>, x: string): (i: nat)
    requires x in s
    ensures i < |s| && s[i] == x
    ensures forall j :: 0 <= j < i ==> s[j] != x
  {
    if s[0] == x then 0 else 1 + IndexOf(s[1..], x)
  }

  /** The entry a wrapped header becomes: `f"{c.strip()} {next.strip()}"`. */
  function Joined(c: string, next: string): string {
    Strip(c) + " " + Strip(next)
  }

  /** The fix-up loop exactly as Python runs it from iteration index `k`: the
      `for` loop reads `columns[k]` while `k < len(columns)`, `index` finds the
      first equal entry, and `pop(i + 1)` shortens the list under the loop. */
  function MergeLoop(cols: seq<string>, k: nat): Result<seq<string>>
    decreases |cols| - k
  {
    if k >= |cols| then Ok(cols)
    else
      var c := cols[k];
      var i := IndexOf(cols, c);
      if !EndsWithSpace(c) then MergeLoop(cols, k + 1)
      else if i + 1 >= |cols| then Err(IndexError)
      else MergeLoop(cols[..i] + [Joined(c, cols[i + 1])] + cols[i + 2..], k + 1)
  }

  /** The fix-up loop of `_find_columns_for_dosar`, on the list it mutates. */
  method MergeHeaders(input: seq<string>) returns (r: Result<seq<string>>)
    ensures r == MergeLoop(input, 0)
  {
    var columns := input;
    var k := 0;
    while k < |columns|
      invariant MergeLoop(columns, k) == MergeLoop(input, 0)
      decreases |columns| - k
    {
      var c := columns[k];
      k := k + 1;
      var i := IndexOf(columns, c);
      if EndsWithSpace(c) {
        if i + 1 >= |columns| {
          return Err(IndexError);
        }
        var next := columns[i + 1];
        ghost var before := columns;
        columns := columns[..i + 1] + columns[i + 2..];
        columns := columns[i := Joined(c, next)];
        PopThenAssign(before, i, Joined(c, next));
      }
    }
    return Ok(columns);
  }

  /** `pop(i + 1)` followed by `columns[i] = x` replaces the pair at `i` by `x`. */
  lemma PopThenAssign(s: seq<string>, i: nat, x: string)
    requires i + 1 < |s|
    ensures (s[..i + 1] + s[i + 2..])[i := x] == s[..i] + [x] + s[i + 2..]
  {
    var popped := s[..i + 1] + s[i + 2..];
    var lhs, rhs := popped[i := x], s[..i] + [x] + s[i + 2..];
    assert |lhs| == |rhs| == |s| - 1;
    forall n | 0 <= n < |lhs|
      ensures lhs[n] == rhs[n]
    {
      if n > i {
        assert popped[n] == s[n + 1];
      }
    }
  }

  /** The headers of a document: `pages[0]` raises `IndexError` on a document
      without pages; otherwise the fix-up of the first page's bold spans. */
  function Columns(pages: seq<Page>): Result<seq<string>> {
    if |pages| == 0 then Err(IndexError)
    else MergeLoop(BoldTexts(PageSpans(pages[0])), 0)
  }

  method FindColumns(pages: seq<Page>) returns (r: Result<seq<string>>)
    ensures |pages| == 0 ==> r == Err(IndexError)
    ensures |pages| > 0 ==> r == MergeLoop(BoldTexts(PageSpans(pages[0])), 0)
  {
    if |pages| == 0 {
      return Err(IndexError);
    }
    var columns := BoldTexts(PageSpans(pages[0]));
    r := MergeHeaders(columns);
  }

  // ---------------------------------------------------------------------------
  // The pairing the fix-up is meant to perform

  /** A header as it appears in the bold spans: one span not ending in a space,
      or a span ending in a space followed by its continuation. */
  predicate ValidGroup(g: seq<string>) {
    (|g| == 1 && !EndsWithSpace(g[0])) || (|g| == 2 && EndsWithSpace(g[0]))
  }

  function Render(g: seq<string>): string
    requires ValidGroup(g)
  {
    if |g| == 1 then g[0] else Joined(g[0], g[1])
  }

  function Concat(gs: seq<seq<string>>): seq<string> {
    if |gs| == 0 then [] else gs[0] + Concat(gs[1..])
  }

  function Rendered(gs: seq<seq<string>>): seq<string>
    requires forall i :: 0 <= i < |gs| ==> ValidGroup(gs[i])
  {
    if |gs| == 0 then [] else [Render(gs[0])] + Rendered(gs[1..])
  }

  function Prepend(x: string, r: Result<seq<string>>): Result<seq<string>> {
    match r
    case Ok(t) => Ok([x] + t)
    case Err(e) => Err(e)
  }

  /** Left-to-right pairing: an entry ending in a space is joined with the one
      after it, which is then consumed; a last entry ending in a space has no
      partner and `pop` raises `IndexError`. */
  function MergePairs(s: seq<string>): Result<seq<string>> {
    if |s| == 0 then Ok([])
    else if !EndsWithSpace(s[0]) then Prepend(s[0], MergePairs(s[1..]))
    else if |s| == 1 then Err(IndexError)
    else Prepend(Joined(s[0], s[1]), MergePairs(s[2..]))
  }

  /** The groups `MergePairs` reads `s` as. */
  function PairGroups(s: seq<string>): seq<seq<string>> {
    if |s| == 0 then []
    else if !EndsWithSpace(s[0]) || |s| == 1 then [[s[0]]] + PairGroups(s[1..])
    else [s[..2]] + PairGroups(s[2..])
  }

  lemma PairsKeep(s: seq<string>)
    requires |s| > 0 && !EndsWithSpace(s[0])
    ensures MergePairs(s) == Prepend(s[0], MergePairs(s[1..]))
  {
  }

  lemma PairsWrapped(s: seq<string>)
    requires |s| >= 2 && EndsWithSpace(s[0])
    ensures MergePairs(s) == Prepend(Joined(s[0], s[1]), MergePairs(s[2..]))
  {
  }

  lemma ConcatCons(g: seq<string>, gs: seq<seq<string>>)
    ensures Concat([g] + gs) == g + Concat(gs)
  {
    assert ([g] + gs)[0] == g && ([g] + gs)[1..] == gs;
  }

  lemma RenderedCons(g: seq<string>, gs: seq<seq<string>>)
    requires ValidGroup(g) && forall i :: 0 <= i < |gs| ==> ValidGroup(gs[i])
    ensures forall i :: 0 <= i < |[g] + gs| ==> ValidGroup(([g] + gs)[i])
    ensures Rendered([g] + gs) == [Render(g)] + Rendered(gs)
  {
    assert ([g] + gs)[0] == g && ([g] + gs)[1..] == gs;
  }

  /** Any reading of the spans as valid headers is the one `MergePairs` uses:
      each header is one unchanged entry or one join of exactly two. */
  lemma {:induction false} MergePairsOfGroups(gs: seq<seq<string>>)
    requires forall i :: 0 <= i < |gs| ==> ValidGroup(gs[i])
    ensures MergePairs(Concat(gs)) == Ok(Rendered(gs))
  {
    if |gs| > 0 {
      var g, rest := gs[0], gs[1..];
      assert gs == [g] + rest;
      MergePairsOfGroups(rest);
      ConcatCons(g, rest);
      RenderedCons(g, rest);
      var s := g + Concat(rest);
      if |g| == 1 {
        assert s[0] == g[0] && s[1..] == Concat(rest);
        PairsKeep(s);
      } else {
        assert s[0] == g[0] && s[1] == g[1] && s[2..] == Concat(rest);
        PairsWrapped(s);
      }
    }
  }

  /** When the pairing succeeds, the spans are read as valid headers and each
      output entry renders one of them. */
  lemma {:induction false} MergePairsGroups(s: seq<string>)
    requires MergePairs(s).Ok?
    ensures forall i :: 0 <= i < |PairGroups(s)| ==> ValidGroup(PairGroups(s)[i])
    ensures Concat(PairGroups(s)) == s
    ensures MergePairs(s) == Ok(Rendered(PairGroups(s)))
  {
    if |s| > 0 {
      if !EndsWithSpace(s[0]) {
        var rest := s[1..];
        PairsKeep(s);
        MergePairsGroups(rest);
        var gs := PairGroups(rest);
        assert PairGroups(s) == [[s[0]]] + gs;
        ConcatCons([s[0]], gs);
        RenderedCons([s[0]], gs);
        assert s == [s[0]] + rest;
      } else {
        var rest := s[2..];
        PairsWrapped(s);
        MergePairsGroups(rest);
        var gs := PairGroups(rest);
        assert PairGroups(s) == [s[..2]] + gs;
        ConcatCons(s[..2], gs);
        RenderedCons(s[..2], gs);
        assert s == s[..2] + rest;
      }
    }
  }

  /** `IndexError` is raised only when the last entry ends in a space, and
      always when that entry cannot be the continuation of the one before. */
  lemma {:induction false} MergePairsError(s: seq<string>)
    ensures MergePairs(s).Err? ==> |s| > 0 && EndsWithSpace(s[|s| - 1])
    ensures |s| > 0 && EndsWithSpace(s[|s| - 1]) && (|s| == 1 || !EndsWithSpace(s[|s| - 2]))
      ==> MergePairs(s).Err?
  {
    if |s| > 0 {
      if !EndsWithSpace(s[0]) {
        PairsKeep(s);
        MergePairsError(s[1..]);
        assert |s| > 1 ==> s[1..][|s| - 2] == s[|s| - 1];
        assert |s| > 2 ==> s[1..][|s| - 3] == s[|s| - 2];
      } else if |s| > 1 {
        PairsWrapped(s);
        MergePairsError(s[2..]);
        assert |s| > 2 ==> s[2..][|s| - 3] == s[|s| - 1];
        assert |s| > 3 ==> s[2..][|s| - 4] == s[|s| - 2];
      }
    }
  }

  /** No entry strips down to the empty string. */
  predicate NoBlank(s: seq<string>) {
    forall i :: 0 <= i < |s| ==> Strip(s[i]) != ""
  }

  /** A join with a non-blank continuation ends in that continuation's last
      visible character, so it is never joined again. */
  lemma JoinedNotWrapped(c: string, next: string)
    requires Strip(next) != ""
    ensures !EndsWithSpace(Joined(c, next))
  {
    var j := Joined(c, next);
    assert j[|j| - 1] == Strip(next)[|Strip(next)| - 1];
  }

  function Prefixed(done: seq<string>, r: Result<seq<string>>): Result<seq<string>> {
    match r
    case Ok(t) => Ok(done + t)
    case Err(e) => Err(e)
  }

  lemma MergeLoopKeep(cols: seq<string>, k: nat)
    requires k < |cols| && !EndsWithSpace(cols[k])
    ensures MergeLoop(cols, k) == MergeLoop(cols, k + 1)
  {
  }

  lemma MergeLoopJoin(cols: seq<string>, k: nat)
    requires k + 1 < |cols| && EndsWithSpace(cols[k]) && IndexOf(cols, cols[k]) == k
    ensures MergeLoop(cols, k) == MergeLoop(cols[..k] + [Joined(cols[k], cols[k + 1])] + cols[k + 2..], k + 1)
  {
  }

  lemma MergeLoopLast(cols: seq<string>, k: nat)
    requires k + 1 == |cols| && EndsWithSpace(cols[k]) && IndexOf(cols, cols[k]) == k
    ensures MergeLoop(cols, k) == Err(IndexError)
  {
  }

  lemma PrefixedNothing(r: Result<seq<string>>)
    ensures Prefixed([], r) == r
  {
    match r
    case Ok(t) => assert [] + t == t;
    case Err(_) =>
  }

  lemma PrefixedPrepend(done: seq<string>, x: string, r: Result<seq<string>>)
    ensures Prefixed(done + [x], r) == Prefixed(done, Prepend(x, r))
  {
    match r
    case Ok(t) => assert done + [x] + t == done + ([x] + t);
    case Err(_) =>
  }

  /** The loop has settled the first `k` entries (none ends in a space) and no
      entry from `k` on is blank. */
  predicate PairingState(cols: seq<string>, k: nat) {
    k <= |cols|
    && (forall i :: 0 <= i < k ==> !EndsWithSpace(cols[i]))
    && (forall i :: k <= i < |cols| ==> Strip(cols[i]) != "")
  }

  /** What the loop computes from a pairing state. */
  predicate LoopPairs(cols: seq<string>, k: nat)
    requires k <= |cols|
  {
    MergeLoop(cols, k) == Prefixed(cols[..k], MergePairs(cols[k..]))
  }

  lemma KeepStep(cols: seq<string>, k: nat)
    requires PairingState(cols, k) && k < |cols| && !EndsWithSpace(cols[k])
    requires LoopPairs(cols, k + 1)
    ensures LoopPairs(cols, k)
  {
    MergeLoopKeep(cols, k);
    var rest := cols[k..];
    assert rest[0] == cols[k] && rest[1..] == cols[k + 1..];
    assert MergePairs(rest) == Prepend(cols[k], MergePairs(cols[k + 1..]));
    assert cols[..k + 1] == cols[..k] + [cols[k]];
    PrefixedPrepend(cols[..k], cols[k], MergePairs(cols[k + 1..]));
  }

  /** The entries after a join at `k`. */
  function AfterJoin(cols: seq<string>, k: nat): seq<string>
    requires k + 1 < |cols|
  {
    cols[..k] + [Joined(cols[k], cols[k + 1])] + cols[k + 2..]
  }

  lemma JoinState(cols: seq<string>, k: nat)
    requires PairingState(cols, k) && k + 1 < |cols| && EndsWithSpace(cols[k])
    ensures PairingState(AfterJoin(cols, k), k + 1)
  {
    JoinedNotWrapped(cols[k], cols[k + 1]);
    var next := AfterJoin(cols, k);
    assert forall i :: 0 <= i < k ==> next[i] == cols[i];
    assert forall i :: k + 1 <= i < |next| ==> next[i] == cols[i + 1];
  }

  lemma JoinStep(cols: seq<string>, k: nat)
    requires PairingState(cols, k) && k + 1 < |cols| && EndsWithSpace(cols[k])
    requires LoopPairs(AfterJoin(cols, k), k + 1)
    ensures LoopPairs(cols, k)
  {
    IndexOfAfterDone(cols, k);
    MergeLoopJoin(cols, k);
    var j := Joined(cols[k], cols[k + 1]);
    var next := AfterJoin(cols, k);
    assert next[..k + 1] == cols[..k] + [j];
    assert next[k + 1..] == cols[k + 2..];
    var rest := cols[k..];
    assert rest[0] == cols[k] && rest[1] == cols[k + 1] && rest[2..] == cols[k + 2..];
    assert MergePairs(rest) == Prepend(j, MergePairs(cols[k + 2..]));
    PrefixedPrepend(cols[..k], j, MergePairs(cols[k + 2..]));
  }

  lemma LastStep(cols: seq<string>, k: nat)
    requires PairingState(cols, k) && k + 1 == |cols| && EndsWithSpace(cols[k])
    ensures LoopPairs(cols, k)
  {
    IndexOfAfterDone(cols, k);
    MergeLoopLast(cols, k);
    assert cols[k..] == [cols[k]];
  }

  lemma DoneStep(cols: seq<string>, k: nat)
    requires k == |cols|
    ensures LoopPairs(cols, k)
  {
    assert cols[..k] == cols && cols[k..] == [];
    assert cols + [] == cols;
  }

  lemma {:induction false} MergeLoopFromPairs(cols: seq<string>, k: nat)
    requires PairingState(cols, k)
    ensures LoopPairs(cols, k)
    decreases |cols| - k
  {
    if k == |cols| {
      DoneStep(cols, k);
    } else if !EndsWithSpace(cols[k]) {
      assert PairingState(cols, k + 1);
      MergeLoopFromPairs(cols, k + 1);
      KeepStep(cols, k);
    } else if k + 1 == |cols| {
      LastStep(cols, k);
    } else {
      JoinState(cols, k);
      MergeLoopFromPairs(AfterJoin(cols, k), k + 1);
      JoinStep(cols, k);
    }
  }

  lemma IndexOfAfterDone(cols: seq<string>, k: nat)
    requires k < |cols| && EndsWithSpace(cols[k])
    requires forall i :: 0 <= i < k ==> !EndsWithSpace(cols[i])
    ensures IndexOf(cols, cols[k]) == k
  {
    var i := IndexOf(cols, cols[k]);
    assert EndsWithSpace(cols[i]);
  }

  /** When no bold span is blank, the in-place loop performs exactly the
      left-to-right pairing. */
  lemma MergeLoopIsPairing(s: seq<string>)
    requires NoBlank(s)
    ensures MergeLoop(s, 0) == MergePairs(s)
  {
    assert PairingState(s, 0);
    MergeLoopFromPairs(s, 0);
    assert s[..0] == [] && s[0..] == s;
    PrefixedNothing(MergePairs(s));
  }

  lemma StripUnpadded(s: string)
    requires |s| > 0 && !IsSpace(s[0]) && !IsSpace(s[|s| - 1])
    ensures Strip(s) == s
  {
    assert TrimLeft(s) == s && TrimRight(s) == s;
  }

  lemma StripOneTrailing(s: string)
    requires |s| > 1 && !IsSpace(s[0]) && IsSpace(s[|s| - 1]) && !IsSpace(s[|s| - 2])
    ensures Strip(s) == s[..|s| - 1]
  {
    assert TrimLeft(s) == s;
    var t := s[..|s| - 1];
    assert TrimRight(t) == t;
  }

  lemma StripExamples(a: string, b: string, c: string, d: string, e: string)
    requires a == "Nr. " && b == "crt." && c == "A " && d == " " && e == "x"
    ensures Strip(a) == "Nr." && Strip(b) == "crt." && Strip(c) == "A" && Strip(d) == ""
    ensures Strip(e) == "x"
  {
    StripUnpadded(b);
    StripUnpadded(e);
    StripOneTrailing(a);
    assert a[..3] == "Nr.";
    StripOneTrailing(c);
    assert c[..1] == "A";
    assert TrimLeft(d) == "";
  }

  /** The wrapped header of the order tables: `["Nr. ", "crt."]` becomes
      `["Nr. crt."]`. */
  lemma NrCrtExample(s: seq<string>)
    requires s == ["Nr. ", "crt."]
    ensures MergeLoop(s, 0) == Ok(["Nr. crt."])
  {
    StripExamples(s[0], s[1], "A ", " ", "x");
    MergeTwo(s);
    JoinedOf(s[0], s[1], "Nr.", "crt.");
    SpacedLiterals("Nr.", "crt.", "A", "x");
  }

  /** Two entries, the first wrapped: one joined entry. */
  lemma MergeTwo(s: seq<string>)
    requires |s| == 2 && EndsWithSpace(s[0])
    ensures MergeLoop(s, 0) == Ok([Joined(s[0], s[1])])
  {
    assert IndexOf(s, s[0]) == 0;
    MergeLoopJoin(s, 0);
    var j := Joined(s[0], s[1]);
    var s1 := s[..0] + [j] + s[2..];
    assert s1 == [j];
    MergeLoopDone(s1, 1);
  }

  lemma JoinedOf(a: string, b: string, x: string, y: string)
    requires Strip(a) == x && Strip(b) == y
    ensures Joined(a, b) == x + " " + y
  {
  }

  lemma SpacedLiterals(nr: string, crt: string, a: string, x: string)
    requires nr == "Nr." && crt == "crt." && a == "A" && x == "x"
    ensures nr + " " + crt == "Nr. crt."
    ensures a + " " + "" == "A " && a + " " + a == "A A" && a + " " + x == "A x"
  {
  }

  lemma MergeLoopDone(cols: seq<string>, k: nat)
    requires k >= |cols|
    ensures MergeLoop(cols, k) == Ok(cols)
  {
  }

  /** Where `index` finds an earlier equal entry the loop departs from the
      pairing: a blank continuation leaves a joined entry ending in a space,
      and the next equal entry is then merged into that one instead. */
  lemma BlankContinuationDivergence(s: seq<string>)
    requires s == ["A ", " ", "A ", "x"]
    ensures MergeLoop(s, 0) == Ok(["A A", "x"])
    ensures MergePairs(s) == Ok(["A ", "A x"])
  {
    DivergenceLoop(s);
    DivergencePairs(s);
  }

  lemma DivergenceLoop(s: seq<string>)
    requires s == ["A ", " ", "A ", "x"]
    ensures MergeLoop(s, 0) == Ok(["A A", "x"])
  {
    StripExamples("Nr. ", "crt.", s[0], s[1], s[3]);
    JoinedOf(s[0], s[1], "A", "");
    JoinedOf(s[0], s[2], "A", "A");
    SpacedLiterals("Nr.", "crt.", "A", "x");
    JoinFirst(s);
    var t := [Joined(s[0], s[1])] + s[2..];
    assert t[0] == s[2] && t[1] == s[2] && t[2] == s[3];
    RejoinEqual(t);
    assert t[2..] == [s[3]];
    assert [Joined(t[1], t[1])] + t[2..] == ["A A", "x"];
  }

  /** The first step on a wrapped first entry. */
  lemma JoinFirst(s: seq<string>)
    requires |s| >= 2 && EndsWithSpace(s[0])
    ensures MergeLoop(s, 0) == MergeLoop([Joined(s[0], s[1])] + s[2..], 1)
  {
    assert IndexOf(s, s[0]) == 0;
    MergeLoopJoin(s, 0);
    assert s[..0] + [Joined(s[0], s[1])] + s[2..] == [Joined(s[0], s[1])] + s[2..];
  }

  /** `[c, c, d]` with `c` wrapped, from position 1: `index` finds the second
      `c` at 0, so it is joined to the first and `d` stays apart. */
  lemma RejoinEqual(t: seq<string>)
    requires |t| == 3 && EndsWithSpace(t[1]) && t[0] == t[1]
    ensures MergeLoop(t, 1) == Ok([Joined(t[1], t[1])] + t[2..])
  {
    assert IndexOf(t, t[1]) == 0;
    MergeLoopRejoin(t, 1, 0);
    var j := Joined(t[1], t[1]);
    assert t[..0] + [j] + t[2..] == [j] + t[2..];
    MergeLoopDone([j] + t[2..], 2);
  }

  /** A wrapped entry at `k` whose first equal entry sits at `i`. */
  lemma MergeLoopRejoin(cols: seq<string>, k: nat, i: nat)
    requires k < |cols| && EndsWithSpace(cols[k]) && IndexOf(cols, cols[k]) == i
    requires i + 1 < |cols|
    ensures MergeLoop(cols, k) == MergeLoop(cols[..i] + [Joined(cols[k], cols[i + 1])] + cols[i + 2..], k + 1)
  {
  }

  lemma DivergencePairs(s: seq<string>)
    requires s == ["A ", " ", "A ", "x"]
    ensures MergePairs(s) == Ok(["A ", "A x"])
  {
    StripExamples("Nr. ", "crt.", s[0], s[1], s[3]);
    JoinedOf(s[0], s[1], "A", "");
    JoinedOf(s[2], s[3], "A", "x");
    SpacedLiterals("Nr.", "crt.", "A", "x");
    PairsOfFour(s);
    assert [Joined(s[0], s[1])] + [Joined(s[2], s[3])] == ["A ", "A x"];
  }

  /** Four entries, the first and third wrapped: two pairs. */
  lemma PairsOfFour(s: seq<string>)
    requires |s| == 4 && EndsWithSpace(s[0]) && EndsWithSpace(s[2])
    ensures MergePairs(s) == Ok([Joined(s[0], s[1])] + [Joined(s[2], s[3])])
  {
    var t := s[2..];
    assert t[0] == s[2] && t[1] == s[3];
    PairsWrapped(s);
    PairsWrapped(t);
    assert t[2..] == [];
    var j2 := Joined(s[2], s[3]);
    assert MergePairs(t) == Ok([j2] + []);
    assert [j2] + [] == [j2];
  }

}
