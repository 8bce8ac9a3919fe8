/** Identifier-line extraction (`ParserPDF.extract_numbers`): the text of an
    order document is split into lines and each line contributes the first
    `(digits/digits)` it contains. */
module Identifiers {
  import opened Common
  import opened Text
  import Search

  /** The shape of a match of `\(\d+/\d+\)`: an opening parenthesis, a non-empty
      digit run, a slash, a non-empty digit run, a closing parenthesis. */
  predicate IsIdentifier(m: string) {
    |m| >= 5 && m[0] == '(' && m[|m| - 1] == ')'
    && exists j :: 2 <= j <= |m| - 3 && m[j] == '/' && AllDigits(m[1..j]) && AllDigits(m[j + 1..|m| - 1])
  }

  /** The match of `\(\d+/\d+\)` that starts at position `p` of `s`, if any.
      Digit runs cannot contain `/` or `)`, so greedy matching never backtracks. */
  function IdentifierAt(s: string, p: nat): Option<string> {
    if p >= |s| || s[p] != '(' then None
    else
      var q := p + 1 + Search.DigitRun(s, p + 1);
      if q == p + 1 || q >= |s| || s[q] != '/' then None
      else
        var e := q + 1 + Search.DigitRun(s, q + 1);
        if e == q + 1 || e >= |s| || s[e] != ')' then None
        else Some(s[p..e + 1])
  }

  /** `m` occurs in `s` starting at position `p`. */
  predicate OccursAt(s: string, m: string, p: nat) {
    p + |m| <= |s| && s[p..p + |m|] == m
  }

  /** `IdentifierAt` finds a match exactly where an identifier-shaped text starts. */
  lemma IdentifierAtIff(s: string, p: nat, m: string)
    ensures IdentifierAt(s, p) == Some(m) <==> (IsIdentifier(m) && OccursAt(s, m, p))
  {
    if IdentifierAt(s, p) == Some(m) {
      IdentifierAtShaped(s, p);
    }
    if IsIdentifier(m) && OccursAt(s, m, p) {
      ShapedIdentifierAt(s, p, m);
    }
  }

  lemma IdentifierAtShaped(s: string, p: nat)
    requires IdentifierAt(s, p).Some?
    ensures IsIdentifier(IdentifierAt(s, p).value) && OccursAt(s, IdentifierAt(s, p).value, p)
  {
    var m := IdentifierAt(s, p).value;
    var q := p + 1 + Search.DigitRun(s, p + 1);
    Search.DigitRunMaximal(s, p + 1);
    var e := q + 1 + Search.DigitRun(s, q + 1);
    Search.DigitRunMaximal(s, q + 1);
    assert p < |s| && s[p] == '(';
    assert p + 1 < q < |s| && s[q] == '/';
    assert q + 1 < e < |s| && s[e] == ')';
    assert m == s[p..e + 1];
    var j := q - p;
    var head, tail := m[1..j], m[j + 1..|m| - 1];
    assert AllDigits(head) by {
      forall k | 0 <= k < |head| ensures IsDigit(head[k]) {
        assert head[k] == s[p + 1 + k];
      }
    }
    assert AllDigits(tail) by {
      forall k | 0 <= k < |tail| ensures IsDigit(tail[k]) {
        assert tail[k] == s[q + 1 + k];
      }
    }
    assert m[j] == '/';
  }

  lemma ShapedIdentifierAt(s: string, p: nat, m: string)
    requires IsIdentifier(m) && OccursAt(s, m, p)
    ensures IdentifierAt(s, p) == Some(m)
  {
    var j :| 2 <= j <= |m| - 3 && m[j] == '/' && AllDigits(m[1..j]) && AllDigits(m[j + 1..|m| - 1]);
    var head, tail := m[1..j], m[j + 1..|m| - 1];
    OccursAtIndex(s, m, p);
    assert s[p] == m[0] == '(';
    assert s[p + j] == m[j] == '/';
    assert s[p + |m| - 1] == m[|m| - 1] == ')';
    DigitsInside(s, m, p, 1, j);
    DigitsInside(s, m, p, j + 1, |m| - 1);
    Search.DigitRunExact(s, p + 1, |head|);
    Search.DigitRunExact(s, p + j + 1, |tail|);
    assert s[p..p + |m|] == m;
  }

  lemma OccursAtIndex(s: string, m: string, p: nat)
    requires OccursAt(s, m, p)
    ensures forall k :: 0 <= k < |m| ==> s[p + k] == m[k]
  {
    forall k | 0 <= k < |m| ensures s[p + k] == m[k] {
      assert s[p..p + |m|][k] == s[p + k];
    }
  }

  /** A digit run `m[a..b]` of a text occurring at `p` is a digit run of `s`. */
  lemma DigitsInside(s: string, m: string, p: nat, a: nat, b: nat)
    requires a <= b <= |m| && p + |m| <= |s| && AllDigits(m[a..b])
    requires forall k :: 0 <= k < |m| ==> s[p + k] == m[k]
    ensures forall k :: p + a <= k < p + b ==> IsDigit(s[k])
  {
    forall k | p + a <= k < p + b ensures IsDigit(s[k]) {
      assert s[p + (k - p)] == m[k - p] == m[a..b][k - p - a];
    }
  }

  /** `re.findall(r"\(\d+/\d+\)", line)[0]`, or `None` when the list is empty. */
  function FirstIdentifier(line: string): Option<string> {
    match Search.FirstFrom(line, 0, IdentifierAt)
    case None => None
    case Some((_, m)) => Some(m)
  }

  /** The first identifier of a line is identifier-shaped, occurs in the line,
      and no identifier-shaped text starts further left; a line without one
      contains no identifier-shaped text at all. */
  lemma FirstIdentifierSpec(line: string)
    ensures FirstIdentifier(line).Some? ==>
      var m := FirstIdentifier(line).value;
      IsIdentifier(m)
      && exists p: nat :: OccursAt(line, m, p)
           && forall i, j :: 0 <= i < p && i <= j <= |line| ==> !IsIdentifier(line[i..j])
    ensures FirstIdentifier(line).None? ==>
      forall i, j :: 0 <= i <= j <= |line| ==> !IsIdentifier(line[i..j])
  {
    var r := Search.FirstFrom(line, 0, IdentifierAt);
    var bound := if r.Some? then r.value.0 else |line|;
    forall i, j | 0 <= i < bound && i <= j <= |line|
      ensures !IsIdentifier(line[i..j])
    {
      assert IdentifierAt(line, i).None?;
      if IsIdentifier(line[i..j]) {
        assert OccursAt(line, line[i..j], i);
        IdentifierAtIff(line, i, line[i..j]);
        assert false;
      }
    }
    forall i, j | bound <= i <= j <= |line| && r.None?
      ensures !IsIdentifier(line[i..j])
    {
      assert i == |line| && |line[i..j]| == 0;
    }
    if r.Some? {
      var (p, m) := r.value;
      IdentifierAtIff(line, p, m);
    }
  }

  /** The identifiers of a list of lines, one per line that has one. */
  function NumbersOfLines(lines: seq<string>): seq<string> {
    if |lines| == 0 then []
    else
      (match FirstIdentifier(lines[0]) case Some(m) => [m] case None => [])
      + NumbersOfLines(lines[1..])
  }

  /** `extract_numbers` on the text the document's text layer yields. */
  function ExtractNumbers(text: string): seq<string> {
    NumbersOfLines(Split(text, '\n'))
  }

  /** `extract_numbers(path)`: a missing file raises `FileNotFoundError` before
      any text is read. */
  function ExtractNumbersFromPdf(fileExists: bool, text: string): (r: Result<seq<string>>)
    ensures !fileExists <==> r == Err(FileNotFoundError)
    ensures fileExists ==> r == Ok(ExtractNumbers(text))
    ensures fileExists ==> forall i :: 0 <= i < |r.value| ==> IsIdentifier(r.value[i])
  {
    if !fileExists then Err(FileNotFoundError)
    else
      var r := ExtractNumbers(text);
      ExtractedAreIdentifiers(Split(text, '\n'));
      Ok(r)
  }

  /** Every extracted element is identifier-shaped, and there are at most as
      many as there are lines. */
  lemma {:induction false} ExtractedAreIdentifiers(lines: seq<string>)
    ensures |NumbersOfLines(lines)| <= |lines|
    ensures forall i :: 0 <= i < |NumbersOfLines(lines)| ==> IsIdentifier(NumbersOfLines(lines)[i])
  {
    if |lines| > 0 {
      ExtractedAreIdentifiers(lines[1..]);
      FirstIdentifierSpec(lines[0]);
    }
  }

  /** Lines contribute independently and in order. */
  lemma {:induction false} NumbersOfLinesAppend(a: seq<string>, b: seq<string>)
    ensures NumbersOfLines(a + b) == NumbersOfLines(a) + NumbersOfLines(b)
  {
    if |a| > 0 {
      assert (a + b)[0] == a[0] && (a + b)[1..] == a[1..] + b;
      NumbersOfLinesAppend(a[1..], b);
    } else {
      assert a + b == b;
    }
  }

  /** Text before and after a line break contributes independently, in order:
      an element's position in the result follows its line's position. */
  lemma ExtractNumbersAtNewline(before: string, after: string)
    ensures ExtractNumbers(before + "\n" + after) == ExtractNumbers(before) + ExtractNumbers(after)
  {
    SplitAppend(before, after, '\n');
    NumbersOfLinesAppend(Split(before, '\n'), Split(after, '\n'));
  }

  /** A single line gives its first identifier, or nothing when it has none. */
  lemma ExtractNumbersOneLine(line: string)
    requires '\n' !in line
    ensures ExtractNumbers(line) == match FirstIdentifier(line) case Some(m) => [m] case None => []
  {
    SplitWithoutSeparator(line, '\n');
    assert [line][1..] == [];
    assert NumbersOfLines([line]) == (match FirstIdentifier(line) case Some(m) => [m] case None => []) + NumbersOfLines([]);
  }

  /** The order line `12. (4562/2021)` yields `(4562/2021)`. */
  lemma OrderLineExample(s: string)
    requires s == "12. (4562/2021)"
    ensures ExtractNumbers(s) == ["(4562/2021)"]
  {
    FirstIdentifierOfOrderLine(s);
    assert '\n' !in s;
    ExtractNumbersOneLine(s);
  }

  lemma OccursAfter(x: string, m: string)
    ensures OccursAt(x + m, m, |x|)
  {
    assert (x + m)[|x|..|x| + |m|] == m;
  }

  lemma FirstIdentifierOfOrderLine(s: string)
    requires s == "12. (4562/2021)"
    ensures FirstIdentifier(s) == Some("(4562/2021)")
  {
    var m := "(4562/2021)";
    assert IsIdentifier(m) by {
      assert m[5] == '/';
      assert AllDigits(m[1..5]) && AllDigits(m[6..10]);
    }
    assert s == "12. " + m;
    OccursAfter("12. ", m);
    ShapedIdentifierAt(s, 4, m);
    forall k | 0 <= k < 4 ensures IdentifierAt(s, k).None? {
      assert s[k] in "12. ";
    }
    Search.FirstFromAt(s, 0, 4, IdentifierAt);
  }
}
