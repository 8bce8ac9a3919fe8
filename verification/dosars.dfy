/** The tabular source (`ParserDosars`): the article numbers a run covers, the
    record links of an article's panel, the six-year filter on their years,
    and the flattening of the per-article, per-document row lists. */
module Dosars {
  import opened Common
  import opened Text

  /** `ParserDosars.urls` */
  const PanelUrl10: string := "https://cetatenie.just.ro/stadiu-dosar/#1576832764783-e9f4e574-df23"
  const PanelUrl11: string := "https://cetatenie.just.ro/stadiu-dosar/#1576832773102-627a212f-45ce"

  // ---------------------------------------------------------------------------
  // `parse_dosars`

  /** `[articolul_num]`, replaced by `[10, 11]` when the argument is falsy
      (`None` or `0`). */
  function ArticolulNums(articolulNum: Option<int>): seq<int> {
    if articolulNum.None? || articolulNum.value == 0 then [10, 11] else [articolulNum.value]
  }

  /** `self.urls[str(articolul_num)]` */
  function PanelUrl(n: int): (r: Result<string>)
    ensures r.Ok? <==> n == 10 || n == 11
    ensures r.Err? ==> r.error == KeyError
  {
    if n == 10 then Ok(PanelUrl10) else if n == 11 then Ok(PanelUrl11) else Err(KeyError)
  }

  /** Both articles are covered exactly when no article, or article 0, is
      asked for; any other request covers that article alone, and has a panel
      exactly when it is 10 or 11. */
  lemma ArticolulNumsSpec(articolulNum: Option<int>)
    ensures ArticolulNums(articolulNum) == [10, 11] <==> articolulNum.None? || articolulNum == Some(0)
    ensures articolulNum.Some? && articolulNum.value != 0 ==> ArticolulNums(articolulNum) == [articolulNum.value]
    ensures forall i :: 0 <= i < |ArticolulNums(articolulNum)| ==>
      (PanelUrl(ArticolulNums(articolulNum)[i]).Ok? <==>
       articolulNum.None? || articolulNum.value in {0, 10, 11})
  {
  }

  // ---------------------------------------------------------------------------
  // The record links of a panel

  /** The first `<a>` of a panel item: `a.string` (absent when the anchor has
      several children) and its `href`, if present. */
  datatype RecordAnchor = RecordAnchor(str: Option<string>, href: Option<string>)

  /** One record: its year text and the document's URL. */
  datatype Record = Record(year: Option<string>, url: string)

  /** The records of a panel's items: items without an anchor are skipped, an
      anchor without `href` raises `KeyError`. */
  function Records(items: seq<Option<RecordAnchor>>): (r: Result<seq<Record>>)
    ensures r.Ok? ==> |r.value| <= |items|
    ensures r.Err? ==> r.error == KeyError
  {
    if |items| == 0 then Ok([])
    else
      match Records(items[..|items| - 1])
      case Err(e) => Err(e)
      case Ok(rs) =>
        match items[|items| - 1]
        case None => Ok(rs)
        case Some(a) =>
          if a.href.None? then Err(KeyError) else Ok(rs + [Record(a.str, a.href.value)])
  }

  /** The record loop of `_parse_dosars`. */
  method CollectRecords(items: seq<Option<RecordAnchor>>) returns (r: Result<seq<Record>>)
    ensures r == Records(items)
  {
    var records: seq<Record> := [];
    var i := 0;
    while i < |items|
      invariant 0 <= i <= |items|
      invariant Records(items[..i]) == Ok(records)
    {
      assert items[..i + 1][..i] == items[..i];
      var a := items[i];
      if a.Some? {
        if a.value.href.None? {
          RecordsErrorStays(items, i + 1);
          return Err(KeyError);
        }
        records := records + [Record(a.value.str, a.value.href.value)];
      }
      i := i + 1;
    }
    assert items[..|items|] == items;
    return Ok(records);
  }

  /** An error in a prefix is the error of the whole list. */
  lemma {:induction false} RecordsErrorStays(items: seq<Option<RecordAnchor>>, k: nat)
    requires k <= |items| && Records(items[..k]).Err?
    ensures Records(items) == Records(items[..k])
    decreases |items| - k
  {
    if k < |items| {
      assert items[..k + 1][..k] == items[..k];
      RecordsErrorStays(items, k + 1);
    } else {
      assert items[..k] == items;
    }
  }

  /** Each anchored item gives its record, in order; an item without an anchor
      gives none. */
  lemma {:induction false} RecordsExactly(items: seq<Option<RecordAnchor>>)
    requires Records(items).Ok?
    ensures forall i :: 0 <= i < |items| && items[i].Some? ==> items[i].value.href.Some?
    ensures |Records(items).value| == |Anchored(items)|
    ensures forall j :: 0 <= j < |Anchored(items)| ==> Anchored(items)[j].href.Some?
    ensures forall j :: 0 <= j < |Anchored(items)| ==>
      Records(items).value[j] == Record(Anchored(items)[j].str, Anchored(items)[j].href.value)
  {
    if |items| > 0 {
      var init := items[..|items| - 1];
      RecordsExactly(init);
      assert forall i :: 0 <= i < |init| ==> init[i] == items[i];
    }
  }

  /** The anchors of the items that have one, in order. */
  function Anchored(items: seq<Option<RecordAnchor>>): seq<RecordAnchor> {
    if |items| == 0 then []
    else
      Anchored(items[..|items| - 1])
      + (match items[|items| - 1] case None => [] case Some(a) => [a])
  }

  // ---------------------------------------------------------------------------
  // The year filter

  /** `int(s)` on a string: surrounding whitespace and one sign are allowed,
      the rest must be decimal digits; anything else raises `ValueError`. */
  function ParseInt(s: string): (r: Result<int>)
    ensures r.Err? ==> r.error == ValueError
  {
    var t := Strip(s);
    if |t| > 0 && (t[0] == '+' || t[0] == '-') then
      var digits := t[1..];
      if IsDigitString(digits) then
        var n: int := DigitsValue(digits);
        Ok(if t[0] == '-' then -n else n)
      else Err(ValueError)
    else if IsDigitString(t) then Ok(DigitsValue(t))
    else Err(ValueError)
  }

  /** Python's `int` reads a plain digit string as its decimal value. */
  lemma IntOfDigits(s: string)
    requires IsDigitString(s)
    ensures ParseInt(s) == Ok(DigitsValue(s))
  {
    assert !IsSpace(s[0]) && !IsSpace(s[|s| - 1]);
    assert TrimLeft(s) == s;
    assert TrimRight(s) == s;
  }

  /** A leading minus sign negates the value. */
  lemma IntOfNegative(s: string)
    requires IsDigitString(s)
    ensures ParseInt("-" + s).Ok? && ParseInt("-" + s).value + DigitsValue(s) == 0
  {
    var m := "-" + s;
    assert m[1..] == s;
    assert m[|m| - 1] == s[|s| - 1];
    assert !IsSpace(m[0]) && !IsSpace(m[|m| - 1]);
    assert TrimLeft(m) == m;
    assert TrimRight(m) == m;
  }

  /** Whitespace inside the number is refused. */
  lemma IntOfInnerSpace(s: string)
    requires IsDigitString(s)
    ensures ParseInt(s + " " + s) == Err(ValueError)
  {
    var w := s + " " + s;
    assert w[0] == s[0] && w[|w| - 1] == s[|s| - 1];
    assert !IsSpace(w[0]) && !IsSpace(w[|w| - 1]);
    assert TrimLeft(w) == w;
    assert TrimRight(w) == w;
    assert !IsDigit(w[|s|]);
  }

  /** `int(year)`, where `year` is `a.string`: `int(None)` raises `TypeError`. */
  function YearOf(year: Option<string>): (r: Result<int>)
    ensures year.None? <==> r == Err(TypeError)
    ensures year.Some? ==> r == ParseInt(year.value)
  {
    match year
    case None => Err(TypeError)
    case Some(s) => ParseInt(s)
  }

  /** `dt_now.year - int(year) > 6`: the record is older than six years. */
  predicate TooOld(nowYear: int, year: int) {
    nowYear - year > 6
  }

  /** The records the filter keeps, in order; the first year that does not
      parse ends the run. */
  function Recent(records: seq<Record>, nowYear: int): Result<seq<Record>> {
    if |records| == 0 then Ok([])
    else
      match Recent(records[..|records| - 1], nowYear)
      case Err(e) => Err(e)
      case Ok(kept) =>
        var last := records[|records| - 1];
        match YearOf(last.year)
        case Err(e) => Err(e)
        case Ok(y) => if TooOld(nowYear, y) then Ok(kept) else Ok(kept + [last])
  }

  /** The download loop of `_parse_dosars`: the records whose year is within
      six years of now are handed on, in order. */
  method KeepRecent(records: seq<Record>, nowYear: int) returns (r: Result<seq<Record>>)
    ensures r == Recent(records, nowYear)
  {
    var tasks: seq<Record> := [];
    var i := 0;
    while i < |records|
      invariant 0 <= i <= |records|
      invariant Recent(records[..i], nowYear) == Ok(tasks)
    {
      assert records[..i + 1][..i] == records[..i];
      var year := YearOf(records[i].year);
      if year.Err? {
        RecentErrorStays(records, i + 1, nowYear);
        return Err(year.error);
      }
      if !TooOld(nowYear, year.value) {
        tasks := tasks + [records[i]];
      }
      i := i + 1;
    }
    assert records[..|records|] == records;
    return Ok(tasks);
  }

  lemma {:induction false} RecentErrorStays(records: seq<Record>, k: nat, nowYear: int)
    requires k <= |records| && Recent(records[..k], nowYear).Err?
    ensures Recent(records, nowYear) == Recent(records[..k], nowYear)
    decreases |records| - k
  {
    if k < |records| {
      assert records[..k + 1][..k] == records[..k];
      RecentErrorStays(records, k + 1, nowYear);
    } else {
      assert records[..k] == records;
    }
  }

  /** A record is kept exactly when its year parses and is at most six years
      before now; the kept records are in their original order. */
  lemma {:induction false} RecentKeeps(records: seq<Record>, nowYear: int)
    requires Recent(records, nowYear).Ok?
    ensures forall i :: 0 <= i < |records| ==> YearOf(records[i].year).Ok?
    ensures Recent(records, nowYear).value == Kept(records, nowYear)
  {
    if |records| > 0 {
      var init := records[..|records| - 1];
      RecentKeeps(init, nowYear);
      assert forall i :: 0 <= i < |init| ==> init[i] == records[i];
    }
  }

  /** The reference filter: the records whose year parses and is recent. */
  function Kept(records: seq<Record>, nowYear: int): (r: seq<Record>)
    ensures |r| <= |records|
  {
    if |records| == 0 then []
    else
      var last := records[|records| - 1];
      var y := YearOf(last.year);
      Kept(records[..|records| - 1], nowYear)
      + (if y.Ok? && !TooOld(nowYear, y.value) then [last] else [])
  }

  /** Membership in the reference filter. */
  lemma {:induction false} KeptMember(records: seq<Record>, nowYear: int, x: Record)
    ensures x in Kept(records, nowYear) <==>
      x in records && YearOf(x.year).Ok? && !TooOld(nowYear, YearOf(x.year).value)
  {
    if |records| > 0 {
      var init, last := records[..|records| - 1], records[|records| - 1];
      KeptMember(init, nowYear, x);
      assert records == init + [last];
    }
  }

  /** One panel: its records, then those recent enough to download. */
  function PanelDownloads(items: seq<Option<RecordAnchor>>, nowYear: int): Result<seq<Record>> {
    match Records(items)
    case Err(e) => Err(e)
    case Ok(records) => Recent(records, nowYear)
  }

  /** The body of `_parse_dosars.parse` up to the downloads: a missing `href`
      is reported before any year is read. */
  method ParsePanel(items: seq<Option<RecordAnchor>>, nowYear: int) returns (r: Result<seq<Record>>)
    ensures r == PanelDownloads(items, nowYear)
    ensures Records(items).Err? ==> r == Err(KeyError)
  {
    var records := CollectRecords(items);
    if records.Err? {
      return records;
    }
    r := KeepRecent(records.value, nowYear);
  }

  /** A year seven or more years back is dropped; six years back is kept. */
  lemma SixYears(nowYear: int)
    ensures TooOld(nowYear, nowYear - 7) && !TooOld(nowYear, nowYear - 6)
  {
  }

  // ---------------------------------------------------------------------------
  // The final flatten

  /** `[d for articolul_group in res for group in articolul_group for d in group]` */
  function Flatten<T>(res: seq<seq<seq<T>>>): seq<T> {
    if |res| == 0 then [] else Concat(res[0]) + Flatten(res[1..])
  }

  /** The rows of one article, document after document. */
  function Concat<T>(groups: seq<seq<T>>): seq<T> {
    if |groups| == 0 then [] else groups[0] + Concat(groups[1..])
  }

  /** Nothing is lost or invented: the length is the sum of the group sizes. */
  function TotalSize<T>(res: seq<seq<seq<T>>>): nat {
    if |res| == 0 then 0 else GroupsSize(res[0]) + TotalSize(res[1..])
  }

  function GroupsSize<T>(groups: seq<seq<T>>): nat {
    if |groups| == 0 then 0 else |groups[0]| + GroupsSize(groups[1..])
  }

  lemma {:induction false} ConcatLength<T>(groups: seq<seq<T>>)
    ensures |Concat(groups)| == GroupsSize(groups)
  {
    if |groups| > 0 {
      ConcatLength(groups[1..]);
    }
  }

  lemma {:induction false} FlattenLength<T>(res: seq<seq<seq<T>>>)
    ensures |Flatten(res)| == TotalSize(res)
  {
    if |res| > 0 {
      ConcatLength(res[0]);
      FlattenLength(res[1..]);
    }
  }

  /** A row is in the result exactly when some document of some article
      yielded it. */
  lemma {:induction false} ConcatMember<T>(groups: seq<seq<T>>, x: T)
    ensures x in Concat(groups) <==> exists j :: 0 <= j < |groups| && x in groups[j]
  {
    if |groups| > 0 {
      ConcatMember(groups[1..], x);
      if exists j :: 0 <= j < |groups| && x in groups[j] {
        var j :| 0 <= j < |groups| && x in groups[j];
        if j > 0 {
          assert groups[1..][j - 1] == groups[j];
        }
      }
      if exists j :: 0 <= j < |groups| - 1 && x in groups[1..][j] {
        var j :| 0 <= j < |groups| - 1 && x in groups[1..][j];
        assert groups[j + 1] == groups[1..][j];
      }
    }
  }

  lemma {:induction false} FlattenMember<T>(res: seq<seq<seq<T>>>, x: T)
    ensures x in Flatten(res) <==> exists i, j :: 0 <= i < |res| && 0 <= j < |res[i]| && x in res[i][j]
  {
    if |res| > 0 {
      ConcatMember(res[0], x);
      FlattenMember(res[1..], x);
      if exists i, j :: 0 <= i < |res| && 0 <= j < |res[i]| && x in res[i][j] {
        var i, j :| 0 <= i < |res| && 0 <= j < |res[i]| && x in res[i][j];
        if i > 0 {
          assert res[1..][i - 1] == res[i];
        }
      }
      if exists i, j :: 0 <= i < |res| - 1 && 0 <= j < |res[1..][i]| && x in res[1..][i][j] {
        var i, j :| 0 <= i < |res| - 1 && 0 <= j < |res[1..][i]| && x in res[1..][i][j];
        assert res[i + 1] == res[1..][i];
      }
    }
  }

  /** Article order is kept: flattening two runs of articles concatenates
      their rows. */
  lemma {:induction false} FlattenAppend<T>(a: seq<seq<seq<T>>>, b: seq<seq<seq<T>>>)
    ensures Flatten(a + b) == Flatten(a) + Flatten(b)
  {
    if |a| == 0 {
      assert a + b == b;
    } else {
      assert (a + b)[0] == a[0] && (a + b)[1..] == a[1..] + b;
      FlattenAppend(a[1..], b);
    }
  }
}
