/** The crawl diff filter of `ParserCetatenie.parse_articoluls`: every key of
    the caller's dict is checked and mapped to its article page, and every
    index item of that page that is new, dated, recent and linked becomes a
    download task. The page is given as what the HTML parser finds in it. */
module Crawl {
  import opened Common
  import opened Text
  import opened Dates

  /** The first `<a>` of an index item: its text and its `href`, if present. */
  datatype Anchor = Anchor(linkText: string, href: Option<string>)

  /** An `<li>` of the page: its first anchor, if any, and its whole text. */
  datatype Item = Item(anchor: Option<Anchor>, text: string)

  /** What `soup.find("div", class_="penci-entry-content")` gives: nothing, or
      the items (`li`) of each of its lists (`ul`). */
  datatype Listing = NoContentBlock | Lists(lists: seq<seq<Item>>)

  /** The arguments of one `_collect_data` task. */
  datatype Task = Task(url: string, date: Date, articolulNum: nat, num: string)

  /** `ParserCetatenie.articolul_urls` */
  const Url10: string := "https://cetatenie.just.ro/ordine-articolul-10/"
  const Url11: string := "https://cetatenie.just.ro/ordine-articolul-1-1/"

  // ---------------------------------------------------------------------------
  // The key check

  /** `int(key.split("_")[-1])`, after the `isdigit` check that raises
      `TypeError`. */
  function ArticolulNum(key: string): (r: Result<nat>)
    ensures r.Ok? <==> IsDigitString(LastPiece(key, '_'))
    ensures r.Ok? ==> r.value == DigitsValue(LastPiece(key, '_'))
    ensures r.Err? ==> r.error == TypeError
  {
    var piece := LastPiece(key, '_');
    if IsDigitString(piece) then Ok(DigitsValue(piece)) else Err(TypeError)
  }

  /** `articolul_urls[str(n)]`: only articles 10 and 11 have a page. */
  function ArticolulUrl(n: nat): (r: Result<string>)
    ensures r.Ok? <==> n == 10 || n == 11
    ensures r == Err(KeyError) || r == Ok(Url10) || r == Ok(Url11)
  {
    if n == 10 then Ok(Url10) else if n == 11 then Ok(Url11) else Err(KeyError)
  }

  /** The piece after the last separator, when the tail has none. */
  lemma LastPieceAfter(a: string, b: string, sep: char)
    requires sep !in b
    ensures LastPiece(a + [sep] + b, sep) == b
  {
    SplitAppend(a, b, sep);
    SplitWithoutSeparator(b, sep);
  }

  /** `"articolul_10"` and `"10"` name article 10; `"articolul_"` and
      `"articolul_1a"` raise `TypeError`. */
  lemma KeyExamples(prefix: string, ten: string, empty: string, bad: string)
    requires prefix == "articolul" && ten == "10" && empty == "" && bad == "1a"
    ensures ArticolulNum(prefix + "_" + ten) == Ok(10)
    ensures ArticolulNum(ten) == Ok(10)
    ensures ArticolulNum(prefix + "_" + empty) == Err(TypeError)
    ensures ArticolulNum(prefix + "_" + bad) == Err(TypeError)
  {
    LastPieceAfter(prefix, ten, '_');
    LastPieceAfter(prefix, empty, '_');
    LastPieceAfter(prefix, bad, '_');
    SplitWithoutSeparator(ten, '_');
    var one := ten[..1];
    assert one == "1" && one[..0] == [];
    assert DigitsValue(one) == 1;
    assert DigitsValue(ten) == DigitsValue(one) * 10 + 0;
    assert !IsDigit(bad[1]);
  }

  // ---------------------------------------------------------------------------
  // The item filter

  /** What one index item does: skipped, turned into a task, or raising. */
  datatype Verdict = Skip | Emit(task: Task) | Raise(error: PyError)

  /** The checks of the item loop, in the order the source makes them. `now`
      is today's day number. */
  function Judge(item: Item, known: seq<string>, n: nat, now: int): Verdict {
    match item.anchor
    case None => Skip
    case Some(a) =>
      if a.linkText in known then Skip
      else
        match FindDate(item.text)
        case None => Skip
        case Some(t) =>
          match Strptime(t)
          case Err(e) => Raise(e)
          case Ok(d) =>
            if TooOld(now, d) then Skip
            else
              match a.href
              case None => Raise(KeyError)
              case Some(h) => Emit(Task(h, d, n, a.linkText))
  }

  /** An item becomes a task exactly when it has an anchor whose linkText the
      caller does not know, its text has a date that parses and is at most
      four years old, and the anchor has a link; the task carries those. */
  lemma JudgeEmits(item: Item, known: seq<string>, n: nat, now: int, task: Task)
    ensures Judge(item, known, n, now) == Emit(task) <==>
      item.anchor.Some? && item.anchor.value.linkText !in known
      && FindDate(item.text).Some? && Strptime(FindDate(item.text).value).Ok?
      && !TooOld(now, Strptime(FindDate(item.text).value).value)
      && item.anchor.value.href.Some?
      && task == Task(item.anchor.value.href.value, Strptime(FindDate(item.text).value).value,
                      n, item.anchor.value.linkText)
  {
  }

  /** The item raises `ValueError` exactly when it is new and its date text
      does not parse, and `KeyError` exactly when it passes every check but
      has no link. */
  lemma JudgeRaises(item: Item, known: seq<string>, n: nat, now: int)
    ensures Judge(item, known, n, now) == Raise(ValueError) <==>
      item.anchor.Some? && item.anchor.value.linkText !in known
      && FindDate(item.text).Some? && Strptime(FindDate(item.text).value).Err?
    ensures Judge(item, known, n, now) == Raise(KeyError) <==>
      item.anchor.Some? && item.anchor.value.linkText !in known
      && FindDate(item.text).Some? && Strptime(FindDate(item.text).value).Ok?
      && !TooOld(now, Strptime(FindDate(item.text).value).value)
      && item.anchor.value.href.None?
    ensures Judge(item, known, n, now).Raise? ==>
      Judge(item, known, n, now).error == ValueError || Judge(item, known, n, now).error == KeyError
  {
  }

  /** `ts` in front of what follows, an error stopping everything. */
  function Prepend(ts: seq<Task>, r: Result<seq<Task>>): Result<seq<Task>> {
    match r
    case Err(e) => Err(e)
    case Ok(more) => Ok(ts + more)
  }

  /** The tasks of the items of one list, in order; the first raising item
      ends the crawl. */
  function ItemsTasks(items: seq<Item>, known: seq<string>, n: nat, now: int): Result<seq<Task>> {
    if |items| == 0 then Ok([])
    else
      match Judge(items[0], known, n, now)
      case Raise(e) => Err(e)
      case Skip => ItemsTasks(items[1..], known, n, now)
      case Emit(t) => Prepend([t], ItemsTasks(items[1..], known, n, now))
  }

  /** The tasks of the lists of one page, list after list. */
  function ListsTasks(lists: seq<seq<Item>>, known: seq<string>, n: nat, now: int): Result<seq<Task>> {
    if |lists| == 0 then Ok([])
    else
      match ItemsTasks(lists[0], known, n, now)
      case Err(e) => Err(e)
      case Ok(ts) => Prepend(ts, ListsTasks(lists[1..], known, n, now))
  }

  /** Tasks keep page order: the tasks of two runs of items are those of the
      first followed by those of the second. */
  lemma {:induction false} ItemsTasksAppend(a: seq<Item>, b: seq<Item>, known: seq<string>, n: nat, now: int)
    ensures ItemsTasks(a + b, known, n, now) ==
      match ItemsTasks(a, known, n, now)
      case Err(e) => Err(e)
      case Ok(ts) => Prepend(ts, ItemsTasks(b, known, n, now))
  {
    if |a| == 0 {
      assert a + b == b;
      PrependNothing(ItemsTasks(b, known, n, now));
    } else {
      assert (a + b)[0] == a[0] && (a + b)[1..] == a[1..] + b;
      ItemsTasksAppend(a[1..], b, known, n, now);
      var rest := ItemsTasks(a[1..], known, n, now);
      match Judge(a[0], known, n, now)
      case Raise(e) =>
      case Skip =>
      case Emit(t) =>
        if rest.Ok? {
          PrependTwice([t], rest.value, ItemsTasks(b, known, n, now));
        }
    }
  }

  lemma PrependNothing(r: Result<seq<Task>>)
    ensures Prepend([], r) == r
  {
    if r.Ok? {
      assert [] + r.value == r.value;
    }
  }

  lemma PrependTwice(x: seq<Task>, y: seq<Task>, r: Result<seq<Task>>)
    ensures Prepend(x, Prepend(y, r)) == Prepend(x + y, r)
  {
    if r.Ok? {
      assert x + (y + r.value) == (x + y) + r.value;
    }
  }

  /** When a list raises nothing, its tasks are exactly the tasks its items
      emit: every task comes from an item, and every emitting item's task is
      there. */
  lemma {:induction false} ItemsTasksExactly(items: seq<Item>, known: seq<string>, n: nat, now: int)
    requires ItemsTasks(items, known, n, now).Ok?
    ensures forall i :: 0 <= i < |items| ==> !Judge(items[i], known, n, now).Raise?
    ensures forall t :: t in ItemsTasks(items, known, n, now).value <==>
      exists i :: 0 <= i < |items| && Judge(items[i], known, n, now) == Emit(t)
  {
    if |items| > 0 {
      var rest := items[1..];
      ItemsTasksExactly(rest, known, n, now);
      forall i | 0 < i < |items| ensures items[i] == rest[i - 1] {
      }
      var ts := ItemsTasks(items, known, n, now).value;
      var more := ItemsTasks(rest, known, n, now).value;
      forall t
        ensures t in ts <==> exists i :: 0 <= i < |items| && Judge(items[i], known, n, now) == Emit(t)
      {
        if t in more {
          var j :| 0 <= j < |rest| && Judge(rest[j], known, n, now) == Emit(t);
          assert Judge(items[j + 1], known, n, now) == Emit(t);
        }
        if exists i :: 0 <= i < |items| && Judge(items[i], known, n, now) == Emit(t) {
          var i :| 0 <= i < |items| && Judge(items[i], known, n, now) == Emit(t);
          if i > 0 {
            assert Judge(rest[i - 1], known, n, now) == Emit(t);
          }
        }
      }
    }
  }

  // ---------------------------------------------------------------------------
  // The key loop

  /** What the crawl yields and which pages it requested, in order. */
  datatype Crawled = Crawled(result: Result<seq<Task>>, fetched: seq<string>)

  /** One key of the dict: its check, its page request and its page's tasks.
      A URL the site does not serve fails the request; a page without the
      content block raises `AttributeError`. */
  function KeyCrawl(key: string, known: seq<string>, site: map<string, Listing>, now: int): (c: Crawled)
    ensures |c.fetched| <= 1
    ensures c.fetched == [] ==> c.result == Err(TypeError) || c.result == Err(KeyError)
    ensures c.result.Ok? ==> |c.fetched| == 1 && c.fetched[0] in site && site[c.fetched[0]].Lists?
    ensures |c.fetched| == 1 && c.fetched[0] !in site ==> c.result == Err(FetchError)
    ensures |c.fetched| == 1 && c.fetched[0] in site && site[c.fetched[0]].NoContentBlock? ==>
      c.result == Err(AttributeError)
  {
    match ArticolulNum(key)
    case Err(e) => Crawled(Err(e), [])
    case Ok(n) =>
      match ArticolulUrl(n)
      case Err(e) => Crawled(Err(e), [])
      case Ok(url) =>
        if url !in site then Crawled(Err(FetchError), [url])
        else
          match site[url]
          case NoContentBlock => Crawled(Err(AttributeError), [url])
          case Lists(lists) => Crawled(ListsTasks(lists, known, n, now), [url])
  }

  /** The crawl over the remaining keys of the dict, each with its known
      labels, given the pages the site serves by URL; the first error ends it. */
  function CrawlFrom(keys: seq<(string, seq<string>)>, site: map<string, Listing>, now: int): Crawled {
    if |keys| == 0 then Crawled(Ok([]), [])
    else
      var c := KeyCrawl(keys[0].0, keys[0].1, site, now);
      if c.result.Err? then c
      else
        var rest := CrawlFrom(keys[1..], site, now);
        Crawled(Prepend(c.result.value, rest.result), c.fetched + rest.fetched)
  }

  /** The crawl of two runs of keys: the second runs only when the first
      raised nothing. */
  lemma {:induction false} CrawlAppend(a: seq<(string, seq<string>)>, b: seq<(string, seq<string>)>,
                                       site: map<string, Listing>, now: int)
    ensures var ca := CrawlFrom(a, site, now);
      CrawlFrom(a + b, site, now) ==
        if ca.result.Err? then ca
        else
          var cb := CrawlFrom(b, site, now);
          Crawled(Prepend(ca.result.value, cb.result), ca.fetched + cb.fetched)
  {
    var cb := CrawlFrom(b, site, now);
    if |a| == 0 {
      assert a + b == b;
      PrependNothing(cb.result);
      assert [] + cb.fetched == cb.fetched;
    } else {
      var ab := a + b;
      assert ab[0] == a[0] && ab[1..] == a[1..] + b;
      var c := KeyCrawl(a[0].0, a[0].1, site, now);
      if c.result.Ok? {
        CrawlAppend(a[1..], b, site, now);
        var rest := CrawlFrom(a[1..], site, now);
        var restB := CrawlFrom(a[1..] + b, site, now);
        assert CrawlFrom(ab, site, now) == Crawled(Prepend(c.result.value, restB.result), c.fetched + restB.fetched);
        assert CrawlFrom(a, site, now) == Crawled(Prepend(c.result.value, rest.result), c.fetched + rest.fetched);
        if rest.result.Ok? {
          PrependTwice(c.result.value, rest.result.value, cb.result);
          AppendAssoc(c.fetched, rest.fetched, cb.fetched);
          assert CrawlFrom(ab, site, now) ==
            Crawled(Prepend(CrawlFrom(a, site, now).result.value, cb.result), CrawlFrom(a, site, now).fetched + cb.fetched);
        } else {
          assert CrawlFrom(ab, site, now) == CrawlFrom(a, site, now);
        }
      }
    }
  }

  /** A malformed key raises `TypeError` before its page, or any later page,
      is requested. */
  lemma KeyCheckBeforeFetch(keys: seq<(string, seq<string>)>, i: nat, site: map<string, Listing>, now: int)
    requires i < |keys| && !IsDigitString(LastPiece(keys[i].0, '_'))
    requires CrawlFrom(keys[..i], site, now).result.Ok?
    ensures CrawlFrom(keys, site, now).result == Err(TypeError)
    ensures CrawlFrom(keys, site, now).fetched == CrawlFrom(keys[..i], site, now).fetched
  {
    assert keys == keys[..i] + keys[i..];
    CrawlAppend(keys[..i], keys[i..], site, now);
    assert keys[i..][0] == keys[i];
    var ca := CrawlFrom(keys[..i], site, now);
    assert ca.fetched + [] == ca.fetched;
  }

  /** Each key requests at most one page. */
  lemma {:induction false} FetchesPerKey(keys: seq<(string, seq<string>)>, site: map<string, Listing>, now: int)
    ensures |CrawlFrom(keys, site, now).fetched| <= |keys|
    ensures forall u :: u in CrawlFrom(keys, site, now).fetched ==> u == Url10 || u == Url11
  {
    if |keys| > 0 {
      FetchesPerKey(keys[1..], site, now);
    }
  }

  /** `parse_articoluls` up to the download tasks, with the loops of the
      source: keys here, lists in `CollectLists`, items in `CollectItems`. */
  method ParseArticoluls(keys: seq<(string, seq<string>)>, site: map<string, Listing>, now: int)
    returns (r: Result<seq<Task>>, fetched: seq<string>)
    ensures Crawled(r, fetched) == CrawlFrom(keys, site, now)
  {
    var tasks: seq<Task> := [];
    fetched := [];
    var k := 0;
    assert keys[0..] == keys;
    PrependNothing(CrawlFrom(keys, site, now).result);
    assert [] + CrawlFrom(keys, site, now).fetched == CrawlFrom(keys, site, now).fetched;
    while k < |keys|
      invariant 0 <= k <= |keys|
      invariant var rest := CrawlFrom(keys[k..], site, now);
        Crawled(Prepend(tasks, rest.result), fetched + rest.fetched) == CrawlFrom(keys, site, now)
    {
      ghost var before := fetched;
      var (key, known) := keys[k];
      var c := CollectKey(key, known, site, now);
      fetched := fetched + c.fetched;
      CrawlStep(keys, k, site, now, tasks, before);
      if c.result.Err? {
        return Err(c.result.error), fetched;
      }
      tasks := tasks + c.result.value;
      k := k + 1;
    }
    assert keys[k..] == [];
    assert tasks + [] == tasks && fetched + [] == fetched;
    return Ok(tasks), fetched;
  }

  /** One turn of the key loop, in terms of the crawl of the keys left. */
  lemma CrawlStep(keys: seq<(string, seq<string>)>, k: nat, site: map<string, Listing>, now: int,
                  tasks: seq<Task>, fetched: seq<string>)
    requires k < |keys|
    ensures var c := KeyCrawl(keys[k].0, keys[k].1, site, now);
      var here := CrawlFrom(keys[k..], site, now);
      var rest := CrawlFrom(keys[k + 1..], site, now);
      if c.result.Err? then
        Crawled(Prepend(tasks, here.result), fetched + here.fetched) == Crawled(c.result, fetched + c.fetched)
      else
        Crawled(Prepend(tasks, here.result), fetched + here.fetched)
          == Crawled(Prepend(tasks + c.result.value, rest.result), (fetched + c.fetched) + rest.fetched)
  {
    assert keys[k..][0] == keys[k] && keys[k..][1..] == keys[k + 1..];
    var c := KeyCrawl(keys[k].0, keys[k].1, site, now);
    var rest := CrawlFrom(keys[k + 1..], site, now);
    if c.result.Ok? {
      PrependTwice(tasks, c.result.value, rest.result);
      assert fetched + (c.fetched + rest.fetched) == (fetched + c.fetched) + rest.fetched;
    }
  }

  /** The checks, the request and the page walk of one key. */
  method CollectKey(key: string, known: seq<string>, site: map<string, Listing>, now: int)
    returns (c: Crawled)
    ensures c == KeyCrawl(key, known, site, now)
  {
    var num := ArticolulNum(key);
    if num.Err? {
      return Crawled(Err(num.error), []);
    }
    var n := num.value;
    var url := ArticolulUrl(n);
    if url.Err? {
      return Crawled(Err(url.error), []);
    }
    if url.value !in site {
      return Crawled(Err(FetchError), [url.value]);
    }
    var listing := site[url.value];
    if listing.NoContentBlock? {
      return Crawled(Err(AttributeError), [url.value]);
    }
    var found := CollectLists(listing.lists, known, n, now);
    return Crawled(found, [url.value]);
  }

  /** The list loop of one page. */
  method CollectLists(lists: seq<seq<Item>>, known: seq<string>, n: nat, now: int)
    returns (r: Result<seq<Task>>)
    ensures r == ListsTasks(lists, known, n, now)
  {
    var tasks: seq<Task> := [];
    var j := 0;
    assert lists[0..] == lists;
    PrependNothing(ListsTasks(lists, known, n, now));
    while j < |lists|
      invariant 0 <= j <= |lists|
      invariant Prepend(tasks, ListsTasks(lists[j..], known, n, now)) == ListsTasks(lists, known, n, now)
    {
      assert lists[j..][0] == lists[j] && lists[j..][1..] == lists[j + 1..];
      var found := CollectItems(lists[j], known, n, now);
      if found.Err? {
        return Err(found.error);
      }
      PrependTwice(tasks, found.value, ListsTasks(lists[j + 1..], known, n, now));
      tasks := tasks + found.value;
      j := j + 1;
    }
    assert lists[j..] == [];
    assert tasks + [] == tasks;
    return Ok(tasks);
  }

  /** The item loop of one list. */
  method CollectItems(items: seq<Item>, known: seq<string>, n: nat, now: int)
    returns (r: Result<seq<Task>>)
    ensures r == ItemsTasks(items, known, n, now)
  {
    var tasks: seq<Task> := [];
    var i := 0;
    assert items[0..] == items;
    PrependNothing(ItemsTasks(items, known, n, now));
    while i < |items|
      invariant 0 <= i <= |items|
      invariant Prepend(tasks, ItemsTasks(items[i..], known, n, now)) == ItemsTasks(items, known, n, now)
    {
      assert items[i..][0] == items[i] && items[i..][1..] == items[i + 1..];
      var item := items[i];
      if item.anchor.Some? && item.anchor.value.linkText !in known {
        var a := item.anchor.value;
        var dateText := FindDate(item.text);
        if dateText.Some? {
          var parsed := Strptime(dateText.value);
          if parsed.Err? {
            return Err(parsed.error);
          }
          if !TooOld(now, parsed.value) {
            if a.href.None? {
              return Err(KeyError);
            }
            var task := Task(a.href.value, parsed.value, n, a.linkText);
            PrependTwice(tasks, [task], ItemsTasks(items[i + 1..], known, n, now));
            tasks := tasks + [task];
          }
        }
      }
      i := i + 1;
    }
    assert items[i..] == [];
    assert tasks + [] == tasks;
    return Ok(tasks);
  }
}
