/** Leftmost-match search, the part of `re.findall(pattern, s)[0]` that does not
    depend on the pattern: the pattern itself is a function telling whether, and
    with what text, it matches at a given position. */
module Search {
  import opened Common
  import Text

  /** The leftmost position at or after `p` where `at` matches, with its match.
      Both patterns of the scraper match at least one character, so only
      positions inside `s` are tried. */
  function FirstFrom<T>(s: string, p: nat, at: (string, nat) -> Option<T>): (r: Option<(nat, T)>)
    ensures r.Some? ==> p <= r.value.0 < |s| && at(s, r.value.0) == Some(r.value.1)
    ensures r.Some? ==> forall q :: p <= q < r.value.0 ==> at(s, q).None?
    ensures r.None? ==> forall q :: p <= q < |s| ==> at(s, q).None?
    decreases |s| - p
  {
    if p >= |s| then None
    else
      match at(s, p)
      case Some(m) => Some((p, m))
      case None => FirstFrom(s, p + 1, at)
  }

  /** The leftmost match is determined by the positions alone: a match at `q`
      with no match in `[p, q)` is the one found. */
  lemma FirstFromAt<T>(s: string, p: nat, q: nat, at: (string, nat) -> Option<T>)
    requires p <= q < |s| && at(s, q).Some?
    requires forall k :: p <= k < q ==> at(s, k).None?
    ensures FirstFrom(s, p, at) == Some((q, at(s, q).value))
  {
  }

  /** Length of the run of decimal digits starting at `i`. */
  function DigitRun(s: string, i: nat): (n: nat)
    ensures i <= |s| ==> i + n <= |s|
    ensures i >= |s| ==> n == 0
    decreases |s| - i
  {
    if i < |s| && Text.IsDigit(s[i]) then 1 + DigitRun(s, i + 1) else 0
  }

  /** The run is made of digits and is maximal. */
  lemma {:induction false} DigitRunMaximal(s: string, i: nat)
    requires i <= |s|
    ensures forall k :: i <= k < i + DigitRun(s, i) ==> Text.IsDigit(s[k])
    ensures i + DigitRun(s, i) < |s| ==> !Text.IsDigit(s[i + DigitRun(s, i)])
    decreases |s| - i
  {
    if i < |s| && Text.IsDigit(s[i]) {
      DigitRunMaximal(s, i + 1);
    }
  }

  /** A digit run followed by a non-digit (or the end) is the maximal run. */
  lemma DigitRunExact(s: string, i: nat, n: nat)
    requires i + n <= |s|
    requires forall k :: i <= k < i + n ==> Text.IsDigit(s[k])
    requires i + n == |s| || !Text.IsDigit(s[i + n])
    ensures DigitRun(s, i) == n
    decreases n
  {
    if n > 0 {
      DigitRunExact(s, i + 1, n - 1);
    }
  }

}
