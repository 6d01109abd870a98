/**
 * The global scan `html.match(EMAIL_RE)` for
 * EMAIL_RE = /[a-zA-Z0-9._%+-]+@[a-zA-Z0-9.-]+\.[a-zA-Z]{2,}/g
 * with JavaScript's leftmost, greedy, backtracking semantics written out.
 */
module EmailPattern {
  import opened Wrappers
  import Text

  predicate IsAsciiLetter(c: char) { 'a' <= c <= 'z' || 'A' <= c <= 'Z' }

  predicate IsAsciiDigit(c: char) { '0' <= c <= '9' }

  /** The class `[a-zA-Z0-9._%+-]` of the local part. */
  predicate IsLocalChar(c: char) {
    IsAsciiLetter(c) || IsAsciiDigit(c) || c == '.' || c == '_' || c == '%' || c == '+' || c == '-'
  }

  /** The class `[a-zA-Z0-9.-]` of the domain part. */
  predicate IsDomainChar(c: char) {
    IsAsciiLetter(c) || IsAsciiDigit(c) || c == '.' || c == '-'
  }

  /**
   * The shape of every match, with the `@` at index `at` and the final `.` at
   * index `dot`: a non-empty local part, a non-empty domain part, and two or
   * more letters after the dot.
   */
  predicate ShapeAt(e: string, at: int, dot: int) {
    && 0 < at && at + 1 < dot && dot + 2 < |e|
    && e[at] == '@' && e[dot] == '.'
    && (forall i :: 0 <= i < at ==> IsLocalChar(e[i]))
    && (forall i :: at < i < dot ==> IsDomainChar(e[i]))
    && (forall i :: dot < i < |e| ==> IsAsciiLetter(e[i]))
  }

  ghost predicate EmailShape(e: string) {
    exists at, dot :: ShapeAt(e, at, dot)
  }

  /** A greedy `P+` or `P*` run from `p`: the end of the longest stretch of `P` characters. */
  function RunEnd(s: string, p: nat, P: char -> bool): (q: nat)
    requires p <= |s|
    ensures p <= q <= |s|
    ensures forall i :: p <= i < q ==> P(s[i])
    ensures q == |s| || !P(s[q])
    decreases |s| - p
  {
    if p < |s| && P(s[p]) then RunEnd(s, p + 1, P) else p
  }

  /** `\.[a-zA-Z]{2,}` can start at index `k`. */
  predicate TldAt(s: string, k: int) {
    0 <= k && k + 2 < |s| && s[k] == '.' && IsAsciiLetter(s[k + 1]) && IsAsciiLetter(s[k + 2])
  }

  /**
   * Backtracking of the greedy domain part that starts at `lo`: the largest
   * `k` with `lo < k <= hi` at which the rest of the pattern can start.
   */
  function LastDot(s: string, lo: nat, hi: nat): (r: Option<nat>)
    ensures r.Some? ==> lo < r.value <= hi && TldAt(s, r.value)
    ensures r.Some? ==> forall k :: r.value < k <= hi ==> !TldAt(s, k)
    ensures r.None? ==> forall k :: lo < k <= hi ==> !TldAt(s, k)
    decreases hi
  {
    if hi <= lo then None
    else if TldAt(s, hi) then Some(hi)
    else LastDot(s, lo, hi - 1)
  }

  /** The end of the match that starts exactly at `p`, if there is one. */
  function MatchAt(s: string, p: nat): (r: Option<nat>)
    requires p <= |s|
    ensures r.Some? ==> p < r.value <= |s| && EmailShape(s[p..r.value])
  {
    if p < |s| && IsLocalChar(s[p]) then
      var at := RunEnd(s, p, IsLocalChar);
      if at < |s| && s[at] == '@' then
        var domainEnd := RunEnd(s, at + 1, IsDomainChar);
        match LastDot(s, at + 1, domainEnd)
        case None => None
        case Some(dot) =>
          var end := RunEnd(s, dot + 1, IsAsciiLetter);
          MatchShape(s, p, at, dot, end);
          Some(end)
      else None
    else None
  }

  lemma MatchShape(s: string, p: nat, at: nat, dot: nat, end: nat)
    requires p < at < dot < end <= |s|
    requires forall i :: p <= i < at ==> IsLocalChar(s[i])
    requires s[at] == '@' && at + 1 < dot && TldAt(s, dot)
    requires forall i :: at < i < dot ==> IsDomainChar(s[i])
    requires forall i :: dot < i < end ==> IsAsciiLetter(s[i])
    requires dot + 2 < end
    ensures EmailShape(s[p..end])
  {
    assert ShapeAt(s[p..end], at - p, dot - p);
  }

  /** All non-overlapping matches, each searched leftmost from the end of the previous one. */
  function ScanFrom(s: string, p: nat): (r: seq<string>)
    requires p <= |s|
    ensures forall k :: 0 <= k < |r| ==> EmailShape(r[k]) && Text.Contains(s, r[k])
    decreases |s| - p
  {
    if p == |s| then []
    else
      match MatchAt(s, p)
      case Some(end) =>
        assert Text.StartsWith(s[p..], s[p..end]);
        [s[p..end]] + ScanFrom(s, end)
      case None => ScanFrom(s, p + 1)
  }

  /** `html.match(EMAIL_RE) || []` */
  function MatchEmails(html: string): (r: seq<string>)
    ensures forall k :: 0 <= k < |r| ==> EmailShape(r[k]) && Text.Contains(html, r[k])
  {
    ScanFrom(html, 0)
  }

  /** A string of the email shape, scanned on its own, is matched whole. */
  lemma ShapeMatchesWhole(e: string)
    requires EmailShape(e)
    ensures MatchEmails(e) == [e]
  {
    var at, dot :| ShapeAt(e, at, dot);
    var localEnd := RunEnd(e, 0, IsLocalChar);
    assert !IsLocalChar(e[at]);
    assert localEnd == at;
    var domainEnd := RunEnd(e, at + 1, IsDomainChar);
    assert domainEnd == |e|;
    assert TldAt(e, dot);
    var found := LastDot(e, at + 1, domainEnd);
    assert found == Some(dot) by {
      forall k | dot < k <= |e| ensures !TldAt(e, k) {
        if k < |e| {
          assert IsAsciiLetter(e[k]);
        }
      }
    }
    assert RunEnd(e, dot + 1, IsAsciiLetter) == |e|;
    assert MatchAt(e, 0) == Some(|e|);
    assert ScanFrom(e, |e|) == [];
    assert ScanFrom(e, 0) == [e[0..|e|]] + ScanFrom(e, |e|);
    assert e[0..|e|] == e;
  }
}
