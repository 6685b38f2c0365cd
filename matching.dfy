/**
 * Locating markers: the ordinal `IndexOf` and `StartsWith` that the parser
 * calls, the balanced scan for a pair's closing marker, and the span that
 * a pair rule cuts out of the input.
 */
module Matching {
  import opened Wrappers
  import opened CustomTags

  /**
   * Ordinal `s.AsSpan(i).StartsWith(m)`: marker `m` occurs in `s` at index
   * `i`, compared char by char.
   */
  predicate StartsWithAt(s: string, i: int, m: string) {
    0 <= i && i + |m| <= |s| && forall k :: 0 <= k < |m| ==> s[i + k] == m[k]
  }

  /** An occurrence of `m` at `i` is the slice of `s` that starts at `i`. */
  lemma StartsWithAtSlice(s: string, i: int, m: string)
    requires 0 <= i && i + |m| <= |s|
    ensures StartsWithAt(s, i, m) <==> s[i..i + |m|] == m
  {
    var slice := s[i..i + |m|];
    assert forall k :: 0 <= k < |m| ==> slice[k] == s[i + k];
    if StartsWithAt(s, i, m) {
      assert slice == m;
    }
  }

  /** Marker `m` occurs somewhere in `s`. */
  ghost predicate Occurs(s: string, m: string) {
    exists j :: StartsWithAt(s, j, m)
  }

  /** The first index at or after `k` where `m` occurs in `s`, or -1. */
  function IndexOfFrom(s: string, m: string, k: nat): (r: int)
    ensures r == -1 || (k <= r && StartsWithAt(s, r, m))
    ensures forall j :: k <= j && (r == -1 || j < r) ==> !StartsWithAt(s, j, m)
    decreases |s| - k
  {
    if |s| < k + |m| then -1
    else if StartsWithAt(s, k, m) then k
    else IndexOfFrom(s, m, k + 1)
  }

  /**
   * Ordinal `s.IndexOf(m)`: the first index where `m` occurs, or -1 when it
   * occurs nowhere.
   */
  function IndexOf(s: string, m: string): (r: int)
    ensures r >= 0 ==> StartsWithAt(s, r, m) && forall j :: 0 <= j < r ==> !StartsWithAt(s, j, m)
    ensures r < 0 <==> !Occurs(s, m)
    ensures r >= -1
  {
    IndexOfFrom(s, m, 0)
  }

  /**
   * The balanced scan for a closing marker, started at `index` with nesting
   * `depth`, exactly as the parser's `for` loop runs it: at each position the
   * closing marker is tested before the opening marker; a closing marker
   * lowers the depth and, when it reaches zero, is the answer; otherwise the
   * position moves past the marker AND one more character, because the
   * loop's own increment also runs after the manual skip. Positions at or
   * past the end of `s` end the scan without a match.
   */
  function ScanForClosing(s: string, opening: string, closing: string, index: nat, depth: nat): (r: Option<nat>)
    requires depth >= 1
    ensures r.Some? ==> index <= r.value && StartsWithAt(s, r.value, closing)
    ensures r.Some? ==> r.value < |s|
    decreases |s| - index
  {
    if index >= |s| then None
    else if StartsWithAt(s, index, closing) then
      if depth - 1 == 0 then Some(index)
      else ScanForClosing(s, opening, closing, index + |closing| + 1, depth - 1)
    else if StartsWithAt(s, index, opening) then
      ScanForClosing(s, opening, closing, index + |opening| + 1, depth + 1)
    else
      ScanForClosing(s, opening, closing, index + 1, depth)
  }

  /** A closing marker met at a depth above one lowers the depth and is skipped, with one more character. */
  lemma ScanAtClosing(s: string, opening: string, closing: string, index: nat, depth: nat)
    requires depth > 1 && index < |s| && StartsWithAt(s, index, closing)
    ensures ScanForClosing(s, opening, closing, index, depth) == ScanForClosing(s, opening, closing, index + |closing| + 1, depth - 1)
  {
  }

  /** A closing marker met at depth one is the answer. */
  lemma ScanClosesAt(s: string, opening: string, closing: string, index: nat)
    requires index < |s| && StartsWithAt(s, index, closing)
    ensures ScanForClosing(s, opening, closing, index, 1) == Some(index)
  {
  }

  /**
   * An opening marker where no closing marker starts raises the depth and is
   * skipped, with one more character.
   */
  lemma ScanAtOpening(s: string, opening: string, closing: string, index: nat, depth: nat)
    requires depth >= 1 && index < |s| && !StartsWithAt(s, index, closing) && StartsWithAt(s, index, opening)
    ensures ScanForClosing(s, opening, closing, index, depth) == ScanForClosing(s, opening, closing, index + |opening| + 1, depth + 1)
  {
  }

  /**
   * Positions where neither marker starts are stepped over one at a time:
   * the scan from `index` and the scan from `j` agree when no marker
   * starts in between.
   */
  lemma {:induction false} ScanSkipsPlainText(s: string, opening: string, closing: string, index: nat, j: nat, depth: nat)
    requires depth >= 1 && index <= j
    requires forall p :: index <= p < j ==> !StartsWithAt(s, p, closing) && !StartsWithAt(s, p, opening)
    ensures ScanForClosing(s, opening, closing, index, depth) == ScanForClosing(s, opening, closing, j, depth)
    decreases j - index
  {
    if index < j && index < |s| {
      assert !StartsWithAt(s, index, closing) && !StartsWithAt(s, index, opening);
      ScanSkipsPlainText(s, opening, closing, index + 1, j, depth);
    }
  }

  /**
   * With no opening marker between `index` and the first closing marker
   * `c` after it, the scan at depth one reports exactly `c`: an unnested
   * pair closes at its first closing marker.
   */
  lemma ScanFindsFirstUnnestedClosing(s: string, opening: string, closing: string, index: nat, c: nat)
    requires closing != []
    requires index <= c && StartsWithAt(s, c, closing)
    requires forall j :: index <= j < c ==> !StartsWithAt(s, j, closing) && !StartsWithAt(s, j, opening)
    ensures ScanForClosing(s, opening, closing, index, 1) == Some(c)
  {
    ScanSkipsPlainText(s, opening, closing, index, c, 1);
  }

  /**
   * The region a pair rule acts on: the opening marker occupies
   * `[opening, openingEnd)` and the closing marker `[closing, closingEnd)`.
   */
  datatype Span = Span(opening: nat, openingEnd: nat, closing: nat, closingEnd: nat)

  /**
   * What every span found for markers `opening` and `closing` in `s`
   * satisfies: the indices are ordered, both markers are really there, and
   * the opening marker is the first occurrence of it in `s`.
   */
  ghost predicate ValidSpan(s: string, opening: string, closing: string, sp: Span) {
    && sp.openingEnd == sp.opening + |opening|
    && sp.openingEnd <= sp.closing
    && sp.closingEnd == sp.closing + |closing| <= |s|
    && StartsWithAt(s, sp.opening, opening)
    && StartsWithAt(s, sp.closing, closing)
    && forall j :: 0 <= j < sp.opening ==> !StartsWithAt(s, j, opening)
  }

  /**
   * Find the span of a pair with markers `opening` and `closing` in `s`:
   * the first opening marker and its balanced closing marker; None when the
   * opening marker is absent or no balanced closing marker follows it.
   */
  function FindSpan(s: string, opening: string, closing: string): (r: Option<Span>)
    ensures r.Some? ==> ValidSpan(s, opening, closing, r.value)
    ensures !Occurs(s, opening) ==> r.None?
  {
    var i := IndexOf(s, opening);
    if i < 0 then None
    else SpanAt(opening, closing, i, ScanForClosing(s, opening, closing, i + |opening|, 1))
  }

  /** The span that an opening marker at `i` and a scan result `r` make. */
  function SpanAt(opening: string, closing: string, i: nat, r: Option<nat>): Option<Span> {
    match r
    case None => None
    case Some(c) => Some(Span(i, i + |opening|, c, c + |closing|))
  }

  // ---------------------------------------------------------------------
  // Text in front of the markers

  /** `m` occurs in `prefix + s` at `|prefix| + i` exactly when it occurs in `s` at `i`. */
  lemma StartsWithAtShift(prefix: string, s: string, i: nat, m: string)
    ensures StartsWithAt(prefix + s, |prefix| + i, m) <==> StartsWithAt(s, i, m)
  {
  }

  /** No occurrence of `m` starts inside a prefix that lacks the first character of `m`. */
  lemma NoStartInPlainPrefix(prefix: string, s: string, m: string, j: int)
    requires m != [] && m[0] !in prefix && 0 <= j < |prefix|
    ensures !StartsWithAt(prefix + s, j, m)
  {
    assert (prefix + s)[j] == prefix[j];
  }

  /**
   * Text that lacks the first character of `m` does not change where `m`
   * is first found behind it: the index only moves by its length.
   */
  lemma IndexOfPlainPrefix(prefix: string, s: string, m: string)
    requires m != [] && m[0] !in prefix
    ensures IndexOf(prefix + s, m) == if IndexOf(s, m) < 0 then -1 else |prefix| + IndexOf(s, m)
  {
    var r := IndexOf(s, m);
    var r' := IndexOf(prefix + s, m);
    forall j | 0 <= j < |prefix|
      ensures !StartsWithAt(prefix + s, j, m)
    {
      NoStartInPlainPrefix(prefix, s, m, j);
    }
    if r >= 0 {
      StartsWithAtShift(prefix, s, r, m);
      forall j | |prefix| <= j < |prefix| + r
        ensures !StartsWithAt(prefix + s, j, m)
      {
        StartsWithAtShift(prefix, s, j - |prefix|, m);
      }
    } else if r' >= 0 {
      StartsWithAtShift(prefix, s, r' - |prefix|, m);
    }
  }

  /** A scan result moved `n` positions to the right. */
  function ShiftBy(r: Option<nat>, n: nat): Option<nat> {
    match r
    case None => None
    case Some(x) => Some(n + x)
  }

  /**
   * The balanced scan over `prefix + s` from `|prefix| + index` is the scan
   * over `s` from `index`, moved by `|prefix|`: the scan never looks back.
   */
  lemma {:induction false} ScanShift(prefix: string, s: string, opening: string, closing: string, index: nat, depth: nat)
    requires depth >= 1
    ensures ScanForClosing(prefix + s, opening, closing, |prefix| + index, depth)
         == ShiftBy(ScanForClosing(s, opening, closing, index, depth), |prefix|)
    decreases |s| - index, 1
  {
    if index < |s| {
      var atClosing, atOpening := StartsWithAt(s, index, closing), StartsWithAt(s, index, opening);
      if atClosing {
        ScanShiftAtClosing(prefix, s, opening, closing, index, depth);
      } else if atOpening {
        ScanShiftAtOpening(prefix, s, opening, closing, index, depth);
      } else {
        ScanShiftAtText(prefix, s, opening, closing, index, depth);
      }
    }
  }

  /** `ScanShift` at a closing marker. */
  lemma {:induction false} ScanShiftAtClosing(prefix: string, s: string, opening: string, closing: string, index: nat, depth: nat)
    requires depth >= 1 && index < |s| && StartsWithAt(s, index, closing)
    ensures ScanForClosing(prefix + s, opening, closing, |prefix| + index, depth)
         == ShiftBy(ScanForClosing(s, opening, closing, index, depth), |prefix|)
    decreases |s| - index, 0
  {
    StartsWithAtShift(prefix, s, index, closing);
    if depth > 1 {
      ScanShift(prefix, s, opening, closing, index + |closing| + 1, depth - 1);
    }
  }

  /** `ScanShift` at an opening marker. */
  lemma {:induction false} ScanShiftAtOpening(prefix: string, s: string, opening: string, closing: string, index: nat, depth: nat)
    requires depth >= 1 && index < |s| && !StartsWithAt(s, index, closing) && StartsWithAt(s, index, opening)
    ensures ScanForClosing(prefix + s, opening, closing, |prefix| + index, depth)
         == ShiftBy(ScanForClosing(s, opening, closing, index, depth), |prefix|)
    decreases |s| - index, 0
  {
    StartsWithAtShift(prefix, s, index, closing);
    StartsWithAtShift(prefix, s, index, opening);
    ScanShift(prefix, s, opening, closing, index + |opening| + 1, depth + 1);
  }

  /** `ScanShift` where neither marker starts. */
  lemma {:induction false} ScanShiftAtText(prefix: string, s: string, opening: string, closing: string, index: nat, depth: nat)
    requires depth >= 1 && index < |s| && !StartsWithAt(s, index, closing) && !StartsWithAt(s, index, opening)
    ensures ScanForClosing(prefix + s, opening, closing, |prefix| + index, depth)
         == ShiftBy(ScanForClosing(s, opening, closing, index, depth), |prefix|)
    decreases |s| - index, 0
  {
    StartsWithAtShift(prefix, s, index, closing);
    StartsWithAtShift(prefix, s, index, opening);
    ScanShift(prefix, s, opening, closing, index + 1, depth);
  }

  /** Span `sp` moved `n` positions to the right. */
  function Moved(sp: Span, n: nat): Span {
    Span(n + sp.opening, n + sp.openingEnd, n + sp.closing, n + sp.closingEnd)
  }

  /** A search result moved `n` positions to the right. */
  function MovedBy(r: Option<Span>, n: nat): Option<Span> {
    match r
    case None => None
    case Some(sp) => Some(Moved(sp, n))
  }

  /**
   * Text that lacks the first character of the opening marker does not
   * change which span is found behind it: the span only moves by its
   * length.
   */
  lemma FindSpanPlainPrefix(prefix: string, s: string, opening: string, closing: string)
    requires opening != [] && opening[0] !in prefix
    ensures FindSpan(prefix + s, opening, closing) == MovedBy(FindSpan(s, opening, closing), |prefix|)
  {
    IndexOfPlainPrefix(prefix, s, opening);
    var i := IndexOf(s, opening);
    if i >= 0 {
      ScanShift(prefix, s, opening, closing, i + |opening|, 1);
      SpanAtMoved(opening, closing, i, |prefix|, ScanForClosing(s, opening, closing, i + |opening|, 1));
    }
  }

  /** Moving the opening marker and the scan result moves the span. */
  lemma SpanAtMoved(opening: string, closing: string, i: nat, n: nat, r: Option<nat>)
    ensures SpanAt(opening, closing, n + i, ShiftBy(r, n)) == MovedBy(SpanAt(opening, closing, i, r), n)
  {
  }
}
