/**
 * What `CustomTagParser.Parse` computes, as functions. Each `goto Retry`
 * fixed point is bounded by `fuel`, the number of splices one rule may make
 * before the run is cut off with `OutOfFuel`; the source has no such bound
 * and simply never returns in that case.
 */
module Rewriting {
  import opened Wrappers
  import opened CustomTags
  import opened Matching

  /** The result of a fuel-bounded run: the rewritten string, or a cut-off. */
  datatype Outcome = Done(output: string) | OutOfFuel

  /**
   * The `Retry:` ... `goto Retry` loop of one rule: apply `step` again and
   * again until it gives up (None), splicing at most `fuel` times.
   */
  function Fixpoint(s: string, step: string -> Option<string>, fuel: nat): Outcome
    decreases fuel, 1
  {
    Retry(s, step(s), step, fuel)
  }

  /** The retry loop after an attempt on `s` that produced `attempt`. */
  function Retry(s: string, attempt: Option<string>, step: string -> Option<string>, fuel: nat): Outcome
    decreases fuel, 0
  {
    match attempt
    case None => Done(s)
    case Some(t) => if fuel == 0 then OutOfFuel else Fixpoint(t, step, fuel - 1)
  }

  /** A pair rule without a condition applies everywhere; otherwise its condition decides. */
  predicate PairAllows(p: CustomTagPair, contents: string, left: string, right: string) {
    p.Condition.None? || p.Condition.value(contents, left, right)
  }

  /** A unit rule without a condition applies everywhere; otherwise its condition decides. */
  predicate UnitAllows(u: CustomTagUnit, left: string, right: string) {
    u.Condition.None? || u.Condition.value(left, right)
  }

  /**
   * One attempt of pair rule `p` on `s`: find the span, check the
   * condition, and splice `Left + Replace(Contents, Left, Right) + Right`.
   * None means the rule gives up: no opening marker, no balanced closing
   * marker, or a condition that rejects.
   */
  function ApplyPair(s: string, p: CustomTagPair): Option<string> {
    match FindSpan(s, p.OpeningTag.Match, p.ClosingTag.Match)
    case None => None
    case Some(sp) => SpliceAt(s, p, sp)
  }

  /**
   * The rest of an attempt once span `sp` is found: cut `Left`, `Contents`
   * and `Right` around the markers, check the condition, and splice.
   */
  function SpliceAt(s: string, p: CustomTagPair, sp: Span): Option<string>
    requires sp.opening <= sp.openingEnd <= sp.closing <= sp.closingEnd <= |s|
  {
    var contents := s[sp.openingEnd..sp.closing];
    var left := s[..sp.opening];
    var right := s[sp.closingEnd..];
    if !PairAllows(p, contents, left, right) then None
    else Some(left + p.Replace(contents, left, right) + right)
  }

  /** Pair rule `p` as one retry step of the fixed-point loop. */
  function PairStep(p: CustomTagPair): string -> Option<string> {
    s => ApplyPair(s, p)
  }

  /** Continue a run that has reached `o` with the remaining pair rules. */
  function ThenPairs(o: Outcome, pairs: seq<CustomTagPair>, fuel: nat): Outcome
    decreases |pairs|, 1
  {
    match o
    case OutOfFuel => OutOfFuel
    case Done(t) => ApplyPairs(t, pairs, fuel)
  }

  /** The pair phase: every pair rule in caller order, each to its fixed point. */
  function ApplyPairs(s: string, pairs: seq<CustomTagPair>, fuel: nat): Outcome
    decreases |pairs|, 0
  {
    if pairs == [] then Done(s)
    else ThenPairs(Fixpoint(s, PairStep(pairs[0]), fuel), pairs[1..], fuel)
  }

  /**
   * One attempt of unit rule `u` on `s`: find the first occurrence of its
   * tag, check the condition, and splice `Left + Replace(Left, Right) + Right`.
   */
  function ApplyUnit(s: string, u: CustomTagUnit): Option<string> {
    var index := IndexOf(s, u.Tag.Match);
    if index < 0 then None else UnitSpliceAt(s, u, index)
  }

  /**
   * The rest of a unit attempt once the tag is found at `index`: cut `Left`
   * and `Right` around it, check the condition, and splice.
   */
  function UnitSpliceAt(s: string, u: CustomTagUnit, index: nat): Option<string>
    requires index + |u.Tag.Match| <= |s|
  {
    var left := s[..index];
    var right := s[index + |u.Tag.Match|..];
    if !UnitAllows(u, left, right) then None
    else Some(left + u.Replace(left, right) + right)
  }

  /** Unit rule `u` as one retry step of the fixed-point loop. */
  function UnitStep(u: CustomTagUnit): string -> Option<string> {
    s => ApplyUnit(s, u)
  }

  /** Continue a run that has reached `o` with the remaining unit rules. */
  function ThenUnits(o: Outcome, units: seq<CustomTagUnit>, fuel: nat): Outcome
    decreases |units|, 1
  {
    match o
    case OutOfFuel => OutOfFuel
    case Done(t) => ApplyUnits(t, units, fuel)
  }

  /** The unit phase: every unit rule in caller order, each to its fixed point. */
  function ApplyUnits(s: string, units: seq<CustomTagUnit>, fuel: nat): Outcome
    decreases |units|, 0
  {
    if units == [] then Done(s)
    else ThenUnits(Fixpoint(s, UnitStep(units[0]), fuel), units[1..], fuel)
  }

  /**
   * The whole of `Parse`: the pair phase, then the unit phase; a null rule
   * list (None) skips its phase.
   */
  function Rewrite(input: string, tagPairs: Option<seq<CustomTagPair>>, tagUnits: Option<seq<CustomTagUnit>>, fuel: nat): Outcome {
    var afterPairs := if tagPairs.None? then Done(input) else ApplyPairs(input, tagPairs.value, fuel);
    match afterPairs
    case OutOfFuel => OutOfFuel
    case Done(s) => if tagUnits.None? then Done(s) else ApplyUnits(s, tagUnits.value, fuel)
  }

  // ---------------------------------------------------------------------
  // One application of a rule

  /** Cutting `s` at four ordered indices and gluing the pieces back gives `s`. */
  lemma CutIntoFive(s: string, a: nat, b: nat, c: nat, d: nat)
    requires a <= b <= c <= d <= |s|
    ensures s == s[..a] + s[a..b] + s[b..c] + s[c..d] + s[d..]
  {
    assert s[..b] == s[..a] + s[a..b];
    assert s[..c] == s[..b] + s[b..c];
    assert s[..d] == s[..c] + s[c..d];
    assert s == s[..d] + s[d..];
  }

  /** A non-empty marker that starts nowhere before `i` in `s` does not occur in `s[..i]`. */
  lemma NoOccurrenceBefore(s: string, i: nat, m: string)
    requires i <= |s| && m != []
    requires forall j :: 0 <= j < i ==> !StartsWithAt(s, j, m)
    ensures !Occurs(s[..i], m)
  {
    var prefix := s[..i];
    forall j | 0 <= j && j + |m| <= i
      ensures StartsWithAt(prefix, j, m) == StartsWithAt(s, j, m)
    {
    }
  }

  /**
   * A successful pair application cuts `s` into `Left`, the opening
   * marker, `Contents`, the closing marker and `Right`, and yields
   * `Left + Replace(Contents, Left, Right) + Right`: both markers are
   * consumed, the condition accepted, and `Left` holds no (non-empty)
   * opening marker.
   */
  lemma PairStepSplices(s: string, p: CustomTagPair)
    requires ApplyPair(s, p).Some?
    ensures FindSpan(s, p.OpeningTag.Match, p.ClosingTag.Match).Some?
    ensures var sp := FindSpan(s, p.OpeningTag.Match, p.ClosingTag.Match).value;
      var left, contents, right := s[..sp.opening], s[sp.openingEnd..sp.closing], s[sp.closingEnd..];
      && s == left + p.OpeningTag.Match + contents + p.ClosingTag.Match + right
      && ApplyPair(s, p).value == left + p.Replace(contents, left, right) + right
      && PairAllows(p, contents, left, right)
      && (p.OpeningTag.Match != [] ==> !Occurs(left, p.OpeningTag.Match))
  {
    var sp := FindSpan(s, p.OpeningTag.Match, p.ClosingTag.Match).value;
    StartsWithAtSlice(s, sp.opening, p.OpeningTag.Match);
    StartsWithAtSlice(s, sp.closing, p.ClosingTag.Match);
    CutIntoFive(s, sp.opening, sp.openingEnd, sp.closing, sp.closingEnd);
    if p.OpeningTag.Match != [] {
      NoOccurrenceBefore(s, sp.opening, p.OpeningTag.Match);
    }
  }

  /**
   * A pair rule gives up in exactly three cases: its opening marker is
   * absent, no balanced closing marker follows the first one, or its
   * condition rejects the first span. Giving up leaves `s` as it is, even
   * when a later occurrence would have been accepted.
   */
  lemma PairRuleGivesUp(s: string, p: CustomTagPair, fuel: nat)
    ensures ApplyPair(s, p).None? <==>
      || !Occurs(s, p.OpeningTag.Match)
      || ScanForClosing(s, p.OpeningTag.Match, p.ClosingTag.Match, IndexOf(s, p.OpeningTag.Match) + |p.OpeningTag.Match|, 1).None?
      || (var sp := FindSpan(s, p.OpeningTag.Match, p.ClosingTag.Match).value;
          !PairAllows(p, s[sp.openingEnd..sp.closing], s[..sp.opening], s[sp.closingEnd..]))
    ensures ApplyPair(s, p).None? ==> Fixpoint(s, PairStep(p), fuel) == Done(s)
  {
  }

  /**
   * A successful unit application replaces the first occurrence of the
   * tag: `s` is `Left + Tag + Right` with no occurrence of the tag starting
   * inside `Left`, and the result is `Left + Replace(Left, Right) + Right`.
   */
  lemma UnitStepSplices(s: string, u: CustomTagUnit)
    requires ApplyUnit(s, u).Some?
    ensures var i := IndexOf(s, u.Tag.Match);
      var left, right := s[..i], s[i + |u.Tag.Match|..];
      && i >= 0
      && s == left + u.Tag.Match + right
      && ApplyUnit(s, u).value == left + u.Replace(left, right) + right
      && UnitAllows(u, left, right)
      && forall j :: 0 <= j < |left| ==> !StartsWithAt(s, j, u.Tag.Match)
  {
    var i := IndexOf(s, u.Tag.Match);
    StartsWithAtSlice(s, i, u.Tag.Match);
    assert s == s[..i] + s[i..i + |u.Tag.Match|] + s[i + |u.Tag.Match|..];
  }

  /**
   * A unit rule gives up exactly when its tag is absent or its condition
   * rejects the first occurrence, and giving up leaves `s` as it is.
   */
  lemma UnitRuleGivesUp(s: string, u: CustomTagUnit, fuel: nat)
    ensures ApplyUnit(s, u).None? <==>
      || !Occurs(s, u.Tag.Match)
      || (var i := IndexOf(s, u.Tag.Match); !UnitAllows(u, s[..i], s[i + |u.Tag.Match|..]))
    ensures ApplyUnit(s, u).None? ==> Fixpoint(s, UnitStep(u), fuel) == Done(s)
  {
  }

  // ---------------------------------------------------------------------
  // Text in front of the first marker

  /**
   * Pair rule `p` as it acts on the text behind a fixed `prefix`: its
   * replacement and its condition see `prefix` in front of `Left`.
   */
  function PairBehind(p: CustomTagPair, prefix: string): CustomTagPair {
    CustomTagPair(p.OpeningTag, p.ClosingTag,
      (contents, left, right) => p.Replace(contents, prefix + left, right),
      match p.Condition
      case None => None
      case Some(condition) => Some((contents, left, right) => condition(contents, prefix + left, right)))
  }

  /** `prefix` put back in front of an attempt's result. */
  function PrefixedBy(prefix: string, r: Option<string>): Option<string> {
    match r
    case None => None
    case Some(t) => Some(prefix + t)
  }

  /** `prefix` put back in front of a run's result. */
  function WithPrefix(prefix: string, o: Outcome): Outcome {
    match o
    case OutOfFuel => OutOfFuel
    case Done(t) => Done(prefix + t)
  }

  /**
   * Text that lacks the first character of the opening marker is never
   * rewritten by a pair rule: the rule applies to `prefix + s` exactly as
   * it applies to `s`, with `prefix` kept in front.
   */
  lemma ApplyPairPlainPrefix(prefix: string, s: string, p: CustomTagPair)
    requires p.OpeningTag.Match != [] && p.OpeningTag.Match[0] !in prefix
    ensures ApplyPair(prefix + s, p)
         == PrefixedBy(prefix, ApplyPair(s, PairBehind(p, prefix)))
  {
    FindSpanPlainPrefix(prefix, s, p.OpeningTag.Match, p.ClosingTag.Match);
    match FindSpan(s, p.OpeningTag.Match, p.ClosingTag.Match)
    case None =>
    case Some(sp) =>
      SpliceAtPlainPrefix(prefix, s, p, sp);
  }

  /** The splice behind a prefix: the prefix only joins `Left`. */
  lemma SpliceAtPlainPrefix(prefix: string, s: string, p: CustomTagPair, sp: Span)
    requires sp.opening <= sp.openingEnd <= sp.closing <= sp.closingEnd <= |s|
    ensures SpliceAt(prefix + s, p, Moved(sp, |prefix|))
         == PrefixedBy(prefix, SpliceAt(s, PairBehind(p, prefix), sp))
  {
    var n := |prefix|;
    var whole := prefix + s;
    var contents, left, right := s[sp.openingEnd..sp.closing], s[..sp.opening], s[sp.closingEnd..];
    assert whole[n + sp.openingEnd..n + sp.closing] == contents;
    assert whole[..n + sp.opening] == prefix + left;
    assert whole[n + sp.closingEnd..] == right;
    assert PairAllows(PairBehind(p, prefix), contents, left, right) == PairAllows(p, contents, prefix + left, right);
    var middle := p.Replace(contents, prefix + left, right);
    assert (prefix + left) + middle + right == prefix + (left + middle + right);
  }

  /**
   * The same for a whole retry loop: a pair rule's fixed point on
   * `prefix + s` is its fixed point on `s` with `prefix` kept in front.
   */
  lemma PairFixpointPlainPrefix(prefix: string, s: string, p: CustomTagPair, fuel: nat)
    requires p.OpeningTag.Match != [] && p.OpeningTag.Match[0] !in prefix
    ensures Fixpoint(prefix + s, PairStep(p), fuel) == WithPrefix(prefix, Fixpoint(s, PairStep(PairBehind(p, prefix)), fuel))
  {
    forall t
      ensures PairStep(p)(prefix + t) == PrefixedBy(prefix, PairStep(PairBehind(p, prefix))(t))
    {
      ApplyPairPlainPrefix(prefix, t, p);
    }
    FixpointBehind(prefix, s, PairStep(p), PairStep(PairBehind(p, prefix)), fuel);
  }

  /**
   * A retry loop whose step keeps `prefix` in front and otherwise acts as
   * `behind` runs on `prefix + s` as the loop of `behind` runs on `s`.
   */
  lemma {:induction false} FixpointBehind(prefix: string, s: string, step: string -> Option<string>,
                                          behind: string -> Option<string>, fuel: nat)
    requires forall t :: step(prefix + t) == PrefixedBy(prefix, behind(t))
    ensures Fixpoint(prefix + s, step, fuel) == WithPrefix(prefix, Fixpoint(s, behind, fuel))
    decreases fuel
  {
    assert step(prefix + s) == PrefixedBy(prefix, behind(s));
    match behind(s)
    case None =>
    case Some(t) =>
      if fuel > 0 {
        FixpointBehind(prefix, t, step, behind, fuel - 1);
      }
  }

  /**
   * Unit rule `u` as it acts on the text behind a fixed `prefix`: its
   * replacement and its condition see `prefix` in front of `Left`.
   */
  function UnitBehind(u: CustomTagUnit, prefix: string): CustomTagUnit {
    CustomTagUnit(u.Tag,
      (left, right) => u.Replace(prefix + left, right),
      match u.Condition
      case None => None
      case Some(condition) => Some((left, right) => condition(prefix + left, right)))
  }

  /**
   * Text that lacks the first character of a unit rule's tag is never
   * rewritten by it: the rule applies to `prefix + s` exactly as it
   * applies to `s`, with `prefix` kept in front.
   */
  lemma ApplyUnitPlainPrefix(prefix: string, s: string, u: CustomTagUnit)
    requires u.Tag.Match != [] && u.Tag.Match[0] !in prefix
    ensures ApplyUnit(prefix + s, u) == PrefixedBy(prefix, ApplyUnit(s, UnitBehind(u, prefix)))
  {
    IndexOfPlainPrefix(prefix, s, u.Tag.Match);
    var i := IndexOf(s, u.Tag.Match);
    if i >= 0 {
      UnitSpliceAtPlainPrefix(prefix, s, u, i);
    }
  }

  /** The unit splice behind a prefix: the prefix only joins `Left`. */
  lemma UnitSpliceAtPlainPrefix(prefix: string, s: string, u: CustomTagUnit, i: nat)
    requires i + |u.Tag.Match| <= |s|
    ensures UnitSpliceAt(prefix + s, u, |prefix| + i) == PrefixedBy(prefix, UnitSpliceAt(s, UnitBehind(u, prefix), i))
  {
    var n, m := |prefix|, u.Tag.Match;
    var whole := prefix + s;
    var left, right := s[..i], s[i + |m|..];
    assert whole[..n + i] == prefix + left;
    assert whole[n + i + |m|..] == right;
    assert UnitAllows(UnitBehind(u, prefix), left, right) == UnitAllows(u, prefix + left, right);
    var middle := u.Replace(prefix + left, right);
    assert (prefix + left) + middle + right == prefix + (left + middle + right);
  }

  /**
   * The same for a whole retry loop: a unit rule's fixed point on
   * `prefix + s` is its fixed point on `s` with `prefix` kept in front.
   */
  lemma UnitFixpointPlainPrefix(prefix: string, s: string, u: CustomTagUnit, fuel: nat)
    requires u.Tag.Match != [] && u.Tag.Match[0] !in prefix
    ensures Fixpoint(prefix + s, UnitStep(u), fuel) == WithPrefix(prefix, Fixpoint(s, UnitStep(UnitBehind(u, prefix)), fuel))
  {
    forall t
      ensures UnitStep(u)(prefix + t) == PrefixedBy(prefix, UnitStep(UnitBehind(u, prefix))(t))
    {
      ApplyUnitPlainPrefix(prefix, t, u);
    }
    FixpointBehind(prefix, s, UnitStep(u), UnitStep(UnitBehind(u, prefix)), fuel);
  }

  // ---------------------------------------------------------------------
  // Fixed points

  /** When a retry loop stops, its rule no longer applies to what it left. */
  lemma {:induction false} FixpointIsFixed(s: string, step: string -> Option<string>, fuel: nat)
    requires Fixpoint(s, step, fuel).Done?
    ensures step(Fixpoint(s, step, fuel).output).None?
    decreases fuel
  {
    match step(s)
    case None =>
    case Some(t) => FixpointIsFixed(t, step, fuel - 1);
  }

  /** Running a retry loop again on its own result changes nothing, whatever the fuel. */
  lemma FixpointIdempotent(s: string, step: string -> Option<string>, fuel: nat, fuel': nat)
    requires Fixpoint(s, step, fuel).Done?
    ensures Fixpoint(Fixpoint(s, step, fuel).output, step, fuel') == Fixpoint(s, step, fuel)
  {
    FixpointIsFixed(s, step, fuel);
  }

  /** When the pair phase leaves a rule, that rule no longer applies to the text. */
  lemma PairFixpointIsFixed(s: string, p: CustomTagPair, fuel: nat)
    requires Fixpoint(s, PairStep(p), fuel).Done?
    ensures ApplyPair(Fixpoint(s, PairStep(p), fuel).output, p).None?
  {
    FixpointIsFixed(s, PairStep(p), fuel);
  }

  /** When the unit phase leaves a rule, that rule no longer applies to the text. */
  lemma UnitFixpointIsFixed(s: string, u: CustomTagUnit, fuel: nat)
    requires Fixpoint(s, UnitStep(u), fuel).Done?
    ensures ApplyUnit(Fixpoint(s, UnitStep(u), fuel).output, u).None?
  {
    FixpointIsFixed(s, UnitStep(u), fuel);
  }

  // ---------------------------------------------------------------------
  // Fuel only cuts a run off; it never changes a finished result

  lemma {:induction false} FixpointFuelMonotone(s: string, step: string -> Option<string>, fuel: nat, fuel': nat)
    requires fuel <= fuel' && Fixpoint(s, step, fuel).Done?
    ensures Fixpoint(s, step, fuel') == Fixpoint(s, step, fuel)
    decreases fuel
  {
    match step(s)
    case None =>
    case Some(t) => FixpointFuelMonotone(t, step, fuel - 1, fuel' - 1);
  }

  lemma {:induction false} ApplyPairsFuelMonotone(s: string, pairs: seq<CustomTagPair>, fuel: nat, fuel': nat)
    requires fuel <= fuel' && ApplyPairs(s, pairs, fuel).Done?
    ensures ApplyPairs(s, pairs, fuel') == ApplyPairs(s, pairs, fuel)
    decreases |pairs|
  {
    if pairs != [] {
      FixpointFuelMonotone(s, PairStep(pairs[0]), fuel, fuel');
      ApplyPairsFuelMonotone(Fixpoint(s, PairStep(pairs[0]), fuel).output, pairs[1..], fuel, fuel');
    }
  }

  lemma {:induction false} ApplyUnitsFuelMonotone(s: string, units: seq<CustomTagUnit>, fuel: nat, fuel': nat)
    requires fuel <= fuel' && ApplyUnits(s, units, fuel).Done?
    ensures ApplyUnits(s, units, fuel') == ApplyUnits(s, units, fuel)
    decreases |units|
  {
    if units != [] {
      FixpointFuelMonotone(s, UnitStep(units[0]), fuel, fuel');
      ApplyUnitsFuelMonotone(Fixpoint(s, UnitStep(units[0]), fuel).output, units[1..], fuel, fuel');
    }
  }

  /** A run of `Parse` that finishes with some fuel finishes the same with more. */
  lemma RewriteFuelMonotone(input: string, tagPairs: Option<seq<CustomTagPair>>, tagUnits: Option<seq<CustomTagUnit>>, fuel: nat, fuel': nat)
    requires fuel <= fuel' && Rewrite(input, tagPairs, tagUnits, fuel).Done?
    ensures Rewrite(input, tagPairs, tagUnits, fuel') == Rewrite(input, tagPairs, tagUnits, fuel)
  {
    if tagPairs.Some? {
      ApplyPairsFuelMonotone(input, tagPairs.value, fuel, fuel');
    }
    var afterPairs := if tagPairs.None? then input else ApplyPairs(input, tagPairs.value, fuel).output;
    if tagUnits.Some? {
      ApplyUnitsFuelMonotone(afterPairs, tagUnits.value, fuel, fuel');
    }
  }

  // ---------------------------------------------------------------------
  // Order of the rules

  /**
   * Rules run strictly in caller order: running `first ++ second` is
   * running `first` and then `second` on what it left.
   */
  lemma {:induction false} ApplyPairsAppend(s: string, first: seq<CustomTagPair>, second: seq<CustomTagPair>, fuel: nat)
    ensures ApplyPairs(s, first + second, fuel) == ThenPairs(ApplyPairs(s, first, fuel), second, fuel)
    decreases |first|
  {
    if first == [] {
      assert first + second == second;
    } else {
      assert (first + second)[1..] == first[1..] + second;
      match Fixpoint(s, PairStep(first[0]), fuel)
      case OutOfFuel =>
      case Done(t) => ApplyPairsAppend(t, first[1..], second, fuel);
    }
  }

  lemma {:induction false} ApplyUnitsAppend(s: string, first: seq<CustomTagUnit>, second: seq<CustomTagUnit>, fuel: nat)
    ensures ApplyUnits(s, first + second, fuel) == ThenUnits(ApplyUnits(s, first, fuel), second, fuel)
    decreases |first|
  {
    if first == [] {
      assert first + second == second;
    } else {
      assert (first + second)[1..] == first[1..] + second;
      match Fixpoint(s, UnitStep(first[0]), fuel)
      case OutOfFuel =>
      case Done(t) => ApplyUnitsAppend(t, first[1..], second, fuel);
    }
  }

  // ---------------------------------------------------------------------
  // Inputs the rules do not touch

  /** A phase whose every rule gives up at once returns its input. */
  lemma {:induction false} ApplyPairsGiveUp(s: string, pairs: seq<CustomTagPair>, fuel: nat)
    requires forall p :: p in pairs ==> ApplyPair(s, p).None?
    ensures ApplyPairs(s, pairs, fuel) == Done(s)
    decreases |pairs|
  {
    if pairs != [] {
      assert pairs[0] in pairs;
      assert Fixpoint(s, PairStep(pairs[0]), fuel) == Done(s);
      assert forall p :: p in pairs[1..] ==> p in pairs;
      ApplyPairsGiveUp(s, pairs[1..], fuel);
    }
  }

  lemma {:induction false} ApplyUnitsGiveUp(s: string, units: seq<CustomTagUnit>, fuel: nat)
    requires forall u :: u in units ==> ApplyUnit(s, u).None?
    ensures ApplyUnits(s, units, fuel) == Done(s)
    decreases |units|
  {
    if units != [] {
      assert units[0] in units;
      assert Fixpoint(s, UnitStep(units[0]), fuel) == Done(s);
      assert forall u :: u in units[1..] ==> u in units;
      ApplyUnitsGiveUp(s, units[1..], fuel);
    }
  }

  /**
   * `Parse` returns its input unchanged when every rule gives up on it at
   * once. So a second run on an output changes nothing when every rule gives
   * up on that output; each rule's own loop guarantees this only for that
   * rule (`PairFixpointIsFixed`), and `ParseTests.RerunChangesOutput` shows
   * a later rule re-enabling an earlier one.
   */
  lemma RewriteGivesUp(input: string, tagPairs: Option<seq<CustomTagPair>>, tagUnits: Option<seq<CustomTagUnit>>, fuel: nat)
    requires tagPairs.Some? ==> forall p :: p in tagPairs.value ==> ApplyPair(input, p).None?
    requires tagUnits.Some? ==> forall u :: u in tagUnits.value ==> ApplyUnit(input, u).None?
    ensures Rewrite(input, tagPairs, tagUnits, fuel) == Done(input)
  {
    if tagPairs.Some? {
      ApplyPairsGiveUp(input, tagPairs.value, fuel);
    }
    if tagUnits.Some? {
      ApplyUnitsGiveUp(input, tagUnits.value, fuel);
    }
  }

  /**
   * `Parse` returns its input unchanged when no opening marker of a pair
   * rule and no unit tag occurs in it, in particular when both rule lists
   * are null.
   */
  lemma RewriteWithoutMarkers(input: string, tagPairs: Option<seq<CustomTagPair>>, tagUnits: Option<seq<CustomTagUnit>>, fuel: nat)
    requires tagPairs.Some? ==> forall p :: p in tagPairs.value ==> !Occurs(input, p.OpeningTag.Match)
    requires tagUnits.Some? ==> forall u :: u in tagUnits.value ==> !Occurs(input, u.Tag.Match)
    ensures Rewrite(input, tagPairs, tagUnits, fuel) == Done(input)
  {
    RewriteGivesUp(input, tagPairs, tagUnits, fuel);
  }

  /** The empty input yields the empty output when every marker is non-empty. */
  lemma RewriteEmptyInput(tagPairs: Option<seq<CustomTagPair>>, tagUnits: Option<seq<CustomTagUnit>>, fuel: nat)
    requires tagPairs.Some? ==> forall p :: p in tagPairs.value ==> p.OpeningTag.Match != []
    requires tagUnits.Some? ==> forall u :: u in tagUnits.value ==> u.Tag.Match != []
    ensures Rewrite("", tagPairs, tagUnits, fuel) == Done("")
  {
    forall m: string | m != [] ensures !Occurs("", m) {
    }
    RewriteWithoutMarkers("", tagPairs, tagUnits, fuel);
  }
}
