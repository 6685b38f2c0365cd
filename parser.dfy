/**
 * `CustomTagParser.Parse` as the step-by-step program it is: a local
 * `input` reassigned by every splice, the balanced scan as a loop over an
 * index and a depth, and one retry loop per rule. Each method is proved to
 * compute what the functions of `Rewriting` and `Matching` specify.
 */
module CustomTagParser {
  import opened Wrappers
  import opened CustomTags
  import opened Matching
  import opened Rewriting

  /**
   * The scan for the closing marker that balances an opening marker ending
   * at `openingTagEnd`. Returns its index, or -1 when the text runs out
   * first.
   */
  method FindClosingTag(input: string, opening: string, closing: string, openingTagEnd: nat) returns (closingTagIndex: int)
    ensures ScanForClosing(input, opening, closing, openingTagEnd, 1).Some? ==>
      closingTagIndex == ScanForClosing(input, opening, closing, openingTagEnd, 1).value
    ensures ScanForClosing(input, opening, closing, openingTagEnd, 1).None? ==> closingTagIndex == -1
  {
    closingTagIndex := -1;
    var depth: nat := 1;
    var index := openingTagEnd;
    while index < |input|
      invariant depth >= 1
      invariant ScanForClosing(input, opening, closing, index, depth) == ScanForClosing(input, opening, closing, openingTagEnd, 1)
      decreases |input| - index
    {
      ghost var scan := ScanForClosing(input, opening, closing, index, depth);
      var atClosing := StartsWithAt(input, index, closing);
      var atOpening := StartsWithAt(input, index, opening);
      if atClosing {
        // Pop
        depth := depth - 1;
        if depth == 0 {
          closingTagIndex := index;
          assert scan == Some(index);
          break;
        }
        // Move past the closing marker
        index := index + |closing|;
      } else if atOpening {
        // Push
        depth := depth + 1;
        // Move past the opening marker
        index := index + |opening|;
      }
      // The `for` loop's own increment, which also runs after each skip
      index := index + 1;
      assert scan == ScanForClosing(input, opening, closing, index, depth);
    }
  }

  /**
   * One pass of a pair rule's retry loop up to the splice: find the first
   * opening marker and its balanced closing marker, check the condition,
   * and build `Left + Replace(Contents, Left, Right) + Right`. `applied`
   * is false where the source moves on to the next rule.
   */
  method TryPair(text: string, tagPair: CustomTagPair) returns (applied: bool, next: string)
    ensures ApplyPair(text, tagPair) == if applied then Some(next) else None
  {
    next := text;
    var opening, closing := tagPair.OpeningTag.Match, tagPair.ClosingTag.Match;
    // Find the opening marker
    var openingTagIndex := IndexOf(text, opening);
    if openingTagIndex < 0 {
      return false, next;
    }
    var openingTagEndIndex := openingTagIndex + |opening|;
    // Find the balanced closing marker
    var closingTagIndex := FindClosingTag(text, opening, closing, openingTagEndIndex);
    if closingTagIndex < 0 {
      return false, next;
    }
    var closingTagEndIndex := closingTagIndex + |closing|;
    ghost var span := Span(openingTagIndex, openingTagEndIndex, closingTagIndex, closingTagEndIndex);
    assert FindSpan(text, opening, closing) == Some(span);
    var contents := text[openingTagEndIndex..closingTagIndex];
    var left := text[..openingTagIndex];
    var right := text[closingTagEndIndex..];
    // Check the condition
    if tagPair.Condition.Some? && !tagPair.Condition.value(contents, left, right) {
      return false, next;
    }
    var newContents := tagPair.Replace(contents, left, right);
    next := left + newContents + right;
    applied := true;
  }

  /**
   * The `Retry:` loop of one pair rule: apply it until it gives up,
   * splicing at most `fuel` times.
   */
  method RunPair(text: string, tagPair: CustomTagPair, fuel: nat) returns (result: Outcome)
    ensures result == Fixpoint(text, PairStep(tagPair), fuel)
  {
    var current := text;
    var budget := fuel;
    while true
      invariant Fixpoint(current, PairStep(tagPair), budget) == Fixpoint(text, PairStep(tagPair), fuel)
      decreases budget
    {
      var applied, next := TryPair(current, tagPair);
      if !applied {
        return Done(current);
      }
      if budget == 0 {
        return OutOfFuel;
      }
      current := next;
      budget := budget - 1;
    }
  }

  /**
   * One pass of a unit rule's retry loop up to the splice: find the first
   * occurrence of the tag, check the condition, and build
   * `Left + Replace(Left, Right) + Right`.
   */
  method TryUnit(text: string, tagUnit: CustomTagUnit) returns (applied: bool, next: string)
    ensures ApplyUnit(text, tagUnit) == if applied then Some(next) else None
  {
    next := text;
    // Find the tag
    var tagIndex := IndexOf(text, tagUnit.Tag.Match);
    if tagIndex < 0 {
      return false, next;
    }
    var tagEndIndex := tagIndex + |tagUnit.Tag.Match|;
    var left := text[..tagIndex];
    var right := text[tagEndIndex..];
    // Check the condition
    if tagUnit.Condition.Some? && !tagUnit.Condition.value(left, right) {
      return false, next;
    }
    var newContents := tagUnit.Replace(left, right);
    next := left + newContents + right;
    applied := true;
  }

  /**
   * The `Retry:` loop of one unit rule: apply it until it gives up,
   * splicing at most `fuel` times.
   */
  method RunUnit(text: string, tagUnit: CustomTagUnit, fuel: nat) returns (result: Outcome)
    ensures result == Fixpoint(text, UnitStep(tagUnit), fuel)
  {
    var current := text;
    var budget := fuel;
    while true
      invariant Fixpoint(current, UnitStep(tagUnit), budget) == Fixpoint(text, UnitStep(tagUnit), fuel)
      decreases budget
    {
      var applied, next := TryUnit(current, tagUnit);
      if !applied {
        return Done(current);
      }
      if budget == 0 {
        return OutOfFuel;
      }
      current := next;
      budget := budget - 1;
    }
  }

  /**
   * Apply the pair rules in order and then the unit rules in order to
   * `input`, each rule retried until it gives up; a null list (None) skips
   * its phase, and a rule that would splice more than `fuel` times cuts the
   * run off.
   */
  method Parse(input: string, tagPairs: Option<seq<CustomTagPair>>, tagUnits: Option<seq<CustomTagUnit>>, fuel: nat)
    returns (result: Outcome)
    ensures result == Rewrite(input, tagPairs, tagUnits, fuel)
  {
    var text := input;
    if tagPairs.Some? {
      var pairs := tagPairs.value;
      var i := 0;
      while i < |pairs|
        invariant 0 <= i <= |pairs|
        invariant ApplyPairs(text, pairs[i..], fuel) == ApplyPairs(input, pairs, fuel)
      {
        var outcome := RunPair(text, pairs[i], fuel);
        assert pairs[i..][1..] == pairs[i + 1..];
        if outcome.OutOfFuel? {
          return OutOfFuel;
        }
        text := outcome.output;
        i := i + 1;
      }
    }
    ghost var afterPairs := text;
    if tagUnits.Some? {
      var units := tagUnits.value;
      var i := 0;
      while i < |units|
        invariant 0 <= i <= |units|
        invariant ApplyUnits(text, units[i..], fuel) == ApplyUnits(afterPairs, units, fuel)
      {
        var outcome := RunUnit(text, units[i], fuel);
        assert units[i..][1..] == units[i + 1..];
        if outcome.OutOfFuel? {
          return OutOfFuel;
        }
        text := outcome.output;
        i := i + 1;
      }
    }
    return Done(text);
  }
}
