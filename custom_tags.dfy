/**
 * The rule records the parser consumes: a tag, a tag pair and a tag unit.
 * They carry no behaviour of their own; the caller-supplied delegates are
 * total function values.
 */
module CustomTags {
  import opened Wrappers

  /**
   * The string comparison used to search for a tag. Only ordinal
   * (char-by-char) comparison is modelled; it is also the default of
   * every tag.
   */
  datatype StringComparison = Ordinal

  /** A tag: the marker to search for and how to compare it. */
  datatype CustomTag = CustomTag(Match: string, ComparisonType: StringComparison)

  /**
   * A delimited rule such as `[b]...[/b]`. `Replace` receives the
   * contents between the markers, the text before the opening marker
   * and the text after the closing marker; `Condition`, when present,
   * receives the same three strings and gates the replacement.
   */
  datatype CustomTagPair = CustomTagPair(
    OpeningTag: CustomTag,
    ClosingTag: CustomTag,
    Replace: (string, string, string) -> string,
    Condition: Option<(string, string, string) -> bool>)

  /**
   * A standalone marker rule such as `[lb]`. `Replace` and `Condition`
   * receive the text before and the text after the marker.
   */
  datatype CustomTagUnit = CustomTagUnit(
    Tag: CustomTag,
    Replace: (string, string) -> string,
    Condition: Option<(string, string) -> bool>)
}
