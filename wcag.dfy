/**
 * The WCAG 2 compliance column (Wcag2ComplianceReport.php): the contrast
 * ratio of a pair, a plain number here, rated against the thresholds of
 * level AA or AAA.
 */
module Wcag {
  import opened Wrappers

  /** The ratings the column shows: "Yes", "Large" (large text only) and "No". */
  datatype Compliance = Yes | Large | No

  /** The text the column prints for a rating. */
  function Label(c: Compliance): (s: string)
    ensures s in {"Yes", "Large", "No"}
  {
    match c
    case Yes => "Yes"
    case Large => "Large"
    case No => "No"
  }

  /** How good a rating is: No below Large below Yes. */
  function Rank(c: Compliance): nat {
    match c
    case No => 0
    case Large => 1
    case Yes => 2
  }

  const LevelAA: string := "aa"
  const LevelAAA: string := "aaa"

  /** The report column: its header and the level it rates against. */
  datatype Report = Report(columnName: string, complianceLevel: string)

  /** columnHeader(): the name the column was constructed with. */
  function ColumnHeader(r: Report): (h: string)
    ensures h == r.columnName
  {
    r.columnName
  }

  /**
   * calculateWcagCompliance(): "Yes" from the any-size threshold up,
   * "Large" from the large-text threshold up, "No" below both.
   */
  function CalculateWcagCompliance(ratio: real, anySize: real, largeText: real): (c: Compliance)
    ensures c == Yes <==> ratio >= anySize
    ensures c == Large <==> ratio < anySize && ratio >= largeText
    ensures c == No <==> ratio < anySize && ratio < largeText
  {
    if ratio >= anySize then Yes
    else if ratio >= largeText then Large
    else No
  }

  /**
   * columnValue(): level "aa" rates against 4.5 and 3, level "aaa"
   * against 7 and 4.5; any other level gives PHP's null. The level is
   * compared exactly, so a different case is another level.
   */
  function ColumnValue(r: Report, ratio: real): (c: Option<Compliance>)
    ensures c.Some? <==> r.complianceLevel == LevelAA || r.complianceLevel == LevelAAA
    ensures r.complianceLevel == LevelAA ==> c == Some(CalculateWcagCompliance(ratio, 4.5, 3.0))
    ensures r.complianceLevel == LevelAAA ==> c == Some(CalculateWcagCompliance(ratio, 7.0, 4.5))
  {
    if r.complianceLevel == LevelAA then Some(CalculateWcagCompliance(ratio, 4.5, 3.0))
    else if r.complianceLevel == LevelAAA then Some(CalculateWcagCompliance(ratio, 7.0, 4.5))
    else None
  }

  // ---------------------------------------------------------------------
  // Properties.

  /** A higher ratio never gets a worse rating, whatever the thresholds. */
  lemma Monotone(ratio: real, higher: real, anySize: real, largeText: real)
    requires ratio <= higher
    ensures Rank(CalculateWcagCompliance(ratio, anySize, largeText)) <= Rank(CalculateWcagCompliance(higher, anySize, largeText))
  {
  }

  /** Raising the thresholds never gives a better rating. */
  lemma StricterThresholds(ratio: real, anySize: real, largeText: real, anySize': real, largeText': real)
    requires anySize <= anySize' && largeText <= largeText'
    ensures Rank(CalculateWcagCompliance(ratio, anySize', largeText')) <= Rank(CalculateWcagCompliance(ratio, anySize, largeText))
  {
  }

  /**
   * AAA is the stricter level: its rating is never better than AA's, a
   * "Yes" at AAA is a "Yes" at AA, and a "Large" at AAA is already a "Yes"
   * at AA (both rest on 4.5).
   */
  lemma AaaImpliesAa(name: string, ratio: real)
    ensures var aa := ColumnValue(Report(name, LevelAA), ratio).value;
      var aaa := ColumnValue(Report(name, LevelAAA), ratio).value;
      Rank(aaa) <= Rank(aa) && (aaa == Yes ==> aa == Yes) && (aaa == Large ==> aa == Yes) && (aaa != No ==> aa != No)
  {
    StricterThresholds(ratio, 4.5, 3.0, 7.0, 4.5);
  }

  /** The header does not depend on the level. */
  lemma HeaderIgnoresLevel(name: string, level: string, other: string)
    ensures ColumnHeader(Report(name, level)) == ColumnHeader(Report(name, other)) == name
  {
  }

  /** The level is matched case-sensitively: "AA" is no level and gives null. */
  lemma UpperCaseLevelUnknown(name: string, ratio: real)
    ensures ColumnValue(Report(name, "AA"), ratio) == None
    ensures ColumnValue(Report(name, "AAA"), ratio) == None
  {
  }

  /** The thresholds on their edges: 4.5 is a "Yes" at AA and a "Large" at AAA; 3 is a "Large" at AA. */
  lemma Edges(name: string)
    ensures ColumnValue(Report(name, LevelAA), 4.5) == Some(Yes)
    ensures ColumnValue(Report(name, LevelAAA), 4.5) == Some(Large)
    ensures ColumnValue(Report(name, LevelAA), 3.0) == Some(Large)
    ensures ColumnValue(Report(name, LevelAA), 2.99) == Some(No)
    ensures ColumnValue(Report(name, LevelAAA), 7.0) == Some(Yes)
  {
  }
}
