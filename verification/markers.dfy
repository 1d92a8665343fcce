/**
 Marker sets and the three extraction modes they select.
 */
module Markers {

  /** A marker set `(start, each_line, end)`: how a doc-comment begins, how its
      continuation lines are marked, and how it ends. */
  datatype MarkerSet = MarkerSet(start: string, eachLine: string, end: string)

  /** The extraction strategy a marker set selects. */
  datatype Mode = Simple | Continuous | Standard

  /** An empty each-line marker selects simple mode, an each-line marker equal to
      the end marker selects continuous mode, anything else standard mode. */
  function ModeOf(m: MarkerSet): (r: Mode)
    ensures r == Simple <==> m.eachLine == []
    ensures r == Continuous <==> m.eachLine != [] && m.eachLine == m.end
    ensures r == Standard <==> m.eachLine != [] && m.eachLine != m.end
  {
    if m.eachLine == [] then Simple
    else if m.eachLine == m.end then Continuous
    else Standard
  }

  /** The mode depends on the each-line and end markers only, never on the start marker. */
  lemma ModeIgnoresStart(m: MarkerSet, start: string)
    ensures ModeOf(MarkerSet(start, m.eachLine, m.end)) == ModeOf(m)
  {
  }

  /** What a successful extraction returns: the cursor `(line, column)` just
      after the comment (zero-based) and the comment's text without markers. */
  datatype Extraction = Extraction(line: nat, column: nat, text: string)

  /** Every start marker is non-empty, so each match consumes at least one character. */
  predicate ValidCatalog(catalog: seq<MarkerSet>)
  {
    forall i :: 0 <= i < |catalog| ==> catalog[i].start != []
  }
}
