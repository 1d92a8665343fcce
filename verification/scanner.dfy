/**
 The scan driver: a `(line, column)` cursor walks the document; at each step
 the begin matcher looks for the next start marker on the cursor's line, the
 marker sets registered under it are tried in catalog order, and the first
 that extracts a comment yields a record. Positions in records are 1-based.
 */
module Scanner {

  import opened Wrappers
  import opened PyStrings
  import opened Markers
  import opened Strategies
  import opened BeginMatcher

  /** A 1-based text position. */
  datatype Position = Position(line: nat, column: nat)

  /** The span of a whole comment, markers included: `start` is its first
      character, `end` the position just after it. */
  datatype TextRange = TextRange(start: Position, end: Position)

  /** One extracted documentation comment. */
  datatype DocComment = DocComment(text: string, marker: MarkerSet, range: TextRange)

  /** `a` is `b` or comes before it in reading order. */
  predicate AtOrBefore(a: Position, b: Position)
  {
    CursorAtOrBefore(a.line, a.column, b.line, b.column)
  }

  /** `a` comes strictly before `b` in reading order. */
  predicate Before(a: Position, b: Position)
  {
    AtOrBefore(a, b) && (a.line != b.line || a.column != b.column)
  }

  /** Extracting with any of `cands` at this cursor is defined (see `ContinuousSafe`). */
  predicate Extractable(content: seq<string>, line: nat, cands: seq<MarkerSet>)
  {
    && line < |content|
    && forall i :: 0 <= i < |cands| ==>
         ModeOf(cands[i]) == Continuous ==> ContinuousSafe(content, line + 1, cands[i].eachLine)
  }

  /** A successful attempt: which candidate succeeded and what it extracted. */
  datatype Attempt = Attempt(index: nat, extraction: Extraction)

  /** The `for marker in marker_dict[...]` loop, from candidate `i` on: the first
      candidate whose extraction succeeds, or `None` when all fail (see
      `TryCandidatesFirst`). */
  function TryCandidates(content: seq<string>, line: nat, column: nat, cands: seq<MarkerSet>, i: nat): (r: Option<Attempt>)
    requires Extractable(content, line, cands)
    requires i <= |cands|
    ensures r.Some? ==>
      && i <= r.value.index < |cands|
      && ExtractDocComment(content, line, column, cands[r.value.index]) == Some(r.value.extraction)
    decreases |cands| - i
  {
    if i == |cands| then None
    else
      match ExtractDocComment(content, line, column, cands[i])
      case Some(e) => Some(Attempt(i, e))
      case None => TryCandidates(content, line, column, cands, i + 1)
  }

  /** The candidate tried is the first, in catalog order, whose extraction
      succeeds; none is tried exactly when every extraction fails. */
  lemma {:induction false} TryCandidatesFirst(content: seq<string>, line: nat, column: nat, cands: seq<MarkerSet>, i: nat)
    requires Extractable(content, line, cands)
    requires i <= |cands|
    ensures var r := TryCandidates(content, line, column, cands, i);
      && (r.Some? ==> forall j :: i <= j < r.value.index ==> ExtractDocComment(content, line, column, cands[j]).None?)
      && (r.None? <==> forall j :: i <= j < |cands| ==> ExtractDocComment(content, line, column, cands[j]).None?)
    decreases |cands| - i
  {
    if i < |cands| {
      var e := ExtractDocComment(content, line, column, cands[i]);
      if e.None? {
        TryCandidatesFirst(content, line, column, cands, i + 1);
        var r := TryCandidates(content, line, column, cands, i + 1);
        assert TryCandidates(content, line, column, cands, i) == r;
        if r.Some? {
          forall j | i <= j < r.value.index
            ensures ExtractDocComment(content, line, column, cands[j]).None?
          {
            if j == i {
              assert e.None?;
            }
          }
        }
      } else {
        assert TryCandidates(content, line, column, cands, i) == Some(Attempt(i, e.value));
      }
    }
  }

  /** The driver's state after one step: the new cursor and the record it yielded, if any. */
  datatype StepResult = StepResult(line: nat, column: nat, emitted: Option<DocComment>)

  /** A non-empty line can host a continuous comment (the marker sets that
      select continuous mode have a non-empty each-line marker). */
  lemma NonEmptyLineExtractable(content: seq<string>, line: nat, cands: seq<MarkerSet>)
    requires line < |content| && |content[line]| > 0
    ensures Extractable(content, line, cands)
  {
  }

  /** A record of the scan: its marker set is in the catalog, its start is a
      start marker of that set in the document, and it spans at least one
      character. */
  predicate WellFormedRecord(content: seq<string>, catalog: seq<MarkerSet>, d: DocComment)
  {
    && d.marker in catalog
    && 0 < d.range.start.line <= |content|
    && OccursAt(content[d.range.start.line - 1], d.marker.start, d.range.start.column - 1)
    && Before(d.range.start, d.range.end)
  }

  /** The record built from a start marker of `d.marker` at `(line, start)` and
      an extraction ending after it is well formed. */
  lemma RecordWellFormed(content: seq<string>, catalog: seq<MarkerSet>, line: nat, start: nat, e: Extraction, d: DocComment)
    requires line < |content|
    requires d.marker in catalog && |d.marker.start| > 0
    requires OccursAt(content[line], d.marker.start, start)
    requires CursorAtOrBefore(line, start + |d.marker.start|, e.line, e.column)
    requires d.range == TextRange(Position(line + 1, start + 1), Position(e.line + 1, e.column + 1))
    ensures WellFormedRecord(content, catalog, d)
  {
  }

  /** What one step of the driver guarantees: the new cursor `r` is in the
      document and strictly after `(line, column)`; a record it yields is well
      formed, starts on the cursor's line after the cursor, and ends where the
      new cursor stands; a step that yields nothing and stays on the line has
      just skipped a start marker. */
  predicate StepAdvances(content: seq<string>, catalog: seq<MarkerSet>, line: nat, column: nat, r: StepResult)
    requires line < |content|
  {
    && ValidCursor(content, r.line, r.column)
    && CursorAtOrBefore(line, column, r.line, r.column) && (r.line != line || r.column != column)
    && (r.emitted.Some? ==>
         && WellFormedRecord(content, catalog, r.emitted.value)
         && r.emitted.value.range.start.line == line + 1
         && column < r.emitted.value.range.start.column
         && r.emitted.value.range.end.line == r.line + 1
         && r.emitted.value.range.end.column == r.column + 1)
    && (r.emitted.None? && r.line == line ==>
         exists k :: 0 <= k < |catalog| && OccursAt(content[line], catalog[k].start, r.column - |catalog[k].start|))
  }

  /** The marker sets registered under the start marker `lit` found at
      `(line, start)` are tried in order: the first that extracts a comment
      yields its record and moves the cursor to the comment's end; when none
      does, the cursor moves just past the start marker. */
  function TryMarkerSets(content: seq<string>, catalog: seq<MarkerSet>, line: nat, column: nat,
                         start: nat, k: nat, cands: seq<MarkerSet>): (r: StepResult)
    requires line < |content| && column <= start
    requires k < |catalog| && |catalog[k].start| > 0 && OccursAt(content[line], catalog[k].start, start)
    requires Extractable(content, line, cands)
    requires forall i :: 0 <= i < |cands| ==> cands[i] in catalog && cands[i].start == catalog[k].start
    ensures StepAdvances(content, catalog, line, column, r)
  {
    var afterStart := start + |catalog[k].start|;
    match TryCandidates(content, line, afterStart, cands, 0)
    case None => StepResult(line, afterStart, None)
    case Some(a) =>
      var e := a.extraction;
      var m := cands[a.index];
      assert ExtractDocComment(content, line, afterStart, m) == Some(e);
      assert CursorAtOrBefore(line, afterStart, e.line, e.column);
      var d := DocComment(e.text, m, TextRange(Position(line + 1, start + 1), Position(e.line + 1, e.column + 1)));
      RecordWellFormed(content, catalog, line, start, e, d);
      StepResult(e.line, e.column, Some(d))
  }

  /** The marker sets registered under a start marker all have that start marker. */
  lemma RegisteredEntries(catalog: seq<MarkerSet>, lit: string)
    requires lit in MarkerDict(catalog)
    ensures forall i :: 0 <= i < |MarkerDict(catalog)[lit]| ==>
      MarkerDict(catalog)[lit][i] in catalog && MarkerDict(catalog)[lit][i].start == lit
  {
    forall i | 0 <= i < |MarkerDict(catalog)[lit]|
      ensures MarkerDict(catalog)[lit][i] in catalog && MarkerDict(catalog)[lit][i].start == lit
    {
      RegisteredEntry(catalog, lit, i);
    }
  }

  /** One iteration of the driver's `while line < len(content)` loop: the begin
      matcher looks for the next start marker at or after the cursor; with none
      the cursor moves to the next line. */
  function Step(content: seq<string>, catalog: seq<MarkerSet>, line: nat, column: nat): (r: StepResult)
    requires ValidCatalog(catalog)
    requires line < |content| && column <= |content[line]|
    ensures StepAdvances(content, catalog, line, column, r)
  {
    var alternatives := Starts(catalog);
    match Search(content[line], column, alternatives)
    case None => StepResult(line + 1, 0, None)
    case Some(bm) =>
      var lit := alternatives[bm.alternative];
      EveryEntryRegistered(catalog, bm.alternative);
      var cands := MarkerDict(catalog)[lit];
      RegisteredEntries(catalog, lit);
      NonEmptyLineExtractable(content, line, cands);
      TryMarkerSets(content, catalog, line, column, bm.start, bm.alternative, cands)
  }

  /** Trying the marker sets emits the record of the first that succeeds, with
      that extraction's text, and moves the cursor to where that extraction
      ended; when none succeeds it moves just past the start marker. */
  lemma TryMarkerSetsPriority(content: seq<string>, catalog: seq<MarkerSet>, line: nat, column: nat,
                              start: nat, k: nat, cands: seq<MarkerSet>)
    requires line < |content| && column <= start
    requires k < |catalog| && |catalog[k].start| > 0 && OccursAt(content[line], catalog[k].start, start)
    requires Extractable(content, line, cands)
    requires forall i :: 0 <= i < |cands| ==> cands[i] in catalog && cands[i].start == catalog[k].start
    ensures var r := TryMarkerSets(content, catalog, line, column, start, k, cands);
      var t := TryCandidates(content, line, start + |catalog[k].start|, cands, 0);
      && (t.None? ==> r.emitted.None? && r.line == line && r.column == start + |catalog[k].start|)
      && (t.Some? ==>
           && r.emitted.Some?
           && r.emitted.value.marker == cands[t.value.index]
           && r.emitted.value.text == t.value.extraction.text
           && r.emitted.value.range.start.line == line + 1
           && r.emitted.value.range.start.column == start + 1
           && r.line == t.value.extraction.line
           && r.column == t.value.extraction.column)
  {
  }

  /** A step whose begin matcher finds a start marker tries the marker sets
      registered under it, all of which have that start marker. */
  lemma StepTriesRegistered(content: seq<string>, catalog: seq<MarkerSet>, line: nat, column: nat)
    requires ValidCatalog(catalog)
    requires line < |content| && column <= |content[line]|
    requires Search(content[line], column, Starts(catalog)).Some?
    ensures var bm := Search(content[line], column, Starts(catalog)).value;
      var cands := Candidates(catalog, catalog[bm.alternative].start);
      && Extractable(content, line, cands)
      && (forall i :: 0 <= i < |cands| ==> cands[i] in catalog && cands[i].start == catalog[bm.alternative].start)
      && Step(content, catalog, line, column) == TryMarkerSets(content, catalog, line, column, bm.start, bm.alternative, cands)
  {
    var bm := Search(content[line], column, Starts(catalog)).value;
    var lit := catalog[bm.alternative].start;
    EveryEntryRegistered(catalog, bm.alternative);
    RegisteredEntries(catalog, lit);
    NonEmptyLineExtractable(content, line, Candidates(catalog, lit));
  }

  /** A step follows the driver's priorities: the begin matcher's leftmost match
      (see `SearchIsLeftmost`) picks the start marker, and the marker sets
      registered under it are tried in catalog order (see `TryCandidatesFirst`):
      the first that extracts a comment is emitted with that extraction's text,
      and the cursor moves to where the extraction ended; when all fail, the cursor
      stays on the line just past the start marker. Without a start marker the
      cursor moves to the next line. */
  lemma StepFollowsPriority(content: seq<string>, catalog: seq<MarkerSet>, line: nat, column: nat)
    requires ValidCatalog(catalog)
    requires line < |content| && column <= |content[line]|
    ensures var r := Step(content, catalog, line, column);
      var bm := Search(content[line], column, Starts(catalog));
      && (bm.None? ==> r.line == line + 1 && r.column == 0 && r.emitted.None?)
      && (bm.Some? ==>
           var lit := catalog[bm.value.alternative].start;
           var cands := Candidates(catalog, lit);
           var after := bm.value.start + |lit|;
           && Extractable(content, line, cands)
           && var t := TryCandidates(content, line, after, cands, 0);
           && (t.None? ==> r.emitted.None? && r.line == line && r.column == after)
           && (t.Some? ==>
                && r.emitted.Some?
                && r.emitted.value.marker == cands[t.value.index]
                && r.emitted.value.text == t.value.extraction.text
                && r.emitted.value.range.start.line == line + 1
                && r.emitted.value.range.start.column == bm.value.start + 1
                && r.line == t.value.extraction.line
                && r.column == t.value.extraction.column))
  {
    var bm := Search(content[line], column, Starts(catalog));
    if bm.Some? {
      StepTriesRegistered(content, catalog, line, column);
      var cands := Candidates(catalog, catalog[bm.value.alternative].start);
      TryMarkerSetsPriority(content, catalog, line, column, bm.value.start, bm.value.alternative, cands);
    }
  }

  /** The whole scan from cursor `(line, column)`: the records of successive
      steps until the cursor leaves the document. Every record is well formed
      and starts at or after the cursor, and the records come in document
      order without overlapping. */
  function Scan(content: seq<string>, catalog: seq<MarkerSet>, line: nat, column: nat): (r: seq<DocComment>)
    requires ValidCatalog(catalog)
    requires ValidCursor(content, line, column)
    ensures line == |content| ==> r == []
    ensures AllWellFormed(content, catalog, r)
    ensures StartsFrom(r, line, column)
    ensures InDocumentOrder(r)
    decreases |content| - line, if line < |content| then |content[line]| - column else 0
  {
    if line == |content| then []
    else
      var s := Step(content, catalog, line, column);
      var rest := Scan(content, catalog, s.line, s.column);
      StartsFromEarlier(rest, line, column, s.line, s.column);
      match s.emitted
      case None => rest
      case Some(d) =>
        WellFormedCons(content, catalog, d, rest);
        StartsFromCons(d, rest, line, column);
        OrderCons(d, rest, s.line, s.column);
        [d] + rest
  }

  /** Position `p` (1-based) is at or after the 0-based cursor `(line, column)`. */
  predicate NotBeforeCursor(p: Position, line: nat, column: nat)
  {
    CursorAtOrBefore(line + 1, column + 1, p.line, p.column)
  }

  /** A position at or after a cursor is at or after every earlier cursor. */
  lemma NotBeforeEarlierCursor(p: Position, line: nat, column: nat, l2: nat, c2: nat)
    requires CursorAtOrBefore(line, column, l2, c2)
    requires NotBeforeCursor(p, l2, c2)
    ensures NotBeforeCursor(p, line, column)
  {
  }

  /** Every record is well formed. */
  predicate AllWellFormed(content: seq<string>, catalog: seq<MarkerSet>, r: seq<DocComment>)
  {
    forall i :: 0 <= i < |r| ==> WellFormedRecord(content, catalog, r[i])
  }

  /** Every record starts at or after the cursor `(line, column)`. */
  predicate StartsFrom(r: seq<DocComment>, line: nat, column: nat)
  {
    forall i :: 0 <= i < |r| ==> NotBeforeCursor(r[i].range.start, line, column)
  }

  /** The records come in document order and do not overlap: each starts at or
      after the end of the one before, and strictly after its start. */
  predicate InDocumentOrder(r: seq<DocComment>)
  {
    forall i, j :: 0 <= i < j < |r| ==>
      AtOrBefore(r[i].range.end, r[j].range.start) && Before(r[i].range.start, r[j].range.start)
  }

  lemma WellFormedCons(content: seq<string>, catalog: seq<MarkerSet>, d: DocComment, rest: seq<DocComment>)
    requires WellFormedRecord(content, catalog, d)
    requires AllWellFormed(content, catalog, rest)
    ensures AllWellFormed(content, catalog, [d] + rest)
  {
    var r := [d] + rest;
    forall i | 0 <= i < |r|
      ensures WellFormedRecord(content, catalog, r[i])
    {
      if i > 0 {
        assert r[i] == rest[i - 1];
      }
    }
  }

  lemma StartsFromEarlier(r: seq<DocComment>, line: nat, column: nat, l2: nat, c2: nat)
    requires CursorAtOrBefore(line, column, l2, c2)
    requires StartsFrom(r, l2, c2)
    ensures StartsFrom(r, line, column)
  {
    forall i | 0 <= i < |r|
      ensures NotBeforeCursor(r[i].range.start, line, column)
    {
      NotBeforeEarlierCursor(r[i].range.start, line, column, l2, c2);
    }
  }

  lemma StartsFromCons(d: DocComment, rest: seq<DocComment>, line: nat, column: nat)
    requires NotBeforeCursor(d.range.start, line, column)
    requires StartsFrom(rest, line, column)
    ensures StartsFrom([d] + rest, line, column)
  {
    var r := [d] + rest;
    forall i | 0 <= i < |r|
      ensures NotBeforeCursor(r[i].range.start, line, column)
    {
      if i > 0 {
        assert r[i] == rest[i - 1];
      }
    }
  }

  /** A record that ends just before the cursor `(line, column)` can be put in
      front of records that start at or after that cursor. */
  lemma OrderCons(d: DocComment, rest: seq<DocComment>, line: nat, column: nat)
    requires Before(d.range.start, d.range.end)
    requires d.range.end.line == line + 1 && d.range.end.column == column + 1
    requires StartsFrom(rest, line, column)
    requires InDocumentOrder(rest)
    ensures InDocumentOrder([d] + rest)
  {
    var r := [d] + rest;
    forall i, j | 0 <= i < j < |r|
      ensures AtOrBefore(r[i].range.end, r[j].range.start) && Before(r[i].range.start, r[j].range.start)
    {
      assert r[j] == rest[j - 1];
      if i > 0 {
        assert r[i] == rest[i - 1];
      }
    }
  }

  /** `extract_documentation_with_markers`: every documentation comment of
      `content` under the marker catalog, in document order. */
  function ExtractDocumentationWithMarkers(content: seq<string>, catalog: seq<MarkerSet>): (r: seq<DocComment>)
    requires ValidCatalog(catalog)
    requires |content| > 0 ==> |catalog| > 0
    ensures AllWellFormed(content, catalog, r)
    ensures InDocumentOrder(r)
  {
    Scan(content, catalog, 0, 0)
  }
}
