/**
 The three extraction strategies and the dispatcher that picks one from a
 marker set. Each strategy starts just after a matched start marker, at
 zero-based `(line, column)`, and either fails (`None`: the comment is
 unterminated or breaks its layout) or returns the cursor just after the
 comment together with the comment's text.

 The `...Loop` functions are the `while line < len(content)` loops of the
 source, written as tail recursion over the line index with the text gathered
 so far in `acc`; the `...Block` functions are independent definitions of what
 a run of continuation lines contributes, used to state their results.
 */
module Strategies {

  import opened Wrappers
  import opened PyStrings
  import opened Markers

  // ---------------------------------------------------------------------------
  // Line-range predicates and reference definitions

  /** `k` is the first line at or after `lo` that contains `lit`. */
  predicate FirstLineWith(content: seq<string>, lo: nat, k: int, lit: string)
  {
    && lo <= k < |content|
    && Contains(content[k], lit)
    && forall i :: lo <= i < k ==> !Contains(content[i], lit)
  }

  /** `k` is the first line at or after `lo` that lacks `lit`. */
  predicate FirstLineWithout(content: seq<string>, lo: nat, k: int, lit: string)
  {
    && lo <= k < |content|
    && !Contains(content[k], lit)
    && forall i :: lo <= i < k ==> Contains(content[i], lit)
  }

  /** Every line from `lo` to the end of the document contains `lit`. */
  predicate AllLinesWith(content: seq<string>, lo: nat, lit: string)
  {
    forall i :: lo <= i < |content| ==> Contains(content[i], lit)
  }

  /** Some line at or after `lo` contains `lit`. */
  predicate SomeLineWith(content: seq<string>, lo: nat, lit: string)
  {
    exists k :: lo <= k < |content| && Contains(content[k], lit)
  }

  /** Some line at or after `lo` lacks `lit`. */
  predicate SomeLineWithout(content: seq<string>, lo: nat, lit: string)
  {
    exists k :: lo <= k < |content| && !Contains(content[k], lit)
  }

  /** Line `l` either contains `lit` or hands the question on to line `l + 1`. */
  lemma SomeLineStep(content: seq<string>, l: nat, lit: string)
    requires l < |content|
    ensures SomeLineWith(content, l, lit) <==> Contains(content[l], lit) || SomeLineWith(content, l + 1, lit)
    ensures SomeLineWithout(content, l, lit) <==> !Contains(content[l], lit) || SomeLineWithout(content, l + 1, lit)
    ensures AllLinesWith(content, l, lit) <==> Contains(content[l], lit) && AllLinesWith(content, l + 1, lit)
  {
    if SomeLineWith(content, l, lit) && !Contains(content[l], lit) {
      var k :| l <= k < |content| && Contains(content[k], lit);
      assert l + 1 <= k;
    }
    if SomeLineWithout(content, l, lit) && Contains(content[l], lit) {
      var k :| l <= k < |content| && !Contains(content[k], lit);
      assert l + 1 <= k;
    }
  }

  /** Simple mode: lines `lo..hi-1`, each from the alignment column on. */
  function AlignedBlock(content: seq<string>, lo: nat, hi: nat, align: int): string
    requires hi <= |content|
    decreases hi - lo
  {
    if lo >= hi then [] else SliceFrom(content[lo], align) + AlignedBlock(content, lo + 1, hi, align)
  }

  /** The part of `s` after the first occurrence of `lit`. */
  function AfterFirst(s: string, lit: string): string
  {
    SliceFrom(s, Find(s, lit, 0) + |lit|)
  }

  /** Continuous and standard mode: lines `lo..hi-1`, each after its first marker. */
  function MarkedBlock(content: seq<string>, lo: nat, hi: nat, lit: string): string
    requires hi <= |content|
    decreases hi - lo
  {
    if lo >= hi then [] else AfterFirst(content[lo], lit) + MarkedBlock(content, lo + 1, hi, lit)
  }

  // ---------------------------------------------------------------------------
  // Simple mode: no each-line marker, continuation lines aligned to the start marker

  /** The loop of simple mode, from line `l`, with continuation lines cut at `align`. */
  function SimpleLoop(content: seq<string>, l: nat, align: int, end: string, acc: string): (r: Option<Extraction>)
    requires l <= |content|
    ensures r.Some? ==>
      l <= r.value.line < |content| && |end| <= r.value.column <= |content[r.value.line]|
    decreases |content| - l
  {
    if l < |content| then
      var pos := Find(content[l], end, 0);
      if pos == -1 then
        SimpleLoop(content, l + 1, align, end, acc + SliceFrom(content[l], align))
      else
        Some(Extraction(l, pos + |end|, acc + Slice(content[l], align, pos)))
    else
      None
  }

  /** The simple-mode loop fails exactly when no line from `l` on has an end
      marker, and otherwise ends just after the first end marker of the first
      line that has one. */
  lemma {:induction false} SimpleLoopEnds(content: seq<string>, l: nat, align: int, end: string, acc: string)
    requires l <= |content|
    ensures var r := SimpleLoop(content, l, align, end, acc);
      && (r.Some? <==> SomeLineWith(content, l, end))
      && (r.Some? ==>
           && FirstLineWith(content, l, r.value.line, end)
           && FirstEndsAt(content[r.value.line], end, 0, r.value.column))
    decreases |content| - l
  {
    if l < |content| {
      SomeLineStep(content, l, end);
      var pos := Find(content[l], end, 0);
      if pos == -1 {
        var line := SliceFrom(content[l], align);
        SimpleLoopEnds(content, l + 1, align, end, acc + line);
        assert SimpleLoop(content, l, align, end, acc) == SimpleLoop(content, l + 1, align, end, acc + line);
      } else {
        FindIsFirstOccurrence(content[l], end, 0);
        assert FirstLineWith(content, l, l, end);
      }
    }
  }

  /** The text of a successful simple-mode loop: what was gathered before, every
      line it passed cut at `align`, and the closing line from `align` up to its
      end marker. */
  lemma {:induction false} SimpleLoopText(content: seq<string>, l: nat, align: int, end: string, acc: string)
    requires l <= |content|
    ensures var r := SimpleLoop(content, l, align, end, acc);
      r.Some? ==>
        r.value.text == acc + AlignedBlock(content, l, r.value.line, align)
                            + Slice(content[r.value.line], align, r.value.column - |end|)
    decreases |content| - l
  {
    if l < |content| {
      var pos := Find(content[l], end, 0);
      if pos == -1 {
        var line := SliceFrom(content[l], align);
        SimpleLoopText(content, l + 1, align, end, acc + line);
        var r := SimpleLoop(content, l + 1, align, end, acc + line);
        assert SimpleLoop(content, l, align, end, acc) == r;
        if r.Some? {
          var k := r.value.line;
          assert AlignedBlock(content, l, k, align) == line + AlignedBlock(content, l + 1, k, align);
          ConcatAssoc(acc, line, AlignedBlock(content, l + 1, k, align));
        }
      }
    }
  }

  /** Simple mode (`_extract_doccomment_simple`). */
  function ExtractSimple(content: seq<string>, line: nat, column: nat, m: MarkerSet): (r: Option<Extraction>)
    requires line < |content|
    ensures r.Some? ==>
      && line <= r.value.line < |content|
      && |m.end| <= r.value.column <= |content[r.value.line]|
      && (r.value.line == line ==> column + |m.end| <= r.value.column)
  {
    var align := column - |m.start|;
    var pos := Find(content[line], m.end, column);
    if pos == -1 then
      SimpleLoop(content, line + 1, align, m.end, SliceFrom(content[line], column))
    else
      Some(Extraction(line, pos + |m.end|, Slice(content[line], column, pos)))
  }

  /** An end marker later on the start line closes a one-line comment holding
      the text between the two markers. Otherwise the comment runs to the first
      later line with an end marker, every line in between cut at the column
      where the start marker began, and fails exactly when no later line has one. */
  lemma SimpleResult(content: seq<string>, line: nat, column: nat, m: MarkerSet)
    requires line < |content|
    ensures var r := ExtractSimple(content, line, column, m);
      && (ContainsFrom(content[line], m.end, column) ==>
           && r.Some?
           && r.value.line == line
           && FirstEndsAt(content[line], m.end, column, r.value.column)
           && r.value.text == Slice(content[line], column, r.value.column - |m.end|))
      && (!ContainsFrom(content[line], m.end, column) ==>
           (r.Some? <==> SomeLineWith(content, line + 1, m.end)))
      && (!ContainsFrom(content[line], m.end, column) && r.Some? ==>
           && FirstLineWith(content, line + 1, r.value.line, m.end)
           && FirstEndsAt(content[r.value.line], m.end, 0, r.value.column)
           && r.value.text == SliceFrom(content[line], column)
                              + AlignedBlock(content, line + 1, r.value.line, column - |m.start|)
                              + Slice(content[r.value.line], column - |m.start|, r.value.column - |m.end|))
  {
    if ContainsFrom(content[line], m.end, column) {
      FindIsFirstOccurrence(content[line], m.end, column);
    } else {
      SimpleLoopEnds(content, line + 1, column - |m.start|, m.end, SliceFrom(content[line], column));
      SimpleLoopText(content, line + 1, column - |m.start|, m.end, SliceFrom(content[line], column));
    }
  }

  // ---------------------------------------------------------------------------
  // Continuous mode: each-line marker equals end marker; the comment lasts while lines carry it

  /** The source indexes the last character of the last line once every line
      matched; that line must then be non-empty. */
  predicate ContinuousSafe(content: seq<string>, l: nat, marker: string)
  {
    |content| > 0 && (|content[|content| - 1]| > 0 || (|marker| > 0 && l < |content|))
  }

  /** The loop of continuous mode, from line `l`. */
  function ContinuousLoop(content: seq<string>, l: nat, marker: string, acc: string): (r: Extraction)
    requires 0 < l <= |content|
    requires ContinuousSafe(content, l, marker)
    ensures r.line <= |content| && (r.line == |content| ==> r.column == 0)
    ensures l <= r.line || (r.line == l - 1 && r.column == |content[l - 1]|)
    ensures r.column == 0 || (r.line == |content| - 1 && r.column == |content[r.line]|)
    decreases |content| - l
  {
    if l < |content| then
      var pos := Find(content[l], marker, 0);
      if pos == -1 then
        Extraction(l, 0, acc)
      else
        ContinuousLoop(content, l + 1, marker, acc + SliceFrom(content[l], pos + |marker|))
    else
      var last := content[l - 1];
      if last[|last| - 1] == '\n' then Extraction(l, 0, acc)
      else Extraction(l - 1, |last|, acc)
  }

  /** The continuous-mode loop stops at the start of the first line lacking the
      marker, having gathered every line before it after its marker. */
  lemma {:induction false} ContinuousLoopStops(content: seq<string>, l: nat, marker: string, acc: string)
    requires 0 < l <= |content|
    requires ContinuousSafe(content, l, marker)
    requires SomeLineWithout(content, l, marker)
    ensures var r := ContinuousLoop(content, l, marker, acc);
      && FirstLineWithout(content, l, r.line, marker)
      && r.column == 0
      && r.text == acc + MarkedBlock(content, l, r.line, marker)
    decreases |content| - l
  {
    SomeLineStep(content, l, marker);
    var pos := Find(content[l], marker, 0);
    if pos != -1 {
      var rest := SliceFrom(content[l], pos + |marker|);
      ContinuousLoopStops(content, l + 1, marker, acc + rest);
      var r := ContinuousLoop(content, l + 1, marker, acc + rest);
      assert ContinuousLoop(content, l, marker, acc) == r;
      ConcatAssoc(acc, rest, MarkedBlock(content, l + 1, r.line, marker));
    }
  }

  /** When every line from `l` to the end carries the marker, the continuous-mode
      loop gathers all of them after their markers and stops after the last
      line's newline, or at the end of a last line that has none. */
  lemma {:induction false} ContinuousLoopExhausts(content: seq<string>, l: nat, marker: string, acc: string)
    requires 0 < l <= |content|
    requires ContinuousSafe(content, l, marker)
    requires AllLinesWith(content, l, marker)
    ensures var r := ContinuousLoop(content, l, marker, acc);
      && r.text == acc + MarkedBlock(content, l, |content|, marker)
      && (if EndsWithNewline(content[|content| - 1])
          then r.line == |content| && r.column == 0
          else r.line == |content| - 1 && r.column == |content[|content| - 1]|)
    decreases |content| - l
  {
    if l < |content| {
      SomeLineStep(content, l, marker);
      var pos := Find(content[l], marker, 0);
      var rest := SliceFrom(content[l], pos + |marker|);
      ContinuousLoopExhausts(content, l + 1, marker, acc + rest);
      var r := ContinuousLoop(content, l + 1, marker, acc + rest);
      assert ContinuousLoop(content, l, marker, acc) == r;
      ConcatAssoc(acc, rest, MarkedBlock(content, l + 1, |content|, marker));
    }
  }

  /** Continuous mode (`_extract_doccomment_continuous`); it never fails. */
  function ExtractContinuous(content: seq<string>, line: nat, column: nat, m: MarkerSet): (r: Option<Extraction>)
    requires line < |content|
    requires ContinuousSafe(content, line + 1, m.eachLine)
    ensures r.Some?
    ensures r.value.line <= |content| && (r.value.line == |content| ==> r.value.column == 0)
    ensures line < r.value.line || (r.value.line == line && r.value.column == |content[line]|)
    ensures r.value.column == 0 || (r.value.line == |content| - 1 && r.value.column == |content[r.value.line]|)
  {
    Some(ContinuousLoop(content, line + 1, m.eachLine, SliceFrom(content[line], column)))
  }

  /** The comment holds the rest of the start line and every following line that
      carries the marker, each after its marker. It ends at the start of the
      first line lacking the marker, or, when every remaining line carries it, at
      the end of the document. */
  lemma ContinuousResult(content: seq<string>, line: nat, column: nat, m: MarkerSet)
    requires line < |content|
    requires ContinuousSafe(content, line + 1, m.eachLine)
    ensures var r := ExtractContinuous(content, line, column, m).value;
      && (SomeLineWithout(content, line + 1, m.eachLine) ==>
           && FirstLineWithout(content, line + 1, r.line, m.eachLine)
           && r.column == 0
           && r.text == SliceFrom(content[line], column) + MarkedBlock(content, line + 1, r.line, m.eachLine))
      && (AllLinesWith(content, line + 1, m.eachLine) ==>
           && r.text == SliceFrom(content[line], column) + MarkedBlock(content, line + 1, |content|, m.eachLine)
           && (if EndsWithNewline(content[|content| - 1])
               then r.line == |content| && r.column == 0
               else r.line == |content| - 1 && r.column == |content[|content| - 1]|))
  {
    if SomeLineWithout(content, line + 1, m.eachLine) {
      ContinuousLoopStops(content, line + 1, m.eachLine, SliceFrom(content[line], column));
    }
    if AllLinesWith(content, line + 1, m.eachLine) {
      ContinuousLoopExhausts(content, line + 1, m.eachLine, SliceFrom(content[line], column));
    }
  }

  // ---------------------------------------------------------------------------
  // Standard mode: continuation lines must carry the each-line marker

  /** Line `k` closes a standard comment whose continuation lines start at `lo`:
      it is the first with an end marker and every line before it has an
      each-line marker. */
  predicate StandardClosesAt(content: seq<string>, lo: nat, k: int, m: MarkerSet)
  {
    && lo <= k < |content|
    && Contains(content[k], m.end)
    && forall i :: lo <= i < k ==> !Contains(content[i], m.end) && Contains(content[i], m.eachLine)
  }

  /** Line `j` breaks the layout: it has neither marker, and every line before it
      (from `lo`) has an each-line marker and no end marker. */
  predicate BreaksLayoutAt(content: seq<string>, lo: nat, j: int, m: MarkerSet)
  {
    && lo <= j < |content|
    && !Contains(content[j], m.end)
    && !Contains(content[j], m.eachLine)
    && forall i :: lo <= i < j ==> !Contains(content[i], m.end) && Contains(content[i], m.eachLine)
  }

  /** Some line at or after `lo` closes a standard comment. */
  predicate SomeStandardClose(content: seq<string>, lo: nat, m: MarkerSet)
  {
    exists k :: lo <= k < |content| && StandardClosesAt(content, lo, k, m)
  }

  /** Some line at or after `lo` breaks a standard comment's layout. */
  predicate SomeLayoutBreak(content: seq<string>, lo: nat, m: MarkerSet)
  {
    exists j :: lo <= j < |content| && BreaksLayoutAt(content, lo, j, m)
  }

  /** Closing and breaking from line `l` are decided by line `l` or handed on to line `l + 1`. */
  lemma StandardStep(content: seq<string>, l: nat, m: MarkerSet)
    requires l < |content|
    ensures SomeStandardClose(content, l, m) <==>
      || Contains(content[l], m.end)
      || (Contains(content[l], m.eachLine) && SomeStandardClose(content, l + 1, m))
    ensures SomeLayoutBreak(content, l, m) <==>
      || (!Contains(content[l], m.end) && !Contains(content[l], m.eachLine))
      || (!Contains(content[l], m.end) && Contains(content[l], m.eachLine) && SomeLayoutBreak(content, l + 1, m))
  {
    if Contains(content[l], m.end) {
      assert StandardClosesAt(content, l, l, m);
    } else if Contains(content[l], m.eachLine) {
      if SomeStandardClose(content, l, m) {
        var k :| l <= k < |content| && StandardClosesAt(content, l, k, m);
        assert k != l;
        assert StandardClosesAt(content, l + 1, k, m);
      }
      if SomeStandardClose(content, l + 1, m) {
        var k :| l + 1 <= k < |content| && StandardClosesAt(content, l + 1, k, m);
        assert StandardClosesAt(content, l, k, m);
      }
      if SomeLayoutBreak(content, l, m) {
        var j :| l <= j < |content| && BreaksLayoutAt(content, l, j, m);
        assert j != l;
        assert BreaksLayoutAt(content, l + 1, j, m);
      }
      if SomeLayoutBreak(content, l + 1, m) {
        var j :| l + 1 <= j < |content| && BreaksLayoutAt(content, l + 1, j, m);
        assert BreaksLayoutAt(content, l, j, m);
      }
    } else {
      assert BreaksLayoutAt(content, l, l, m);
    }
  }

  /** What the closing line of a standard comment contributes: the text between
      its first each-line marker and its end marker, kept only when the
      each-line marker is present and starts more than one character before the
      end marker. */
  function EndLineFragment(s: string, m: MarkerSet): string
  {
    var pos := Find(s, m.end, 0);
    var eachPos := Find(s, m.eachLine, 0);
    if eachPos != -1 && eachPos + 1 < pos then Slice(s, eachPos + |m.eachLine|, pos) else []
  }

  /** The loop of standard mode, from line `l`. */
  function StandardLoop(content: seq<string>, l: nat, m: MarkerSet, acc: string): (r: Option<Extraction>)
    requires l <= |content|
    ensures r.Some? ==>
      l <= r.value.line < |content| && |m.end| <= r.value.column <= |content[r.value.line]|
    decreases |content| - l
  {
    if l < |content| then
      var pos := Find(content[l], m.end, 0);
      var eachPos := Find(content[l], m.eachLine, 0);
      if pos == -1 then
        if eachPos == -1 then
          None
        else
          StandardLoop(content, l + 1, m, acc + SliceFrom(content[l], eachPos + |m.eachLine|))
      else
        var text := if eachPos != -1 && eachPos + 1 < pos then acc + Slice(content[l], eachPos + |m.eachLine|, pos) else acc;
        Some(Extraction(l, pos + |m.end|, text))
    else
      None
  }

  /** A line with an end marker stops the standard-mode loop with its fragment. */
  lemma StandardLoopClosesHere(content: seq<string>, l: nat, m: MarkerSet, acc: string)
    requires l < |content| && Contains(content[l], m.end)
    ensures StandardLoop(content, l, m, acc).Some?
    ensures StandardLoop(content, l, m, acc).value.line == l
    ensures StandardLoop(content, l, m, acc).value.column == Find(content[l], m.end, 0) + |m.end|
    ensures StandardLoop(content, l, m, acc).value.text
      == acc + MarkedBlock(content, l, l, m.eachLine) + EndLineFragment(content[l], m)
  {
    var pos := Find(content[l], m.end, 0);
    var eachPos := Find(content[l], m.eachLine, 0);
    var frag := EndLineFragment(content[l], m);
    assert MarkedBlock(content, l, l, m.eachLine) == [];
    if eachPos != -1 && eachPos + 1 < pos {
      assert StandardLoop(content, l, m, acc).value.text == acc + frag;
    } else {
      assert frag == [];
      assert StandardLoop(content, l, m, acc).value.text == acc;
      assert acc + [] + [] == acc;
    }
  }

  /** A continuation line adds its text after the each-line marker and hands on
      to the next line. */
  lemma StandardLoopContinues(content: seq<string>, l: nat, m: MarkerSet, acc: string)
    requires l < |content|
    requires !Contains(content[l], m.end) && Contains(content[l], m.eachLine)
    ensures StandardLoop(content, l, m, acc) == StandardLoop(content, l + 1, m, acc + AfterFirst(content[l], m.eachLine))
  {
  }

  /** From any line on, exactly one of three things happens first: a line closes
      the comment, a line breaks the layout, or the document runs out of end
      markers. */
  lemma {:induction false} CloseOrFail(content: seq<string>, l: nat, m: MarkerSet)
    requires l <= |content|
    ensures SomeStandardClose(content, l, m) <==> !SomeLayoutBreak(content, l, m) && SomeLineWith(content, l, m.end)
    decreases |content| - l
  {
    if l < |content| {
      StandardStep(content, l, m);
      SomeLineStep(content, l, m.end);
      CloseOrFail(content, l + 1, m);
    }
  }

  /** The standard-mode loop succeeds exactly when some line closes the comment,
      and fails exactly when a line breaks the layout first or no line has an
      end marker. */
  lemma {:induction false} StandardLoopDecides(content: seq<string>, l: nat, m: MarkerSet, acc: string)
    requires l <= |content|
    ensures var r := StandardLoop(content, l, m, acc);
      && (r.Some? <==> SomeStandardClose(content, l, m))
      && (r.None? <==> SomeLayoutBreak(content, l, m) || !SomeLineWith(content, l, m.end))
    decreases |content| - l
  {
    CloseOrFail(content, l, m);
    if l < |content| {
      StandardStep(content, l, m);
      if Contains(content[l], m.end) {
        StandardLoopClosesHere(content, l, m, acc);
      } else if Contains(content[l], m.eachLine) {
        StandardLoopDecides(content, l + 1, m, acc + AfterFirst(content[l], m.eachLine));
        StandardLoopContinues(content, l, m, acc);
      }
    }
  }

  /** A continuation line with an each-line marker and no end marker keeps a
      later closing line closing. */
  lemma StandardClosesLater(content: seq<string>, l: nat, k: int, m: MarkerSet)
    requires l < |content|
    requires !Contains(content[l], m.end) && Contains(content[l], m.eachLine)
    requires StandardClosesAt(content, l + 1, k, m)
    ensures StandardClosesAt(content, l, k, m)
  {
  }

  /** A successful standard-mode loop ends just after the first end marker of the
      line that closes the comment. */
  lemma {:induction false} StandardLoopCloses(content: seq<string>, l: nat, m: MarkerSet, acc: string)
    requires l <= |content|
    ensures var r := StandardLoop(content, l, m, acc);
      r.Some? ==>
        && StandardClosesAt(content, l, r.value.line, m)
        && FirstEndsAt(content[r.value.line], m.end, 0, r.value.column)
    decreases |content| - l
  {
    if l < |content| {
      var pos := Find(content[l], m.end, 0);
      var eachPos := Find(content[l], m.eachLine, 0);
      if pos == -1 {
        if eachPos != -1 {
          var rest := SliceFrom(content[l], eachPos + |m.eachLine|);
          StandardLoopCloses(content, l + 1, m, acc + rest);
          var r := StandardLoop(content, l + 1, m, acc + rest);
          assert StandardLoop(content, l, m, acc) == r;
          if r.Some? {
            StandardClosesLater(content, l, r.value.line, m);
          }
        }
      } else {
        FindIsFirstOccurrence(content[l], m.end, 0);
        assert StandardClosesAt(content, l, l, m);
      }
    }
  }

  /** The text of a successful standard-mode loop: what was gathered before, every
      continuation line after its each-line marker, and the closing line's
      fragment. */
  lemma {:induction false} StandardLoopText(content: seq<string>, l: nat, m: MarkerSet, acc: string)
    requires l <= |content|
    ensures var r := StandardLoop(content, l, m, acc);
      r.Some? ==>
        r.value.text == acc + MarkedBlock(content, l, r.value.line, m.eachLine)
                            + EndLineFragment(content[r.value.line], m)
    decreases |content| - l
  {
    if l < |content| {
      if Contains(content[l], m.end) {
        StandardLoopClosesHere(content, l, m, acc);
      } else if Contains(content[l], m.eachLine) {
        var rest := AfterFirst(content[l], m.eachLine);
        StandardLoopText(content, l + 1, m, acc + rest);
        StandardLoopContinues(content, l, m, acc);
        var r := StandardLoop(content, l + 1, m, acc + rest);
        if r.Some? {
          var k := r.value.line;
          assert MarkedBlock(content, l, k, m.eachLine) == rest + MarkedBlock(content, l + 1, k, m.eachLine);
          ConcatAssoc(acc, rest, MarkedBlock(content, l + 1, k, m.eachLine));
        }
      }
    }
  }

  /** Standard mode (`_extract_doccomment_standard`). */
  function ExtractStandard(content: seq<string>, line: nat, column: nat, m: MarkerSet): (r: Option<Extraction>)
    requires line < |content|
    ensures r.Some? ==>
      && line <= r.value.line < |content|
      && |m.end| <= r.value.column <= |content[r.value.line]|
      && (r.value.line == line ==> column + |m.end| <= r.value.column)
  {
    var pos := Find(content[line], m.end, column);
    if pos == -1 then
      StandardLoop(content, line + 1, m, SliceFrom(content[line], column))
    else
      Some(Extraction(line, pos + |m.end|, Slice(content[line], column, pos)))
  }

  /** An end marker later on the start line closes a one-line comment, as in
      simple mode. Otherwise the comment needs every continuation line to carry
      the each-line marker until a line with an end marker closes it; it fails
      when a line with neither marker comes first or the document runs out. */
  lemma StandardResult(content: seq<string>, line: nat, column: nat, m: MarkerSet)
    requires line < |content|
    ensures var r := ExtractStandard(content, line, column, m);
      && (ContainsFrom(content[line], m.end, column) ==>
           && r.Some?
           && r.value.line == line
           && FirstEndsAt(content[line], m.end, column, r.value.column)
           && r.value.text == Slice(content[line], column, r.value.column - |m.end|))
      && (!ContainsFrom(content[line], m.end, column) ==>
           && (r.Some? <==> SomeStandardClose(content, line + 1, m))
           && (r.None? <==> SomeLayoutBreak(content, line + 1, m) || !SomeLineWith(content, line + 1, m.end)))
      && (!ContainsFrom(content[line], m.end, column) && r.Some? ==>
           && StandardClosesAt(content, line + 1, r.value.line, m)
           && FirstEndsAt(content[r.value.line], m.end, 0, r.value.column)
           && r.value.text == SliceFrom(content[line], column)
                              + MarkedBlock(content, line + 1, r.value.line, m.eachLine)
                              + EndLineFragment(content[r.value.line], m))
  {
    if ContainsFrom(content[line], m.end, column) {
      FindIsFirstOccurrence(content[line], m.end, column);
    } else {
      StandardLoopDecides(content, line + 1, m, SliceFrom(content[line], column));
      StandardLoopCloses(content, line + 1, m, SliceFrom(content[line], column));
      StandardLoopText(content, line + 1, m, SliceFrom(content[line], column));
    }
  }

  // ---------------------------------------------------------------------------
  // Dispatch

  /** The cursor `(line, column)` is inside the document, or at the very start of
      the line after its last. */
  predicate ValidCursor(content: seq<string>, line: nat, column: nat)
  {
    && line <= |content|
    && (line < |content| ==> column <= |content[line]|)
    && (line == |content| ==> column == 0)
  }

  /** `(l1, c1)` is at or before `(l2, c2)` in reading order. */
  predicate CursorAtOrBefore(l1: nat, c1: nat, l2: nat, c2: nat)
  {
    l1 < l2 || (l1 == l2 && c1 <= c2)
  }

  /** Runs the strategy the marker set's mode selects. */
  function ExtractDocComment(content: seq<string>, line: nat, column: nat, m: MarkerSet): (r: Option<Extraction>)
    requires line < |content|
    requires ModeOf(m) == Continuous ==> ContinuousSafe(content, line + 1, m.eachLine)
    ensures ModeOf(m) == Continuous ==> r.Some?
    ensures r.Some? ==> ValidCursor(content, r.value.line, r.value.column)
    ensures r.Some? && column <= |content[line]| ==> CursorAtOrBefore(line, column, r.value.line, r.value.column)
    ensures r.Some? && ModeOf(m) != Continuous ==>
      r.value.line < |content| && |m.end| <= r.value.column <= |content[r.value.line]|
    ensures r.Some? && ModeOf(m) == Continuous ==>
      r.value.column == 0 || r.value.line == |content| - 1
  {
    match ModeOf(m)
    case Simple => ExtractSimple(content, line, column, m)
    case Continuous => ExtractContinuous(content, line, column, m)
    case Standard => ExtractStandard(content, line, column, m)
  }

  // ---------------------------------------------------------------------------
  // Properties relating the strategies

  /** When the end marker follows on the start line, standard mode behaves exactly like simple mode. */
  lemma StandardSameLineIsSimple(content: seq<string>, line: nat, column: nat, m: MarkerSet)
    requires line < |content|
    requires ContainsFrom(content[line], m.end, column)
    ensures ExtractStandard(content, line, column, m) == ExtractSimple(content, line, column, m)
  {
  }

  /** The `+ 1` in the closing-line guard of standard mode never changes the
      text: once the each-line marker is non-empty and present, the guarded
      slice is empty whenever the guard fails. */
  lemma EndLineGuardIsRedundant(s: string, m: MarkerSet)
    requires m.eachLine != []
    requires Contains(s, m.end)
    ensures EndLineFragment(s, m) ==
      if Contains(s, m.eachLine) then Slice(s, Find(s, m.eachLine, 0) + |m.eachLine|, Find(s, m.end, 0)) else []
  {
  }
}
