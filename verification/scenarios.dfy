/**
 Worked examples: one document per mode, each run through the dispatcher at
 the position just after its start marker.
 */
module Scenarios {

  import opened Wrappers
  import opened PyStrings
  import opened Markers
  import opened Strategies
  import opened Scanner

  const Javadoc := MarkerSet("/**", "*", "*/")
  const OneLine := MarkerSet("/**", "", "*/")
  const Hashes := MarkerSet("##", "##", "##")

  /** A literal does not occur at `i` when its `k`-th character is not the `i + k`-th of `s`. */
  lemma Mismatch(s: string, sub: string, i: nat, k: nat)
    requires k < |sub| && (i + k < |s| ==> s[i + k] != sub[k])
    ensures !OccursAt(s, sub, i)
  {
    if i + |sub| <= |s| {
      assert s[i..i + |sub|][k] == s[i + k];
    }
  }

  /** A literal is not found in a string lacking one of its characters. */
  lemma NotFound(s: string, sub: string, k: nat, lo: nat)
    requires k < |sub|
    requires forall i :: 0 <= i < |s| ==> s[i] != sub[k]
    ensures Find(s, sub, lo) == -1
  {
    forall i | lo <= i
      ensures !OccursAt(s, sub, i)
    {
      Mismatch(s, sub, i, k);
    }
    FindFails(s, sub, lo);
  }

  /** A one-character literal is found at its first position from `lo`. */
  lemma FoundChar(s: string, c: char, lo: nat, p: nat)
    requires lo <= p < |s| && s[p] == c
    requires forall i :: lo <= i < p ==> s[i] != c
    ensures Find(s, [c], lo) == p
  {
    assert s[p..p + 1] == [c];
    forall i | lo <= i < p
      ensures !OccursAt(s, [c], i)
    {
      Mismatch(s, [c], i, 0);
    }
    FindReturnsFirstOccurrence(s, [c], lo, p);
  }

  // Simple mode: a one-line comment keeps the spaces around its text and ends
  // just after its end marker, at column 12 counted from 0 (13 once 1-based).
  lemma SimpleOneLine()
    ensures ExtractDocComment(["/** hello */\n"], 0, 3, OneLine) == Some(Extraction(0, 12, " hello "))
  {
    var s := "/** hello */\n";
    OneLineEnd(s);
    OneLineText(s);
  }

  /** The end marker of the one-line comment is found at index 10. */
  lemma OneLineEnd(s: string)
    requires s == "/** hello */\n"
    ensures Find(s, "*/", 3) == 10
  {
    assert OccursAt(s, "*/", 10);
    forall i | 3 <= i < 10
      ensures !OccursAt(s, "*/", i)
    {
      Mismatch(s, "*/", i, 0);
    }
    FindReturnsFirstOccurrence(s, "*/", 3, 10);
  }

  /** The text between the markers of the one-line comment. */
  lemma OneLineText(s: string)
    requires s == "/** hello */\n"
    ensures Slice(s, 3, 10) == " hello "
  {
    var text := s[3..10];
    assert |text| == 7 && text[0] == ' ' && text[1] == 'h' && text[2] == 'e' && text[3] == 'l';
    assert text[4] == 'l' && text[5] == 'o' && text[6] == ' ';
  }

  // Standard mode: continuation lines lose everything up to their each-line
  // marker; the closing line adds nothing, its each-line marker being the
  // first character of its end marker.
  lemma StandardJavadoc()
    ensures ExtractDocComment(["/**\n", " * line one\n", " * line two\n", " */\n"], 0, 3, Javadoc)
         == Some(Extraction(3, 3, "\n" + " line one\n" + " line two\n"))
  {
    var c := ["/**\n", " * line one\n", " * line two\n", " */\n"];
    JavadocContinuation(c[1]);
    JavadocContinuation(c[2]);
    JavadocClosing(c[3]);
    assert AfterFirst(c[1], "*") == " line one\n";
    assert AfterFirst(c[2], "*") == " line two\n";
    var acc1 := "\n";
    var acc2 := acc1 + " line one\n";
    var acc3 := acc2 + " line two\n";
    JavadocOpening(c);
    StandardLoopContinues(c, 1, Javadoc, acc1);
    StandardLoopContinues(c, 2, Javadoc, acc2);
    StandardLoopClosesHere(c, 3, Javadoc, acc3);
    assert MarkedBlock(c, 3, 3, "*") == [];
    assert acc3 + [] + [] == acc3;
    var r := StandardLoop(c, 3, Javadoc, acc3);
    assert r.value.line == 3 && r.value.text == acc3;
    assert r.value.column == 1 + |"*/"|;
  }

  /** The opening line holds nothing after its start marker but the newline,
      so the standard loop takes over on the next line. */
  lemma JavadocOpening(c: seq<string>)
    requires |c| == 4 && c[0] == "/**\n"
    ensures ExtractDocComment(c, 0, 3, Javadoc) == StandardLoop(c, 1, Javadoc, "\n")
  {
    assert ModeOf(Javadoc) == Standard;
    OpeningLine(c[0]);
  }

  // The opening line has no end marker after its start marker, only the newline.
  lemma OpeningLine(s: string)
    requires s == "/**\n"
    ensures Find(s, "*/", 3) == -1
    ensures SliceFrom(s, 3) == "\n"
  {
    forall i | 3 <= i
      ensures !OccursAt(s, "*/", i)
    {
      Mismatch(s, "*/", i, 0);
    }
    FindFails(s, "*/", 3);
  }

  /** A line ` * ...` without a slash continues a Javadoc comment after its star. */
  lemma JavadocContinuation(s: string)
    requires |s| >= 2 && s[0] == ' ' && s[1] == '*'
    requires forall i :: 0 <= i < |s| ==> s[i] != '/'
    ensures !Contains(s, "*/") && Contains(s, "*")
    ensures AfterFirst(s, "*") == s[2..]
  {
    NotFound(s, "*/", 1, 0);
    FoundChar(s, '*', 0, 1);
  }

  // The closing line of a Javadoc comment contributes nothing.
  lemma JavadocClosing(s: string)
    requires s == " */\n"
    ensures Contains(s, "*/") && Find(s, "*/", 0) == 1
    ensures EndLineFragment(s, Javadoc) == []
  {
    FoundChar(s, '*', 0, 1);
    assert OccursAt(s, "*/", 1);
    Mismatch(s, "*/", 0, 0);
    FindReturnsFirstOccurrence(s, "*/", 0, 1);
  }

  // Continuous mode: the comment runs while lines carry the marker and ends at
  // the start of the first line without it.
  lemma ContinuousHashes()
    ensures ExtractDocComment(["## first\n", "## second\n", "code\n"], 0, 2, Hashes)
         == Some(Extraction(2, 0, " first\n" + " second\n"))
  {
    var c := ["## first\n", "## second\n", "code\n"];
    assert OccursAt(c[1], "##", 0);
    FindReturnsFirstOccurrence(c[1], "##", 0, 0);
    NotFound(c[2], "##", 0, 0);
    assert c[0][2..] == " first\n";
    assert c[1][2..] == " second\n";
    assert ContinuousLoop(c, 1, "##", " first\n") == ContinuousLoop(c, 2, "##", " first\n" + " second\n");
  }

  // Standard mode, malformed: a continuation line with neither marker ends the
  // attempt without a comment.
  lemma StandardMalformed()
    ensures ExtractDocComment(["/**\n", "not prefixed\n", " */\n"], 0, 3, Javadoc) == None
  {
    var c := ["/**\n", "not prefixed\n", " */\n"];
    NotFound(c[1], "*/", 0, 0);
    NotFound(c[1], "*", 0, 0);
  }

  // Priority: two marker sets share the start marker `/**`. The standard one,
  // listed first, fails on the malformed comment; the simple one, listed
  // second, is then used, and reads the comment up to the `*/` of line 3.
  lemma PriorityFallback()
    ensures TryCandidates(["/**\n", "not prefixed\n", " */\n"], 0, 3, [Javadoc, OneLine], 0)
         == Some(Attempt(1, Extraction(2, 3, "\n" + "not prefixed\n" + " ")))
  {
    var c := ["/**\n", "not prefixed\n", " */\n"];
    StandardMalformed();
    OneLineFallback(c);
  }

  /** Simple mode reads the malformed comment as plain aligned lines. */
  lemma OneLineFallback(c: seq<string>)
    requires c == ["/**\n", "not prefixed\n", " */\n"]
    ensures ExtractDocComment(c, 0, 3, OneLine) == Some(Extraction(2, 3, "\n" + "not prefixed\n" + " "))
  {
    assert ModeOf(OneLine) == Simple;
    OpeningLine(c[0]);
    assert ExtractDocComment(c, 0, 3, OneLine) == SimpleLoop(c, 1, 0, "*/", "\n");
    FallbackLines(c);
  }

  // The lines after the opening one: the middle line whole, the last up to its end marker.
  lemma FallbackLines(c: seq<string>)
    requires c == ["/**\n", "not prefixed\n", " */\n"]
    ensures SimpleLoop(c, 1, 0, "*/", "\n") == Some(Extraction(2, 3, "\n" + "not prefixed\n" + " "))
  {
    PlainLine(c[1]);
    JavadocClosing(c[2]);
    assert Slice(c[2], 0, 1) == " ";
    var acc2 := "\n" + "not prefixed\n";
    assert SimpleLoop(c, 1, 0, "*/", "\n") == SimpleLoop(c, 2, 0, "*/", acc2);
    assert SimpleLoop(c, 2, 0, "*/", acc2) == Some(Extraction(2, 3, acc2 + " "));
  }

  /** A line without a star has no end marker and is kept whole from column 0. */
  lemma PlainLine(s: string)
    requires s == "not prefixed\n"
    ensures Find(s, "*/", 0) == -1
    ensures SliceFrom(s, 0) == s
  {
    NotFound(s, "*/", 0, 0);
  }
}
