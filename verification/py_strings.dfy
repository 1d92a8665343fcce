/**
 Python `str` operations the extraction engine is built on: `find` with a start
 index (first occurrence at or after it, or -1) and slicing, whose bounds may be
 negative (counted from the end) or out of range (clamped).
 */
module PyStrings {

  /** `sub` occurs in `s` starting at index `i`. */
  predicate OccursAt(s: string, sub: string, i: int)
  {
    0 <= i && i + |sub| <= |s| && s[i..i + |sub|] == sub
  }

  /** `sub` occurs in `s` at index `from` or later (see `ContainsFromMeaning`). */
  predicate ContainsFrom(s: string, sub: string, from: nat)
    decreases |s| - from
  {
    from + |sub| <= |s| && (OccursAt(s, sub, from) || ContainsFrom(s, sub, from + 1))
  }

  /** `ContainsFrom` holds exactly when some occurrence starts at `from` or later. */
  lemma {:induction false} ContainsFromMeaning(s: string, sub: string, from: nat)
    ensures ContainsFrom(s, sub, from) <==> exists i :: from <= i && OccursAt(s, sub, i)
    decreases |s| - from
  {
    if from + |sub| <= |s| {
      ContainsFromMeaning(s, sub, from + 1);
      if exists i :: from <= i && OccursAt(s, sub, i) {
        var i :| from <= i && OccursAt(s, sub, i);
        if i != from {
          assert from + 1 <= i;
        }
      }
    }
  }

  /** `sub` occurs anywhere in `s` (Python's `s.find(sub) != -1`). */
  predicate Contains(s: string, sub: string)
  {
    ContainsFrom(s, sub, 0)
  }

  /** Python's `s.find(sub, start)`: the least index at or after `start` where `sub` occurs, or -1. */
  function Find(s: string, sub: string, start: nat): (r: int)
    ensures r == -1 <==> !ContainsFrom(s, sub, start)
    ensures r != -1 ==> start <= r && r + |sub| <= |s|
    decreases |s| - start
  {
    if start + |sub| > |s| then -1
    else if s[start..start + |sub|] == sub then start
    else Find(s, sub, start + 1)
  }

  /** The first occurrence of `lit` at or after `from` in `s` ends just before `col`. */
  predicate FirstEndsAt(s: string, lit: string, from: nat, col: int)
  {
    && from + |lit| <= col
    && OccursAt(s, lit, col - |lit|)
    && forall i :: from <= i < col - |lit| ==> !OccursAt(s, lit, i)
  }

  /** Python's normalisation of one slice bound against a string of length `len`. */
  function SliceBound(i: int, len: nat): (r: nat)
    ensures r <= len
    ensures 0 <= i <= len ==> r == i
    ensures i > len ==> r == len
    ensures i < 0 ==> r == if i + len < 0 then 0 else i + len
  {
    if i < 0 then (if i + len < 0 then 0 else i + len)
    else if i > len then len
    else i
  }

  /** Python's `s[a:b]`. */
  function Slice(s: string, a: int, b: int): (r: string)
    ensures |r| <= |s|
    ensures 0 <= a <= b <= |s| ==> r == s[a..b]
    ensures 0 <= b <= a ==> r == []
  {
    var lo := SliceBound(a, |s|);
    var hi := SliceBound(b, |s|);
    if lo < hi then s[lo..hi] else []
  }

  /** Python's `s[a:]`. */
  function SliceFrom(s: string, a: int): (r: string)
    ensures 0 <= a <= |s| ==> r == s[a..]
    ensures a >= |s| ==> r == []
  {
    Slice(s, a, |s|)
  }

  /** Python's `s[-1] == "\n"` on a non-empty `s`; false on an empty one. */
  predicate EndsWithNewline(s: string)
  {
    |s| > 0 && s[|s| - 1] == '\n'
  }

  /** Concatenation regroups freely; stated once so that accumulating loops can rely on it. */
  lemma ConcatAssoc(a: string, b: string, c: string)
    ensures (a + b) + c == a + (b + c)
  {
  }

  /** Finding from `start` succeeds at `p` exactly when `p` is where the first occurrence at or after `start` begins. */
  lemma {:induction false} FindIsFirstOccurrence(s: string, sub: string, start: nat)
    requires ContainsFrom(s, sub, start)
    ensures FirstEndsAt(s, sub, start, Find(s, sub, start) + |sub|)
    decreases |s| - start
  {
    if !OccursAt(s, sub, start) {
      FindIsFirstOccurrence(s, sub, start + 1);
    }
  }

  /** Conversely, an occurrence at `p` with none between `start` and `p` is what
      finding from `start` returns. */
  lemma {:induction false} FindReturnsFirstOccurrence(s: string, sub: string, start: nat, p: nat)
    requires start <= p && OccursAt(s, sub, p)
    requires forall i :: start <= i < p ==> !OccursAt(s, sub, i)
    ensures Find(s, sub, start) == p
    decreases p - start
  {
    if start < p {
      assert !OccursAt(s, sub, start);
      FindReturnsFirstOccurrence(s, sub, start + 1, p);
    }
  }

  /** Finding fails when no occurrence starts at or after `start`. */
  lemma {:induction false} FindFails(s: string, sub: string, start: nat)
    requires forall i :: start <= i ==> !OccursAt(s, sub, i)
    ensures Find(s, sub, start) == -1
    decreases |s| - start
  {
    if start + |sub| <= |s| {
      assert !OccursAt(s, sub, start);
      FindFails(s, sub, start + 1);
    }
  }
}
