/**
 The begin matcher and the marker dictionary of the scan driver.

 The source joins the escaped start markers of the catalog into one regular
 expression `s0|s1|...` and searches it from the cursor. Such an alternation
 finds the leftmost position where any alternative matches and, at that
 position, takes the first alternative in catalog order, not the longest one.
 This module states that search directly over the list of start markers.
 */
module BeginMatcher {

  import opened Wrappers
  import opened PyStrings
  import opened Markers

  /** The start markers of a catalog, in catalog order (the alternatives of the regular expression). */
  function Starts(catalog: seq<MarkerSet>): (r: seq<string>)
    ensures |r| == |catalog|
    ensures forall i :: 0 <= i < |catalog| ==> r[i] == catalog[i].start
  {
    if catalog == [] then [] else Starts(catalog[..|catalog| - 1]) + [catalog[|catalog| - 1].start]
  }

  /** Some alternative matches at index `i` of `s`. */
  predicate AnyAt(s: string, i: int, alternatives: seq<string>)
  {
    exists k :: 0 <= k < |alternatives| && OccursAt(s, alternatives[k], i)
  }

  /** The first alternative, from index `k` on, that matches at index `i` of `s`. */
  function FirstAlternativeFrom(s: string, i: nat, alternatives: seq<string>, k: nat): (r: Option<nat>)
    requires k <= |alternatives|
    ensures r.Some? ==>
      && k <= r.value < |alternatives|
      && OccursAt(s, alternatives[r.value], i)
      && forall j :: k <= j < r.value ==> !OccursAt(s, alternatives[j], i)
    ensures r.None? ==> forall j :: k <= j < |alternatives| ==> !OccursAt(s, alternatives[j], i)
    decreases |alternatives| - k
  {
    if k == |alternatives| then None
    else if OccursAt(s, alternatives[k], i) then Some(k)
    else FirstAlternativeFrom(s, i, alternatives, k + 1)
  }

  /** A match of the alternation: where it starts and which alternative matched. */
  datatype BeginMatch = BeginMatch(start: nat, alternative: nat)

  /** The regular-expression search from index `i` on. */
  function SearchFrom(s: string, i: nat, alternatives: seq<string>): (r: Option<BeginMatch>)
    requires i <= |s| + 1
    ensures r.Some? ==>
      && i <= r.value.start
      && r.value.alternative < |alternatives|
      && OccursAt(s, alternatives[r.value.alternative], r.value.start)
    decreases |s| + 1 - i
  {
    if i > |s| then None
    else
      match FirstAlternativeFrom(s, i, alternatives, 0)
      case Some(k) => Some(BeginMatch(i, k))
      case None => SearchFrom(s, i + 1, alternatives)
  }

  /** The match `SearchFrom` reports is the leftmost one at or after `i`, and at
      its position the first alternative in catalog order; it reports none
      exactly when no alternative occurs at or after `i`. */
  lemma {:induction false} SearchFromLeftmost(s: string, i: nat, alternatives: seq<string>)
    requires i <= |s| + 1
    ensures var r := SearchFrom(s, i, alternatives);
      && (r.Some? ==>
           && (forall j :: 0 <= j < r.value.alternative ==> !OccursAt(s, alternatives[j], r.value.start))
           && (forall p :: i <= p < r.value.start ==> !AnyAt(s, p, alternatives)))
      && (r.None? <==> forall p :: i <= p ==> !AnyAt(s, p, alternatives))
    decreases |s| + 1 - i
  {
    if i <= |s| {
      var first := FirstAlternativeFrom(s, i, alternatives, 0);
      if first.None? {
        SearchFromLeftmost(s, i + 1, alternatives);
        assert !AnyAt(s, i, alternatives);
      } else {
        assert AnyAt(s, i, alternatives);
      }
    }
  }

  /** `begin_regex.search(s, pos)`: the leftmost match at or after `pos`, the
      tie at that position going to the alternative listed first (see
      `SearchIsLeftmost`). */
  function Search(s: string, pos: nat, alternatives: seq<string>): (r: Option<BeginMatch>)
    requires pos <= |s|
    ensures r.Some? ==>
      && pos <= r.value.start
      && r.value.alternative < |alternatives|
      && OccursAt(s, alternatives[r.value.alternative], r.value.start)
  {
    SearchFrom(s, pos, alternatives)
  }

  /** The search finds the leftmost position at or after `pos` where some start
      marker occurs and, there, the first such marker in catalog order; it fails
      exactly when no start marker occurs at or after `pos`. */
  lemma SearchIsLeftmost(s: string, pos: nat, alternatives: seq<string>)
    requires pos <= |s|
    ensures var r := Search(s, pos, alternatives);
      && (r.Some? ==>
           && AnyAt(s, r.value.start, alternatives)
           && (forall j :: 0 <= j < r.value.alternative ==> !OccursAt(s, alternatives[j], r.value.start))
           && (forall p :: pos <= p < r.value.start ==> !AnyAt(s, p, alternatives)))
      && (r.None? <==> forall p :: pos <= p ==> !AnyAt(s, p, alternatives))
  {
    SearchFromLeftmost(s, pos, alternatives);
  }

  /** The marker sets registered under start marker `lit`, in catalog order. */
  function Candidates(catalog: seq<MarkerSet>, lit: string): (r: seq<MarkerSet>)
    ensures forall m :: m in r <==> m in catalog && m.start == lit
    ensures |r| <= |catalog|
  {
    if catalog == [] then []
    else
      var last := catalog[|catalog| - 1];
      var init := catalog[..|catalog| - 1];
      assert catalog == init + [last];
      Candidates(init, lit) + (if last.start == lit then [last] else [])
  }

  /** Registering one more marker set `m` after `init`. */
  function Register(d: map<string, seq<MarkerSet>>, m: MarkerSet): map<string, seq<MarkerSet>>
  {
    if m.start !in d then d[m.start := [m]] else d[m.start := d[m.start] + [m]]
  }

  /** Appending `m` to a catalog appends its start marker to the alternatives and
      `m` to the candidates of that start marker only. */
  lemma Snoc(init: seq<MarkerSet>, m: MarkerSet)
    ensures Starts(init + [m]) == Starts(init) + [m.start]
    ensures forall lit :: Candidates(init + [m], lit) == Candidates(init, lit) + (if m.start == lit then [m] else [])
  {
    var c := init + [m];
    assert c[..|c| - 1] == init;
  }

  /** A start marker that is not among a catalog's alternatives has no candidates. */
  lemma NoCandidatesWithoutStart(catalog: seq<MarkerSet>, lit: string)
    requires lit !in Starts(catalog)
    ensures Candidates(catalog, lit) == []
  {
  }

  /** Registering `m` adds exactly its start marker to the keys. */
  lemma RegisterKeys(init: seq<MarkerSet>, m: MarkerSet, d: map<string, seq<MarkerSet>>)
    requires forall lit :: lit in d <==> lit in Starts(init)
    ensures forall lit :: lit in Register(d, m) <==> lit in Starts(init + [m])
  {
    Snoc(init, m);
    forall lit
      ensures lit in Starts(init + [m]) <==> lit in Starts(init) || lit == m.start
    {
      assert lit in Starts(init) + [m.start] <==> lit in Starts(init) || lit == m.start;
    }
  }

  /** Registering `m` after the dictionary of `init` gives the dictionary of `init + [m]`. */
  lemma RegisterExtends(init: seq<MarkerSet>, m: MarkerSet, d: map<string, seq<MarkerSet>>)
    requires forall lit :: lit in d <==> lit in Starts(init)
    requires forall lit :: lit in d ==> d[lit] == Candidates(init, lit)
    ensures forall lit :: lit in Register(d, m) ==> Register(d, m)[lit] == Candidates(init + [m], lit)
  {
    Snoc(init, m);
    forall lit | lit in Register(d, m)
      ensures Register(d, m)[lit] == Candidates(init + [m], lit)
    {
      if lit != m.start {
        assert Candidates(init, lit) + [] == Candidates(init, lit);
      } else if m.start !in d {
        NoCandidatesWithoutStart(init, lit);
      }
    }
  }

  /** `d` maps exactly the start markers of `catalog`, each to its candidates. */
  ghost predicate IsMarkerDict(d: map<string, seq<MarkerSet>>, catalog: seq<MarkerSet>)
  {
    && (forall lit :: lit in d <==> lit in Starts(catalog))
    && (forall lit :: lit in d ==> d[lit] == Candidates(catalog, lit))
  }

  /** Registering the last entry of a catalog after the dictionary of the
      entries before it gives the catalog's dictionary. */
  lemma RegisterLast(catalog: seq<MarkerSet>, d: map<string, seq<MarkerSet>>)
    requires |catalog| > 0
    requires IsMarkerDict(d, catalog[..|catalog| - 1])
    ensures IsMarkerDict(Register(d, catalog[|catalog| - 1]), catalog)
  {
    var init := catalog[..|catalog| - 1];
    var m := catalog[|catalog| - 1];
    assert catalog == init + [m];
    RegisterKeys(init, m, d);
    RegisterExtends(init, m, d);
  }

  /** The `marker_dict` of the driver, built by walking the catalog and
      appending each marker set to the list of its start marker. */
  function MarkerDict(catalog: seq<MarkerSet>): (d: map<string, seq<MarkerSet>>)
    ensures IsMarkerDict(d, catalog)
  {
    if catalog == [] then map[]
    else
      var d := MarkerDict(catalog[..|catalog| - 1]);
      RegisterLast(catalog, d);
      Register(d, catalog[|catalog| - 1])
  }

  /** Every marker set registered under `lit` is a catalog entry with start marker `lit`. */
  lemma RegisteredEntry(catalog: seq<MarkerSet>, lit: string, i: nat)
    requires lit in MarkerDict(catalog)
    requires i < |MarkerDict(catalog)[lit]|
    ensures MarkerDict(catalog)[lit][i] in catalog
    ensures MarkerDict(catalog)[lit][i].start == lit
  {
    assert MarkerDict(catalog)[lit][i] in Candidates(catalog, lit);
  }

  /** Every catalog entry's start marker is a key of the dictionary, and the
      entry is among the marker sets registered under it. */
  lemma EveryEntryRegistered(catalog: seq<MarkerSet>, k: nat)
    requires k < |catalog|
    ensures catalog[k].start in MarkerDict(catalog)
    ensures catalog[k] in MarkerDict(catalog)[catalog[k].start]
  {
  }
}
