/** The state of the matching widget and the pure rules and views over it:
    seeding, the ascending key order in which the handlers walk the mapping,
    the effect of a drop and of a removal, the used-index sets and the zone
    lookups that decide which chip a drop zone shows. */
module MatchingState {
  import opened JsText

  /** A draggable answer. `correctDefinitionIndex` is carried, never used. */
  datatype Term = Term(correctDefinitionIndex: Option<int>, index: int, text: string)

  /** A fixed prompt and the term the host form already held for it. */
  datatype Definition = Definition(index: int, matchedTermIndex: Option<int>, text: string)

  /** One call of the `onUpdateInput(definitionIndex, termIndex)` callback. */
  datatype Notice = Notice(definition: int, term: Option<int>)

  /** `definitionToTermMapping`: a definition index is either absent, present
      with null (`None`), or present with a term index. */
  type Mapping = map<int, Option<int>>

  /** The term a definition holds; an absent key and a null value both read
      as none. */
  function Lookup(m: Mapping, d: int): (r: Option<int>)
    ensures r.Some? <==> d in m && m[d].Some?
    ensures r.Some? ==> m[d] == r
  {
    if d in m then m[d] else None
  }

  /** No two definitions hold the same term. */
  predicate Unique(m: Mapping) {
    forall k1, k2 :: k1 in m && k2 in m && k1 != k2 && m[k1].Some? ==> m[k1] != m[k2]
  }

  // ---------------------------------------------------------------- seeding

  /** No later definition in `defs` carries the same index as `defs[i]`. */
  predicate LastWithIndex(defs: seq<Definition>, i: int)
    requires 0 <= i < |defs|
  {
    forall j :: i < j < |defs| ==> defs[j].index != defs[i].index
  }

  /** The initial mapping: `definitions.reduce` storing each definition's
      `matchedTermIndex` (null included) under its index, a later definition
      overwriting an earlier one with the same index. */
  function Seed(defs: seq<Definition>): (r: Mapping)
    ensures forall k :: k in r <==> exists i :: 0 <= i < |defs| && defs[i].index == k
  {
    if defs == [] then map[]
    else
      var last := defs[|defs| - 1];
      Seed(defs[..|defs| - 1])[last.index := last.matchedTermIndex]
  }

  /** The value seeded under a definition's index is that definition's
      stored term, unless a later definition reuses the index. */
  lemma {:induction false} SeedValue(defs: seq<Definition>, i: int)
    requires 0 <= i < |defs| && LastWithIndex(defs, i)
    ensures Seed(defs)[defs[i].index] == defs[i].matchedTermIndex
  {
    var prefix := defs[..|defs| - 1];
    if i < |defs| - 1 {
      assert LastWithIndex(prefix, i) by {
        forall j | i < j < |prefix|
          ensures prefix[j].index != prefix[i].index
        {
          assert prefix[j] == defs[j] && prefix[i] == defs[i];
        }
      }
      SeedValue(prefix, i);
      assert prefix[i] == defs[i];
    }
  }

  /** With the positional indices the host-form bridge assigns, the seeded
      keys are exactly the definitions' positions, each holding its own
      stored value. */
  lemma SeedPositional(defs: seq<Definition>)
    requires forall i :: 0 <= i < |defs| ==> defs[i].index == i
    ensures forall k :: k in Seed(defs) <==> 0 <= k < |defs|
    ensures forall i :: 0 <= i < |defs| ==> Seed(defs)[i] == defs[i].matchedTermIndex
  {
    forall i | 0 <= i < |defs|
      ensures i in Seed(defs) && Seed(defs)[i] == defs[i].matchedTermIndex
    {
      assert defs[i].index == i;
      SeedValue(defs, i);
    }
  }

  // ---------------------------------------------------------- key ordering

  lemma HasElement(s: set<int>)
    ensures s != {} ==> exists x :: x in s
  {
    if forall x :: x !in s {
      assert s == {};
    }
  }

  lemma {:induction false} LeastElement(s: set<int>) returns (k: int)
    requires s != {}
    ensures k in s && forall j :: j in s ==> k <= j
    decreases |s|
  {
    HasElement(s);
    var x :| x in s;
    var rest := s - {x};
    if rest == {} {
      k := x;
      assert s == {x};
    } else {
      var m := LeastElement(rest);
      k := if x < m then x else m;
      assert s == rest + {x};
    }
  }

  lemma MinExists(s: set<int>)
    requires s != {}
    ensures exists k :: k in s && forall j :: j in s ==> k <= j
  {
    var k := LeastElement(s);
  }

  function Min(s: set<int>): (k: int)
    requires s != {}
    ensures k in s && forall j :: j in s ==> k <= j
  {
    MinExists(s);
    var k :| k in s && forall j :: j in s ==> k <= j; k
  }

  /** The keys of a mapping in the order `Object.entries` yields integer
      keys: ascending. */
  function Ascending(s: set<int>): (r: seq<int>)
    ensures |r| == |s|
    ensures forall k :: k in r <==> k in s
    ensures forall i, j :: 0 <= i < j < |r| ==> r[i] < r[j]
    decreases |s|
  {
    if s == {} then []
    else
      var k := Min(s);
      [k] + Ascending(s - {k})
  }

  predicate Increasing(ks: seq<int>) {
    forall i, j :: 0 <= i < j < |ks| ==> ks[i] < ks[j]
  }

  predicate IncreasingNotices(ns: seq<Notice>) {
    forall i, j :: 0 <= i < j < |ns| ==> ns[i].definition < ns[j].definition
  }

  // ------------------------------------------------------------------- drop

  /** Key `k` loses its term when `t` is dropped on definition `d`. */
  predicate Displaces(m: Mapping, d: int, t: int, k: int) {
    k in m && m[k] == Some(t) && k != d
  }

  /** The mapping `handleDrop(d, t)` leaves: every other key holding `t` is
      deleted, then `d` is set to `t`. */
  function DropResult(m: Mapping, d: int, t: int): (r: Mapping)
    ensures d in r && r[d] == Some(t)
    ensures forall k :: k in r <==> k == d || (k in m && !Displaces(m, d, t, k))
    ensures forall k :: k in r && k != d ==> r[k] == m[k] && r[k] != Some(t)
  {
    (map k | k in m && !Displaces(m, d, t, k) :: m[k])[d := Some(t)]
  }

  /** The `(k, null)` notices for the displaced keys among `ks`, in the order
      of `ks`. */
  function ClearNotices(m: Mapping, d: int, t: int, ks: seq<int>): (r: seq<Notice>)
    ensures |r| <= |ks|
  {
    if ks == [] then []
    else
      var k := ks[|ks| - 1];
      ClearNotices(m, d, t, ks[..|ks| - 1]) + (if Displaces(m, d, t, k) then [Notice(k, None)] else [])
  }

  /** Only displaced keys among `ks` are cleared, and only to null. */
  lemma {:induction false} ClearNoticesSound(m: Mapping, d: int, t: int, ks: seq<int>)
    ensures forall n :: n in ClearNotices(m, d, t, ks) ==>
              n.term == None && n.definition in ks && Displaces(m, d, t, n.definition)
  {
    if ks != [] {
      ClearNoticesSound(m, d, t, ks[..|ks| - 1]);
      assert forall k :: k in ks[..|ks| - 1] ==> k in ks;
    }
  }

  /** Every displaced key among `ks` is cleared, and the clears come in the
      order of `ks`. */
  lemma {:induction false} ClearNoticesComplete(m: Mapping, d: int, t: int, ks: seq<int>)
    requires Increasing(ks)
    ensures forall k :: k in ks && Displaces(m, d, t, k) ==> Notice(k, None) in ClearNotices(m, d, t, ks)
    ensures IncreasingNotices(ClearNotices(m, d, t, ks))
  {
    if ks != [] {
      var prefix := ks[..|ks| - 1];
      ClearNoticesComplete(m, d, t, prefix);
      ClearNoticesSound(m, d, t, prefix);
      assert forall k :: k in ks ==> k in prefix || k == ks[|ks| - 1];
      var r := ClearNotices(m, d, t, ks);
      var p := ClearNotices(m, d, t, prefix);
      forall i, j | 0 <= i < j < |r|
        ensures r[i].definition < r[j].definition
      {
        if j >= |p| {
          assert r[i] == p[i] && p[i] in p;
          assert j == |p| && r[j].definition == ks[|ks| - 1];
          var x :| 0 <= x < |prefix| && prefix[x] == p[i].definition;
          assert prefix[x] == ks[x] && x < |ks| - 1;
          assert ks[x] < ks[|ks| - 1];
          assert r[i].definition < r[j].definition;
        } else {
          assert r[i] == p[i] && r[j] == p[j];
          assert IncreasingNotices(p);
        }
      }
    }
  }

  /** The notices `handleDrop(d, t)` sends: `(d, t)` first, then the
      clears of the displaced keys in ascending key order. */
  function DropNotices(m: Mapping, d: int, t: int): (r: seq<Notice>)
    ensures |r| >= 1 && r[0] == Notice(d, Some(t))
  {
    [Notice(d, Some(t))] + ClearNotices(m, d, t, Ascending(m.Keys))
  }

  /** After `(d, t)`, the drop clears exactly the displaced keys, each to
      null, in ascending key order. */
  lemma DropNoticesShape(m: Mapping, d: int, t: int)
    ensures forall k :: Notice(k, None) in DropNotices(m, d, t)[1..] <==> Displaces(m, d, t, k)
    ensures forall n :: n in DropNotices(m, d, t)[1..] ==> n.term == None
    ensures IncreasingNotices(DropNotices(m, d, t)[1..])
  {
    var ks := Ascending(m.Keys);
    ClearNoticesComplete(m, d, t, ks);
    ClearNoticesSound(m, d, t, ks);
    assert DropNotices(m, d, t)[1..] == ClearNotices(m, d, t, ks);
  }

  /** One more key scanned adds at most its own clear. */
  lemma ClearNoticesStep(m: Mapping, d: int, t: int, ks: seq<int>, i: nat)
    requires i < |ks|
    ensures ClearNotices(m, d, t, ks[..i + 1]) ==
            ClearNotices(m, d, t, ks[..i]) + (if Displaces(m, d, t, ks[i]) then [Notice(ks[i], None)] else [])
  {
    assert ks[..i + 1][..i] == ks[..i];
  }

  /** `kept` is `m` less the displaced keys among those scanned so far. */
  ghost predicate KeptAfterScan(m: Mapping, d: int, t: int, scanned: seq<int>, kept: Mapping) {
    && (forall k :: k in kept <==> k in m && !(k in scanned && Displaces(m, d, t, k)))
    && (forall k :: k in kept ==> kept[k] == m[k])
  }

  lemma KeptAfterScanStep(m: Mapping, d: int, t: int, ks: seq<int>, i: nat, kept: Mapping)
    requires i < |ks| && KeptAfterScan(m, d, t, ks[..i], kept)
    ensures KeptAfterScan(m, d, t, ks[..i + 1],
                          if Displaces(m, d, t, ks[i]) then kept - {ks[i]} else kept)
  {
    assert forall x :: x in ks[..i + 1] <==> x in ks[..i] || x == ks[i];
  }

  /** A scan of every key that kept all but the displaced ones, then set
      `d`, produced the drop's mapping. */
  lemma DropResultFromScan(m: Mapping, d: int, t: int, ks: seq<int>, kept: Mapping)
    requires forall k :: k in m ==> k in ks
    requires KeptAfterScan(m, d, t, ks, kept)
    ensures kept[d := Some(t)] == DropResult(m, d, t)
  {
    var a := kept[d := Some(t)];
    var b := DropResult(m, d, t);
    assert forall k :: k in a <==> k in b;
    assert forall k :: k in a ==> a[k] == b[k];
  }

  /** Appending `(d, t)` and then the clears appends the drop's notices. */
  lemma DropNoticesAppend(log: seq<Notice>, m: Mapping, d: int, t: int)
    ensures log + [Notice(d, Some(t))] + ClearNotices(m, d, t, Ascending(m.Keys)) == log + DropNotices(m, d, t)
  {
    var first, clears := [Notice(d, Some(t))], ClearNotices(m, d, t, Ascending(m.Keys));
    assert DropNotices(m, d, t) == first + clears;
    assert log + first + clears == log + (first + clears);
  }

  lemma {:induction false} ClearNoticesNone(m: Mapping, d: int, t: int, ks: seq<int>)
    requires forall k :: k in ks ==> !Displaces(m, d, t, k)
    ensures ClearNotices(m, d, t, ks) == []
  {
    if ks != [] {
      ClearNoticesNone(m, d, t, ks[..|ks| - 1]);
    }
  }

  lemma {:induction false} ClearNoticesSingle(m: Mapping, d: int, t: int, ks: seq<int>, k: int)
    requires k in ks && Displaces(m, d, t, k)
    requires forall x :: x in ks && x != k ==> !Displaces(m, d, t, x)
    requires Increasing(ks)
    ensures ClearNotices(m, d, t, ks) == [Notice(k, None)]
  {
    var last := ks[|ks| - 1];
    var prefix := ks[..|ks| - 1];
    assert forall x :: x in prefix ==> x in ks;
    if last == k {
      assert forall x :: 0 <= x < |prefix| ==> prefix[x] == ks[x] && ks[x] < last;
      ClearNoticesNone(m, d, t, prefix);
    } else {
      assert k in prefix by {
        var x :| 0 <= x < |ks| && ks[x] == k;
        assert x < |ks| - 1;
        assert prefix[x] == k;
      }
      ClearNoticesSingle(m, d, t, prefix, k);
    }
  }

  /** A drop onto a term nobody else holds sends exactly one notice. */
  lemma PlainDropNotices(m: Mapping, d: int, t: int)
    requires forall k :: !Displaces(m, d, t, k)
    ensures DropNotices(m, d, t) == [Notice(d, Some(t))]
  {
    ClearNoticesNone(m, d, t, Ascending(m.Keys));
  }

  /** While no two definitions share a term, moving a term from `k` to `d`
      sends exactly two notices: `(d, t)`, then `(k, null)`. */
  lemma DisplacingDropNotices(m: Mapping, d: int, t: int, k: int)
    requires Unique(m)
    requires Displaces(m, d, t, k)
    ensures DropNotices(m, d, t) == [Notice(d, Some(t)), Notice(k, None)]
  {
    var ks := Ascending(m.Keys);
    ClearNoticesSingle(m, d, t, ks, k);
  }

  /** A drop keeps "no two definitions share a term", and restores it for
      `t` even when the mapping did not have it. */
  lemma DropKeepsUnique(m: Mapping, d: int, t: int)
    ensures Unique(m) ==> Unique(DropResult(m, d, t))
    ensures forall k :: k in DropResult(m, d, t) && DropResult(m, d, t)[k] == Some(t) ==> k == d
  {
  }

  /** After a drop the used terms are the old ones, less the term `d` held,
      plus `t`. */
  lemma DropUsedTerms(m: Mapping, d: int, t: int)
    requires Unique(m)
    ensures UsedTerms(DropResult(m, d, t)) ==
            (UsedTerms(m) - (if Lookup(m, d).Some? then {Lookup(m, d).value} else {})) + {t}
  {
    var r := DropResult(m, d, t);
    var old_ := if Lookup(m, d).Some? then {Lookup(m, d).value} else {};
    forall x | x in UsedTerms(r)
      ensures x in (UsedTerms(m) - old_) + {t}
    {
      var k :| k in r && r[k] == Some(x);
      if k != d {
        assert m[k] == Some(x);
      }
    }
    forall x | x in (UsedTerms(m) - old_) + {t}
      ensures x in UsedTerms(r)
    {
      if x != t {
        var k :| k in m && m[k] == Some(x);
        assert k in r && r[k] == Some(x);
      }
    }
  }

  // ---------------------------------------------------------------- removal

  /** The mapping `handleRemoveTerm(d)` leaves: the key is deleted whatever
      its value; an absent key leaves the mapping as it was. */
  function RemoveResult(m: Mapping, d: int): (r: Mapping)
    ensures d !in r
    ensures forall k :: k in r <==> k in m && k != d
    ensures forall k :: k in r ==> r[k] == m[k]
  {
    m - {d}
  }

  /** Removal keeps uniqueness, is idempotent, and returns `d`'s term, if it
      had one, to the pool. */
  lemma RemoveFacts(m: Mapping, d: int)
    ensures Unique(m) ==> Unique(RemoveResult(m, d))
    ensures RemoveResult(RemoveResult(m, d), d) == RemoveResult(m, d)
    ensures Unique(m) ==>
              UsedTerms(RemoveResult(m, d)) == UsedTerms(m) - (if Lookup(m, d).Some? then {Lookup(m, d).value} else {})
    ensures UsedDefinitions(RemoveResult(m, d)) == UsedDefinitions(m) - {d}
  {
    var r := RemoveResult(m, d);
    if Unique(m) && Lookup(m, d).Some? {
      forall k | k in r
        ensures r[k] != m[d]
      {
        assert k != d;
      }
    }
  }

  // ------------------------------------------------------------------ views

  /** The values `Object.values(mapping).filter(idx => idx !== null)`:
      the terms currently placed. */
  function UsedTerms(m: Mapping): (r: set<int>)
    ensures forall t :: t in r <==> exists k :: k in m && m[k] == Some(t)
  {
    set k | k in m && m[k].Some? :: m[k].value
  }

  /** `usedDefinitionIndices`: the keys whose value is not null. */
  function UsedDefinitions(m: Mapping): (r: set<int>)
    ensures forall k :: k in r <==> Lookup(m, k).Some?
  {
    set k | k in m && m[k].Some?
  }

  lemma UsedAfterRemoval(m: Mapping, k: int)
    requires Unique(m) && Lookup(m, k).Some?
    ensures UsedTerms(m) == UsedTerms(m - {k}) + {m[k].value}
    ensures m[k].value !in UsedTerms(m - {k})
    ensures UsedDefinitions(m) == UsedDefinitions(m - {k}) + {k}
    ensures k !in UsedDefinitions(m - {k})
  {
    RemoveFacts(m, k);
  }

  /** While no two definitions share a term, the placed terms and the
      matched definitions are equally many. */
  lemma {:induction false} UsedCardinality(m: Mapping)
    requires Unique(m)
    ensures |UsedTerms(m)| == |UsedDefinitions(m)|
    decreases |m.Keys|
  {
    HasElement(UsedDefinitions(m));
    if UsedDefinitions(m) != {} {
      var k :| k in UsedDefinitions(m);
      var r := m - {k};
      assert r.Keys == m.Keys - {k};
      RemoveFacts(m, k);
      UsedCardinality(r);
      UsedAfterRemoval(m, k);
    } else {
      assert forall k :: k in m ==> m[k].None? by {
        forall k | k in m
          ensures m[k].None?
        {
          assert k !in UsedDefinitions(m);
        }
      }
      assert UsedTerms(m) == {};
    }
  }

  function FirstHolderIn(m: Mapping, t: int, ks: seq<int>): (r: Option<int>)
    ensures r.Some? ==> r.value in ks && r.value in m && m[r.value] == Some(t)
    ensures r.None? ==> forall k :: k in ks && k in m ==> m[k] != Some(t)
  {
    if ks == [] then None
    else if ks[0] in m && m[ks[0]] == Some(t) then Some(ks[0])
    else FirstHolderIn(m, t, ks[1..])
  }

  lemma {:induction false} FirstHolderInIsFirst(m: Mapping, t: int, ks: seq<int>)
    requires Increasing(ks)
    ensures var r := FirstHolderIn(m, t, ks);
            r.Some? ==> forall k :: k in ks && k in m && m[k] == Some(t) ==> r.value <= k
  {
    if ks != [] && !(ks[0] in m && m[ks[0]] == Some(t)) {
      FirstHolderInIsFirst(m, t, ks[1..]);
      assert forall k :: k in ks ==> k == ks[0] || k in ks[1..];
    } else if ks != [] {
      forall k | k in ks
        ensures ks[0] <= k
      {
        var x :| 0 <= x < |ks| && ks[x] == k;
      }
    }
  }

  /** The definition the `Object.entries` scans of the handlers find first
      for term `t`: the smallest key holding it. */
  function FirstHolder(m: Mapping, t: int): (r: Option<int>)
    ensures r.None? <==> t !in UsedTerms(m)
    ensures r.Some? ==> r.value in m && m[r.value] == Some(t)
    ensures r.Some? ==> forall k :: k in m && m[k] == Some(t) ==> r.value <= k
  {
    var ks := Ascending(m.Keys);
    FirstHolderInIsFirst(m, t, ks);
    FirstHolderIn(m, t, ks)
  }

  /** `terms.find(t => t.index === i)`. */
  function FindTerm(terms: seq<Term>, i: int): (r: Option<Term>)
    ensures r.None? <==> forall x :: x in terms ==> x.index != i
    ensures r.Some? ==> r.value in terms && r.value.index == i
  {
    if terms == [] then None
    else if terms[0].index == i then Some(terms[0])
    else FindTerm(terms[1..], i)
  }

  /** `find` returns the first term carrying the index, not just any. */
  lemma {:induction false} FindTermIsFirst(terms: seq<Term>, i: int, j: int)
    requires 0 <= j < |terms| && terms[j].index == i
    requires forall j' :: 0 <= j' < j ==> terms[j'].index != i
    ensures FindTerm(terms, i) == Some(terms[j])
  {
    if j > 0 {
      assert terms[0].index != i;
      FindTermIsFirst(terms[1..], i, j - 1);
    }
  }

  /** `definitions.find(d => d.index === i)`. */
  function FindDefinition(defs: seq<Definition>, i: int): (r: Option<Definition>)
    ensures r.None? <==> forall x :: x in defs ==> x.index != i
    ensures r.Some? ==> r.value in defs && r.value.index == i
  {
    if defs == [] then None
    else if defs[0].index == i then Some(defs[0])
    else FindDefinition(defs[1..], i)
  }

  /** `find` returns the first definition carrying the index, not just any. */
  lemma {:induction false} FindDefinitionIsFirst(defs: seq<Definition>, i: int, j: int)
    requires 0 <= j < |defs| && defs[j].index == i
    requires forall j' :: 0 <= j' < j ==> defs[j'].index != i
    ensures FindDefinition(defs, i) == Some(defs[j])
  {
    if j > 0 {
      assert defs[0].index != i;
      FindDefinitionIsFirst(defs[1..], i, j - 1);
    }
  }

  /** Normal orientation: the term chip definition `d`'s zone shows. A key
      holding null shows no chip, like an absent key. */
  function NormalZoneItem(m: Mapping, terms: seq<Term>, d: int): (r: Option<Term>)
    ensures r.Some? ==> r.value in terms && Lookup(m, d) == Some(r.value.index)
    ensures r.None? <==> Lookup(m, d).None? || forall x :: x in terms ==> x.index != Lookup(m, d).value
  {
    if d !in m then None
    else match m[d]
      case None => None
      case Some(t) => FindTerm(terms, t)
  }

  /** Swapped orientation: the definition chip term `t`'s zone shows, found
      through the first definition holding `t`. */
  function SwappedZoneItem(m: Mapping, defs: seq<Definition>, t: int): (r: Option<Definition>)
    ensures r.Some? ==> r.value in defs && FirstHolder(m, t) == Some(r.value.index)
    ensures r.Some? ==> Lookup(m, r.value.index) == Some(t)
    ensures r.None? <==> t !in UsedTerms(m) || forall x :: x in defs ==> x.index != FirstHolder(m, t).value
  {
    match FirstHolder(m, t)
    case None => None
    case Some(k) => FindDefinition(defs, k)
  }

  // ----------------------------------------------------- interaction guards

  /** The (definition, term) pair a gesture on drop zone `zone` assigns
      with item `item`: zones are definitions in the normal orientation and
      terms when swapped. */
  function ZonePair(swapped: bool, zone: int, item: int): (p: (int, int))
    ensures swapped ==> p.0 == item && p.1 == zone
    ensures !swapped ==> p.0 == zone && p.1 == item
  {
    if swapped then (item, zone) else (zone, item)
  }

  /** The assignment a drop of `payload` on drop zone `zone` makes: any
      payload `parseInt` reads as a number, with no range check; only NaN is
      ignored. */
  function ZoneDrop(swapped: bool, zone: int, payload: string): (r: Option<(int, int)>)
    ensures r.None? <==> ParseInt(payload).None?
    ensures r.Some? ==> r.value == ZonePair(swapped, zone, ParseInt(payload).value)
  {
    match ParseInt(payload)
    case None => None
    case Some(item) => Some(ZonePair(swapped, zone, item))
  }

  /** The definition a drop of `payload` on the available pool unassigns: the
      payload must parse to an index in the pool's used set; a used term is
      taken from the first definition holding it, a used definition (when
      swapped) is unassigned itself. */
  function PoolDrop(m: Mapping, swapped: bool, payload: string): (r: Option<int>)
    ensures r.None? <==> ParseInt(payload).None? ||
                         ParseInt(payload).value !in (if swapped then UsedDefinitions(m) else UsedTerms(m))
    ensures r.Some? ==> Lookup(m, r.value).Some?
    ensures r.Some? && swapped ==> r.value == ParseInt(payload).value
    ensures r.Some? && !swapped ==> m[r.value] == Some(ParseInt(payload).value)
    ensures r.Some? && !swapped ==>
              forall k :: k in m && m[k] == Some(ParseInt(payload).value) ==> r.value <= k
  {
    match ParseInt(payload)
    case None => None
    case Some(item) =>
      if swapped then (if item in UsedDefinitions(m) then Some(item) else None)
      else FirstHolder(m, item)
  }

  /** The definition a click on the chip shown in zone `zone` unassigns; no
      chip, no removal. */
  function ChipOwner(m: Mapping, swapped: bool, terms: seq<Term>, defs: seq<Definition>, zone: int): (r: Option<int>)
    ensures r.Some? ==> Lookup(m, r.value).Some?
    ensures r.Some? && !swapped ==> r.value == zone
    ensures r.Some? && swapped ==> m[r.value] == Some(zone)
    ensures r.Some? && swapped ==> forall k :: k in m && m[k] == Some(zone) ==> r.value <= k
    ensures !swapped ==> (r.Some? <==> NormalZoneItem(m, terms, zone).Some?)
    ensures swapped ==> (r.Some? <==> SwappedZoneItem(m, defs, zone).Some?)
  {
    if !swapped then
      (if NormalZoneItem(m, terms, zone).Some? then Some(zone) else None)
    else if SwappedZoneItem(m, defs, zone).Some? then FirstHolder(m, zone)
    else None
  }
}
