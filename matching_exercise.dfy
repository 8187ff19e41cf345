/** The matching widget as the component runs it: the mapping, the click
    selection and the orientation flag are fields its handlers update, and
    every `onUpdateInput(definitionIndex, termIndex)` call is appended to
    `notices`. Each handler runs once, synchronously. */
module MatchingExercise {
  import opened JsText
  import opened MatchingState
  import opened AvailableItems

  /** Terms as pool items. */
  function TermItems(terms: seq<Term>): (r: seq<Item>)
    ensures |r| == |terms|
    ensures forall i :: 0 <= i < |terms| ==> r[i] == Item(terms[i].index, terms[i].text)
  {
    if terms == [] then [] else [Item(terms[0].index, terms[0].text)] + TermItems(terms[1..])
  }

  /** Definitions as pool items. */
  function DefinitionItems(defs: seq<Definition>): (r: seq<Item>)
    ensures |r| == |defs|
    ensures forall i :: 0 <= i < |defs| ==> r[i] == Item(defs[i].index, defs[i].text)
  {
    if defs == [] then [] else [Item(defs[0].index, defs[0].text)] + DefinitionItems(defs[1..])
  }

  /** In the normal orientation the term just placed leaves the pool, and
      the term `d` held before, if another, comes back to it. */
  lemma PoolAfterDrop(terms: seq<Term>, m: Mapping, d: int, t: int)
    requires Unique(m)
    ensures forall x :: x in Available(TermItems(terms), UsedTerms(DropResult(m, d, t))) ==> x.index != t
    ensures Lookup(m, d).Some? && Lookup(m, d).value != t ==>
              forall x :: x in TermItems(terms) && x.index == Lookup(m, d).value ==>
                x in Available(TermItems(terms), UsedTerms(DropResult(m, d, t)))
  {
    DropUsedTerms(m, d, t);
    if Lookup(m, d).Some? {
      var u := Lookup(m, d).value;
      assert u !in UsedTerms(m) - {u};
    }
  }

  /** In the normal orientation a removed definition's term comes back to the
      pool. */
  lemma PoolAfterRemove(terms: seq<Term>, m: Mapping, d: int)
    requires Unique(m) && Lookup(m, d).Some?
    ensures forall x :: x in TermItems(terms) && x.index == m[d].value ==>
              x in Available(TermItems(terms), UsedTerms(RemoveResult(m, d)))
  {
    UsedAfterRemoval(m, d);
  }

  class MatchingExercise {
    const terms: seq<Term>
    const definitions: seq<Definition>
    var mapping: Mapping
    var selected: Option<int>
    var swapped: bool
    var notices: seq<Notice>

    /** The items the available pool shows: terms in the normal orientation,
        definitions when swapped, each exactly when its index is not used and
        as often as the filter keeps it, in text order. */
    function Pool(): (r: seq<Item>)
      reads this
      ensures SortedByText(r)
      ensures !swapped ==> forall x :: x in r <==> x in TermItems(terms) && x.index !in UsedTerms(mapping)
      ensures swapped ==> forall x :: x in r <==> x in DefinitionItems(definitions) && x.index !in UsedDefinitions(mapping)
      ensures !swapped ==> multiset(r) == multiset(Unused(TermItems(terms), UsedTerms(mapping)))
      ensures swapped ==> multiset(r) == multiset(Unused(DefinitionItems(definitions), UsedDefinitions(mapping)))
    {
      if swapped then Available(DefinitionItems(definitions), UsedDefinitions(mapping))
      else Available(TermItems(terms), UsedTerms(mapping))
    }

    /** Seeding is silent: no notice, no selection, normal orientation. */
    constructor (definitions: seq<Definition>, terms: seq<Term>)
      ensures this.definitions == definitions && this.terms == terms
      ensures mapping == Seed(definitions)
      ensures selected == None && !swapped && notices == []
    {
      this.definitions := definitions;
      this.terms := terms;
      mapping := Seed(definitions);
      selected := None;
      swapped := false;
      notices := [];
    }

    /** Clicking a pool item toggles it: the selected item is deselected,
        any other item replaces the selection. */
    method HandleSelectItem(item: int)
      modifies this`selected
      ensures old(selected) == Some(item) ==> selected == None
      ensures old(selected) != Some(item) ==> selected == Some(item)
    {
      selected := if selected == Some(item) then None else Some(item);
    }

    /** Assigns term `t` to definition `d`: notifies `(d, t)`, deletes every
        other key holding `t` (notifying `(k, null)` for each, in key order),
        sets `d`, and clears the selection. */
    method HandleDrop(d: int, t: int)
      modifies this`mapping, this`notices, this`selected
      ensures mapping == DropResult(old(mapping), d, t)
      ensures notices == old(notices) + DropNotices(old(mapping), d, t)
      ensures selected == None
    {
      ghost var before := notices;
      notices := notices + [Notice(d, Some(t))];
      var prev := mapping;
      var keys := Ascending(prev.Keys);
      var next := ClearOtherHolders(prev, keys, d, t);
      DropNoticesAppend(before, prev, d, t);
      DropResultFromScan(prev, d, t, keys, next);
      mapping := next[d := Some(t)];
      selected := None;
    }

    /** The loop of `handleDrop`'s updater: a copy of `prev` from which every
        key other than `d` holding `t` is deleted, each deletion notified. */
    method ClearOtherHolders(prev: Mapping, keys: seq<int>, d: int, t: int) returns (next: Mapping)
      requires forall k :: k in keys ==> k in prev
      modifies this`notices
      ensures KeptAfterScan(prev, d, t, keys, next)
      ensures notices == old(notices) + ClearNotices(prev, d, t, keys)
    {
      next := prev;
      assert keys[..0] == [];
      for i := 0 to |keys|
        invariant KeptAfterScan(prev, d, t, keys[..i], next)
        invariant notices == old(notices) + ClearNotices(prev, d, t, keys[..i])
      {
        var k := keys[i];
        assert k in prev;
        ClearNoticesStep(prev, d, t, keys, i);
        KeptAfterScanStep(prev, d, t, keys, i, next);
        ghost var cleared := ClearNotices(prev, d, t, keys[..i]);
        if prev[k] == Some(t) && k != d {
          next := next - {k};
          notices := notices + [Notice(k, None)];
          assert notices == old(notices) + (cleared + [Notice(k, None)]);
        } else {
          assert notices == old(notices) + (cleared + []);
        }
      }
      assert keys[..|keys|] == keys;
    }

    /** Unassigns definition `d` if it is a key, null value included:
        notifies `(d, null)` and deletes only that key. An absent key changes
        nothing, so a second call is a no-op. The selection is untouched. */
    method HandleRemoveTerm(d: int)
      modifies this`mapping, this`notices
      ensures mapping == RemoveResult(old(mapping), d)
      ensures d in old(mapping) ==> notices == old(notices) + [Notice(d, None)]
      ensures d !in old(mapping) ==> notices == old(notices)
    {
      if d in mapping {
        notices := notices + [Notice(d, None)];
        mapping := mapping - {d};
      }
    }

    /** Returns term `t` to the pool: the first definition (in key order)
        holding `t` is unassigned and the scan stops; if none holds it,
        nothing happens. */
    method HandleDropToAvailable(t: int)
      modifies this`mapping, this`notices
      ensures FirstHolder(old(mapping), t).None? ==> mapping == old(mapping) && notices == old(notices)
      ensures FirstHolder(old(mapping), t).Some? ==>
                var k := FirstHolder(old(mapping), t).value;
                mapping == RemoveResult(old(mapping), k) && notices == old(notices) + [Notice(k, None)]
    {
      var keys := Ascending(mapping.Keys);
      var i := 0;
      while i < |keys|
        invariant 0 <= i <= |keys|
        invariant mapping == old(mapping) && notices == old(notices)
        invariant FirstHolderIn(mapping, t, keys) == FirstHolderIn(mapping, t, keys[i..])
      {
        var k := keys[i];
        if mapping[k] == Some(t) {
          HandleRemoveTerm(k);
          break;
        }
        assert keys[i..][1..] == keys[i + 1..];
        i := i + 1;
      }
    }

    /** Swapped orientation, drop on the definition pool: a definition that
        is a key is unassigned. */
    method DropDefinitionToAvailable(d: int)
      modifies this`mapping, this`notices
      ensures d in old(mapping) ==> mapping == RemoveResult(old(mapping), d) && notices == old(notices) + [Notice(d, None)]
      ensures d !in old(mapping) ==> mapping == old(mapping) && notices == old(notices)
    {
      if d in mapping {
        HandleRemoveTerm(d);
      }
    }

    /** The swap button flips the orientation and nothing else. */
    method ToggleSwapped()
      modifies this`swapped
      ensures swapped == !old(swapped)
      ensures mapping == old(mapping) && selected == old(selected) && notices == old(notices)
    {
      swapped := !swapped;
    }

    /** A click on drop zone `zone` does nothing without a selection; with
        one, it assigns the selected item there and clears the selection. */
    method ClickZone(zone: int)
      modifies this`mapping, this`notices, this`selected
      ensures old(selected).None? ==>
                mapping == old(mapping) && notices == old(notices) && selected == None
      ensures old(selected).Some? ==>
                var p := ZonePair(old(swapped), zone, old(selected).value);
                mapping == DropResult(old(mapping), p.0, p.1) &&
                notices == old(notices) + DropNotices(old(mapping), p.0, p.1) &&
                selected == None
    {
      if selected.Some? {
        var p := ZonePair(swapped, zone, selected.value);
        HandleDrop(p.0, p.1);
      }
    }

    /** A drop of `payload` on drop zone `zone`: ignored when it is NaN,
        otherwise an assignment, which also clears the selection. */
    method DropOnZone(zone: int, payload: string)
      modifies this`mapping, this`notices, this`selected
      ensures ZoneDrop(old(swapped), zone, payload).None? ==>
                mapping == old(mapping) && notices == old(notices) && selected == old(selected)
      ensures ZoneDrop(old(swapped), zone, payload).Some? ==>
                var p := ZoneDrop(old(swapped), zone, payload).value;
                mapping == DropResult(old(mapping), p.0, p.1) &&
                notices == old(notices) + DropNotices(old(mapping), p.0, p.1) &&
                selected == None
    {
      var drop := ZoneDrop(swapped, zone, payload);
      if drop.Some? {
        HandleDrop(drop.value.0, drop.value.1);
      }
    }

    /** A drop of `payload` on the available pool: ignored unless it names a
        used item; otherwise one definition is unassigned. The selection is
        untouched. */
    method DropOnPool(payload: string)
      modifies this`mapping, this`notices
      ensures PoolDrop(old(mapping), swapped, payload).None? ==>
                mapping == old(mapping) && notices == old(notices)
      ensures PoolDrop(old(mapping), swapped, payload).Some? ==>
                var k := PoolDrop(old(mapping), swapped, payload).value;
                mapping == RemoveResult(old(mapping), k) && notices == old(notices) + [Notice(k, None)]
    {
      var item := ParseInt(payload);
      var used := if swapped then UsedDefinitions(mapping) else UsedTerms(mapping);
      if item.Some? && item.value in used {
        if swapped {
          DropDefinitionToAvailable(item.value);
        } else {
          HandleDropToAvailable(item.value);
        }
      }
    }

    /** A click on the chip placed in zone `zone` unassigns its definition
        without touching the selection; a zone showing no chip has nothing
        to click. */
    method ClickChip(zone: int)
      modifies this`mapping, this`notices
      ensures ChipOwner(old(mapping), swapped, terms, definitions, zone).None? ==>
                mapping == old(mapping) && notices == old(notices)
      ensures ChipOwner(old(mapping), swapped, terms, definitions, zone).Some? ==>
                var k := ChipOwner(old(mapping), swapped, terms, definitions, zone).value;
                mapping == RemoveResult(old(mapping), k) && notices == old(notices) + [Notice(k, None)]
    {
      if !swapped {
        if NormalZoneItem(mapping, terms, zone).Some? {
          HandleRemoveTerm(zone);
        }
      } else if SwappedZoneItem(mapping, definitions, zone).Some? {
        var holder := FirstHolder(mapping, zone);
        if holder.Some? {
          HandleRemoveTerm(holder.value);
        }
      }
    }
  }
}
