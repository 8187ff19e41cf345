/** The pool of items not yet placed in a drop zone: the items whose index is
    not in the used set, ordered by text. `localeCompare` is replaced by the
    lexicographic order on code points, which is a total order too; the sort
    is stable, like `Array.prototype.sort`. */
module AvailableItems {

  /** The part of a term or a definition the pool shows. */
  datatype Item = Item(index: int, text: string)

  /** Lexicographic order on code points, a prefix before its extensions. */
  predicate TextLe(a: string, b: string)
    decreases |a|
  {
    a == [] || (b != [] && (a[0] < b[0] || (a[0] == b[0] && TextLe(a[1..], b[1..]))))
  }

  lemma {:induction false} TextLeTotal(a: string, b: string)
    ensures TextLe(a, b) || TextLe(b, a)
    decreases |a|
  {
    if a != [] && b != [] && a[0] == b[0] {
      TextLeTotal(a[1..], b[1..]);
    }
  }

  lemma {:induction false} TextLeTransitive(a: string, b: string, c: string)
    requires TextLe(a, b) && TextLe(b, c)
    ensures TextLe(a, c)
    decreases |a|
  {
    if a != [] && a[0] == b[0] && b[0] == c[0] {
      TextLeTransitive(a[1..], b[1..], c[1..]);
    }
  }

  lemma {:induction false} TextLeReflexive(a: string)
    ensures TextLe(a, a)
    decreases |a|
  {
    if a != [] {
      TextLeReflexive(a[1..]);
    }
  }

  /** Texts ordered both ways are equal: with totality and transitivity,
      `TextLe` is a total order. */
  lemma {:induction false} TextLeAntisymmetric(a: string, b: string)
    requires TextLe(a, b) && TextLe(b, a)
    ensures a == b
    decreases |a|
  {
    if a != [] {
      TextLeAntisymmetric(a[1..], b[1..]);
      assert a == [a[0]] + a[1..] && b == [b[0]] + b[1..];
    }
  }

  /** Every item is ordered before its successor. */
  predicate SortedByText(s: seq<Item>) {
    forall i :: 0 < i < |s| ==> TextLe(s[i - 1].text, s[i].text)
  }

  /** `items.filter((item) => !used.includes(item.index))`. */
  function Unused(items: seq<Item>, used: set<int>): (r: seq<Item>)
    ensures forall x :: x in r <==> x in items && x.index !in used
    ensures |r| <= |items|
  {
    if items == [] then []
    else
      var rest := Unused(items[1..], used);
      assert forall x :: x in items <==> x == items[0] || x in items[1..];
      if items[0].index in used then rest else [items[0]] + rest
  }

  /** The filter keeps every item with an unused index as often as it
      occurs, and no other. */
  lemma {:induction false} UnusedCounts(items: seq<Item>, used: set<int>)
    ensures forall x :: multiset(Unused(items, used))[x] == if x.index in used then 0 else multiset(items)[x]
  {
    if items != [] {
      UnusedCounts(items[1..], used);
      assert items == [items[0]] + items[1..];
    }
  }

  /** Every position one further on. */
  function Shift(ps: seq<int>): (r: seq<int>)
    ensures |r| == |ps|
    ensures forall k :: 0 <= k < |ps| ==> r[k] == ps[k] + 1
  {
    if ps == [] then [] else [ps[0] + 1] + Shift(ps[1..])
  }

  /** The positions of `items` the filter keeps, one per kept item. */
  function UnusedPositions(items: seq<Item>, used: set<int>): (r: seq<int>)
    ensures |r| == |Unused(items, used)|
  {
    if items == [] then []
    else
      var shifted := Shift(UnusedPositions(items[1..], used));
      if items[0].index in used then shifted else [0] + shifted
  }

  /** The `k`-th kept position holds the `k`-th kept item: the filter keeps
      items, it does not make them up. */
  lemma {:induction false} UnusedPick(items: seq<Item>, used: set<int>, k: int)
    requires 0 <= k < |UnusedPositions(items, used)|
    ensures 0 <= UnusedPositions(items, used)[k] < |items|
    ensures items[UnusedPositions(items, used)[k]] == Unused(items, used)[k]
  {
    var tail := items[1..];
    var rest := UnusedPositions(tail, used);
    var off := if items[0].index in used then 0 else 1;
    if k >= off {
      UnusedPick(tail, used, k - off);
      assert UnusedPositions(items, used)[k] == rest[k - off] + 1;
      assert Unused(items, used)[k] == Unused(tail, used)[k - off];
      assert tail[rest[k - off]] == items[rest[k - off] + 1];
    }
  }

  /** The kept positions are strictly increasing: the filter keeps the
      input order. */
  lemma {:induction false} UnusedOrdered(items: seq<Item>, used: set<int>)
    ensures forall k :: 0 <= k < |UnusedPositions(items, used)| ==> 0 <= UnusedPositions(items, used)[k] < |items|
    ensures forall k, l :: 0 <= k < l < |UnusedPositions(items, used)| ==>
              UnusedPositions(items, used)[k] < UnusedPositions(items, used)[l]
  {
    if items != [] {
      var rest := UnusedPositions(items[1..], used);
      UnusedOrdered(items[1..], used);
      var shifted := Shift(rest);
      if items[0].index !in used {
        var idx := [0] + shifted;
        assert UnusedPositions(items, used) == idx;
        assert forall k :: 0 < k < |idx| ==> idx[k] == shifted[k - 1];
      }
    }
  }

  /** Every item with an unused index is kept. */
  lemma {:induction false} UnusedKeepsAll(items: seq<Item>, used: set<int>)
    ensures forall j :: 0 <= j < |items| && items[j].index !in used ==> j in UnusedPositions(items, used)
  {
    if items != [] {
      var tail := items[1..];
      UnusedKeepsAll(tail, used);
      var rest := UnusedPositions(tail, used);
      var idx := UnusedPositions(items, used);
      var off := if items[0].index in used then 0 else 1;
      forall j | 0 < j < |items| && items[j].index !in used
        ensures j in idx
      {
        assert tail[j - 1] == items[j];
        var k :| 0 <= k < |rest| && rest[k] == j - 1;
        assert idx[k + off] == j;
      }
    }
  }

  /** Puts `x` before the first item it is ordered before; an item of equal
      text stays behind `x`, which keeps the sort stable. */
  function Insert(x: Item, s: seq<Item>): (r: seq<Item>)
  {
    if s == [] || TextLe(x.text, s[0].text) then [x] + s else [s[0]] + Insert(x, s[1..])
  }

  /** Inserting adds `x` and keeps every other item. */
  lemma {:induction false} InsertPermutes(x: Item, s: seq<Item>)
    ensures multiset(Insert(x, s)) == multiset(s) + multiset{x}
  {
    if s != [] && !TextLe(x.text, s[0].text) {
      InsertPermutes(x, s[1..]);
      assert s == [s[0]] + s[1..];
    }
  }

  /** Inserting into a sorted sequence keeps it sorted. */
  lemma {:induction false} InsertSorted(x: Item, s: seq<Item>)
    requires SortedByText(s)
    ensures SortedByText(Insert(x, s))
  {
    if s != [] && !TextLe(x.text, s[0].text) {
      TextLeTotal(x.text, s[0].text);
      var rest := s[1..];
      InsertSorted(x, rest);
      var r := Insert(x, s);
      var tail := Insert(x, rest);
      assert r == [s[0]] + tail;
      assert tail[0] == x || tail[0] == rest[0];
      forall i | 0 < i < |r|
        ensures TextLe(r[i - 1].text, r[i].text)
      {
        if i > 1 {
          assert r[i - 1] == tail[i - 2] && r[i] == tail[i - 1];
        }
      }
    }
  }

  /** The items of `s` whose text is `t`, in the order of `s`. */
  function WithText(s: seq<Item>, t: string): seq<Item>
  {
    if s == [] then []
    else (if s[0].text == t then [s[0]] else []) + WithText(s[1..], t)
  }

  /** `x` lands ahead of every item of its own text already in `s`. */
  lemma {:induction false} InsertStable(x: Item, s: seq<Item>, t: string)
    ensures WithText(Insert(x, s), t) == (if x.text == t then [x] else []) + WithText(s, t)
  {
    var mine: seq<Item> := if x.text == t then [x] else [];
    if s != [] && !TextLe(x.text, s[0].text) {
      TextLeReflexive(x.text);
      assert s[0].text != x.text;
      var head: seq<Item> := if s[0].text == t then [s[0]] else [];
      var rest := Insert(x, s[1..]);
      InsertStable(x, s[1..], t);
      assert ([s[0]] + rest)[1..] == rest;
      calc {
        WithText(Insert(x, s), t);
        WithText([s[0]] + rest, t);
        head + WithText(rest, t);
        head + (mine + WithText(s[1..], t));
        { assert head == [] || mine == []; }
        mine + (head + WithText(s[1..], t));
        mine + WithText(s, t);
      }
    } else {
      assert ([x] + s)[1..] == s;
    }
  }

  /** The sort is stable: the items sharing a text keep their order. */
  lemma {:induction false} SortStable(s: seq<Item>, t: string)
    ensures WithText(SortByText(s), t) == WithText(s, t)
  {
    if s != [] {
      SortStable(s[1..], t);
      InsertStable(s[0], SortByText(s[1..]), t);
    }
  }

  /** Insertion sort by text. */
  function SortByText(s: seq<Item>): (r: seq<Item>)
    ensures SortedByText(r)
    ensures multiset(r) == multiset(s)
  {
    if s == [] then []
    else
      var rest := SortByText(s[1..]);
      InsertSorted(s[0], rest);
      InsertPermutes(s[0], rest);
      assert s == [s[0]] + s[1..];
      Insert(s[0], rest)
  }

  /** The pool: exactly the unused items, each as often as it occurs, ordered
      by text. */
  function Available(items: seq<Item>, used: set<int>): (r: seq<Item>)
    ensures SortedByText(r)
    ensures multiset(r) == multiset(Unused(items, used))
    ensures forall x :: x in r <==> x in items && x.index !in used
  {
    var u := Unused(items, used);
    var r := SortByText(u);
    assert forall x :: x in r <==> x in multiset(r);
    assert forall x :: x in u <==> x in multiset(u);
    r
  }

  /** Any two items of the pool, not only neighbours, are in text order. */
  lemma {:induction false} AvailableOrdered(items: seq<Item>, used: set<int>, i: int, j: int)
    requires 0 <= i <= j < |Available(items, used)|
    ensures TextLe(Available(items, used)[i].text, Available(items, used)[j].text)
    decreases j - i
  {
    var r := Available(items, used);
    if i == j {
      TextLeReflexive(r[i].text);
    } else {
      AvailableOrdered(items, used, i + 1, j);
      TextLeTransitive(r[i].text, r[i + 1].text, r[j].text);
    }
  }

  /** An item whose index becomes used leaves the pool; none joins it. */
  lemma AvailableShrinks(items: seq<Item>, used: set<int>, more: set<int>)
    requires used <= more
    ensures forall x :: x in Available(items, more) ==> x in Available(items, used)
    ensures |Available(items, more)| <= |Available(items, used)|
  {
    UnusedShrinks(items, used, more);
    var a := Available(items, more);
    var b := Available(items, used);
    assert |a| == |multiset(a)| == |Unused(items, more)|;
    assert |b| == |multiset(b)| == |Unused(items, used)|;
  }

  lemma {:induction false} UnusedShrinks(items: seq<Item>, used: set<int>, more: set<int>)
    requires used <= more
    ensures |Unused(items, more)| <= |Unused(items, used)|
  {
    if items != [] {
      UnusedShrinks(items[1..], used, more);
    }
  }
}
