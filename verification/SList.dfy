/** The intrusive singly linked list of `sl_slist.c`: heap nodes whose `node` fields are rewritten
    through a cursor that is either the head slot or the `node` slot of some item. */
module SList {
  import opened BubbleOrder

  class Node<T> {
    const data: T         // the structure the link is embedded in
    var node: Node?<T>

    constructor (data: T)
      ensures this.data == data && node == null
    {
      this.data := data;
      node := null;
    }
  }

  /** A `sl_slist_node_t **`: the address of the head pointer or of some item's link. */
  datatype Slot<!T> = HeadSlot | LinkOf(item: Node<T>)

  // ----- The mathematical list each operation is compared with -----

  ghost function At<T>(s: seq<Node<T>>, i: nat): Node?<T> {
    if i < |s| then s[i] else null
  }

  ghost function InsertAfter<T>(s: seq<T>, pos: T, item: T): seq<T>
    requires pos in s
  {
    if s[0] == pos then [pos, item] + s[1..] else [s[0]] + InsertAfter(s[1..], pos, item)
  }

  ghost function Without<T>(s: seq<T>, item: T): seq<T> {
    if s == [] then [] else if s[0] == item then s[1..] else [s[0]] + Without(s[1..], item)
  }

  class SList<T> {
    var head: Node?<T>
    ghost var items: seq<Node<T>>
    ghost var repr: set<Node<T>>

    /** The links spell out `items` and end with null; no item occurs twice, so the list is acyclic.
        `repr` holds the nodes in the list: an operation adds the item it inserts and drops the
        item it takes out. */
    ghost predicate Valid()
      reads this, repr
    {
      && (forall i :: 0 <= i < |items| ==> items[i] in repr)
      && head == At(items, 0)
      && (forall i {:trigger items[i].node} :: 0 <= i < |items| ==> items[i].node == At(items, i + 1))
      && Distinct(items)
    }

    function Load(p: Slot<T>): Node?<T>
      reads this, if p.LinkOf? then {p.item} else {}
    {
      match p
      case HeadSlot => head
      case LinkOf(item) => item.node
    }

    method Store(p: Slot<T>, v: Node?<T>)
      modifies if p.HeadSlot? then {this} else {}, if p.LinkOf? then {p.item} else {}
      ensures p.HeadSlot? ==> head == v && items == old(items) && repr == old(repr)
      ensures p.LinkOf? ==> p.item.node == v
    {
      match p
      case HeadSlot => head := v;
      case LinkOf(item) => item.node := v;
    }

    /** The slot that holds item `i`, or the final null when `i` is the length. */
    ghost function SlotAt(i: nat): Slot<T>
      requires i <= |items|
      reads this
    {
      if i == 0 then HeadSlot else LinkOf(items[i - 1])
    }

    constructor Init()
      ensures Valid() && items == [] && repr == {}
    {
      head := null;
      items, repr := [], {};
    }

    method Push(item: Node<T>)
      requires Valid() && item !in items
      modifies this, item
      ensures Valid() && items == [item] + old(items) && repr == old(repr) + {item}
    {
      item.node := head;
      head := item;
      items, repr := [item] + items, {item} + repr;
      assert forall i :: 0 < i < |items| ==> items[i] == old(items)[i - 1];
    }

    method PushBack(item: Node<T>)
      requires Valid() && item !in items
      modifies this, repr, item
      ensures Valid() && items == old(items) + [item] && repr == old(repr) + {item}
    {
      var p: Slot<T> := HeadSlot;
      ghost var i: nat := 0;
      while Load(p) != null
        invariant i <= |items| && p == SlotAt(i)
        invariant Valid() && items == old(items) && repr == old(repr)
        invariant forall k :: 0 <= k < |items| ==> items[k].node == old(items[k].node)
        decreases |items| - i
      {
        assert Load(p) == At(items, i);
        p := LinkOf(Load(p));
        i := i + 1;
      }
      assert Load(p) == At(items, i);
      item.node := null;
      Store(p, item);
      items, repr := items + [item], repr + {item};
    }

    method Pop() returns (item: Node?<T>)
      requires Valid()
      modifies this, repr
      ensures Valid()
      ensures old(items) == [] ==> item == null && items == [] && repr == old(repr)
      ensures old(items) != [] ==>
                && item == old(items)[0] && item.node == null
                && items == old(items)[1..] && repr == old(repr) - {item}
    {
      item := head;
      if item == null {
        return null;
      }
      head := item.node;
      item.node := null;
      items, repr := items[1..], repr - {item};
      assert forall i :: 0 <= i < |items| ==> items[i] == old(items)[i + 1];
    }

    /** `sl_slist_insert` never sees the head: `list` only says which list `pos` belongs to. */
    static method Insert(item: Node<T>, pos: Node<T>, ghost list: SList<T>)
      requires list.Valid() && pos in list.items && item !in list.items
      modifies list`items, list`repr, item`node, pos`node
      ensures list.Valid() && list.items == InsertAfter(old(list.items), pos, item)
      ensures list.repr == old(list.repr) + {item}
    {
      item.node := pos.node;
      pos.node := item;
      ghost var s := list.items;
      ghost var k := IndexOf(s, pos);
      InsertAfterIndex(s, k, item);
      list.items, list.repr := InsertAfter(s, pos, item), list.repr + {item};
      InsertedStaysDistinct(s, k, item);
      forall i | 0 <= i < |list.items| ensures list.items[i].node == At(list.items, i + 1) {
        if i < k {
          assert list.items[i] == s[i] && s[i] != s[k];
        } else if i > k + 1 {
          assert list.items[i] == s[i - 1] && s[i - 1] != s[k];
        }
      }
    }

    method Remove(item: Node<T>)
      requires Valid()
      modifies this, repr
      ensures Valid() && items == Without(old(items), item)
      ensures repr == if item in old(items) then old(repr) - {item} else old(repr)
      ensures item in old(items) ==> item.node == old(item.node)
    {
      var p: Slot<T> := HeadSlot;
      ghost var i: nat := 0;
      while Load(p) != null
        invariant i <= |items| && p == SlotAt(i)
        invariant Valid() && items == old(items) && repr == old(repr)
        invariant forall k :: 0 <= k < |items| ==> items[k].node == old(items[k].node)
        invariant item !in items[..i]
        decreases |items| - i
      {
        assert Load(p) == At(items, i);
        if Load(p) == item {
          WithoutIndex(items, i);
          Unlink(p, item, i);
          return;
        }
        p := LinkOf(Load(p));
        i := i + 1;
      }
      assert Load(p) == At(items, i);
      assert items[..i] == items;
      WithoutAbsent(items, item);
    }

    /** The store that takes item `i` out, through the slot that points to it. */
    method Unlink(p: Slot<T>, item: Node<T>, ghost i: nat)
      requires Valid() && i < |items| && items[i] == item && p == SlotAt(i)
      modifies this, if i > 0 then {items[i - 1]} else {}
      ensures Valid() && items == old(items)[..i] + old(items)[i + 1..] && repr == old(repr) - {item}
      ensures item.node == old(item.node)
    {
      ghost var s := items;
      Store(p, item.node);
      items, repr := s[..i] + s[i + 1..], repr - {item};
      RemovedStaysDistinct(s, i);
      forall k | 0 <= k < |items| ensures items[k].node == At(items, k + 1) {
        if k < i {
          assert items[k] == s[k];
          assert k < i - 1 ==> s[k] != s[i - 1];
        } else {
          assert items[k] == s[k + 1];
          assert i > 0 ==> s[k + 1] != s[i - 1];
        }
      }
    }

    /** Exchange item `i` and its successor through the slot that points to item `i`; the cursor
        moves to the link of the item now in front. */
    method SwapNeighbours(p: Slot<T>, ghost i: nat) returns (next: Slot<T>)
      requires Valid() && i + 1 < |items| && p == SlotAt(i)
      modifies this, items[i], items[i + 1], if i > 0 then {items[i - 1]} else {}
      ensures Valid() && items == Swapped(old(items), i) && |items| == |old(items)| && repr == old(repr)
      ensures next == SlotAt(i + 1)
    {
      ghost var s := items;
      assert Load(p) == s[i] && s[i].node == At(s, i + 1);
      var left, right := Load(p), Load(p).node;
      assert s[i] != s[i + 1];
      var tmp := right.node;
      right.node := left;
      left.node := tmp;
      Store(p, right);
      next := LinkOf(right);
      items := Swapped(s, i);
      SwappedStaysDistinct(s, i);
      forall k | 0 <= k < |items| ensures items[k].node == At(items, k + 1) {
        if k + 1 < i || i + 1 < k {
          assert items[k] == s[k] && s[k] != s[i] && s[k] != s[i + 1];
          assert i > 0 ==> s[k] != s[i - 1];
          assert At(items, k + 1) == At(s, k + 1);
        } else if k + 1 == i {
          assert items[k] == s[k] && items[k].node == right;
        } else if k == i {
          assert items[k] == right && right.node == left;
        } else {
          assert items[k] == left && left.node == At(s, i + 2);
        }
      }
    }

    /** The body of the outer loop: walk the list once, exchanging neighbours out of order. Any
        comparison will do; when it orders any two different items, every swap removes one
        inversion. */
    method SortPass(cmp: (Node<T>, Node<T>) -> bool)
      returns (swapped: bool, ghost comparisons: nat, ghost swaps: nat)
      requires Valid()
      modifies this, repr
      ensures Valid() && repr == old(repr) && items == Pass(cmp, old(items)) && Permutes(old(items), items)
      ensures swapped <==> !AdjacentSorted(cmp, old(items))
      ensures !swapped ==> swaps == 0 && items == old(items)
      ensures swapped ==> swaps > 0
      ensures comparisons == Max(0, |items| - 1)
      ensures Total(cmp, old(items)) ==> Inversions(cmp, old(items)) == Inversions(cmp, items) + swaps
    {
      hide MidPass, Inversions, Pass, Total, AdjacentSorted, Permutes, Swapped, Distinct;
      swapped := false;
      var p: Slot<T> := HeadSlot;
      comparisons, swaps := 0, 0;
      PermutesAll(items, items, items);
      StartOfPass(cmp, items);
      while Load(p) != null && Load(p).node != null
        invariant Valid() && repr == old(repr) && Permutes(old(items), items)
        invariant MidPass(cmp, old(items), items, comparisons, swaps)
        invariant comparisons <= Max(0, |items| - 1) && p == SlotAt(comparisons)
        invariant swapped <==> swaps > 0
        decreases |items| - comparisons
      {
        ghost var i := comparisons;
        assert Load(p) == At(items, i) && items[i].node == At(items, i + 1);
        var left, right := Load(p), Load(p).node;
        var ordered := cmp(left, right);
        if !ordered {
          SwapStep(cmp, old(items), items, i, swaps);
          PermutesAll(old(items), items, Swapped(items, i));
          p := SwapNeighbours(p, i);
          swapped, swaps := true, swaps + 1;
        } else {
          KeepStep(cmp, old(items), items, i, swaps);
          p := LinkOf(left);
        }
        comparisons := i + 1;
      }
      assert Load(p) == At(items, comparisons);
      EndOfPass(cmp, old(items), items, comparisons, swaps);
    }

    /** `cmp` says whether two items are in order; it must order any two different items.
        `passes` counts the runs of the outer loop, `comparisons` the calls of `cmp` and
        `swaps` the exchanges. */
    method Sort(cmp: (Node<T>, Node<T>) -> bool)
      returns (ghost passes: nat, ghost comparisons: nat, ghost swaps: nat)
      requires Valid() && Total(cmp, items)
      modifies this, repr
      ensures Valid() && repr == old(repr)
      ensures SortResult(cmp, old(items), items, passes, comparisons, swaps)
    {
      hide SortProgress, SortResult, Total, Inversions, AdjacentSorted, Permutes, Pass;
      var swapped := true;
      passes, comparisons, swaps := 0, 0, 0;
      assert Distinct(items);
      SortBegins(cmp, items);
      while swapped
        invariant Valid() && repr == old(repr)
        invariant SortProgress(cmp, old(items), items, passes, comparisons, swaps, swapped)
        decreases Inversions(cmp, items), swapped
      {
        ghost var before := items;
        ghost var compared, exchanged;
        TotalSoFar(cmp, old(items), items, passes, comparisons, swaps);
        swapped, compared, exchanged := SortPass(cmp);
        SortContinues(cmp, old(items), before, passes, comparisons, swaps, swapped, exchanged);
        passes, comparisons, swaps := passes + 1, comparisons + compared, swaps + exchanged;
      }
      SortEnds(cmp, old(items), items, passes, comparisons, swaps);
    }
  }

  ghost function Max(a: int, b: int): int {
    if a < b then b else a
  }

  ghost function Swapped<T>(s: seq<T>, i: nat): seq<T>
    requires i + 1 < |s|
  {
    s[..i] + [s[i + 1], s[i]] + s[i + 2..]
  }

  lemma SwappedStaysDistinct<T>(s: seq<T>, i: nat)
    requires i + 1 < |s| && Distinct(s)
    ensures Distinct(Swapped(s, i))
  {
    var t := Swapped(s, i);
    forall j, k | 0 <= j < k < |t| ensures t[j] != t[k] {
      assert t[j] == s[if j == i then i + 1 else if j == i + 1 then i else j];
      assert t[k] == s[if k == i then i + 1 else if k == i + 1 then i else k];
    }
  }

  // ----- The inner loop of the sort -----

  /** Halfway through the pass that began with `start`: the cursor is at item `i` of `s` and `n`
      swaps have been made. */
  ghost predicate MidPass<T>(cmp: (T, T) -> bool, start: seq<T>, s: seq<T>, i: nat, n: nat) {
    && i <= |s|
    && Pass(cmp, start) == s[..i] + Pass(cmp, s[i..])
    && (Total(cmp, start) ==> Inversions(cmp, start) == Inversions(cmp, s) + n)
    && (n == 0 ==> s == start && forall k, l :: 0 <= k < i && l == k + 1 < |s| ==> cmp(s[k], s[l]))
    && (n > 0 ==> !AdjacentSorted(cmp, start))
  }

  /** Two neighbours that are not in order are in order the other way round. */
  lemma TurnedRound<T>(cmp: (T, T) -> bool, start: seq<T>, s: seq<T>, i: nat)
    requires Total(cmp, start) && Permutes(start, s) && Distinct(s)
    requires i + 1 < |s| && !cmp(s[i], s[i + 1])
    ensures cmp(s[i + 1], s[i])
  {
    SameItems(s, start);
    assert s[i] != s[i + 1];
  }

  lemma StartOfPass<T>(cmp: (T, T) -> bool, s: seq<T>)
    ensures MidPass(cmp, s, s, 0, 0)
  {
  }

  lemma KeepStep<T>(cmp: (T, T) -> bool, start: seq<T>, s: seq<T>, i: nat, n: nat)
    requires MidPass(cmp, start, s, i, n) && i + 1 < |s| && cmp(s[i], s[i + 1])
    ensures MidPass(cmp, start, s, i + 1, n)
  {
    var t := s[i..];
    assert t[1..] == s[i + 1..];
    assert Pass(cmp, t) == [t[0]] + Pass(cmp, t[1..]);
    assert s[..i] + [t[0]] == s[..i + 1];
  }

  lemma SwapStep<T>(cmp: (T, T) -> bool, start: seq<T>, s: seq<T>, i: nat, n: nat)
    requires MidPass(cmp, start, s, i, n) && i + 1 < |s|
    requires Permutes(start, s) && Distinct(s) && !cmp(s[i], s[i + 1])
    ensures MidPass(cmp, start, Swapped(s, i), i + 1, n + 1)
    ensures Permutes(s, Swapped(s, i))
  {
    hide Inversions, Pass, Permutes, Distinct, Total;
    var a, x, y, b := s[..i], s[i], s[i + 1], s[i + 2..];
    Around(s, i);
    AfterSwap(a, x, y, b);
    PassSwaps(cmp, x, y, b);
    if Total(cmp, start) {
      TurnedRound(cmp, start, s, i);
      SwapRemovesOneInversion(cmp, a, x, y, b);
    }
    assert a + ([y] + Pass(cmp, [x] + b)) == (a + [y]) + Pass(cmp, [x] + b);
  }

  lemma Around<T>(s: seq<T>, i: nat)
    requires i + 1 < |s|
    ensures s[i..] == [s[i], s[i + 1]] + s[i + 2..]
    ensures s == s[..i] + [s[i], s[i + 1]] + s[i + 2..]
  {
  }

  lemma AfterSwap<T>(a: seq<T>, x: T, y: T, b: seq<T>)
    ensures var t := a + [y, x] + b; t[|a| + 1..] == [x] + b && t[..|a| + 1] == a + [y]
    ensures Permutes(a + [x, y] + b, a + [y, x] + b)
  {
    assert multiset([y, x]) == multiset([x, y]);
  }

  lemma PassSwaps<T>(cmp: (T, T) -> bool, x: T, y: T, b: seq<T>)
    requires !cmp(x, y)
    ensures Pass(cmp, [x, y] + b) == [y] + Pass(cmp, [x] + b)
  {
    var t := [x, y] + b;
    assert t[1..] == [y] + b && t[1..][1..] == b && ([x] + b)[1..] == b;
  }

  lemma EndOfPass<T>(cmp: (T, T) -> bool, start: seq<T>, s: seq<T>, i: nat, n: nat)
    requires MidPass(cmp, start, s, i, n) && |s| <= i + 1
    ensures s == Pass(cmp, start)
    ensures n == 0 <==> AdjacentSorted(cmp, start)
    ensures n == 0 ==> s == start
    ensures Total(cmp, start) ==> Inversions(cmp, start) == Inversions(cmp, s) + n
  {
    var t := s[i..];
    assert Pass(cmp, t) == t;
    assert s[..i] + t == s;
  }

  // ----- The outer loop of the sort -----

  /** No pass before pass `k` found the list in order. */
  ghost predicate RanOn<T>(cmp: (T, T) -> bool, s: seq<T>, k: int) {
    forall j: nat :: j < k ==> !AdjacentSorted(cmp, Passes(cmp, j, s))
  }

  ghost predicate SortProgress<T>(cmp: (T, T) -> bool, start: seq<T>, s: seq<T>,
                                  passes: nat, comparisons: nat, swaps: nat, swapped: bool) {
    && Permutes(start, s) && Distinct(start) && Total(cmp, start)
    && s == Passes(cmp, passes, start)
    && RanOn(cmp, start, if swapped then passes else passes - 1)
    && (if swapped then true else passes > 0 && AdjacentSorted(cmp, s))
    && comparisons == Times(passes, Max(0, |start| - 1))
    && Inversions(cmp, start) == Inversions(cmp, s) + swaps
  }

  /** What sorting `start` leaves: neighbours in order after `passes` passes, the last of them the
      first that found the list in order. For a transitive comparison this is the only stable
      arrangement, reached with one swap for each pair that stood the wrong way round. */
  ghost predicate SortResult<T>(cmp: (T, T) -> bool, start: seq<T>, s: seq<T>,
                                passes: nat, comparisons: nat, swaps: nat) {
    && Permutes(start, s) && AdjacentSorted(cmp, s)
    && passes > 0 && s == Passes(cmp, passes, start) && RanOn(cmp, start, passes - 1)
    && comparisons == Times(passes, Max(0, |start| - 1))
    && swaps == Inversions(cmp, start) - Inversions(cmp, s)
    && (Transitive(cmp, start) ==>
          && Sorted(cmp, s) && Arranged(cmp, start, s)
          && passes <= Max(1, |start|)
          && swaps == Inversions(cmp, start))
  }

  ghost function Times(k: nat, m: int): int {
    k * m
  }

  lemma TimesOneMore(k: nat, m: int)
    ensures Times(k + 1, m) == Times(k, m) + m
  {
  }

  lemma SortBegins<T>(cmp: (T, T) -> bool, s: seq<T>)
    requires Distinct(s) && Total(cmp, s)
    ensures SortProgress(cmp, s, s, 0, 0, 0, true)
  {
  }

  lemma TotalSoFar<T>(cmp: (T, T) -> bool, start: seq<T>, s: seq<T>,
                      passes: nat, comparisons: nat, swaps: nat)
    requires SortProgress(cmp, start, s, passes, comparisons, swaps, true)
    ensures Total(cmp, s)
  {
    OrderingOfSameItems(cmp, start, s);
  }

  lemma RanOneMore<T>(cmp: (T, T) -> bool, s: seq<T>, k: nat, again: bool)
    requires RanOn(cmp, s, k) && (again <==> !AdjacentSorted(cmp, Passes(cmp, k, s)))
    ensures RanOn(cmp, s, if again then k + 1 else k)
  {
    if again {
      forall j: nat | j < k + 1 ensures !AdjacentSorted(cmp, Passes(cmp, j, s)) {
        assert j < k || j == k;
      }
    }
  }

  lemma SortContinues<T>(cmp: (T, T) -> bool, start: seq<T>, s: seq<T>,
                         passes: nat, comparisons: nat, swaps: nat, swapped: bool, exchanged: nat)
    requires SortProgress(cmp, start, s, passes, comparisons, swaps, true)
    requires swapped <==> !AdjacentSorted(cmp, s)
    requires !swapped ==> Pass(cmp, s) == s
    requires Inversions(cmp, s) == Inversions(cmp, Pass(cmp, s)) + exchanged
    ensures |Pass(cmp, s)| == |s| == |start|
    ensures SortProgress(cmp, start, Pass(cmp, s), passes + 1, comparisons + Max(0, |s| - 1),
                         swaps + exchanged, swapped)
  {
    hide Distinct, Total, AdjacentSorted, RanOn, Inversions, Times, Pass;
    PassPermutes(cmp, s);
    PermutesAll(start, s, Pass(cmp, s));
    SameItems(start, s);
    RanOneMore(cmp, start, passes, swapped);
    assert Passes(cmp, passes + 1, start) == Pass(cmp, s);
    TimesOneMore(passes, Max(0, |start| - 1));
  }

  lemma SortEnds<T>(cmp: (T, T) -> bool, start: seq<T>, s: seq<T>,
                    passes: nat, comparisons: nat, swaps: nat)
    requires SortProgress(cmp, start, s, passes, comparisons, swaps, false)
    ensures SortResult(cmp, start, s, passes, comparisons, swaps)
  {
    if Transitive(cmp, start) {
      BubbleSortIsStableSort(cmp, passes, start);
      NoInversionsIffSorted(cmp, s);
      var m := Max(0, |start| - 1);
      PassesSort(cmp, m, start);
      assert AdjacentSorted(cmp, Passes(cmp, m, start));
    }
  }

  // ----- The mathematical list, by index -----

  lemma {:induction false} InsertAfterIndex<T>(s: seq<T>, k: nat, item: T)
    requires k < |s| && Distinct(s)
    ensures s[k] in s && InsertAfter(s, s[k], item) == s[..k + 1] + [item] + s[k + 1..]
  {
    if k == 0 {
    } else {
      var t := s[1..];
      assert s[0] != s[k] && s[k] == t[k - 1] && Distinct(t);
      hide Distinct;
      InsertAfterIndex(t, k - 1, item);
      assert [s[0]] + (t[..k] + [item] + t[k..]) == s[..k + 1] + [item] + s[k + 1..];
    }
  }

  lemma InsertedStaysDistinct<T>(s: seq<T>, k: nat, item: T)
    requires k < |s| && Distinct(s) && item !in s
    ensures Distinct(s[..k + 1] + [item] + s[k + 1..])
  {
    var t := s[..k + 1] + [item] + s[k + 1..];
    forall i, j | 0 <= i < j < |t| ensures t[i] != t[j] {
      assert i != k + 1 ==> t[i] == s[if i <= k then i else i - 1];
      assert j != k + 1 ==> t[j] == s[if j <= k then j else j - 1];
    }
  }

  lemma RemovedStaysDistinct<T>(s: seq<T>, k: nat)
    requires k < |s| && Distinct(s)
    ensures Distinct(s[..k] + s[k + 1..])
  {
    var t := s[..k] + s[k + 1..];
    forall i, j | 0 <= i < j < |t| ensures t[i] != t[j] {
      assert t[i] == s[if i < k then i else i + 1] && t[j] == s[if j < k then j else j + 1];
    }
  }

  lemma {:induction false} WithoutIndex<T>(s: seq<T>, k: nat)
    requires k < |s| && Distinct(s)
    ensures Without(s, s[k]) == s[..k] + s[k + 1..]
  {
    if k == 0 {
    } else {
      assert s[0] != s[k] && s[k] == s[1..][k - 1];
      WithoutIndex(s[1..], k - 1);
    }
  }

  lemma {:induction false} WithoutAbsent<T>(s: seq<T>, item: T)
    requires item !in s
    ensures Without(s, item) == s
  {
    if s == [] {
    } else {
      WithoutAbsent(s[1..], item);
    }
  }
}
