/** The order theory behind `sl_slist_sort`: one pass of adjacent swaps as a function on
    sequences, what every pass keeps, how many passes it takes, and why the final arrangement
    is the stable sort. */
module BubbleOrder {

  // ----- Vocabulary -----

  ghost predicate Distinct<T>(s: seq<T>) {
    forall i, j :: 0 <= i < j < |s| ==> s[i] != s[j]
  }

  /** Any two different items are ordered one way or the other. */
  ghost predicate Total<T>(cmp: (T, T) -> bool, s: seq<T>) {
    forall x, y {:trigger cmp(x, y)} :: x in s && y in s && x != y ==> cmp(x, y) || cmp(y, x)
  }

  ghost predicate Transitive<T>(cmp: (T, T) -> bool, s: seq<T>) {
    forall x, y, z {:trigger cmp(x, y), cmp(y, z)} :: x in s && y in s && z in s && cmp(x, y) && cmp(y, z) ==> cmp(x, z)
  }

  ghost predicate Sorted<T>(cmp: (T, T) -> bool, s: seq<T>) {
    forall i, j :: 0 <= i < j < |s| ==> cmp(s[i], s[j])
  }

  /** Every item is in order with its successor: what a pass without a swap has checked. */
  ghost predicate AdjacentSorted<T>(cmp: (T, T) -> bool, s: seq<T>) {
    forall i, j :: 0 <= i < |s| - 1 && j == i + 1 ==> cmp(s[i], s[j])
  }

  /** `t` holds the items of `s`, each as often. */
  ghost predicate Permutes<T>(s: seq<T>, t: seq<T>) {
    multiset(s) == multiset(t)
  }

  ghost predicate Before<T>(s: seq<T>, x: T, y: T) {
    exists i, j :: 0 <= i < j < |s| && s[i] == x && s[j] == y
  }

  /** How many items of `s` may not stand after `x`. */
  ghost function OutOfOrder<T>(cmp: (T, T) -> bool, x: T, s: seq<T>): nat {
    if s == [] then 0 else (if cmp(x, s[0]) then 0 else 1) + OutOfOrder(cmp, x, s[1..])
  }

  /** The number of pairs that stand the wrong way round. */
  ghost function Inversions<T>(cmp: (T, T) -> bool, s: seq<T>): nat {
    if s == [] then 0 else OutOfOrder(cmp, s[0], s[1..]) + Inversions(cmp, s[1..])
  }

  // ----- One pass -----

  /** The rest of a pass: `x` is the item under the cursor and `rest` the items after it. */
  ghost function Bubble<T>(cmp: (T, T) -> bool, x: T, rest: seq<T>): seq<T> {
    if rest == [] then [x]
    else if cmp(x, rest[0]) then [x] + Bubble(cmp, rest[0], rest[1..])
    else [rest[0]] + Bubble(cmp, x, rest[1..])
  }

  ghost function Pass<T>(cmp: (T, T) -> bool, s: seq<T>): seq<T> {
    if s == [] then [] else Bubble(cmp, s[0], s[1..])
  }

  ghost function Passes<T>(cmp: (T, T) -> bool, k: nat, s: seq<T>): seq<T> {
    if k == 0 then s else Pass(cmp, Passes(cmp, k - 1, s))
  }

  // ----- The reference: what a stable sort must return -----

  /** `t` holds the items of `s`; a pair in order in `s` keeps its order in `t` (so equivalent
      items do), any other pair is turned round. */
  ghost predicate Arranged<T>(cmp: (T, T) -> bool, s: seq<T>, t: seq<T>) {
    && Permutes(s, t)
    && forall i, j :: 0 <= i < j < |s| ==>
         if cmp(s[i], s[j]) then Before(t, s[i], s[j]) else Before(t, s[j], s[i])
  }

  // ----- Membership and multisets -----

  lemma SameItems<T>(s: seq<T>, t: seq<T>)
    requires Permutes(s, t)
    ensures |s| == |t|
    ensures forall i :: 0 <= i < |s| ==> s[i] in t
    ensures forall i :: 0 <= i < |t| ==> t[i] in s
  {
    assert |multiset(s)| == |s| && |multiset(t)| == |t|;
    forall i | 0 <= i < |s| ensures s[i] in t {
      assert s[i] in multiset(t);
    }
    forall i | 0 <= i < |t| ensures t[i] in s {
      assert t[i] in multiset(s);
    }
  }

  lemma PermutesAll<T>(s: seq<T>, t: seq<T>, u: seq<T>)
    ensures Permutes(s, s)
    ensures Permutes(s, t) ==> Permutes(t, s)
    ensures Permutes(s, t) && Permutes(t, u) ==> Permutes(s, u)
  {
  }

  lemma SameMember<T>(s: seq<T>, t: seq<T>, x: T)
    requires Permutes(s, t)
    ensures x in s <==> x in t
  {
    assert x in s <==> x in multiset(s);
    assert x in t <==> x in multiset(t);
  }

  lemma IndexOf<T>(s: seq<T>, x: T) returns (i: nat)
    requires x in s
    ensures i < |s| && s[i] == x
  {
    i :| 0 <= i < |s| && s[i] == x;
  }

  lemma OrderingOfSameItems<T>(cmp: (T, T) -> bool, s: seq<T>, t: seq<T>)
    requires Permutes(s, t)
    ensures Total(cmp, s) <==> Total(cmp, t)
    ensures Transitive(cmp, s) <==> Transitive(cmp, t)
  {
    SameItems(s, t);
  }

  lemma {:induction false} DistinctMultiplicity<T>(s: seq<T>)
    ensures Distinct(s) <==> forall x :: x in s ==> multiset(s)[x] == 1
  {
    if s == [] {
    } else {
      var r := s[1..];
      assert s == [s[0]] + r;
      DistinctMultiplicity(r);
      assert multiset(s) == multiset{s[0]} + multiset(r);
      if Distinct(s) {
        assert s[0] !in r;
        assert Distinct(r);
      }
      if forall x :: x in s ==> multiset(s)[x] == 1 {
        assert multiset(s)[s[0]] == 1;
        assert s[0] !in multiset(r);
        forall x | x in r ensures multiset(r)[x] == 1 {
          assert x in s;
          assert x in multiset(r);
        }
        assert Distinct(r);
      }
    }
  }

  lemma DistinctOfSameItems<T>(s: seq<T>, t: seq<T>)
    requires Permutes(s, t) && Distinct(s)
    ensures Distinct(t)
  {
    DistinctMultiplicity(s);
    DistinctMultiplicity(t);
    SameItems(s, t);
  }

  lemma {:induction false} BubblePermutes<T>(cmp: (T, T) -> bool, x: T, rest: seq<T>)
    ensures Permutes([x] + rest, Bubble(cmp, x, rest))
    ensures |Bubble(cmp, x, rest)| == 1 + |rest|
  {
    if rest == [] {
      assert [x] + rest == [x];
    } else {
      assert rest == [rest[0]] + rest[1..];
      BubblePermutes(cmp, x, rest[1..]);
      BubblePermutes(cmp, rest[0], rest[1..]);
      SameItems(Bubble(cmp, x, rest), [x] + rest);
    }
  }

  lemma PassPermutes<T>(cmp: (T, T) -> bool, s: seq<T>)
    ensures Permutes(s, Pass(cmp, s)) && |Pass(cmp, s)| == |s|
  {
    if s != [] {
      assert s == [s[0]] + s[1..];
      BubblePermutes(cmp, s[0], s[1..]);
    }
  }

  lemma {:induction false} PassesPermute<T>(cmp: (T, T) -> bool, k: nat, s: seq<T>)
    ensures Permutes(s, Passes(cmp, k, s)) && |Passes(cmp, k, s)| == |s|
  {
    if k == 0 {
    } else {
      PassesPermute(cmp, k - 1, s);
      PassPermutes(cmp, Passes(cmp, k - 1, s));
    }
  }

  // ----- Inversions -----

  lemma {:induction false} OutOfOrderConcat<T>(cmp: (T, T) -> bool, x: T, a: seq<T>, b: seq<T>)
    ensures OutOfOrder(cmp, x, a + b) == OutOfOrder(cmp, x, a) + OutOfOrder(cmp, x, b)
  {
    if a == [] {
      assert a + b == b;
    } else {
      assert (a + b)[1..] == a[1..] + b;
      OutOfOrderConcat(cmp, x, a[1..], b);
    }
  }

  /** Swapping one neighbouring pair that is out of order removes exactly one inversion. */
  lemma {:induction false} SwapRemovesOneInversion<T>(cmp: (T, T) -> bool, a: seq<T>, x: T, y: T, b: seq<T>)
    requires !cmp(x, y) && cmp(y, x)
    ensures Inversions(cmp, a + [x, y] + b) == Inversions(cmp, a + [y, x] + b) + 1
  {
    if a == [] {
      var s, t := [x, y] + b, [y, x] + b;
      assert a + [x, y] + b == s && a + [y, x] + b == t;
      assert s[1..] == [y] + b && t[1..] == [x] + b;
      assert s[1..][1..] == b && t[1..][1..] == b;
    } else {
      var s, t := a + [x, y] + b, a + [y, x] + b;
      var u, v := a[1..] + [x, y] + b, a[1..] + [y, x] + b;
      assert s[1..] == u && t[1..] == v;
      SwapRemovesOneInversion(cmp, a[1..], x, y, b);
      OutOfOrderConcat(cmp, a[0], a[1..] + [x, y], b);
      OutOfOrderConcat(cmp, a[0], a[1..] + [y, x], b);
      OutOfOrderConcat(cmp, a[0], a[1..], [x, y]);
      OutOfOrderConcat(cmp, a[0], a[1..], [y, x]);
      assert [x, y][1..] == [y] && [y, x][1..] == [x];
    }
  }

  lemma {:induction false} NoneOutOfOrder<T>(cmp: (T, T) -> bool, x: T, s: seq<T>)
    ensures OutOfOrder(cmp, x, s) == 0 <==> forall i :: 0 <= i < |s| ==> cmp(x, s[i])
  {
    if s == [] {
    } else {
      NoneOutOfOrder(cmp, x, s[1..]);
      assert s == [s[0]] + s[1..];
    }
  }

  /** The measure is zero exactly on sorted sequences. */
  lemma {:induction false} NoInversionsIffSorted<T>(cmp: (T, T) -> bool, s: seq<T>)
    ensures Inversions(cmp, s) == 0 <==> Sorted(cmp, s)
  {
    if s == [] {
    } else {
      NoneOutOfOrder(cmp, s[0], s[1..]);
      NoInversionsIffSorted(cmp, s[1..]);
      assert s == [s[0]] + s[1..];
      if Sorted(cmp, s) {
        assert Sorted(cmp, s[1..]);
      }
    }
  }

  lemma {:induction false} AdjacentSortedIsSorted<T>(cmp: (T, T) -> bool, s: seq<T>)
    requires Transitive(cmp, s) && AdjacentSorted(cmp, s)
    ensures Sorted(cmp, s)
  {
    forall i, j | 0 <= i < j < |s| ensures cmp(s[i], s[j]) {
      ChainOrdered(cmp, s, i, j);
    }
  }

  lemma {:induction false} ChainOrdered<T>(cmp: (T, T) -> bool, s: seq<T>, i: nat, j: nat)
    requires Transitive(cmp, s) && AdjacentSorted(cmp, s) && i < j < |s|
    ensures cmp(s[i], s[j])
  {
    if i + 1 == j {
    } else {
      ChainOrdered(cmp, s, i, j - 1);
      assert cmp(s[j - 1], s[j - 1 + 1]);
      assert s[i] in s && s[j - 1] in s && s[j] in s;
    }
  }

  // ----- What a pass does -----

  lemma BeforeInTail<T>(f: T, t: seq<T>, a: T, b: T)
    requires Before(t, a, b)
    ensures Before([f] + t, a, b)
  {
    var i, j :| 0 <= i < j < |t| && t[i] == a && t[j] == b;
    assert ([f] + t)[i + 1] == a && ([f] + t)[j + 1] == b;
  }

  lemma BeforeAsHead<T>(f: T, t: seq<T>, b: T)
    requires b in t
    ensures Before([f] + t, f, b)
  {
    var j := IndexOf(t, b);
    assert ([f] + t)[0] == f && ([f] + t)[j + 1] == b;
  }

  lemma BeforeSplit<T>(f: T, t: seq<T>, a: T, b: T)
    requires Before([f] + t, a, b)
    ensures (a == f && b in t) || Before(t, a, b)
  {
    var s := [f] + t;
    var i, j :| 0 <= i < j < |s| && s[i] == a && s[j] == b;
    assert t[j - 1] == b;
    if i > 0 {
      assert t[i - 1] == a;
    }
  }

  /** A pair that is in order keeps its order through a pass. */
  lemma {:induction false} BubbleKeepsOrder<T>(cmp: (T, T) -> bool, x: T, rest: seq<T>, a: T, b: T)
    requires Before([x] + rest, a, b) && cmp(a, b)
    ensures Before(Bubble(cmp, x, rest), a, b)
  {
    BeforeSplit(x, rest, a, b);
    var y, tail := rest[0], rest[1..];
    assert rest == [y] + tail;
    if cmp(x, y) {
      var t := Bubble(cmp, y, tail);
      if a == x && b in rest {
        BubblePermutes(cmp, y, tail);
        SameMember(t, rest, b);
        BeforeAsHead(x, t, b);
      } else {
        BubbleKeepsOrder(cmp, y, tail, a, b);
        BeforeInTail(x, t, a, b);
      }
    } else {
      var t := Bubble(cmp, x, tail);
      if a == x && b in rest {
        BeforeAsHead(x, tail, b);
        BubbleKeepsOrder(cmp, x, tail, a, b);
        BeforeInTail(y, t, a, b);
      } else {
        BeforeSplit(y, tail, a, b);
        if a == y && b in tail {
          BubblePermutes(cmp, x, tail);
          SameMember(t, [x] + tail, b);
          BeforeAsHead(y, t, b);
        } else {
          BeforeInTail(x, tail, a, b);
          BubbleKeepsOrder(cmp, x, tail, a, b);
          BeforeInTail(y, t, a, b);
        }
      }
    }
  }

  lemma {:induction false} PassesKeepOrder<T>(cmp: (T, T) -> bool, k: nat, s: seq<T>, a: T, b: T)
    requires Before(s, a, b) && cmp(a, b)
    ensures Before(Passes(cmp, k, s), a, b)
  {
    if k == 0 {
    } else {
      PassesKeepOrder(cmp, k - 1, s, a, b);
      var t := Passes(cmp, k - 1, s);
      assert t == [t[0]] + t[1..];
      BubbleKeepsOrder(cmp, t[0], t[1..], a, b);
    }
  }

  /** The item a pass carries to the end. */
  ghost function Carried<T>(cmp: (T, T) -> bool, x: T, rest: seq<T>): T {
    if rest == [] then x else Carried(cmp, if cmp(x, rest[0]) then rest[0] else x, rest[1..])
  }

  lemma {:induction false} BubbleEndsWithCarried<T>(cmp: (T, T) -> bool, x: T, rest: seq<T>)
    ensures |Bubble(cmp, x, rest)| == 1 + |rest|
    ensures Bubble(cmp, x, rest)[|rest|] == Carried(cmp, x, rest)
  {
    if rest == [] {
    } else {
      BubbleEndsWithCarried(cmp, if cmp(x, rest[0]) then rest[0] else x, rest[1..]);
    }
  }

  lemma {:induction false} CarriedIsLargest<T>(cmp: (T, T) -> bool, x: T, rest: seq<T>, s: seq<T>)
    requires Total(cmp, s) && Transitive(cmp, s)
    requires x in s && forall i :: 0 <= i < |rest| ==> rest[i] in s
    ensures var m := Carried(cmp, x, rest);
            && m in s && (x == m || cmp(x, m))
            && forall i :: 0 <= i < |rest| ==> rest[i] == m || cmp(rest[i], m)
  {
    if rest == [] {
    } else {
      var y, tail := rest[0], rest[1..];
      var front, carried := if cmp(x, y) then x else y, if cmp(x, y) then y else x;
      assert rest == [y] + tail && y in s;
      CarriedIsLargest(cmp, carried, tail, s);
      assert front == carried || cmp(front, carried);
    }
  }

  /** Items at the end that are sorted and bound everything before them stay where they are. */
  lemma {:induction false} BubbleLeavesSorted<T>(cmp: (T, T) -> bool, s: seq<T>)
    requires s != [] && AdjacentSorted(cmp, s)
    ensures Bubble(cmp, s[0], s[1..]) == s
  {
    if |s| <= 1 {
    } else {
      assert cmp(s[0], s[0 + 1]);
      forall i | 0 <= i < |s[1..]| - 1 ensures cmp(s[1..][i], s[1..][i + 1]) {
        assert cmp(s[i + 1], s[i + 1 + 1]);
      }
      BubbleLeavesSorted(cmp, s[1..]);
    }
  }

  lemma {:induction false} BubbleLeavesSettledEnd<T>(cmp: (T, T) -> bool, x: T, u: seq<T>, v: seq<T>)
    requires AdjacentSorted(cmp, v)
    requires v != [] ==> cmp(x, v[0]) && forall i :: 0 <= i < |u| ==> cmp(u[i], v[0])
    ensures Bubble(cmp, x, u + v) == Bubble(cmp, x, u) + v
  {
    if u == [] {
      assert u + v == v;
      if v != [] {
        BubbleLeavesSorted(cmp, v);
      }
    } else {
      assert (u + v)[1..] == u[1..] + v;
      var y := u[0];
      if cmp(x, y) {
        BubbleLeavesSettledEnd(cmp, y, u[1..], v);
      } else {
        BubbleLeavesSettledEnd(cmp, x, u[1..], v);
      }
    }
  }

  // ----- How passes settle the end of the list -----

  /** The last `k` items are sorted and bound everything before them. */
  ghost predicate Settled<T>(cmp: (T, T) -> bool, k: int, s: seq<T>) {
    forall i, j :: 0 <= i < j < |s| && |s| - k <= j ==> cmp(s[i], s[j])
  }

  lemma PassLeavesSettledEnd<T>(cmp: (T, T) -> bool, k: nat, s: seq<T>)
    requires k <= |s| && Settled(cmp, k, s)
    ensures Pass(cmp, s) == Pass(cmp, s[..|s| - k]) + s[|s| - k..]
  {
    var u, v := s[..|s| - k], s[|s| - k..];
    assert s == u + v;
    assert AdjacentSorted(cmp, v);
    if u != [] {
      assert s[1..] == u[1..] + v;
      BubbleLeavesSettledEnd(cmp, s[0], u[1..], v);
    } else if v != [] {
      BubbleLeavesSorted(cmp, v);
    }
  }

  lemma PassKeepsSettledEnd<T>(cmp: (T, T) -> bool, k: nat, s: seq<T>)
    requires k <= |s| && Settled(cmp, k, s)
    ensures |Pass(cmp, s)| == |s| && Pass(cmp, s)[|s| - k..] == s[|s| - k..]
  {
    PassLeavesSettledEnd(cmp, k, s);
    PassPermutes(cmp, s[..|s| - k]);
  }

  lemma PassSettlesOneMore<T>(cmp: (T, T) -> bool, k: nat, s: seq<T>)
    requires Distinct(s) && Total(cmp, s) && Transitive(cmp, s)
    requires Settled(cmp, k, s)
    ensures Settled(cmp, k + 1, Pass(cmp, s))
  {
    var n := |s|;
    if k >= n {
      PassLeavesSettledEnd(cmp, n, s);
      assert s[..0] == [] && s[0..] == s;
    } else {
      var u, v := s[..n - k], s[n - k..];
      PassLeavesSettledEnd(cmp, k, s);
      PassEndsWithLargest(cmp, s, n - k);
      var p := Pass(cmp, u);
      var t := p + v;
      forall i, j | 0 <= i < j < |t| && |t| - (k + 1) <= j ensures cmp(t[i], t[j]) {
        if j < n - k {
          assert t[j] == p[|p| - 1] && t[i] == p[i];
        } else if i < n - k {
          var m := IndexOf(u, p[i]);
          assert cmp(s[m], s[j]);
        } else {
          assert cmp(s[i], s[j]);
        }
      }
    }
  }

  lemma PassEndsWithLargest<T>(cmp: (T, T) -> bool, s: seq<T>, m: nat)
    requires Distinct(s) && Total(cmp, s) && Transitive(cmp, s)
    requires 0 < m <= |s|
    ensures var p := Pass(cmp, s[..m]);
            && |p| == m
            && (forall i :: 0 <= i < m - 1 ==> cmp(p[i], p[m - 1]))
            && (forall i :: 0 <= i < m ==> p[i] in s[..m])
  {
    var u := s[..m];
    var p := Pass(cmp, u);
    PassPermutes(cmp, u);
    SameItems(p, u);
    DistinctOfSameItems(u, p);
    BubbleEndsWithCarried(cmp, u[0], u[1..]);
    CarriedIsLargest(cmp, u[0], u[1..], s);
    forall i | 0 <= i < m - 1 ensures cmp(p[i], p[m - 1]) {
      var j := IndexOf(u, p[i]);
      assert j > 0 ==> u[j] == u[1..][j - 1];
    }
  }

  /** After `k` passes the last `k` items are settled. */
  lemma {:induction false} PassesSettle<T>(cmp: (T, T) -> bool, k: nat, s: seq<T>)
    requires Distinct(s) && Total(cmp, s) && Transitive(cmp, s)
    ensures Settled(cmp, k, Passes(cmp, k, s))
  {
    if k == 0 {
    } else {
      PassesSettle(cmp, k - 1, s);
      var t := Passes(cmp, k - 1, s);
      PassesPermute(cmp, k - 1, s);
      DistinctOfSameItems(s, t);
      OrderingOfSameItems(cmp, s, t);
      PassSettlesOneMore(cmp, k - 1, t);
    }
  }

  // ----- The final arrangement -----


  /** Enough passes arrange the list: the last-but-one position is settled after `|s| - 1`. */
  lemma PassesSort<T>(cmp: (T, T) -> bool, k: nat, s: seq<T>)
    requires Distinct(s) && Total(cmp, s) && Transitive(cmp, s)
    requires |s| <= k + 1
    ensures Sorted(cmp, Passes(cmp, k, s))
  {
    PassesSettle(cmp, k, s);
    PassesPermute(cmp, k, s);
  }

  /** A sorted result of any number of passes is a stable arrangement of the list. */
  lemma SortedPassesArrange<T>(cmp: (T, T) -> bool, k: nat, s: seq<T>)
    requires Distinct(s) && Sorted(cmp, Passes(cmp, k, s))
    ensures Arranged(cmp, s, Passes(cmp, k, s))
  {
    var t := Passes(cmp, k, s);
    PassesPermute(cmp, k, s);
    SameItems(s, t);
    forall i, j | 0 <= i < j < |s|
      ensures if cmp(s[i], s[j]) then Before(t, s[i], s[j]) else Before(t, s[j], s[i])
    {
      if cmp(s[i], s[j]) {
        PassesKeepOrder(cmp, k, s, s[i], s[j]);
      } else {
        var p := IndexOf(t, s[i]);
        var q := IndexOf(t, s[j]);
        assert q < p;
      }
    }
  }

  lemma BeforeIsAntisymmetric<T>(t: seq<T>, x: T, y: T)
    requires Distinct(t) && Before(t, x, y)
    ensures !Before(t, y, x)
  {
  }

  lemma DropSameFirst<T>(s: seq<T>, t: seq<T>)
    requires s != [] && t != [] && s[0] == t[0] && Permutes(s, t)
    ensures Permutes(s[1..], t[1..])
  {
    assert s == [s[0]] + s[1..] && t == [t[0]] + t[1..];
    assert multiset(s[1..]) == multiset(s) - multiset{s[0]};
    assert multiset(t[1..]) == multiset(t) - multiset{s[0]};
  }

  ghost predicate KeepsOrderOf<T>(s: seq<T>, t: seq<T>) {
    forall i, j :: 0 <= i < j < |s| ==> Before(t, s[i], s[j])
  }

  lemma SameFirst<T>(s: seq<T>, t: seq<T>)
    requires s != [] && Permutes(s, t) && Distinct(t)
    requires KeepsOrderOf(s, t)
    ensures t != [] && s[0] == t[0]
  {
    SameItems(s, t);
    assert t[0] in s;
  }

  lemma TailKeepsOrder<T>(s: seq<T>, t: seq<T>)
    requires s != [] && t != [] && s[0] == t[0] && Distinct(s)
    requires KeepsOrderOf(s, t)
    ensures KeepsOrderOf(s[1..], t[1..])
  {
    forall i, j | 0 <= i < j < |s[1..]| ensures Before(t[1..], s[1..][i], s[1..][j]) {
      assert Before(t, s[i + 1], s[j + 1]);
      assert t == [t[0]] + t[1..];
      BeforeSplit(t[0], t[1..], s[i + 1], s[j + 1]);
    }
  }

  lemma {:induction false} SameOrderSameSequence<T>(s: seq<T>, t: seq<T>)
    requires Permutes(s, t) && Distinct(s) && Distinct(t)
    requires KeepsOrderOf(s, t)
    ensures s == t
  {
    if s == [] {
      assert |multiset(t)| == |t|;
    } else {
      SameFirst(s, t);
      DropSameFirst(s, t);
      TailKeepsOrder(s, t);
      assert Distinct(s[1..]) && Distinct(t[1..]);
      SameOrderSameSequence(s[1..], t[1..]);
      assert s == [s[0]] + s[1..] && t == [t[0]] + t[1..];
    }
  }

  /** There is only one stable arrangement, so `Arranged` determines the sorted list. */
  lemma ArrangedIsUnique<T>(cmp: (T, T) -> bool, s: seq<T>, t: seq<T>, u: seq<T>)
    requires Distinct(s) && Arranged(cmp, s, t) && Arranged(cmp, s, u)
    ensures t == u
  {
    DistinctOfSameItems(s, t);
    SameItems(s, t);
    forall p, q | 0 <= p < q < |t| ensures Before(u, t[p], t[q]) {
      var i := IndexOf(s, t[p]);
      var j := IndexOf(s, t[q]);
      assert Before(t, t[p], t[q]);
      BeforeIsAntisymmetric(t, t[p], t[q]);
    }
    DistinctOfSameItems(s, u);
    SameOrderSameSequence(t, u);
  }

  // ----- The three results -----

  /** Any two arrangements reached by passes without further swaps agree: whatever number of
      passes it took, the list is the stable arrangement of the items it started with. */
  lemma BubbleSortIsStableSort<T>(cmp: (T, T) -> bool, k: nat, s: seq<T>)
    requires Distinct(s) && Transitive(cmp, s)
    requires AdjacentSorted(cmp, Passes(cmp, k, s))
    ensures Sorted(cmp, Passes(cmp, k, s)) && Arranged(cmp, s, Passes(cmp, k, s))
    ensures forall t :: Arranged(cmp, s, t) ==> t == Passes(cmp, k, s)
  {
    var r := Passes(cmp, k, s);
    PassesPermute(cmp, k, s);
    OrderingOfSameItems(cmp, s, r);
    AdjacentSortedIsSorted(cmp, r);
    SortedPassesArrange(cmp, k, s);
    forall t | Arranged(cmp, s, t) ensures t == r {
      ArrangedIsUnique(cmp, s, t, r);
    }
  }

  lemma NextPassKeepsEnd<T>(cmp: (T, T) -> bool, k: nat, m: nat, s: seq<T>)
    requires Distinct(s) && Total(cmp, s) && Transitive(cmp, s)
    requires k <= |s| && k <= m
    ensures var t := Passes(cmp, m, s);
            && |t| == |s| == |Passes(cmp, m + 1, s)|
            && Passes(cmp, m + 1, s)[|s| - k..] == t[|s| - k..]
  {
    var t := Passes(cmp, m, s);
    PassesPermute(cmp, m, s);
    PassesSettle(cmp, m, s);
    assert Settled(cmp, k, t);
    PassKeepsSettledEnd(cmp, k, t);
  }

  /** Pass `k` leaves the last `k` items in their final positions: no later pass moves them. */
  lemma {:induction false} LastItemsAreFinal<T>(cmp: (T, T) -> bool, k: nat, m: nat, s: seq<T>)
    requires Distinct(s) && Total(cmp, s) && Transitive(cmp, s)
    requires k <= |s| && k <= m
    ensures |Passes(cmp, m, s)| == |Passes(cmp, k, s)| == |s|
    ensures Passes(cmp, m, s)[|s| - k..] == Passes(cmp, k, s)[|s| - k..]
  {
    PassesPermute(cmp, k, s);
    if k == m {
    } else {
      LastItemsAreFinal(cmp, k, m - 1, s);
      NextPassKeepsEnd(cmp, k, m - 1, s);
    }
  }

  /** For a transitive comparison the repeated passes reach one without a swap exactly when
      the comparison orders every pair of different items; a strict comparison with two
      equivalent items makes the source loop for ever. */
  lemma PassesStopIffTotal<T>(cmp: (T, T) -> bool, s: seq<T>)
    requires Distinct(s) && Transitive(cmp, s)
    ensures (exists k: nat :: AdjacentSorted(cmp, Passes(cmp, k, s))) <==> Total(cmp, s)
  {
    if k: nat :| AdjacentSorted(cmp, Passes(cmp, k, s)) {
      var t := Passes(cmp, k, s);
      BubbleSortIsStableSort(cmp, k, s);
      PassesPermute(cmp, k, s);
      SameItems(s, t);
      forall x, y | x in s && y in s && x != y ensures cmp(x, y) || cmp(y, x) {
        var p := IndexOf(t, x);
        var q := IndexOf(t, y);
        assert p < q || q < p;
      }
    }
    if Total(cmp, s) {
      PassesSort(cmp, |s|, s);
      assert AdjacentSorted(cmp, Passes(cmp, |s|, s));
    }
  }

  /** Two items that are ordered neither way change places in every pass. */
  lemma {:induction false} UnorderedPairLoopsForEver<T>(cmp: (T, T) -> bool, k: nat, a: T, b: T)
    requires a != b && !cmp(a, b) && !cmp(b, a)
    ensures Passes(cmp, k, [a, b]) == if k % 2 == 0 then [a, b] else [b, a]
    ensures !AdjacentSorted(cmp, Passes(cmp, k, [a, b]))
  {
    if k == 0 {
      PassOverPair(cmp, a, b);
    } else {
      UnorderedPairLoopsForEver(cmp, k - 1, a, b);
      PassOverPair(cmp, a, b);
      PassOverPair(cmp, b, a);
    }
  }

  lemma PassOverPair<T>(cmp: (T, T) -> bool, a: T, b: T)
    requires !cmp(a, b)
    ensures Pass(cmp, [a, b]) == [b, a] && !AdjacentSorted(cmp, [a, b])
  {
    var s := [a, b];
    assert s[1..] == [b] && [b][1..] == [];
    assert Bubble(cmp, a, [b]) == [b] + Bubble(cmp, a, []);
    assert s[0] == a && s[1] == b;
  }
}
