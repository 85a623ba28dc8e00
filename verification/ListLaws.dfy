/** What sequences of list operations amount to. `RunOps` ties a run of heap operations to the
    function `Run`; the laws are about whole runs and about one call undoing another. */
module ListLaws {
  import opened BubbleOrder
  import opened SList

  datatype Op<T> = Push(item: T) | PushBack(item: T) | Pop | Insert(item: T, pos: T) | Remove(item: T)

  /** What the list demands of its callers: an item is put in once, and next to one that is there. */
  ghost predicate Allowed<T>(s: seq<T>, op: Op<T>) {
    match op
    case Push(x) => x !in s
    case PushBack(x) => x !in s
    case Insert(x, pos) => x !in s && pos in s
    case Pop => true
    case Remove(_) => true
  }

  /** The list after one operation and what the operation hands back. */
  ghost function Apply<T>(s: seq<T>, op: Op<T>): (seq<T>, seq<T>) {
    match op
    case Push(x) => ([x] + s, [])
    case PushBack(x) => (s + [x], [])
    case Pop => if s == [] then (s, []) else (s[1..], [s[0]])
    case Insert(x, pos) => (if pos in s then InsertAfter(s, pos, x) else s, [])
    case Remove(x) => (Without(s, x), [])
  }

  /** The list after a run, and all items popped on the way, in order. */
  ghost function Run<T>(s: seq<T>, ops: seq<Op<T>>): (seq<T>, seq<T>)
    decreases |ops|
  {
    if ops == [] then (s, [])
    else
      var (t, popped) := Apply(s, ops[0]);
      var (u, more) := Run(t, ops[1..]);
      (u, popped + more)
  }

  ghost predicate Runnable<T>(s: seq<T>, ops: seq<Op<T>>)
    decreases |ops|
  {
    ops == [] || (Allowed(s, ops[0]) && Runnable(Apply(s, ops[0]).0, ops[1..]))
  }

  ghost function ItemsOf<T>(ops: seq<Op<T>>): set<T> {
    if ops == [] then {} else (if ops[0].Pop? then {} else {ops[0].item}) + ItemsOf(ops[1..])
  }

  /** Any sequence of list operations a caller may make, on the heap. */
  method RunOps<T>(list: SList<T>, ops: seq<Op<Node<T>>>) returns (popped: seq<Node<T>>)
    requires list.Valid() && Runnable(list.items, ops)
    modifies list, list.repr, ItemsOf(ops)
    ensures list.Valid() && list.repr <= old(list.repr) + ItemsOf(ops)
    ensures (list.items, popped) == Run(old(list.items), ops)
    decreases |ops|
  {
    if ops == [] {
      return [];
    }
    popped := Perform(list, ops[0]);
    var more := RunOps(list, ops[1..]);
    popped := popped + more;
  }

  method Perform<T>(list: SList<T>, op: Op<Node<T>>) returns (popped: seq<Node<T>>)
    requires list.Valid() && Allowed(list.items, op)
    modifies list, list.repr, if op.Pop? then {} else {op.item}
    ensures list.Valid() && list.repr <= old(list.repr) + if op.Pop? then {} else {op.item}
    ensures (list.items, popped) == Apply(old(list.items), op)
  {
    popped := [];
    match op
    case Push(x) => list.Push(x);
    case PushBack(x) => list.PushBack(x);
    case Insert(x, pos) => SList<T>.Insert(x, pos, list);
    case Remove(x) => list.Remove(x);
    case Pop =>
      var item := list.Pop();
      if item != null {
        popped := [item];
      }
  }

  ghost function PushedBack<T>(ops: seq<Op<T>>): seq<T> {
    if ops == [] then []
    else (if ops[0].PushBack? then [ops[0].item] else []) + PushedBack(ops[1..])
  }

  /** FIFO, for any interleaving: what came out followed by what is left is what was there
      followed by what was put in. */
  lemma {:induction false} QueueRunConserves<T>(s: seq<T>, ops: seq<Op<T>>)
    requires forall i :: 0 <= i < |ops| ==> ops[i].PushBack? || ops[i].Pop?
    ensures var (u, popped) := Run(s, ops); popped + u == s + PushedBack(ops)
    decreases |ops|
  {
    if ops == [] {
    } else {
      var (t, popped) := Apply(s, ops[0]);
      var (u, more) := Run(t, ops[1..]);
      QueueRunConserves(t, ops[1..]);
      var pushed := if ops[0].PushBack? then [ops[0].item] else [];
      assert popped + t == s + pushed;
      Regroup(popped, more, u, t, PushedBack(ops[1..]), s, pushed);
    }
  }

  lemma Regroup<T>(a: seq<T>, b: seq<T>, c: seq<T>, t: seq<T>, d: seq<T>, s: seq<T>, e: seq<T>)
    requires b + c == t + d && a + t == s + e
    ensures (a + b) + c == s + (e + d)
  {
    assert (a + b) + c == a + (b + c);
    assert a + (t + d) == (a + t) + d;
    assert (s + e) + d == s + (e + d);
  }

  /** The run only pushes and pops and, starting `depth` items above some level, never pops below
      that level and ends at it. */
  ghost predicate Nested<T>(ops: seq<Op<T>>, depth: nat) {
    if ops == [] then depth == 0
    else match ops[0]
         case Push(_) => Nested(ops[1..], depth + 1)
         case Pop => depth > 0 && Nested(ops[1..], depth - 1)
         case _ => false
  }

  /** LIFO: a nested run leaves everything below its level alone. */
  lemma {:induction false} NestedRunRestores<T>(above: seq<T>, s: seq<T>, ops: seq<Op<T>>)
    requires Nested(ops, |above|)
    ensures Run(above + s, ops).0 == s
    decreases |ops|
  {
    if ops == [] {
      assert above + s == s;
    } else {
      match ops[0] {
        case Push(x) =>
          assert [x] + (above + s) == ([x] + above) + s;
          NestedRunRestores([x] + above, s, ops[1..]);
        case Pop =>
          assert (above + s)[1..] == above[1..] + s;
          NestedRunRestores(above[1..], s, ops[1..]);
      }
    }
  }

  lemma {:induction false} RunConcat<T>(s: seq<T>, a: seq<Op<T>>, b: seq<Op<T>>)
    ensures var (t, p) := Run(s, a); var (u, q) := Run(t, b); Run(s, a + b) == (u, p + q)
    decreases |a|
  {
    if a == [] {
      assert a + b == b && [] + Run(s, b).1 == Run(s, b).1;
    } else {
      assert (a + b)[0] == a[0] && (a + b)[1..] == a[1..] + b;
      var (t, first) := Apply(s, a[0]);
      RunConcat(t, a[1..], b);
      var (u, more) := Run(t, a[1..]);
      var q := Run(u, b).1;
      assert (first + more) + q == first + (more + q);
    }
  }

  /** The pop that closes a nested run hands back the item pushed just before it. */
  lemma PopReturnsMatchingPush<T>(s: seq<T>, x: T, ops: seq<Op<T>>)
    requires Nested(ops, 0)
    ensures Run(s, [Push(x)] + ops + [Pop]) == (s, Run([x] + s, ops).1 + [x])
  {
    var a := [Push(x)] + ops;
    assert a[1..] == ops;
    NestedRunRestores([], [x] + s, ops);
    assert [] + ([x] + s) == [x] + s;
    var last: seq<Op<T>> := [Pop];
    RunConcat(s, a, last);
    assert Run([x] + s, last) == (s, [x]) by {
      assert ([x] + s)[1..] == s && last[1..] == [];
      assert Run(s, last[1..]) == (s, []);
      assert [x] + [] == [x];
    }
    var p := Run([x] + s, ops).1;
    assert Run(s, a) == Run([x] + s, ops) by {
      assert [] + p == p;
    }
    assert Run(s, a).0 == [x] + s;
    assert a + last == [Push(x)] + ops + [Pop];
  }

  // ----- One call undoes another -----

  lemma RemoveUndoesInsert<T>(s: seq<T>, pos: T, item: T)
    requires Distinct(s) && pos in s && item !in s
    ensures Without(InsertAfter(s, pos, item), item) == s
  {
    var k := IndexOf(s, pos);
    InsertAfterIndex(s, k, item);
    InsertedStaysDistinct(s, k, item);
    var t := s[..k + 1] + [item] + s[k + 1..];
    WithoutIndex(t, k + 1);
  }

  lemma RemoveUndoesPush<T>(s: seq<T>, item: T)
    requires item !in s
    ensures Without([item] + s, item) == s
    ensures Without(s + [item], item) == s
  {
    RemoveUndoesPushBack(s, item);
  }

  lemma {:induction false} RemoveUndoesPushBack<T>(s: seq<T>, item: T)
    requires item !in s
    ensures Without(s + [item], item) == s
  {
    if s == [] {
    } else {
      assert (s + [item])[1..] == s[1..] + [item];
      RemoveUndoesPushBack(s[1..], item);
    }
  }
}
