/** The work-list flattener `flatten` (scripts/deploy/yaml_log.py:50-64).

    The specification is Leaves: one entry per leaf, in document order,
    each carrying the key-path from the root. The method pops frames from
    an explicit stack and emits exactly the reverse of that order, because
    a mapping's items and a sequence's elements are pushed first to last and
    therefore popped (and fully explored) last to first. */
module Flatten {
  import opened Document

  /** A pending work item: a node and the key-path that reaches it. */
  type Frame = (Node, KeyPath)

  /** The leaves below n in document order, each with its key-path extended
      from p by one segment per descent. */
  function Leaves(n: Node, p: KeyPath): seq<Entry>
  {
    match n
    case Scalar(v) => [(p, v)]
    case Map(fs) => FieldLeaves(fs, p)
    case List(xs) => ItemLeaves(xs, p)
  }

  function FieldLeaves(fs: seq<Field>, p: KeyPath): seq<Entry>
  {
    if fs == [] then []
    else FieldLeaves(fs[..|fs| - 1], p) + Leaves(fs[|fs| - 1].value, p + [Key(fs[|fs| - 1].key)])
  }

  function ItemLeaves(xs: seq<Node>, p: KeyPath): seq<Entry>
  {
    if xs == [] then []
    else ItemLeaves(xs[..|xs| - 1], p) + Leaves(xs[|xs| - 1], p + [Index(|xs| - 1)])
  }

  /** The number of scalar nodes in the tree. */
  function LeafCount(n: Node): nat
  {
    match n
    case Scalar(_) => 1
    case Map(fs) => FieldLeafCount(fs)
    case List(xs) => ItemLeafCount(xs)
  }

  function FieldLeafCount(fs: seq<Field>): nat
  {
    if fs == [] then 0 else FieldLeafCount(fs[..|fs| - 1]) + LeafCount(fs[|fs| - 1].value)
  }

  function ItemLeafCount(xs: seq<Node>): nat
  {
    if xs == [] then 0 else ItemLeafCount(xs[..|xs| - 1]) + LeafCount(xs[|xs| - 1])
  }

  /** The number of nodes in the tree: the termination measure of the loop. */
  function Size(n: Node): nat
  {
    match n
    case Scalar(_) => 1
    case Map(fs) => 1 + FieldsSize(fs)
    case List(xs) => 1 + ItemsSize(xs)
  }

  function FieldsSize(fs: seq<Field>): nat
  {
    if fs == [] then 0 else FieldsSize(fs[..|fs| - 1]) + Size(fs[|fs| - 1].value)
  }

  function ItemsSize(xs: seq<Node>): nat
  {
    if xs == [] then 0 else ItemsSize(xs[..|xs| - 1]) + Size(xs[|xs| - 1])
  }

  function StackSize(stack: seq<Frame>): nat
  {
    if stack == [] then 0 else StackSize(stack[..|stack| - 1]) + Size(stack[|stack| - 1].0)
  }

  function Reverse<T>(s: seq<T>): (r: seq<T>)
    ensures |r| == |s|
  {
    if s == [] then [] else [s[|s| - 1]] + Reverse(s[..|s| - 1])
  }

  /** What the frames on the stack will still emit, top of stack first. */
  function Pending(stack: seq<Frame>): seq<Entry>
  {
    if stack == [] then []
    else Reverse(Leaves(stack[|stack| - 1].0, stack[|stack| - 1].1)) + Pending(stack[..|stack| - 1])
  }

  /** No two entries share a key-path. */
  predicate PathsDistinct(s: seq<Entry>) {
    forall i, j :: 0 <= i < |s| && 0 <= j < |s| && i != j ==> s[i].0 != s[j].0
  }

  /** `flatten(obj, path)`; `path or []` is modelled by passing [] for None.
      The result is the generator's output, in the order it yields. */
  method Flatten(obj: Node, path: KeyPath) returns (out: seq<Entry>)
    ensures out == Reverse(Leaves(obj, path))
  {
    var stack: seq<Frame> := [(obj, path)];
    out := [];
    while stack != []
      invariant out + Pending(stack) == Reverse(Leaves(obj, path))
      decreases StackSize(stack)
    {
      var node, pth := stack[|stack| - 1].0, stack[|stack| - 1].1;
      ghost var before := stack;
      stack := stack[..|stack| - 1];
      ghost var below := stack;
      assert Pending(before) == Reverse(Leaves(node, pth)) + Pending(below);
      match node {
        case Map(fs) =>
          for i := 0 to |fs|
            invariant Pending(stack) == Reverse(FieldLeaves(fs[..i], pth)) + Pending(below)
            invariant StackSize(stack) == StackSize(below) + FieldsSize(fs[..i])
          {
            FieldPushed(stack, below, fs, i, pth);
            PushFrame(stack, (fs[i].value, pth + [Key(fs[i].key)]));
            FieldSnoc(fs, i, pth);
            stack := stack + [(fs[i].value, pth + [Key(fs[i].key)])];
          }
          assert fs[..|fs|] == fs;
        case List(xs) =>
          for i := 0 to |xs|
            invariant Pending(stack) == Reverse(ItemLeaves(xs[..i], pth)) + Pending(below)
            invariant StackSize(stack) == StackSize(below) + ItemsSize(xs[..i])
          {
            ItemPushed(stack, below, xs, i, pth);
            PushFrame(stack, (xs[i], pth + [Index(i)]));
            ItemSnoc(xs, i, pth);
            stack := stack + [(xs[i], pth + [Index(i)])];
          }
          assert xs[..|xs|] == xs;
        case Scalar(v) =>
          out := out + [(pth, v)];
      }
    }
  }

  // ---------------------------------------------------------------------
  // One push of the loop

  lemma PushFrame(stack: seq<Frame>, frame: Frame)
    ensures Pending(stack + [frame]) == Reverse(Leaves(frame.0, frame.1)) + Pending(stack)
    ensures StackSize(stack + [frame]) == StackSize(stack) + Size(frame.0)
  {
    assert (stack + [frame])[..|stack|] == stack;
  }

  /** Pushing field i keeps the invariant of the loop over a mapping's items. */
  lemma FieldPushed(s: seq<Frame>, stack: seq<Frame>, fs: seq<Field>, i: nat, p: KeyPath)
    requires i < |fs|
    requires Pending(s) == Reverse(FieldLeaves(fs[..i], p)) + Pending(stack)
    ensures Pending(s + [(fs[i].value, p + [Key(fs[i].key)])]) ==
            Reverse(FieldLeaves(fs[..i + 1], p)) + Pending(stack)
  {
    var frame := (fs[i].value, p + [Key(fs[i].key)]);
    PushFrame(s, frame);
    FieldSnoc(fs, i, p);
    Regroup(Pending(s + [frame]), Pending(s), Pending(stack),
            FieldLeaves(fs[..i], p), Leaves(frame.0, frame.1), FieldLeaves(fs[..i + 1], p));
  }

  /** Pushing element i keeps the invariant of the loop over a sequence's elements. */
  lemma ItemPushed(s: seq<Frame>, stack: seq<Frame>, xs: seq<Node>, i: nat, p: KeyPath)
    requires i < |xs|
    requires Pending(s) == Reverse(ItemLeaves(xs[..i], p)) + Pending(stack)
    ensures Pending(s + [(xs[i], p + [Index(i)])]) ==
            Reverse(ItemLeaves(xs[..i + 1], p)) + Pending(stack)
  {
    var frame := (xs[i], p + [Index(i)]);
    PushFrame(s, frame);
    ItemSnoc(xs, i, p);
    Regroup(Pending(s + [frame]), Pending(s), Pending(stack),
            ItemLeaves(xs[..i], p), Leaves(frame.0, frame.1), ItemLeaves(xs[..i + 1], p));
  }

  /** The bookkeeping of one push: what is pending after it, in terms of
      what was pending before. */
  lemma Regroup(after: seq<Entry>, before: seq<Entry>, below: seq<Entry>,
                done: seq<Entry>, next: seq<Entry>, all: seq<Entry>)
    requires after == Reverse(next) + before
    requires before == Reverse(done) + below
    requires all == done + next
    ensures after == Reverse(all) + below
  {
    ReverseConcat(done, next);
    Reassociate(after, Reverse(next), Reverse(done), below, Reverse(all));
  }

  lemma Reassociate(after: seq<Entry>, x: seq<Entry>, y: seq<Entry>, below: seq<Entry>, xy: seq<Entry>)
    requires after == x + (y + below)
    requires xy == x + y
    ensures after == xy + below
  {
  }

  lemma FieldSnoc(fs: seq<Field>, i: nat, p: KeyPath)
    requires i < |fs|
    ensures FieldLeaves(fs[..i + 1], p) == FieldLeaves(fs[..i], p) + Leaves(fs[i].value, p + [Key(fs[i].key)])
    ensures FieldsSize(fs[..i + 1]) == FieldsSize(fs[..i]) + Size(fs[i].value)
  {
    assert fs[..i + 1][..i] == fs[..i];
  }

  lemma ItemSnoc(xs: seq<Node>, i: nat, p: KeyPath)
    requires i < |xs|
    ensures ItemLeaves(xs[..i + 1], p) == ItemLeaves(xs[..i], p) + Leaves(xs[i], p + [Index(i)])
    ensures ItemsSize(xs[..i + 1]) == ItemsSize(xs[..i]) + Size(xs[i])
  {
    assert xs[..i + 1][..i] == xs[..i];
  }

  // ---------------------------------------------------------------------
  // Reversal

  lemma {:induction false} ReverseAt<T>(s: seq<T>, k: nat)
    requires k < |s|
    ensures Reverse(s)[k] == s[|s| - 1 - k]
  {
    if k > 0 {
      ReverseAt(s[..|s| - 1], k - 1);
    }
  }

  lemma {:induction false} ReverseConcat<T>(a: seq<T>, b: seq<T>)
    ensures Reverse(a + b) == Reverse(b) + Reverse(a)
  {
    if b != [] {
      var init := b[..|b| - 1];
      assert (a + b)[..|a + b| - 1] == a + init;
      ReverseConcat(a, init);
    } else {
      assert a + b == a;
    }
  }

  lemma {:induction false} ReverseMultiset<T>(s: seq<T>)
    ensures multiset(Reverse(s)) == multiset(s)
  {
    if s != [] {
      ReverseMultiset(s[..|s| - 1]);
      assert s == s[..|s| - 1] + [s[|s| - 1]];
    }
  }

  lemma ReverseMembers<T>(s: seq<T>, x: T)
    ensures x in Reverse(s) <==> x in s
  {
    if x in s {
      var k :| 0 <= k < |s| && s[k] == x;
      ReverseAt(s, |s| - 1 - k);
    } else if x in Reverse(s) {
      var k :| 0 <= k < |s| && Reverse(s)[k] == x;
      ReverseAt(s, k);
    }
  }

  // ---------------------------------------------------------------------
  // Completeness: one entry per leaf

  lemma {:induction false} LeavesCount(n: Node, p: KeyPath)
    ensures |Leaves(n, p)| == LeafCount(n)
  {
    match n
    case Scalar(_) =>
    case Map(fs) => FieldLeavesCount(fs, p);
    case List(xs) => ItemLeavesCount(xs, p);
  }

  lemma {:induction false} FieldLeavesCount(fs: seq<Field>, p: KeyPath)
    ensures |FieldLeaves(fs, p)| == FieldLeafCount(fs)
  {
    if fs != [] {
      FieldLeavesCount(fs[..|fs| - 1], p);
      LeavesCount(fs[|fs| - 1].value, p + [Key(fs[|fs| - 1].key)]);
    }
  }

  lemma {:induction false} ItemLeavesCount(xs: seq<Node>, p: KeyPath)
    ensures |ItemLeaves(xs, p)| == ItemLeafCount(xs)
  {
    if xs != [] {
      ItemLeavesCount(xs[..|xs| - 1], p);
      LeavesCount(xs[|xs| - 1], p + [Index(|xs| - 1)]);
    }
  }

  // ---------------------------------------------------------------------
  // Where an entry comes from

  /** An entry of a mapping's leaves comes from exactly one of its fields. */
  lemma {:induction false} FieldOf(fs: seq<Field>, p: KeyPath, e: Entry) returns (j: nat)
    requires e in FieldLeaves(fs, p)
    ensures j < |fs| && e in Leaves(fs[j].value, p + [Key(fs[j].key)])
  {
    var init := fs[..|fs| - 1];
    if e in FieldLeaves(init, p) {
      j := FieldOf(init, p, e);
    } else {
      j := |fs| - 1;
    }
  }

  lemma {:induction false} ItemOf(xs: seq<Node>, p: KeyPath, e: Entry) returns (j: nat)
    requires e in ItemLeaves(xs, p)
    ensures j < |xs| && e in Leaves(xs[j], p + [Index(j)])
  {
    var init := xs[..|xs| - 1];
    if e in ItemLeaves(init, p) {
      j := ItemOf(init, p, e);
    } else {
      j := |xs| - 1;
    }
  }

  lemma {:induction false} FieldContains(fs: seq<Field>, p: KeyPath, j: nat, e: Entry)
    requires j < |fs| && e in Leaves(fs[j].value, p + [Key(fs[j].key)])
    ensures e in FieldLeaves(fs, p)
  {
    if j < |fs| - 1 {
      FieldContains(fs[..|fs| - 1], p, j, e);
    }
  }

  lemma {:induction false} ItemContains(xs: seq<Node>, p: KeyPath, j: nat, e: Entry)
    requires j < |xs| && e in Leaves(xs[j], p + [Index(j)])
    ensures e in ItemLeaves(xs, p)
  {
    if j < |xs| - 1 {
      ItemContains(xs[..|xs| - 1], p, j, e);
    }
  }

  /** Every emitted path extends the starting path. */
  lemma {:induction false} PathsExtend(n: Node, p: KeyPath, e: Entry)
    requires e in Leaves(n, p)
    ensures |p| <= |e.0| && e.0[..|p|] == p
    decreases n
  {
    match n
    case Scalar(_) =>
    case Map(fs) =>
      var j := FieldOf(fs, p, e);
      PathsExtend(fs[j].value, p + [Key(fs[j].key)], e);
    case List(xs) =>
      var j := ItemOf(xs, p, e);
      PathsExtend(xs[j], p + [Index(j)], e);
  }

  // ---------------------------------------------------------------------
  // Path soundness and completeness

  /** Following an emitted path from the node reaches the emitted value. */
  lemma {:induction false} LeavesSound(n: Node, p: KeyPath, e: Entry)
    requires KeysUnique(n)
    requires e in Leaves(n, p)
    ensures |p| <= |e.0| && e.0[..|p|] == p
    ensures Lookup(n, e.0[|p|..]) == Some(Scalar(e.1))
    decreases n
  {
    match n
    case Scalar(_) =>
    case Map(fs) =>
      var j := FieldOf(fs, p, e);
      LeavesSound(fs[j].value, p + [Key(fs[j].key)], e);
      FindUniqueKey(fs, j);
      assert e.0[|p|..][1..] == e.0[|p| + 1..];
    case List(xs) =>
      var j := ItemOf(xs, p, e);
      LeavesSound(xs[j], p + [Index(j)], e);
      assert e.0[|p|..][1..] == e.0[|p| + 1..];
  }

  /** Every path that leads to a scalar is emitted, with that scalar. */
  lemma {:induction false} LeavesComplete(n: Node, p: KeyPath, r: KeyPath, v: Value)
    requires Lookup(n, r) == Some(Scalar(v))
    ensures (p + r, v) in Leaves(n, p)
    decreases |r|
  {
    if r == [] {
      assert p + r == p;
    } else {
      match (n, r[0])
      case (Map(fs), Key(k)) =>
        var j := FindKey(fs, k).value;
        LeavesComplete(fs[j].value, p + [Key(k)], r[1..], v);
        assert p + [Key(k)] + r[1..] == p + r;
        FieldContains(fs, p, j, (p + r, v));
      case (List(xs), Index(i)) =>
        LeavesComplete(xs[i], p + [Index(i)], r[1..], v);
        assert p + [Index(i)] + r[1..] == p + r;
        ItemContains(xs, p, i, (p + r, v));
    }
  }

  // ---------------------------------------------------------------------
  // No leaf is emitted twice

  lemma DistinctConcat(a: seq<Entry>, b: seq<Entry>)
    requires PathsDistinct(a) && PathsDistinct(b)
    requires forall x, y :: x in a && y in b ==> x.0 != y.0
    ensures PathsDistinct(a + b)
  {
    forall i, j | 0 <= i < |a + b| && 0 <= j < |a + b| && i != j
      ensures (a + b)[i].0 != (a + b)[j].0
    {
      if i < |a| && j >= |a| {
        assert (a + b)[i] in a && (a + b)[j] in b;
      } else if i >= |a| && j < |a| {
        assert (a + b)[j] in a && (a + b)[i] in b;
      }
    }
  }

  lemma {:induction false} LeavesDistinct(n: Node, p: KeyPath)
    requires KeysUnique(n)
    ensures PathsDistinct(Leaves(n, p))
    decreases n, 1
  {
    match n
    case Scalar(_) =>
    case Map(fs) => FieldLeavesDistinct(fs, p);
    case List(xs) => ItemLeavesDistinct(xs, p);
  }

  lemma {:induction false} FieldLeavesDistinct(fs: seq<Field>, p: KeyPath)
    requires forall i, j :: 0 <= i < j < |fs| ==> fs[i].key != fs[j].key
    requires forall i :: 0 <= i < |fs| ==> KeysUnique(fs[i].value)
    ensures PathsDistinct(FieldLeaves(fs, p))
    decreases fs, 0
  {
    if fs != [] {
      var init, last := fs[..|fs| - 1], fs[|fs| - 1];
      assert last in fs;
      var pl := p + [Key(last.key)];
      FieldLeavesDistinct(init, p);
      LeavesDistinct(last.value, pl);
      forall x, y | x in FieldLeaves(init, p) && y in Leaves(last.value, pl)
        ensures x.0 != y.0
      {
        var j := FieldOf(init, p, x);
        var pj := p + [Key(init[j].key)];
        PathsExtend(init[j].value, pj, x);
        PathsExtend(last.value, pl, y);
        assert x.0[|p|] == pj[|p|] && y.0[|p|] == pl[|p|];
      }
      DistinctConcat(FieldLeaves(init, p), Leaves(last.value, pl));
    }
  }

  lemma {:induction false} ItemLeavesDistinct(xs: seq<Node>, p: KeyPath)
    requires forall i :: 0 <= i < |xs| ==> KeysUnique(xs[i])
    ensures PathsDistinct(ItemLeaves(xs, p))
    decreases xs, 0
  {
    if xs != [] {
      var init, last := xs[..|xs| - 1], xs[|xs| - 1];
      assert last in xs;
      var pl := p + [Index(|xs| - 1)];
      ItemLeavesDistinct(init, p);
      LeavesDistinct(last, pl);
      forall x, y | x in ItemLeaves(init, p) && y in Leaves(last, pl)
        ensures x.0 != y.0
      {
        var j := ItemOf(init, p, x);
        var pj := p + [Index(j)];
        PathsExtend(init[j], pj, x);
        PathsExtend(last, pl, y);
        assert x.0[|p|] == pj[|p|] && y.0[|p|] == pl[|p|];
      }
      DistinctConcat(ItemLeaves(init, p), Leaves(last, pl));
    }
  }

  lemma ReverseDistinct(s: seq<Entry>)
    requires PathsDistinct(s)
    ensures PathsDistinct(Reverse(s))
  {
    var r := Reverse(s);
    forall i, j | 0 <= i < |r| && 0 <= j < |r| && i != j
      ensures r[i].0 != r[j].0
    {
      ReverseAt(s, i);
      ReverseAt(s, j);
    }
  }

  // ---------------------------------------------------------------------
  // Properties of what Flatten emits, Reverse(Leaves(obj, path))

  /** One entry per leaf, and the same entries as document order. The count
      is the part about the tree: together with FlattenedEntries (exactly
      the reachable scalars are emitted) and FlattenedPathsDistinct (no path
      twice) it says nothing is dropped and nothing duplicated; the
      multiset clause holds of any reversal. */
  lemma FlattenedIsPermutation(obj: Node, path: KeyPath)
    ensures |Reverse(Leaves(obj, path))| == LeafCount(obj)
    ensures multiset(Reverse(Leaves(obj, path))) == multiset(Leaves(obj, path))
  {
    LeavesCount(obj, path);
    ReverseMultiset(Leaves(obj, path));
  }

  /** In a tree with unique mapping keys no key-path is emitted twice. */
  lemma FlattenedPathsDistinct(obj: Node, path: KeyPath)
    requires KeysUnique(obj)
    ensures PathsDistinct(Reverse(Leaves(obj, path)))
  {
    LeavesDistinct(obj, path);
    ReverseDistinct(Leaves(obj, path));
  }

  /** An entry is emitted exactly when its path extends the starting path
      and following the rest of it from the root reaches that scalar. */
  lemma FlattenedEntries(obj: Node, path: KeyPath, q: KeyPath, v: Value)
    requires KeysUnique(obj)
    ensures (q, v) in Reverse(Leaves(obj, path)) <==>
            |path| <= |q| && q[..|path|] == path && Lookup(obj, q[|path|..]) == Some(Scalar(v))
  {
    ReverseMembers(Leaves(obj, path), (q, v));
    if (q, v) in Leaves(obj, path) {
      LeavesSound(obj, path, (q, v));
    }
    if |path| <= |q| && q[..|path|] == path && Lookup(obj, q[|path|..]) == Some(Scalar(v)) {
      LeavesComplete(obj, path, q[|path|..], v);
      assert path + q[|path|..] == q;
    }
  }

  /** LIFO among siblings: the last item of a mapping is explored first,
      completely, before the items in front of it. */
  lemma LastFieldFirst(fs: seq<Field>, p: KeyPath)
    requires fs != []
    ensures Reverse(Leaves(Map(fs), p)) ==
            Reverse(Leaves(fs[|fs| - 1].value, p + [Key(fs[|fs| - 1].key)])) +
            Reverse(Leaves(Map(fs[..|fs| - 1]), p))
  {
    ReverseConcat(FieldLeaves(fs[..|fs| - 1], p), Leaves(fs[|fs| - 1].value, p + [Key(fs[|fs| - 1].key)]));
  }

  /** LIFO among siblings: the last element of a sequence is explored first. */
  lemma LastItemFirst(xs: seq<Node>, p: KeyPath)
    requires xs != []
    ensures Reverse(Leaves(List(xs), p)) ==
            Reverse(Leaves(xs[|xs| - 1], p + [Index(|xs| - 1)])) +
            Reverse(Leaves(List(xs[..|xs| - 1]), p))
  {
    ReverseConcat(ItemLeaves(xs[..|xs| - 1], p), Leaves(xs[|xs| - 1], p + [Index(|xs| - 1)]));
  }

  /** After `load(f) or {}` a falsy root yields no entries at all, while any
      other root is flattened as loaded. */
  lemma NormalizedLeaves(n: Node, p: KeyPath)
    ensures Leaves(Normalize(n), p) == if IsFalsy(n) then [] else Leaves(n, p)
  {
  }
}
