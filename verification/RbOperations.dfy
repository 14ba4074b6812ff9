/**
 The red-black tree as its callers see it: a set of values. The tree stays a red-black tree under every
 run of calls; the count kept beside it does not follow the set when a value is inserted twice or one
 that is not there is removed.
 */
module RbOperations {
  import opened Machine
  import opened RbTree
  import opened RbShape
  import opened RbInsert
  import opened RbRemove

  /** Ordered, with a black root, no red node below a red one, and the same black height everywhere. */
  ghost predicate Sound(t: Tree) {
    !IsRed(t) && Proper(t) && Ascending(Keys(t)) && exists k :: Black(t, k)
  }

  ghost function Elements(s: seq<int>): (m: set<int>) {
    set x | x in s
  }

  lemma BlackRoot(f: Frame, t: Tree, n: int)
    requires RedBlack([f], t, n) && Ascending(Keys(t)) && t.Node?
    ensures Sound(Painted(t, false)) && Keys(Painted(t, false)) == Keys(t)
  {
    hide Ascending, Refs;
    PaintedKeys(t, false);
    PaintedColours(t, n + 1);
    assert Black(Painted(t, false), n) || Black(Painted(t, false), n + 1);
  }

  lemma {:induction false} RefsInMemory(h: Heap, t: Tree)
    requires Holds(h, t)
    ensures forall x :: x in Refs(t) ==> x in h
  {
    if t.Node? {
      RefsInMemory(h, t.left);
      RefsInMemory(h, t.right);
    }
  }

  lemma NewRoot(h: Heap, node: RbNode, v: int)
    requires node in h && h[node] == Cell(true, null, null, v)
    ensures var t := Node(node, true, v, Leaf, Leaf);
            Holds(h, t) && Unique(Refs(t)) && Keys(t) == [v] && Proper(t) && Black(t, 0)
  {
  }

  /** Below a false root. */
  lemma UnderHead(h: Heap, h': Heap, t: Tree, head: RbNode) returns (k: int)
    requires Holds(h, t) && Unique(Refs(t)) && Sound(t) && head !in h
    requires head in h' && h'[head] == Cell(false, null, RefOf(t), 0) && forall x :: x in h ==> x in h' && h'[x] == h[x]
    ensures var f := HeadFrame(head, 0);
            && Fits(h', [f], t, k, Keys(t), PathRefs([f]) + Refs(t)) && !IsRed(t) && Ascending(Keys(t))
            && PathRefs([f]) == multiset{head}
  {
    hide Ascending, Proper, Keys, Holds, HoldsPath, Unique, Refs, PathRefs, PathBlack, PathProper, KeysAt, Black;
    var f := HeadFrame(head, 0);
    k :| Black(t, k);
    LeafHolds(h');
    NoPath(h', head);
    RefsInMemory(h, t);
    HoldsElsewhere(h, h', t);
    assert [f] == [] + [f];
    PathEnd(h', [], f, RefOf(t));
    OneHead(head, t);
    HeadKeys(f, t, k);
  }

  lemma OneHead(head: RbNode, t: Tree)
    requires Unique(Refs(t)) && head !in Refs(t)
    ensures var f := HeadFrame(head, 0); PathRefs([f]) == multiset{head} && Unique(PathRefs([f]) + Refs(t))
  {
    var f := HeadFrame(head, 0);
    assert [f][..0] == [];
  }

  lemma HeadKeys(f: Frame, t: Tree, k: int)
    ensures KeysAt([f], t) == Keys(t) && PathBlack([f], k) && PathProper([f], false)
  {
  }

  lemma NoPath(h: Heap, x: RbNode)
    ensures HoldsPath(h, [], x)
  {
  }

  /** Out from under the false root. */
  lemma WithoutHead(h: Heap, h': Heap, t: Tree, n: int, head: RbNode)
    requires var f := HeadFrame(head, 0); Fits(h, [f], t, n, Keys(t), PathRefs([f]) + Refs(t))
    requires forall x :: x in h && x != head ==> x in h' && h'[x] == h[x]
    ensures Holds(h', t) && Unique(Refs(t)) && RedBlack([HeadFrame(head, 0)], t, n)
    ensures head in h && h[head].right == RefOf(t)
  {
    hide RedBlack, KeysAt, Keys;
    var f := HeadFrame(head, 0);
    assert [f] == [] + [f];
    AtMeans(h, [f], t);
    PathEnd(h, [], f, RefOf(t));
    OffPath([], f, t);
    RefsInMemory(h, t);
    HoldsElsewhere(h, h', t);
  }

  lemma PaintedRoot(h: Heap, t: Tree)
    requires Holds(h, t) && Unique(Refs(t)) && t.Node?
    ensures t.ref in h && Holds(h[t.ref := h[t.ref].(red := false)], Painted(t, false)) &&
            Unique(Refs(Painted(t, false)))
  {
    hide Holds, Refs, Unique, Painted;
    Alone(h, t);
    PaintRoot(h, [], t, false);
    Alone(h[t.ref := h[t.ref].(red := false)], Painted(t, false));
  }

  /** Sound but for the colour of its root. */
  ghost predicate AlmostSound(t: Tree) {
    Proper(t) && Ascending(Keys(t)) && exists k :: Black(t, k)
  }

  lemma Blackened(t: Tree)
    requires AlmostSound(t) && t.Node?
    ensures Sound(Painted(t, false)) && Keys(Painted(t, false)) == Keys(t)
  {
    var k :| Black(t, k);
    BlackRoot(HeadFrame(t.ref, 0), t, k);
  }

  lemma TopColours(f: Frame, t: Tree, n: int)
    requires RedBlack([f], t, n) && Ascending(Keys(t))
    ensures AlmostSound(t)
  {
  }

  lemma OutcomeElements(keys: seq<int>, all: multiset<RbNode>, keys': seq<int>, all': multiset<RbNode>, node: RbNode,
                        v: int)
    requires Outcome(keys, all, keys', all', node, v)
    ensures Elements(keys') == Elements(keys) + {v}
  {
    hide Ascending;
    if v !in keys {
      forall x
        ensures x in keys' <==> x in keys || x == v
      {
        assert x in keys' <==> x in multiset(keys');
        assert x in keys <==> x in multiset(keys);
      }
    }
  }

  lemma RemovedElements(keys: seq<int>, keys': seq<int>, v: int)
    requires Removed(keys, keys', v) && Ascending(keys)
    ensures Elements(keys') == Elements(keys) - {v}
  {
    if v in keys {
      OnceOnly(keys, v);
      forall x
        ensures x in keys' <==> x in keys && x != v
      {
        assert x in keys' <==> x in multiset(keys');
        assert x in keys <==> x in multiset(keys);
      }
    }
  }

  lemma OnceOnly(s: seq<int>, v: int)
    requires Ascending(s) && v in s
    ensures multiset(s)[v] == 1
  {
    var i :| 0 <= i < |s| && s[i] == v;
    Elsewhere(s, i);
    hide Ascending;
    assert s == s[..i] + [v] + s[i + 1..];
    assert multiset(s) == multiset(s[..i]) + multiset{v} + multiset(s[i + 1..]);
  }

  lemma Elsewhere(s: seq<int>, i: nat)
    requires Ascending(s) && i < |s|
    ensures s[i] !in s[..i] && s[i] !in s[i + 1..]
  {
    assert forall j :: i + 1 <= j < |s| ==> s[i] < s[j];
  }

  /** The pass of an insertion, with the false root set up and taken off. */
  method InsertBelow(root: RbNode, node: RbNode, ghost nodes: set<RbNode>, ghost tree: Tree)
    returns (root': RbNode, ghost tree': Tree)
    requires Holds(Snap(nodes), tree) && Unique(Refs(tree)) && Sound(tree) && root == RefOf(tree)
    requires node in nodes && node !in Refs(tree) && Snap(nodes)[node] == Cell(true, null, null, node.value)
    modifies nodes
    ensures Holds(Snap(nodes), tree') && Unique(Refs(tree')) && root' == RefOf(tree') && AlmostSound(tree')
    ensures Elements(Keys(tree')) == Elements(Keys(tree)) + {old(node.value)}
  {
    hide Sound, Keys, Ascending, Holds, Refs, Unique, Fits, Elements, Outcome, RedBlack, PathRefs, AlmostSound, OnlyIn;
    ghost var h := Snap(nodes);
    var head := new RbNode(0);
    head.red := false;
    head.right := root;
    ghost var U, f := nodes + {head}, HeadFrame(head, 0);
    ghost var k := UnderHead(h, Snap(U), tree, head);
    ghost var n;
    tree', n := RbInsert.Pass(head, root, node, U, tree, k);
    WithoutHead(Snap(U), Snap(nodes), tree', n, head);
    TopColours(f, tree', n);
    OutcomeElements(Keys(tree), PathRefs([f]) + Refs(tree), Keys(tree'), PathRefs([f]) + Refs(tree'), node, node.value);
    root' := head.right;
  }

  /** The pass of a removal, with the false root set up and taken off. */
  method RemoveBelow(root: RbNode, value: int, ghost nodes: set<RbNode>, ghost tree: Tree)
    returns (root': RbNode?, ghost tree': Tree)
    requires Holds(Snap(nodes), tree) && Unique(Refs(tree)) && Sound(tree) && root == RefOf(tree)
    modifies nodes
    ensures Holds(Snap(nodes), tree') && Unique(Refs(tree')) && root' == RefOf(tree') && AlmostSound(tree')
    ensures Elements(Keys(tree')) == Elements(Keys(tree)) - {value}
  {
    hide Sound, Keys, Ascending, Holds, Refs, Unique, Fits, Elements, RedBlack, PathRefs, AlmostSound, OnlyIn, Removed;
    ghost var h := Snap(nodes);
    var head := new RbNode(0);
    head.red := false;
    head.right := root;
    ghost var U, f := nodes + {head}, HeadFrame(head, 0);
    ghost var k := UnderHead(h, Snap(U), tree, head);
    ghost var n;
    tree', n := RbRemove.Pass(head, root, value, U, tree, k);
    WithoutHead(Snap(U), Snap(nodes), tree', n, head);
    RemovedAscends(Keys(tree), Keys(tree'), value);
    TopColours(f, tree', n);
    RemovedElements(Keys(tree), Keys(tree'), value);
    root' := head.right;
  }

  lemma RemovedAscends(keys: seq<int>, keys': seq<int>, v: int)
    requires Removed(keys, keys', v)
    ensures Ascending(keys')
  {
  }

  method Blacken(root: RbNode, ghost nodes: set<RbNode>, ghost tree: Tree) returns (ghost tree': Tree)
    requires Holds(Snap(nodes), tree) && Unique(Refs(tree)) && root == RefOf(tree) && AlmostSound(tree)
    modifies nodes
    ensures Holds(Snap(nodes), tree') && Unique(Refs(tree')) && root == RefOf(tree') && Sound(tree') &&
            Keys(tree') == Keys(tree)
  {
    hide Sound, Keys, Holds, Refs, Unique, Painted, AlmostSound;
    PaintedRoot(Snap(nodes), tree);
    Blackened(tree);
    PaintedRef(tree);
    SetRed(root, false, nodes);
    tree' := Painted(tree, false);
  }

  /** rbtree_tree_insert_node on the nodes: the new root, still of any colour. */
  method PutNode(root: RbNode?, node: RbNode, ghost nodes: set<RbNode>, ghost tree: Tree)
    returns (root': RbNode, ghost tree': Tree)
    requires Holds(Snap(nodes), tree) && Unique(Refs(tree)) && Sound(tree) && root == RefOf(tree)
    requires node in nodes && node !in Refs(tree) && Snap(nodes)[node] == Cell(true, null, null, node.value)
    modifies nodes
    ensures Holds(Snap(nodes), tree') && Unique(Refs(tree')) && root' == RefOf(tree') && AlmostSound(tree')
    ensures Elements(Keys(tree')) == Elements(Keys(tree)) + {old(node.value)}
  {
    hide Sound, Keys, Holds, Refs, Unique, Elements, AlmostSound;
    if root == null {
      EmptyTree();
      NewTree(Snap(nodes), node, node.value);
      root', tree' := node, Node(node, true, node.value, Leaf, Leaf);
    } else {
      root', tree' := InsertBelow(root, node, nodes, tree);
    }
  }

  method PutBlack(root: RbNode?, node: RbNode, ghost nodes: set<RbNode>, ghost all: set<RbNode>, ghost tree: Tree)
    returns (root': RbNode, ghost tree': Tree)
    requires Holds(Snap(nodes), tree) && Unique(Refs(tree)) && Sound(tree) && root == RefOf(tree)
    requires node !in nodes && all == nodes + {node} && node.red && node.left == null && node.right == null
    modifies all
    ensures Holds(Snap(all), tree') && Unique(Refs(tree')) && root' == RefOf(tree') && Sound(tree')
    ensures Elements(Keys(tree')) == Elements(Keys(tree)) + {old(node.value)}
  {
    hide Sound, Keys, Holds, Refs, Unique, Elements, AlmostSound;
    ghost var h := Snap(nodes);
    RefsInMemory(h, tree);
    HoldsElsewhere(h, Snap(all), tree);
    root', tree' := PutNode(root, node, all, tree);
    tree' := Blacken(root', all, tree');
  }

  /** What a search returns: a null pointer stands for a missing value. */
  function Answer(values: set<int>, v: int): (r: int) {
    if v in values then v else 0
  }

  /** The answer tells whether the value is there, if and only if the value is not the null pointer. */
  lemma TellsExactly(v: int)
    ensures (forall s: set<int>, t: set<int> :: Answer(s, v) == Answer(t, v) ==> (v in s <==> v in t)) <==> v != 0
  {
    if v == 0 {
      assert Answer({}, v) == Answer({v}, v) && v !in {} && v in {v};
    }
  }

  class RedBlackTree {
    var root: RbNode?
    var size: nat
    ghost var nodes: set<RbNode>
    ghost var tree: Tree

    ghost predicate Valid()
      reads this, nodes
    {
      Holds(Snap(nodes), tree) && Unique(Refs(tree)) && root == RefOf(tree) && Sound(tree)
    }

    ghost function Values(): (m: set<int>)
      reads this
    {
      Elements(Keys(tree))
    }

    constructor ()
      ensures Valid() && Values() == {} && size == 0 && fresh(nodes)
    {
      root, size, nodes, tree := null, 0, {}, Leaf;
      new;
      assert Black(Leaf, 0);
    }

    /** rbtree_tree_insert: the value is in the set afterwards; the count grows and 1 is returned in any case. */
    method Insert(value: int) returns (result: int)
      requires Valid()
      modifies this, nodes
      ensures Valid() && fresh(nodes - old(nodes)) && result == 1
      ensures Values() == old(Values()) + {value} && size == U32(old(size) + 1)
    {
      hide Sound, Keys, Holds, Refs, Unique, Elements, AlmostSound, U32;
      var count := size;
      var node := new RbNode(value);
      ghost var all := nodes + {node};
      var newRoot;
      ghost var newTree;
      newRoot, newTree := PutBlack(root, node, nodes, all, tree);
      root, size := newRoot, U32(count + 1);
      nodes, tree := all, newTree;
      return 1;
    }

    /** rbtree_tree_remove: the value is not in the set afterwards; the count shrinks unless the tree was
     empty, and 1 is returned in any case. */
    method Remove(value: int) returns (result: int)
      requires Valid()
      modifies this, nodes
      ensures Valid() && nodes == old(nodes) && result == 1
      ensures Values() == old(Values()) - {value}
      ensures size == if old(Values()) == {} then old(size) else U32(old(size) - 1)
    {
      hide Sound, Keys, Holds, Refs, Unique, Elements, AlmostSound;
      EmptyTree();
      if root != null {
        NotEmpty(tree);
        root, tree := RemoveBelow(root, value, nodes, tree);
        if root != null {
          tree := Blacken(root, nodes, tree);
        } else {
          EmptyIsSound();
        }
        size := U32(size - 1);
      }
      return 1;
    }

    /** rbtree_tree_find: the value itself, or 0, the null pointer, when it is not there. */
    method Find(value: int) returns (result: int)
      requires Valid()
      ensures value in Values() ==> result == value
      ensures value !in Values() ==> result == 0
      ensures result == Answer(Values(), value)
    {
      hide Sound, Keys, Holds, Refs, Unique;
      SoundKeys(tree);
      var it := root;
      ghost var t := tree;
      while it != null
        invariant it == RefOf(t) && Holds(Snap(nodes), t) && Ascending(Keys(t))
        invariant value in Keys(t) <==> value in Keys(tree)
        decreases t
      {
        ChildColours(Snap(nodes), t);
        HoldsNode(Snap(nodes), t);
        Narrows(t, value);
        if it.value == value {
          return it.value;
        }
        t := Child(t, it.value < value);
        it := Link(it, it.value < value);
      }
      EmptyTree();
      return 0;
    }
  }

  lemma EmptyTree()
    ensures Elements(Keys(Leaf)) == {} && Keys(Leaf) == []
  {
  }

  lemma NotEmpty(t: Tree)
    requires t.Node?
    ensures Elements(Keys(t)) != {}
  {
    RootKey(t);
    assert t.value in Elements(Keys(t));
  }

  lemma EmptyIsSound()
    ensures Sound(Leaf)
  {
    assert Black(Leaf, 0);
  }

  lemma NewTree(h: Heap, node: RbNode, v: int)
    requires node in h && h[node] == Cell(true, null, null, v)
    ensures var t := Node(node, true, v, Leaf, Leaf);
            Holds(h, t) && Unique(Refs(t)) && AlmostSound(t) && Elements(Keys(t)) == {v}
  {
    NewRoot(h, node, v);
    assert Black(Node(node, true, v, Leaf, Leaf), 0);
  }

  lemma PaintedRef(t: Tree)
    requires t.Node?
    ensures RefOf(Painted(t, false)) == t.ref
  {
  }

  lemma SoundKeys(t: Tree)
    requires Sound(t)
    ensures Ascending(Keys(t))
  {
  }

  /** The value can only be on the side the search takes. */
  lemma Narrows(t: Tree, v: int)
    requires t.Node? && Ascending(Keys(t))
    ensures t.value == v ==> v in Keys(t)
    ensures t.value != v ==> (v in Keys(t) <==> v in Keys(Child(t, t.value < v)))
    ensures Ascending(Keys(Child(t, t.value < v)))
  {
    AscendingParts(Keys(t.left), [t.value], Keys(t.right));
    RootKey(t);
    if v in Keys(t.left) {
      SideOf(t, false, v);
    }
    if v in Keys(t.right) {
      SideOf(t, true, v);
    }
  }

  // ---------------------------------------------------------------------------
  // Height
  // ---------------------------------------------------------------------------

  ghost function Height(t: Tree): (n: nat) {
    if t.Leaf? then 0
    else 1 + if Height(t.left) > Height(t.right) then Height(t.left) else Height(t.right)
  }

  lemma {:induction false} BlackSize(t: Tree, k: nat)
    requires Black(t, k) && Proper(t)
    ensures Pow2(k) <= Count(t) + 1 && Height(t) <= 2 * k + if IsRed(t) then 1 else 0
  {
    if t.Node? {
      BlackHeight(t.left, k - Shade(t.red));
      BlackSize(t.left, k - Shade(t.red));
      BlackSize(t.right, k - Shade(t.red));
    }
  }

  /** A search takes at most twice as many steps as the logarithm of the number of nodes. */
  lemma HeightBound(t: Tree) returns (k: nat)
    requires Sound(t)
    ensures Height(t) <= 2 * k && Pow2(k) <= Count(t) + 1
  {
    var n :| Black(t, n);
    BlackHeight(t, n);
    k := n;
    BlackSize(t, k);
  }

  // ---------------------------------------------------------------------------
  // Runs
  // ---------------------------------------------------------------------------

  datatype Call = InsertCall(value: int) | RemoveCall(value: int) | FindCall(value: int)

  /** The set of values, and the count kept beside it. */
  datatype State = State(values: set<int>, size: nat)

  function After(s: State, c: Call): (r: State) {
    match c
    case InsertCall(v) => State(s.values + {v}, U32(s.size + 1))
    case RemoveCall(v) => State(s.values - {v}, if s.values == {} then s.size else U32(s.size - 1))
    case FindCall(_) => s
  }

  function AfterAll(s: State, run: seq<Call>): (r: State)
    decreases |run|
  {
    if run == [] then s else AfterAll(After(s, run[0]), run[1..])
  }

  /** Insertions and removals return 1. */
  function Reply(s: State, c: Call): (r: int) {
    if c.FindCall? then Answer(s.values, c.value) else 1
  }

  function Replies(s: State, run: seq<Call>): (r: seq<int>)
    decreases |run|
  {
    if run == [] then [] else [Reply(s, run[0])] + Replies(After(s, run[0]), run[1..])
  }

  predicate Changes(c: Call, v: int) {
    c == InsertCall(v) || c == RemoveCall(v)
  }

  /** Call `j` is the last before call `k` that inserts or removes `v`. */
  ghost predicate LastChange(run: seq<Call>, j: nat, k: nat, v: int)
    requires k <= |run|
  {
    j < k && Changes(run[j], v) && Unchanged(run, j + 1, k, v)
  }

  ghost predicate Unchanged(run: seq<Call>, from: nat, k: nat, v: int)
    requires k <= |run|
  {
    forall i :: from <= i < k ==> !Changes(run[i], v)
  }

  /**
   The answer of call `k` in a run from the given values. A search for `v` is answered by `v` if the
   last call that inserts or removes `v` before it is an insertion, or if there is none and `v` was
   there at the start; else by 0. All other calls are answered by 1.
   */
  ghost predicate Justified(values: set<int>, run: seq<Call>, k: nat, answer: int)
    requires k < |run|
  {
    var v := run[k].value;
    if run[k].FindCall? then
      && (forall j {:trigger LastChange(run, j, k, v)} :: 0 <= j < k && LastChange(run, j, k, v) ==>
            answer == if run[j].InsertCall? then v else 0)
      && (Unchanged(run, 0, k, v) ==> answer == if v in values then v else 0)
    else answer == 1
  }

  lemma AllJustified(s: State, run: seq<Call>)
    ensures |Replies(s, run)| == |run|
    ensures forall k :: 0 <= k < |run| ==> Justified(s.values, run, k, Replies(s, run)[k])
  {
    hide Justified;
    ReplyCount(s, run);
    forall k | 0 <= k < |run|
      ensures Justified(s.values, run, k, Replies(s, run)[k])
    {
      LastChangeDecides(s, run, k);
    }
  }

  lemma {:induction false} ReplyCount(s: State, run: seq<Call>)
    ensures |Replies(s, run)| == |run|
    decreases |run|
  {
    if run != [] {
      ReplyCount(After(s, run[0]), run[1..]);
    }
  }

  lemma {:induction false} LastChangeDecides(s: State, run: seq<Call>, k: nat)
    requires k < |run|
    ensures |Replies(s, run)| == |run| && Justified(s.values, run, k, Replies(s, run)[k])
    decreases |run|
  {
    ReplyCount(s, run);
    if k > 0 {
      var next, rest, v, answer := After(s, run[0]), run[1..], run[k].value, Replies(s, run)[k];
      LastChangeDecides(next, rest, k - 1);
      assert rest[k - 1] == run[k] && answer == Replies(next, rest)[k - 1];
      if run[k].FindCall? {
        forall j | 0 <= j < k && LastChange(run, j, k, v)
          ensures answer == if run[j].InsertCall? then v else 0
        {
          if j > 0 {
            ShiftedUnchanged(run, j + 1, k, v);
            assert LastChange(rest, j - 1, k - 1, v);
          } else {
            ShiftedUnchanged(run, 1, k, v);
          }
        }
        if Unchanged(run, 0, k, v) {
          assert !Changes(run[0], v);
          ShiftedUnchanged(run, 1, k, v);
        }
      }
    }
  }

  lemma ShiftedUnchanged(run: seq<Call>, from: nat, k: nat, v: int)
    requires 0 < from <= k <= |run| && Unchanged(run, from, k, v)
    ensures Unchanged(run[1..], from - 1, k - 1, v)
  {
    assert forall i :: from - 1 <= i < k - 1 ==> run[1..][i] == run[i + 1];
  }

  /** Every run keeps the tree a red-black tree, and calls see the set. */
  method Execute(t: RedBlackTree, run: seq<Call>) returns (answers: seq<int>)
    requires t.Valid()
    modifies t, t.nodes
    ensures t.Valid() && State(t.Values(), t.size) == AfterAll(old(State(t.Values(), t.size)), run)
    ensures answers == Replies(old(State(t.Values(), t.size)), run)
    ensures |answers| == |run| && forall k :: 0 <= k < |run| ==> Justified(old(t.Values()), run, k, answers[k])
  {
    hide *;
    ghost var s := State(t.Values(), t.size);
    answers := [];
    assert run[0..] == run;
    for k := 0 to |run|
      invariant t.Valid() && fresh(t.nodes - old(t.nodes))
      invariant AfterAll(State(t.Values(), t.size), run[k..]) == AfterAll(s, run)
      invariant answers + Replies(State(t.Values(), t.size), run[k..]) == Replies(s, run)
    {
      RunStep(State(t.Values(), t.size), run, k);
      var answer := Perform(t, run[k]);
      answers := answers + [answer];
    }
    RunEnd(State(t.Values(), t.size), run);
    AllJustified(s, run);
  }

  method Perform(t: RedBlackTree, c: Call) returns (answer: int)
    requires t.Valid()
    modifies t, t.nodes
    ensures t.Valid() && fresh(t.nodes - old(t.nodes))
    ensures State(t.Values(), t.size) == After(old(State(t.Values(), t.size)), c)
    ensures answer == Reply(old(State(t.Values(), t.size)), c)
  {
    hide t.Valid, t.Values, U32;
    match c
    case InsertCall(v) =>
      answer := t.Insert(v);
    case RemoveCall(v) =>
      answer := t.Remove(v);
    case FindCall(v) =>
      answer := t.Find(v);
  }

  lemma RunStep(s: State, run: seq<Call>, k: nat)
    requires k < |run|
    ensures AfterAll(s, run[k..]) == AfterAll(After(s, run[k]), run[k + 1..])
    ensures Replies(s, run[k..]) == [Reply(s, run[k])] + Replies(After(s, run[k]), run[k + 1..])
  {
    hide After, Reply;
    assert run[k..][1..] == run[k + 1..];
  }

  lemma RunEnd(s: State, run: seq<Call>)
    ensures AfterAll(s, run[|run|..]) == s && Replies(s, run[|run|..]) == []
  {
  }

  ghost predicate Counted(s: State) {
    s.size == U32(|s.values|)
  }

  /** Inserting a value that is there, or removing one that is not from a tree that is not empty. */
  predicate Miscounts(s: State, c: Call) {
    (c.InsertCall? && c.value in s.values) || (c.RemoveCall? && c.value !in s.values && s.values != {})
  }

  /** A right count goes wrong in exactly those calls. */
  lemma CountStep(s: State, c: Call)
    requires Counted(s)
    ensures Counted(After(s, c)) <==> !Miscounts(s, c)
  {
    var n := |s.values|;
    WordStep(n);
    match c
    case InsertCall(v) =>
      if v in s.values {
        assert s.values + {v} == s.values;
      } else {
        assert |s.values + {v}| == n + 1;
      }
    case RemoveCall(v) =>
      if v in s.values {
        assert |s.values - {v}| == n - 1;
      } else {
        assert s.values - {v} == s.values;
      }
    case FindCall(_) =>
  }

  lemma WordStep(n: nat)
    ensures U32(U32(n) + 1) == U32(n + 1) && U32(U32(n) - 1) == U32(n - 1)
    ensures U32(n + 1) != U32(n) && U32(n - 1) != U32(n)
  {
    hide U32;
    var a := WordParts(n);
    var r: int := U32(n);
    if r + 1 < 0x1_0000_0000 {
      WordIs(r + 1, 0, r + 1);
      WordIs(n + 1, a, r + 1);
    } else {
      WordIs(r + 1, 1, 0);
      WordIs(n + 1, a + 1, 0);
    }
    if r > 0 {
      WordIs(r - 1, 0, r - 1);
      WordIs(n - 1, a, r - 1);
    } else {
      WordIs(r - 1, -1, 0xFFFF_FFFF);
      WordIs(n - 1, a - 1, 0xFFFF_FFFF);
    }
  }

  lemma WordParts(n: nat) returns (a: int)
    ensures n == 0x1_0000_0000 * a + U32(n) && 0 <= U32(n) < 0x1_0000_0000
  {
    a := n / 0x1_0000_0000;
  }

  lemma WordIs(x: int, a: int, r: int)
    requires x == 0x1_0000_0000 * a + r && 0 <= r < 0x1_0000_0000
    ensures U32(x) == r
  {
  }

  ghost predicate CountedThroughout(s: State, run: seq<Call>)
    decreases |run|
  {
    Counted(s) && (run != [] ==> CountedThroughout(After(s, run[0]), run[1..]))
  }

  ghost predicate NeverMiscounts(s: State, run: seq<Call>)
    decreases |run|
  {
    run != [] ==> !Miscounts(s, run[0]) && NeverMiscounts(After(s, run[0]), run[1..])
  }

  /** The count is the number of values throughout a run if and only if the run has no such call. */
  lemma {:induction false} CountExactlyWhen(s: State, run: seq<Call>)
    requires Counted(s)
    ensures CountedThroughout(s, run) <==> NeverMiscounts(s, run)
    decreases |run|
  {
    hide Counted, Miscounts, After;
    if run != [] {
      CountStep(s, run[0]);
      if !Miscounts(s, run[0]) {
        CountExactlyWhen(After(s, run[0]), run[1..]);
      }
    }
  }

  /** The smallest wrong counts: a value inserted twice, and one removed that is not there. */
  lemma WrongCounts()
    ensures AfterAll(State({}, 0), [InsertCall(5), InsertCall(5)]) == State({5}, 2)
    ensures AfterAll(State({}, 0), [InsertCall(5), RemoveCall(7)]) == State({5}, 0)
  {
    var a, b, c := InsertCall(5), InsertCall(5), RemoveCall(7);
    var s := State({5}, 1);
    assert After(State({}, 0), a) == s;
    assert After(s, b) == State({5}, 2) && After(s, c) == State({5}, 0);
    assert [a, b][1..] == [b] && [a, c][1..] == [c] && [b][1..] == [] && [c][1..] == [];
    assert AfterAll(State({}, 0), [a, b]) == AfterAll(s, [b]) == AfterAll(State({5}, 2), []);
    assert AfterAll(State({}, 0), [a, c]) == AfterAll(s, [c]) == AfterAll(State({5}, 0), []);
  }
}
