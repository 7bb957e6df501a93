/**
 * The stack-deduplication tree behind the reader's `d_tree`: an append-only
 * arena of (frame id, parent index) nodes in which a whole call stack is
 * named by the index of its deepest node. Index 0 holds a placeholder and
 * names the empty stack. The tree's own source is not part of this model;
 * this module gives the contract the reader relies on, with a trie over the
 * arena as its body.
 */
module FrameTrees {
  import opened Wrappers
  import opened Records

  datatype Node = Node(frameId: FrameId, parentIndex: nat)

  /** `children[(p, f)]` is the index of the child of node `p` that holds frame `f`. */
  datatype FrameTree = FrameTree(nodes: seq<Node>, children: map<(nat, FrameId), nat>)

  const EmptyTree: FrameTree := FrameTree([Node(0, 0)], map[])

  ghost predicate Valid(t: FrameTree)
  {
    && |t.nodes| >= 1
    && (forall i :: 0 < i < |t.nodes| ==> t.nodes[i].parentIndex < i)
    && (forall k :: k in t.children ==> 0 < t.children[k] < |t.nodes| && t.nodes[t.children[k]] == Node(k.1, k.0))
  }

  /** `t2` keeps every node and every child link of `t`: issued indices stay valid and their nodes do not change. */
  ghost predicate Extends(t: FrameTree, t2: FrameTree)
  {
    && |t.nodes| <= |t2.nodes|
    && t2.nodes[..|t.nodes|] == t.nodes
    && (forall k :: k in t.children ==> k in t2.children && t2.children[k] == t.children[k])
  }

  /** The stack read from its top down to its bottom. */
  function Reverse<T>(s: seq<T>): (r: seq<T>)
    ensures |r| == |s|
  {
    if s == [] then [] else [s[|s| - 1]] + Reverse(s[..|s| - 1])
  }

  lemma {:induction false} ReverseAt<T>(s: seq<T>, k: nat)
    requires k < |s|
    ensures Reverse(s)[k] == s[|s| - 1 - k]
  {
    if k > 0 {
      ReverseAt(s[..|s| - 1], k - 1);
    }
  }

  lemma ReverseInjective<T>(s1: seq<T>, s2: seq<T>)
    requires Reverse(s1) == Reverse(s2)
    ensures s1 == s2
  {
    assert |s1| == |s2|;
    forall k | 0 <= k < |s1| ensures s1[k] == s2[k] {
      ReverseAt(s1, |s1| - 1 - k);
      ReverseAt(s2, |s2| - 1 - k);
    }
  }

  /** The node at a non-zero index: one step from a trace towards its root. */
  function NextNode(t: FrameTree, index: nat): (n: Node)
    requires Valid(t) && 0 < index < |t.nodes|
    ensures n.parentIndex < index
    ensures Walk(t, index) == [n.frameId] + Walk(t, n.parentIndex)
  {
    t.nodes[index]
  }

  /** The frame ids met by following parent links from `index` to the root, deepest first. */
  function Walk(t: FrameTree, index: nat): (s: seq<FrameId>)
    requires Valid(t) && index < |t.nodes|
    decreases index
  {
    if index == 0 then [] else [t.nodes[index].frameId] + Walk(t, t.nodes[index].parentIndex)
  }

  /** The node that names `stack`, if the tree already holds it. */
  function Lookup(t: FrameTree, stack: seq<FrameId>): (r: Option<nat>)
    requires Valid(t)
    ensures r.Some? ==> r.value < |t.nodes|
    ensures stack == [] ==> r == Some(0)
    decreases |stack|
  {
    if stack == [] then Some(0)
    else
      match Lookup(t, stack[..|stack| - 1])
      case None => None
      case Some(p) =>
        var key := (p, stack[|stack| - 1]);
        if key in t.children then Some(t.children[key]) else None
  }

  /** A lookup that succeeds in a tree succeeds with the same index in every extension of it. */
  lemma {:induction false} LookupExtends(t: FrameTree, t2: FrameTree, stack: seq<FrameId>)
    requires Valid(t) && Valid(t2) && Extends(t, t2)
    requires Lookup(t, stack).Some?
    ensures Lookup(t2, stack) == Lookup(t, stack)
    decreases |stack|
  {
    if stack != [] {
      LookupExtends(t, t2, stack[..|stack| - 1]);
    }
  }

  /** Walking in an extension from an index the smaller tree already had gives the same frames. */
  lemma {:induction false} WalkExtends(t: FrameTree, t2: FrameTree, index: nat)
    requires Valid(t) && Valid(t2) && Extends(t, t2)
    requires index < |t.nodes|
    ensures Walk(t2, index) == Walk(t, index)
    decreases index
  {
    if index != 0 {
      assert t2.nodes[index] == t.nodes[index];
      WalkExtends(t, t2, t.nodes[index].parentIndex);
    }
  }

  /**
   * `getTraceIndex`: the index of the node naming `stack`, adding the missing
   * nodes from the bottom of the stack up. Walking back from that index
   * visits the stack from top to bottom, the tree only grows, and a stack the
   * tree already holds gets its old index with nothing added.
   */
  function GetTraceIndex(t: FrameTree, stack: seq<FrameId>): (r: (FrameTree, nat))
    requires Valid(t)
    ensures Valid(r.0) && Extends(t, r.0)
    ensures Lookup(r.0, stack) == Some(r.1)
    ensures Lookup(t, stack).Some? ==> r == (t, Lookup(t, stack).value)
    ensures stack == [] ==> r.1 == 0
    decreases |stack|
  {
    if stack == [] then (t, 0)
    else
      var prefix := stack[..|stack| - 1];
      var f := stack[|stack| - 1];
      var (t1, p) := GetTraceIndex(t, prefix);
      if (p, f) in t1.children then
        (t1, t1.children[(p, f)])
      else
        var t2 := FrameTree(t1.nodes + [Node(f, p)], t1.children[(p, f) := |t1.nodes|]);
        assert Extends(t1, t2);
        LookupExtends(t1, t2, prefix);
        (t2, |t1.nodes|)
  }

  /** Walking back from the index of a stack visits that stack from top to bottom. */
  lemma {:induction false} LookupWalk(t: FrameTree, stack: seq<FrameId>)
    requires Valid(t) && Lookup(t, stack).Some?
    ensures Walk(t, Lookup(t, stack).value) == Reverse(stack)
    decreases |stack|
  {
    if stack != [] {
      var prefix := stack[..|stack| - 1];
      LookupWalk(t, prefix);
    }
  }

  /** Distinct stacks are never given the same index. */
  lemma DistinctStacksDistinctIndices(t: FrameTree, s1: seq<FrameId>, s2: seq<FrameId>)
    requires Valid(t) && Lookup(t, s1).Some? && Lookup(t, s2).Some?
    requires s1 != s2
    ensures Lookup(t, s1).value != Lookup(t, s2).value
  {
    LookupWalk(t, s1);
    LookupWalk(t, s2);
    if Lookup(t, s1).value == Lookup(t, s2).value {
      ReverseInjective(s1, s2);
    }
  }

  /** The node reached by following `n` parent links from `index` (stopping at the root). */
  function Ancestor(t: FrameTree, index: nat, n: nat): (a: nat)
    requires Valid(t) && index < |t.nodes|
    ensures a < |t.nodes|
    decreases n
  {
    if n == 0 || index == 0 then index else Ancestor(t, t.nodes[index].parentIndex, n - 1)
  }

  /** Every prefix of a stored stack is stored too, as an ancestor of the stack's node. */
  lemma {:induction false} PrefixIsAncestor(t: FrameTree, stack: seq<FrameId>, k: nat)
    requires Valid(t) && Lookup(t, stack).Some? && k <= |stack|
    ensures Lookup(t, stack[..k]).Some?
    ensures Ancestor(t, Lookup(t, stack).value, |stack| - k) == Lookup(t, stack[..k]).value
    decreases |stack|
  {
    if k < |stack| {
      var prefix := stack[..|stack| - 1];
      PrefixIsAncestor(t, prefix, k);
      assert prefix[..k] == stack[..k];
    } else {
      assert stack[..k] == stack;
    }
  }

  /** Two stored stacks with a common prefix reach the same node for that prefix. */
  lemma SharedPrefixSharedNode(t: FrameTree, s1: seq<FrameId>, s2: seq<FrameId>, k: nat)
    requires Valid(t) && Lookup(t, s1).Some? && Lookup(t, s2).Some?
    requires k <= |s1| && k <= |s2| && s1[..k] == s2[..k]
    ensures Ancestor(t, Lookup(t, s1).value, |s1| - k) == Ancestor(t, Lookup(t, s2).value, |s2| - k)
  {
    PrefixIsAncestor(t, s1, k);
    PrefixIsAncestor(t, s2, k);
  }
}
