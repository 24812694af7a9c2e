/** What the list operations compute, as functions on sequences. */
module ListSpec {

  /** Position at which a sorted insertion puts v: before the first element it is less than. */
  function InsertPos<T>(s: seq<T>, v: T, less: (T, T) -> bool): (k: nat)
    ensures k <= |s|
    ensures forall i :: 0 <= i < k ==> !less(v, s[i])
    ensures k < |s| ==> less(v, s[k])
  {
    if |s| == 0 || less(v, s[0]) then 0 else 1 + InsertPos(s[1..], v, less)
  }

  function InsertSorted<T>(s: seq<T>, v: T, less: (T, T) -> bool): seq<T> {
    var k := InsertPos(s, v, less);
    s[..k] + [v] + s[k..]
  }

  lemma InsertPosUnique<T>(s: seq<T>, v: T, less: (T, T) -> bool, k: nat)
    requires k <= |s| && (forall i :: 0 <= i < k ==> !less(v, s[i])) && (k < |s| ==> less(v, s[k]))
    ensures InsertPos(s, v, less) == k
  {
    var p := InsertPos(s, v, less);
    assert p < |s| ==> less(v, s[p]);
    assert k < |s| ==> less(v, s[k]);
  }

  /** Position of the first element satisfying p, or the length. */
  function Find<T>(s: seq<T>, p: T -> bool): (k: nat)
    ensures k <= |s|
    ensures forall i :: 0 <= i < k ==> !p(s[i])
    ensures k < |s| ==> p(s[k])
  {
    if |s| == 0 || p(s[0]) then 0 else 1 + Find(s[1..], p)
  }

  lemma FindUnique<T>(s: seq<T>, p: T -> bool, k: nat)
    requires k <= |s| && (forall i :: 0 <= i < k ==> !p(s[i])) && (k < |s| ==> p(s[k]))
    ensures Find(s, p) == k
  {
    var f := Find(s, p);
    assert f < |s| ==> p(s[f]);
    assert k < |s| ==> p(s[k]);
  }

  /** The sequence without its first element satisfying p. */
  function RemoveFirst<T>(s: seq<T>, p: T -> bool): seq<T> {
    var k := Find(s, p);
    if k == |s| then s else s[..k] + s[k + 1..]
  }

  ghost predicate Increasing<T>(s: seq<T>, less: (T, T) -> bool) {
    forall i, j :: 0 <= i < j < |s| ==> less(s[i], s[j])
  }

  /** Putting v between the smaller and the greater elements of an increasing sequence. */
  lemma InsertIncreasing<T>(s: seq<T>, v: T, k: nat, less: (T, T) -> bool)
    requires Increasing(s, less) && k <= |s|
    requires forall i :: 0 <= i < k ==> less(s[i], v)
    requires forall i :: k <= i < |s| ==> less(v, s[i])
    ensures Increasing(s[..k] + [v] + s[k..], less)
  {
    var r := s[..k] + [v] + s[k..];
    forall i, j | 0 <= i < j < |r| ensures less(r[i], r[j]) {
      if j < k {
        assert r[i] == s[i] && r[j] == s[j];
      } else if j == k {
        assert r[i] == s[i];
      } else if i <= k {
        assert r[j] == s[j - 1] && r[i] == if i == k then v else s[i];
      } else {
        assert r[i] == s[i - 1] && r[j] == s[j - 1];
      }
    }
  }

  ghost predicate StrictWeakOrder<T(!new)>(less: (T, T) -> bool) {
    && (forall x :: !less(x, x))
    && (forall x, y, z :: less(x, y) && less(y, z) ==> less(x, z))
    && (forall x, y, z :: less(x, y) ==> less(x, z) || less(z, y))
  }

  /** No element is less than an earlier one. */
  ghost predicate Sorted<T>(s: seq<T>, less: (T, T) -> bool) {
    forall i, j :: 0 <= i < j < |s| ==> !less(s[j], s[i])
  }

  /** Sorted insertion keeps a list sorted, adds exactly v, and puts v after every element
      that is equivalent to it (stability): everything behind v is strictly greater. */
  lemma InsertSortedKeepsOrder<T(!new)>(s: seq<T>, v: T, less: (T, T) -> bool)
    requires StrictWeakOrder(less) && Sorted(s, less)
    ensures Sorted(InsertSorted(s, v, less), less)
    ensures multiset(InsertSorted(s, v, less)) == multiset(s) + multiset{v}
    ensures forall i :: InsertPos(s, v, less) <= i < |s| ==> less(v, s[i])
  {
    var k := InsertPos(s, v, less);
    var r := InsertSorted(s, v, less);
    InsertSortedAddsOne(s, v, less);
    LaterAreGreater(s, v, less);
    forall i, j | 0 <= i < j < |r| ensures !less(r[j], r[i]) {
      InsertedPairOrdered(s, v, less, r, i, j);
    }
  }

  lemma InsertSortedAddsOne<T>(s: seq<T>, v: T, less: (T, T) -> bool)
    ensures multiset(InsertSorted(s, v, less)) == multiset(s) + multiset{v}
  {
    var k := InsertPos(s, v, less);
    assert s == s[..k] + s[k..];
  }

  lemma LaterAreGreater<T(!new)>(s: seq<T>, v: T, less: (T, T) -> bool)
    requires StrictWeakOrder(less) && Sorted(s, less)
    ensures forall i :: InsertPos(s, v, less) <= i < |s| ==> less(v, s[i])
  {
    var k := InsertPos(s, v, less);
    forall i | k <= i < |s| ensures less(v, s[i]) {
      if i > k {
        assert !less(s[i], s[k]) && less(v, s[k]);
      }
    }
  }

  lemma InsertedPairOrdered<T(!new)>(s: seq<T>, v: T, less: (T, T) -> bool, r: seq<T>, i: nat, j: nat)
    requires StrictWeakOrder(less) && Sorted(s, less) && r == InsertSorted(s, v, less) && i < j < |r|
    requires forall x :: InsertPos(s, v, less) <= x < |s| ==> less(v, s[x])
    ensures !less(r[j], r[i])
  {
    var k := InsertPos(s, v, less);
    assert r[i] == if i < k then s[i] else if i == k then v else s[i - 1];
    assert r[j] == if j < k then s[j] else if j == k then v else s[j - 1];
    if i == k {
      assert less(v, s[j - 1]);
    } else if j != k {
    }
  }

}

/** The doubly linked list of linklist.c, with head, tail, prev, next and count relinked in place. */
module LinkList {
  import opened ListSpec
  import opened CText

  class Node {
    var next: Node?
    var prev: Node?
    const data: string  // set once, when the node is created

    constructor (data: string)
      ensures this.data == data && next == null && prev == null
    {
      this.data := data;
      next, prev := null, null;
    }
  }

  ghost function At(nodes: seq<Node>, i: int): Node? {
    if 0 <= i < |nodes| then nodes[i] else null
  }

  ghost predicate Distinct(nodes: seq<Node>) {
    forall i, j :: 0 <= i < j < |nodes| ==> nodes[i] != nodes[j]
  }

  ghost predicate Linked(nodes: seq<Node>)
    reads nodes
  {
    && (forall i {:trigger nodes[i].next} :: 0 <= i < |nodes| ==> nodes[i].next == At(nodes, i + 1))
    && (forall i {:trigger nodes[i].prev} :: 0 <= i < |nodes| ==> nodes[i].prev == At(nodes, i - 1))
  }

  ghost predicate Carries(nodes: seq<Node>, contents: seq<string>)
  {
    |nodes| == |contents| && forall i :: 0 <= i < |nodes| ==> nodes[i].data == contents[i]
  }

  /** nodes is was with node put in at position k. */
  ghost predicate Inserted(was: seq<Node>, k: nat, node: Node, nodes: seq<Node>) {
    && k <= |was| && |nodes| == |was| + 1 && nodes[k] == node
    && (forall i :: 0 <= i < k ==> nodes[i] == was[i])
    && (forall i :: k < i < |nodes| ==> nodes[i] == was[i - 1])
  }

  /** nodes is was without position k. */
  ghost predicate Removed(was: seq<Node>, k: nat, nodes: seq<Node>) {
    && k < |was| && |nodes| == |was| - 1
    && (forall i :: 0 <= i < k ==> nodes[i] == was[i])
    && (forall i :: k <= i < |nodes| ==> nodes[i] == was[i + 1])
  }

  lemma OnlyAt(nodes: seq<Node>, k: int)
    requires Distinct(nodes)
    ensures forall i {:trigger nodes[i]} :: 0 <= i < |nodes| && nodes[i] == At(nodes, k) ==> i == k
  {
  }

  lemma Insert(was: seq<Node>, k: nat, node: Node) returns (nodes: seq<Node>)
    requires k <= |was| && Distinct(was) && node !in was
    ensures Inserted(was, k, node, nodes) && Distinct(nodes)
    ensures forall m :: m in nodes ==> m in was || m == node
  {
    nodes := was[..k] + [node] + was[k..];
  }

  lemma Remove(was: seq<Node>, k: nat) returns (nodes: seq<Node>)
    requires k < |was| && Distinct(was)
    ensures Removed(was, k, nodes) && Distinct(nodes)
    ensures forall m :: m in nodes ==> m in was
  {
    nodes := was[..k] + was[k + 1..];
  }

  /** Redirecting the two neighbours and linking the new node restores the links. */
  lemma LinkedAfterInsert(was: seq<Node>, k: nat, node: Node, nodes: seq<Node>)
    requires Inserted(was, k, node, nodes)
    requires forall i {:trigger was[i].next} :: 0 <= i < |was| ==> was[i].next == if i == k - 1 then node else At(was, i + 1)
    requires forall i {:trigger was[i].prev} :: 0 <= i < |was| ==> was[i].prev == if i == k then node else At(was, i - 1)
    requires node.next == At(was, k) && node.prev == At(was, k - 1)
    ensures Linked(nodes)
  {
    forall i | 0 <= i < |nodes|
      ensures nodes[i].next == At(nodes, i + 1) && nodes[i].prev == At(nodes, i - 1)
    {
      if i < k {
        assert nodes[i] == was[i];
      } else if i > k {
        assert nodes[i] == was[i - 1];
      }
    }
  }

  lemma LinkedAfterRemove(was: seq<Node>, k: nat, nodes: seq<Node>)
    requires Removed(was, k, nodes)
    requires forall i {:trigger was[i].next} :: 0 <= i < |was| && i != k ==> was[i].next == At(was, if i == k - 1 then k + 1 else i + 1)
    requires forall i {:trigger was[i].prev} :: 0 <= i < |was| && i != k ==> was[i].prev == At(was, if i == k + 1 then k - 1 else i - 1)
    ensures Linked(nodes)
  {
    forall i | 0 <= i < |nodes|
      ensures nodes[i].next == At(nodes, i + 1) && nodes[i].prev == At(nodes, i - 1)
    {
      if i < k {
        assert nodes[i] == was[i];
      } else {
        assert nodes[i] == was[i + 1];
      }
    }
  }

  lemma CarriesAfterInsert(was: seq<Node>, k: nat, node: Node, nodes: seq<Node>, data: seq<string>)
    requires Inserted(was, k, node, nodes) && Carries(was, data)
    ensures Carries(nodes, data[..k] + [node.data] + data[k..])
  {
    forall i | 0 <= i < |nodes| ensures nodes[i].data == (data[..k] + [node.data] + data[k..])[i] {
      if i < k {
        assert nodes[i] == was[i];
      } else if i > k {
        assert nodes[i] == was[i - 1];
      }
    }
  }

  lemma CarriesAfterRemove(was: seq<Node>, k: nat, nodes: seq<Node>, data: seq<string>)
    requires Removed(was, k, nodes) && Carries(was, data)
    ensures Carries(nodes, data[..k] + data[k + 1..])
  {
  }

  class List {
    var head: Node?
    var tail: Node?
    var count: nat
    const cmp: Option<(string, string) -> bool>  // None: no comparison function was installed
    ghost var nodes: seq<Node>
    ghost var contents: seq<string>  // the data along the nodes
    ghost var repr: set<Node>  // the nodes ever linked

    /** The links agree in both directions along the nodes, nothing is linked twice, count is the length. */
    ghost predicate Valid()
      reads this, repr
    {
      && (forall i :: 0 <= i < |nodes| ==> nodes[i] in repr)
      && count == |nodes|
      && Distinct(nodes)
      && head == At(nodes, 0)
      && tail == At(nodes, |nodes| - 1)
      && Linked(nodes)
      && Carries(nodes, contents)
    }

    constructor (cmp: Option<(string, string) -> bool>)
      ensures Valid() && contents == [] && this.cmp == cmp && repr == {}
    {
      this.cmp := cmp;
      head, tail, count := null, null, 0;
      nodes, contents, repr := [], [], {};
    }

    /** Append at the tail. */
    method AddOld(val: string)
      requires Valid()
      modifies this, repr
      ensures Valid() && fresh(repr - old(repr))
      ensures contents == old(contents) + [val]
    {
      ghost var was := nodes;
      var node := new Node(val);
      ghost var now := Insert(was, |was|, node);
      node.prev := tail;
      if head == null {
        head := node;
      } else {
        tail.next := node;
      }
      tail := node;
      count := count + 1;
      assert contents + [val] == contents[..|was|] + [val] + contents[|was|..];
      nodes, contents, repr := now, contents + [val], repr + {node};
      LinkedAfterInsert(was, |was|, node, now);
      CarriesAfterInsert(was, |was|, node, now, old(contents));
    }

    /** The new node becomes the head. */
    method LinkFirst(node: Node, n: Node)
      requires Valid() && |nodes| > 0 && nodes[0] == n && node !in repr && node.next == null && node.prev == null
      modifies this, node, n
      ensures Valid() && repr == old(repr) + {node} && contents == [node.data] + old(contents)
    {
      ghost var was := nodes;
      ghost var now := Insert(was, 0, node);
      CarriesAfterInsert(was, 0, node, now, contents);
      node.next := n;
      head := node;
      n.prev := node;
      count := count + 1;
      assert contents[..0] + [node.data] + contents[0..] == [node.data] + contents;
      nodes, contents, repr := now, [node.data] + contents, repr + {node};
      LinkedAfterInsert(was, 0, node, now);
    }

    /** The new node goes between two neighbours. */
    method LinkBetween(node: Node, p: Node, n: Node, ghost k: nat)
      requires Valid() && 0 < k < |nodes| && nodes[k - 1] == p && nodes[k] == n
      requires node !in repr && node.next == null && node.prev == null
      modifies this, node, p, n
      ensures Valid() && repr == old(repr) + {node} && contents == old(contents)[..k] + [node.data] + old(contents)[k..]
    {
      ghost var was := nodes;
      ghost var now := Insert(was, k, node);
      CarriesAfterInsert(was, k, node, now, contents);
      node.next := n;
      p.next := node;
      node.prev := p;
      n.prev := node;
      count := count + 1;
      nodes, contents, repr := now, contents[..k] + [node.data] + contents[k..], repr + {node};
      LinkedAfterInsert(was, k, node, now);
    }

    /** Link a fresh node in front of the current node n, the (k+1)-th of the list. */
    method AddPrev(n: Node, val: string, ghost k: nat)
      requires Valid() && k < |nodes| && nodes[k] == n
      modifies this, repr
      ensures Valid() && fresh(repr - old(repr))
      ensures contents == old(contents)[..k] + [val] + old(contents)[k..]
    {
      var node := new Node(val);
      if n.prev == null {
        LinkFirst(node, n);
        assert old(contents)[..0] + [val] + old(contents)[0..] == [val] + old(contents);
      } else {
        LinkBetween(node, n.prev, n, k);
      }
    }

    /** Sorted insertion; without a comparison function it appends. */
    method AddSort(val: string)
      requires Valid()
      modifies this, repr
      ensures Valid() && fresh(repr - old(repr))
      ensures contents == if cmp.Some? then InsertSorted(old(contents), val, cmp.value) else old(contents) + [val]
    {
      if cmp.Some? {
        var n := head;
        ghost var k := 0;
        while n != null
          invariant k <= |nodes| && n == At(nodes, k)
          invariant forall i :: 0 <= i < k ==> !cmp.value(val, nodes[i].data)
          decreases |nodes| - k
        {
          if cmp.value(val, n.data) {
            InsertPosUnique(contents, val, cmp.value, k);
            AddPrev(n, val, k);
            return;
          }
          n := n.next;
          k := k + 1;
        }
        InsertPosUnique(contents, val, cmp.value, |nodes|);
      }
      AddOld(val);
    }

    /** Unlink a node that is on the list. */
    method DeleteNode(node: Node, ghost k: nat)
      requires Valid() && k < |nodes| && nodes[k] == node
      modifies this, repr
      ensures Valid() && repr == old(repr)
      ensures contents == old(contents)[..k] + old(contents)[k + 1..]
    {
      ghost var was := nodes;
      ghost var now := Remove(was, k);
      OnlyAt(was, k + 1);
      OnlyAt(was, k - 1);
      if node.prev != null {
        node.prev.next := node.next;
      } else {
        head := node.next;
      }
      if node.next != null {
        node.next.prev := node.prev;
      } else {
        tail := node.prev;
      }
      count := count - 1;
      nodes, contents := now, contents[..k] + contents[k + 1..];
      LinkedAfterRemove(was, k, now);
      CarriesAfterRemove(was, k, now, old(contents));
    }

    /** Unlink the first node that carries val, if there is one. */
    method Delete(val: string)
      requires Valid()
      modifies this, repr
      ensures Valid() && repr == old(repr)
      ensures contents == RemoveFirst(old(contents), x => x == val)
    {
      var node := head;
      ghost var k := 0;
      while node != null
        invariant k <= |nodes| && node == At(nodes, k)
        invariant forall i :: 0 <= i < k ==> nodes[i].data != val
        decreases |nodes| - k
      {
        if node.data == val {
          FindUnique(contents, x => x == val, k);
          DeleteNode(node, k);
          return;
        }
        node := node.next;
        k := k + 1;
      }
      FindUnique(contents, x => x == val, |nodes|);
    }
  }
}
