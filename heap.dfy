/**
 * The router's frontier: a binary min-heap of (cost, x, y) nodes ordered by
 * cost, stored in a growable array. The parent of slot i > 0 is slot (i - 1) / 2.
 */
module MinHeap {

  datatype Node = Node(cost: int, x: int, y: int)

  /** What a pop of an empty queue returns. */
  const NoNode := Node(-1, -1, -1)
  const InitialCapacity := 10

  function Parent(i: int): int {
    (i - 1) / 2
  }

  /** Every slot but the root costs at least as much as its parent. */
  ghost predicate IsHeap(s: seq<Node>) {
    forall j {:trigger Parent(j)} | 0 < j < |s| :: s[Parent(j)].cost <= s[j].cost
  }

  /** The root of a heap is a cheapest node. */
  lemma {:induction false} HeapRootMin(s: seq<Node>, j: int)
    requires IsHeap(s) && 0 <= j < |s|
    ensures s[0].cost <= s[j].cost
    decreases j
  {
    if j > 0 {
      HeapRootMin(s, Parent(j));
    }
  }

  /** No node of a non-empty heap costs less than its root. */
  lemma RootIsCheapest(s: seq<Node>)
    requires IsHeap(s) && |s| > 0
    ensures forall n | n in multiset(s) :: s[0].cost <= n.cost
  {
    forall n | n in multiset(s) ensures s[0].cost <= n.cost {
      var j :| 0 <= j < |s| && s[j] == n;
      HeapRootMin(s, j);
    }
  }

  /** Exchanging two slots keeps the nodes the sequence holds. */
  lemma SwapKeepsNodes(s: seq<Node>, i: int, j: int)
    requires 0 <= i < |s| && 0 <= j < |s|
    ensures multiset(s[i := s[j]][j := s[i]]) == multiset(s)
  {
    if i != j {
      var t := s[i := s[j]];
      assert multiset(t) == multiset(s) - multiset{s[i]} + multiset{s[j]};
      assert multiset(t[j := s[i]]) == multiset(t) - multiset{t[j]} + multiset{s[i]};
    }
  }

  function Swap(s: seq<Node>, i: int, j: int): seq<Node>
    requires 0 <= i < |s| && 0 <= j < |s|
  {
    s[i := s[j]][j := s[i]]
  }

  /** The heap order holds for every slot except i, which may be cheaper than its parent. */
  ghost predicate HeapExceptAt(s: seq<Node>, i: int) {
    forall j {:trigger Parent(j)} | 0 < j < |s| && j != i :: s[Parent(j)].cost <= s[j].cost
  }

  /** The heap order holds for every slot whose parent is not i, which may cost more than its children. */
  ghost predicate HeapExceptBelow(s: seq<Node>, i: int) {
    forall j {:trigger Parent(j)} | 0 < j < |s| && Parent(j) != i :: s[Parent(j)].cost <= s[j].cost
  }

  /** The parent of slot i costs no more than the children of i. */
  ghost predicate ParentBelowChildren(s: seq<Node>, i: int)
    requires 0 <= i < |s|
  {
    i > 0 ==> forall j | 0 < j < |s| && Parent(j) == i :: s[Parent(i)].cost <= s[j].cost
  }

  /** One exchange of the sift-up: slot i moves above its costlier parent. */
  lemma SiftUpStep(s: seq<Node>, i: int)
    requires 0 < i < |s| && HeapExceptAt(s, i) && ParentBelowChildren(s, i)
    requires s[i].cost < s[Parent(i)].cost
    ensures HeapExceptAt(Swap(s, i, Parent(i)), Parent(i))
    ensures ParentBelowChildren(Swap(s, i, Parent(i)), Parent(i))
    ensures multiset(Swap(s, i, Parent(i))) == multiset(s)
  {
    SwapKeepsNodes(s, i, Parent(i));
  }

  /** The slots whose parent is i are 2i + 1 and 2i + 2. */
  lemma ChildrenOf(i: int, j: int)
    requires 0 <= i && 0 < j
    ensures Parent(j) == i <==> j == 2 * i + 1 || j == 2 * i + 2
  {
  }

  /**
   * One exchange of the sift-down: m is the cheaper of the children of slot i
   * (2i + 1 and 2i + 2, where they exist) and costs less than slot i.
   */
  lemma SiftDownStep(s: seq<Node>, i: int, m: int)
    requires 0 <= i < |s| && m < |s| && (m == 2 * i + 1 || m == 2 * i + 2)
    requires HeapExceptBelow(s, i) && ParentBelowChildren(s, i)
    requires s[m].cost < s[i].cost
    requires 2 * i + 1 < |s| ==> s[m].cost <= s[2 * i + 1].cost
    requires 2 * i + 2 < |s| ==> s[m].cost <= s[2 * i + 2].cost
    ensures HeapExceptBelow(Swap(s, i, m), m) && ParentBelowChildren(Swap(s, i, m), m)
    ensures multiset(Swap(s, i, m)) == multiset(s)
  {
    SwapKeepsNodes(s, i, m);
    SiftDownOrder(s, i, m);
    var t := Swap(s, i, m);
    forall j | 0 < j < |t| && Parent(j) == m ensures t[Parent(m)].cost <= t[j].cost {
      ChildrenOf(i, m);
    }
  }

  lemma SiftDownOrder(s: seq<Node>, i: int, m: int)
    requires 0 <= i < |s| && m < |s| && (m == 2 * i + 1 || m == 2 * i + 2)
    requires HeapExceptBelow(s, i) && ParentBelowChildren(s, i)
    requires s[m].cost < s[i].cost
    requires 2 * i + 1 < |s| ==> s[m].cost <= s[2 * i + 1].cost
    requires 2 * i + 2 < |s| ==> s[m].cost <= s[2 * i + 2].cost
    ensures HeapExceptBelow(Swap(s, i, m), m)
  {
    var t := Swap(s, i, m);
    forall j | 0 < j < |t| && Parent(j) != m ensures t[Parent(j)].cost <= t[j].cost {
      ChildrenOf(i, j);
      if j == i {
        ChildrenOf(Parent(i), i);
      }
    }
  }

  /** When slot i is no costlier than its children, the sift-down is done. */
  lemma SiftDownDone(s: seq<Node>, i: int)
    requires 0 <= i < |s| && HeapExceptBelow(s, i)
    requires 2 * i + 1 < |s| ==> s[i].cost <= s[2 * i + 1].cost
    requires 2 * i + 2 < |s| ==> s[i].cost <= s[2 * i + 2].cost
    ensures IsHeap(s)
  {
    forall j | 0 < j < |s| ensures s[Parent(j)].cost <= s[j].cost {
      ChildrenOf(i, j);
    }
  }

  class PriorityQueue {
    var nodes: array<Node>
    var size: int
    var capacity: int

    ghost predicate Valid()
      reads this, nodes
    {
      && 0 <= size <= capacity && capacity == nodes.Length && capacity >= 1
      && IsHeap(nodes[..size])
    }

    /** The nodes waiting in the queue. */
    ghost function Contents(): multiset<Node>
      reads this, nodes
    {
      if 0 <= size <= nodes.Length then multiset(nodes[..size]) else multiset{}
    }

    /** pq_init: an empty queue with room for ten nodes. */
    constructor ()
      ensures Valid() && Contents() == multiset{} && fresh(nodes)
      ensures capacity == InitialCapacity
    {
      size := 0;
      capacity := InitialCapacity;
      nodes := new Node[InitialCapacity];
    }

    function IsEmpty(): (b: bool)
      reads this, nodes
      ensures Valid() ==> (b <==> Contents() == multiset{})
    {
      size == 0
    }

    /**
     * pq_push: doubles the array when it is full, appends the node and sifts
     * it up past every parent that costs more.
     */
    method Push(cost: int, x: int, y: int)
      requires Valid()
      modifies this, nodes
      ensures Valid()
      ensures Contents() == old(Contents()) + multiset{Node(cost, x, y)}
      ensures nodes == old(nodes) || fresh(nodes)
      ensures capacity == if old(size) >= old(capacity) then 2 * old(capacity) else old(capacity)
    {
      if size >= capacity {
        Grow();
      }
      Append(Node(cost, x, y));
      SiftUp(size - 1);
    }

    /** The growth step of pq_push: a new array of twice the capacity holding the same queued nodes. */
    method Grow()
      requires 0 <= size <= capacity == nodes.Length && capacity >= 1
      modifies this
      ensures fresh(nodes) && size == old(size) && capacity == nodes.Length == 2 * old(capacity)
      ensures nodes[..size] == old(nodes[..size])
    {
      var newCapacity := capacity * 2;
      var newNodes := new Node[newCapacity];
      for j := 0 to size
        invariant unchanged(this) && unchanged(old(nodes))
        invariant newNodes[..j] == nodes[..j]
      {
        newNodes[j] := nodes[j];
      }
      nodes, capacity := newNodes, newCapacity;
    }

    /** Stores node in the first free slot. */
    method Append(node: Node)
      requires 0 <= size < nodes.Length
      modifies this, nodes
      ensures nodes == old(nodes) && capacity == old(capacity) && size == old(size) + 1
      ensures nodes[..size] == old(nodes[..size]) + [node]
    {
      nodes[size] := node;
      size := size + 1;
    }

    /** The sift-up loop of pq_push: slot i climbs while it is cheaper than its parent. */
    method SiftUp(i: int)
      requires 0 <= i < size <= nodes.Length
      requires HeapExceptAt(nodes[..size], i) && ParentBelowChildren(nodes[..size], i)
      modifies nodes
      ensures IsHeap(nodes[..size]) && multiset(nodes[..size]) == old(multiset(nodes[..size]))
    {
      ghost var cur := nodes[..size];
      ghost var held := multiset(cur);
      var i := i;
      while i > 0 && nodes[i].cost < nodes[(i - 1) / 2].cost
        invariant 0 <= i < size
        invariant nodes[..size] == cur && multiset(cur) == held
        invariant HeapExceptAt(cur, i) && ParentBelowChildren(cur, i)
        decreases i
      {
        SiftUpStep(cur, i);
        Exchange(i, (i - 1) / 2);
        cur := Swap(cur, i, Parent(i));
        i := (i - 1) / 2;
      }
    }

    /**
     * pq_pop: removes and returns a cheapest node, moving the last node to the
     * root and sifting it down; an empty queue returns NoNode and is unchanged.
     */
    method Pop() returns (root: Node)
      requires Valid()
      modifies this, nodes
      ensures Valid() && nodes == old(nodes) && capacity == old(capacity)
      ensures old(Contents()) == multiset{} ==> root == NoNode && Contents() == multiset{}
      ensures old(Contents()) != multiset{} ==>
                && root in old(Contents()) && size == old(size) - 1
                && Contents() == old(Contents()) - multiset{root}
                && forall n | n in old(Contents()) :: root.cost <= n.cost
    {
      if size <= 0 {
        return NoNode;
      }
      root := TakeRoot();
    }

    /** The non-empty case of pq_pop. */
    method TakeRoot() returns (root: Node)
      requires Valid() && size > 0
      modifies this, nodes
      ensures Valid() && nodes == old(nodes) && capacity == old(capacity) && size == old(size) - 1
      ensures multiset(old(nodes[..size])) == Contents() + multiset{root}
      ensures forall n | n in old(Contents()) :: root.cost <= n.cost
    {
      ghost var s0 := nodes[..size];
      RootIsCheapest(s0);
      root := nodes[0];
      RemoveRoot();
      RootRemoved(s0);
      SiftDown();
    }

    /** Moves the last queued node into the root slot and shortens the queue by one. */
    method RemoveRoot()
      requires 0 < size <= nodes.Length
      modifies this, nodes
      ensures nodes == old(nodes) && capacity == old(capacity) && size == old(size) - 1
      ensures nodes[..size] == LastToRoot(old(nodes[..size]))
    {
      nodes[0] := nodes[size - 1];
      size := size - 1;
    }

    /** The sift-down loop of pq_pop: the root sinks while a child is cheaper. */
    method SiftDown()
      requires 0 <= size < nodes.Length
      requires HeapExceptBelow(nodes[..size], 0)
      modifies nodes
      ensures IsHeap(nodes[..size]) && multiset(nodes[..size]) == old(multiset(nodes[..size]))
    {
      ghost var cur := nodes[..size];
      ghost var held := multiset(cur);
      var i := 0;
      while true
        invariant 0 <= i < size || (size == 0 && i == 0)
        invariant nodes[..size] == cur && multiset(cur) == held
        invariant HeapExceptBelow(cur, i) && (size > 0 ==> ParentBelowChildren(cur, i))
        decreases size - i
      {
        var left := 2 * i + 1;
        var right := 2 * i + 2;
        var smallest := i;
        if left < size && nodes[left].cost < nodes[smallest].cost {
          smallest := left;
        }
        if right < size && nodes[right].cost < nodes[smallest].cost {
          smallest := right;
        }
        if smallest != i {
          SiftDownStep(cur, i, smallest);
          Exchange(i, smallest);
          cur := Swap(cur, i, smallest);
          i := smallest;
        } else {
          if size > 0 {
            SiftDownDone(cur, i);
          }
          break;
        }
      }
    }

    /** The exchange of two queued slots that both sift loops perform. */
    method Exchange(i: int, j: int)
      requires 0 <= i < size <= nodes.Length && 0 <= j < size
      modifies nodes
      ensures nodes[..size] == Swap(old(nodes[..size]), i, j)
    {
      var temp := nodes[i];
      nodes[i] := nodes[j];
      nodes[j] := temp;
    }

    /** pq_free: releases the array; the queue is empty and has no room left. */
    method Free()
      modifies this
      ensures size == 0 && capacity == 0 && nodes.Length == 0
    {
      nodes := new Node[0];
      size := 0;
      capacity := 0;
    }
  }

  /** The queue after its last node has replaced its root. */
  function LastToRoot(s: seq<Node>): seq<Node>
    requires |s| > 0
  {
    s[0 := s[|s| - 1]][..|s| - 1]
  }

  /** Replacing the root of a non-empty heap by its last node leaves the other nodes. */
  lemma RootRemoved(s: seq<Node>)
    requires |s| > 0
    ensures multiset(s) == multiset(LastToRoot(s)) + multiset{s[0]}
  {
    var n := |s|;
    if n > 1 {
      var t := s[0 := s[n - 1]][..n - 1];
      assert t == [s[n - 1]] + s[1..n - 1];
      assert s == [s[0]] + s[1..n - 1] + [s[n - 1]];
    }
  }
}
