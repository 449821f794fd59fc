/**
 * OtrlList: a doubly-linked list ordered by the comparator of its ops table.
 *
 * A `List` owns a chain of `Node`s. Its ghost field `nodes` lists them from
 * head to tail and `contents` lists their payloads; `Valid()` ties both to the
 * `head`/`tail`/`prev`/`next` pointers and to `size`. Each operation states the
 * new `nodes` and `contents` in terms of the old ones, and the pure functions
 * `InsertIndex`, `Inserted` and `MatchIndex` say where `otrl_list_insert` puts a
 * payload and which node `otrl_list_find` returns.
 */
module OtrlList {
  import opened Options
  import opened Serial

  /** ops->compar: negative, zero or positive as the first payload sorts
      before, with, or after the second. */
  type Comparator<!T> = (T, T) -> int

  /** The comparator agrees with itself when its arguments are swapped. */
  ghost predicate Antisymmetric<T(!new)>(c: Comparator<T>) {
    forall a, b :: c(a, b) < 0 <==> c(b, a) > 0
  }

  /** Every payload sorts no later than its successor. */
  ghost predicate Sorted<T>(s: seq<T>, c: Comparator<T>) {
    forall i :: 0 < i < |s| ==> c(s[i - 1], s[i]) <= 0
  }

  /** The first index from `from` on whose payload `x` does not sort after,
      or |s| if there is none. */
  function ScanFrom<T>(s: seq<T>, x: T, c: Comparator<T>, from: nat): (k: nat)
    requires from <= |s|
    ensures from <= k <= |s|
    ensures forall i :: from <= i < k ==> c(x, s[i]) > 0
    ensures k < |s| ==> c(x, s[k]) <= 0
    decreases |s| - from
  {
    if from == |s| || c(x, s[from]) <= 0 then from else ScanFrom(s, x, c, from + 1)
  }

  /** Where otrl_list_insert puts `x`: in front when it sorts strictly before
      the head; otherwise after the head, before the first later payload it
      does not sort after, or at the end. */
  function InsertIndex<T>(s: seq<T>, x: T, c: Comparator<T>): (k: nat)
    ensures k <= |s|
    ensures k == 0 <==> |s| == 0 || c(x, s[0]) < 0
    ensures forall i :: 1 <= i < k ==> c(x, s[i]) > 0
    ensures 0 < k < |s| ==> c(x, s[k]) <= 0
  {
    if |s| == 0 || c(x, s[0]) < 0 then 0 else ScanFrom(s, x, c, 1)
  }

  /** The payloads after otrl_list_insert. */
  function Inserted<T>(s: seq<T>, x: T, c: Comparator<T>): (r: seq<T>)
    ensures |r| == |s| + 1 && multiset(r) == multiset(s) + multiset{x}
    ensures r[InsertIndex(s, x, c)] == x
  {
    var k := InsertIndex(s, x, c);
    assert s == s[..k] + s[k..];
    s[..k] + [x] + s[k..]
  }

  /** The first index whose payload compares equal to `target`, or |s|. */
  function MatchFrom<T>(s: seq<T>, target: T, c: Comparator<T>, from: nat): (k: nat)
    requires from <= |s|
    ensures from <= k <= |s|
    ensures forall i :: from <= i < k ==> c(target, s[i]) != 0
    ensures k < |s| ==> c(target, s[k]) == 0
    decreases |s| - from
  {
    if from == |s| || c(target, s[from]) == 0 then from else MatchFrom(s, target, c, from + 1)
  }

  /** The position otrl_list_find reports: the first match from the head. */
  function MatchIndex<T>(s: seq<T>, target: T, c: Comparator<T>): (k: nat)
    ensures k <= |s|
    ensures forall i :: 0 <= i < k ==> c(target, s[i]) != 0
    ensures k < |s| ==> c(target, s[k]) == 0
  {
    MatchFrom(s, target, c, 0)
  }

  /** The position of a node in a chain that holds it. */
  function IndexOf<U(==)>(s: seq<U>, x: U): (k: nat)
    requires x in s
    ensures k < |s| && s[k] == x
    ensures forall i :: 0 <= i < k ==> s[i] != x
  {
    if s[0] == x then 0 else 1 + IndexOf(s[1..], x)
  }

  lemma IndexOfHead<U>(s: seq<U>)
    requires |s| > 0
    ensures IndexOf(s, s[0]) == 0
  {
  }

  class Node<T> {
    const payload: T
    var next: Node?<T>
    var prev: Node?<T>

    /** otrl_list_node_create: an unlinked node. */
    constructor (payload: T)
      ensures this.payload == payload && next == null && prev == null
    {
      this.payload := payload;
      next := null;
      prev := null;
    }
  }

  class List<T> {
    const compar: Comparator<T>
    var head: Node?<T>
    var tail: Node?<T>
    var size: nat
    ghost var nodes: seq<Node<T>>
    ghost var contents: seq<T>

    ghost predicate Valid()
      reads this, nodes
    {
      && size == |nodes| == |contents|
      && (forall i :: 0 <= i < |nodes| ==> nodes[i].payload == contents[i])
      && (forall i, j :: 0 <= i < j < |nodes| ==> nodes[i] != nodes[j])
      && (if nodes == [] then head == null && tail == null
          else (head == nodes[0] && tail == nodes[|nodes| - 1]
                && nodes[0].prev == null && nodes[|nodes| - 1].next == null))
      && (forall i, j :: 0 <= i && j == i + 1 && j < |nodes| ==> nodes[i].next == nodes[j] && nodes[j].prev == nodes[i])
    }

    /** The successful branch of otrl_list_create: an empty list. */
    constructor (compar: Comparator<T>)
      ensures Valid() && this.compar == compar && contents == [] && nodes == []
    {
      this.compar := compar;
      head, tail, size := null, null, 0;
      nodes, contents := [], [];
    }

    /** otrl_list_length. */
    function Length(): (n: nat)
      requires Valid()
      reads this, nodes
      ensures n == |contents|
    {
      size
    }

    /** otrl_list_insert. A failed node allocation returns null and changes
        nothing; otherwise the new node lands at `InsertIndex`. */
    method Insert(x: T, outOfMemory: bool) returns (n: Node?<T>)
      requires Valid()
      modifies this, nodes
      ensures Valid()
      ensures outOfMemory ==> n == null && nodes == old(nodes) && contents == old(contents)
      ensures !outOfMemory ==> (n != null && fresh(n) && n.payload == x
        && contents == Inserted(old(contents), x, compar))
      ensures !outOfMemory ==> (var k := InsertIndex(old(contents), x, compar);
        nodes == old(nodes)[..k] + [n] + old(nodes)[k..])
    {
      if outOfMemory {
        return null;
      }
      n := new Node(x);
      if head == null || compar(x, head.payload) < 0 {
        LinkFirst(n);
      } else {
        var cur, k := ScanForInsert(x);
        LinkAfter(cur, n, k);
      }
    }

    /** The walk of otrl_list_insert: from the head, step on while the next
        payload sorts strictly before `x`. `k` is the new node's position. */
    method ScanForInsert(x: T) returns (cur: Node<T>, ghost k: nat)
      requires Valid() && head != null && compar(x, head.payload) >= 0
      ensures 0 < k <= |nodes| && cur == nodes[k - 1] && k == InsertIndex(contents, x, compar)
    {
      cur := head;
      k := 1;
      while cur.next != null && compar(x, cur.next.payload) > 0
        invariant 0 < k <= |nodes| && cur == nodes[k - 1]
        invariant ScanFrom(contents, x, compar, 1) == ScanFrom(contents, x, compar, k)
        decreases |nodes| - k
      {
        cur := cur.next;
        k := k + 1;
      }
    }

    /** The head branch shared by otrl_list_insert and otrl_list_prepend:
        the unlinked node `n` becomes the head. */
    method LinkFirst(n: Node<T>)
      requires Valid() && n !in nodes
      modifies this, nodes, n
      ensures Valid()
      ensures nodes == [n] + old(nodes) && contents == [n.payload] + old(contents)
    {
      n.prev := null;
      n.next := head;
      if head == null {
        head, tail := n, n;
      } else {
        head.prev := n;
        head := n;
      }
      nodes, contents := [n] + nodes, [n.payload] + contents;
      size := size + 1;
    }

    /** The tail of otrl_list_insert: links the unlinked node `n` after
        `cur`, the node at position `k - 1`, and before its old successor. */
    method LinkAfter(cur: Node<T>, n: Node<T>, ghost k: nat)
      requires Valid() && 0 < k <= |nodes| && cur == nodes[k - 1] && n !in nodes
      modifies this, nodes, n
      ensures Valid()
      ensures nodes == old(nodes)[..k] + [n] + old(nodes)[k..]
      ensures contents == old(contents)[..k] + [n.payload] + old(contents)[k..]
    {
      ghost var ns := nodes;
      assert k < |ns| ==> cur.next == ns[k];
      n.next := cur.next;
      n.prev := cur;
      if n.next != null {
        n.next.prev := n;
      }
      cur.next := n;
      if n.next == null {
        tail := n;
      }
      nodes, contents := ns[..k] + [n] + ns[k..], contents[..k] + [n.payload] + contents[k..];
      size := size + 1;
      forall a, b | 0 <= a && b == a + 1 && b < |nodes|
        ensures nodes[a].next == nodes[b] && nodes[b].prev == nodes[a]
      {
        if b < k {
          assert nodes[a] == ns[a] && nodes[b] == ns[b];
          assert ns[a] != cur && ns[a] != n && ns[b] != n;
          assert k < |ns| ==> ns[b] != ns[k];
        } else if b == k {
          assert nodes[a] == cur && nodes[b] == n;
        } else if b == k + 1 {
          assert nodes[a] == n && nodes[b] == ns[k];
        } else {
          assert nodes[a] == ns[a - 1] && nodes[b] == ns[b - 1];
          assert ns[a - 1] != cur && ns[a - 1] != n && ns[b - 1] != n && ns[b - 1] != ns[k];
        }
      }
      forall a, b | 0 <= a < b < |nodes|
        ensures nodes[a] != nodes[b]
      {
        if a < k && b > k {
          assert nodes[a] == ns[a] && nodes[b] == ns[b - 1];
        }
      }
    }

    /** otrl_list_insert exactly as written: the successor of the new node
        keeps its old `prev`, which now skips the new node. */
    method InsertAsWritten(x: T) returns (n: Node<T>)
      requires Valid()
      modifies this, nodes
      ensures n.payload == x && fresh(n)
      ensures var s := old(contents); var k := InsertIndex(s, x, compar);
        0 < k < |s| ==> n.next == old(nodes)[k] && n.prev == old(nodes)[k - 1] && n.next.prev == n.prev != n
    {
      n := new Node(x);
      if head == null {
        head, tail := n, n;
      } else if compar(x, head.payload) < 0 {
        n.next := head;
        head.prev := n;
        head := n;
      } else {
        var cur := head;
        ghost var i := 0;
        while cur.next != null && compar(x, cur.next.payload) > 0
          invariant 0 <= i < |nodes| && cur == nodes[i]
          invariant ScanFrom(contents, x, compar, 1) == ScanFrom(contents, x, compar, i + 1)
          decreases |nodes| - i
        {
          cur := cur.next;
          i := i + 1;
        }
        assert InsertIndex(contents, x, compar) == i + 1;
        n.next := cur.next;
        n.prev := cur;
        cur.next := n;
        if n.next == null {
          tail := n;
        }
      }
      size := size + 1;
    }

    /** otrl_list_prepend. */
    method Prepend(x: T) returns (n: Node<T>)
      requires Valid()
      modifies this, nodes
      ensures Valid() && fresh(n) && n.payload == x
      ensures nodes == [n] + old(nodes) && contents == [x] + old(contents)
    {
      n := new Node(x);
      LinkFirst(n);
    }

    /** otrl_list_append. A failed node allocation returns null and changes
        nothing. */
    method Append(x: T, outOfMemory: bool) returns (n: Node?<T>)
      requires Valid()
      modifies this, nodes
      ensures Valid()
      ensures outOfMemory ==> n == null && nodes == old(nodes) && contents == old(contents)
      ensures !outOfMemory ==> (n != null && fresh(n) && n.payload == x
        && nodes == old(nodes) + [n] && contents == old(contents) + [x])
    {
      if outOfMemory {
        return null;
      }
      n := new Node(x);
      n.prev := tail;
      if tail == null {
        head, tail := n, n;
      } else {
        tail.next := n;
        tail := n;
      }
      nodes, contents := nodes + [n], contents + [x];
      size := size + 1;
    }

    /** The body of otrl_list_remove for a node of this list: the node at
        position `k` is unlinked, its neighbours now point at each other. */
    method Unlink(node: Node<T>, ghost k: nat)
      requires Valid() && k < |nodes| && nodes[k] == node
      modifies this, nodes
      ensures Valid()
      ensures nodes == old(nodes)[..k] + old(nodes)[k + 1..]
      ensures contents == old(contents)[..k] + old(contents)[k + 1..]
    {
      ghost var ns := nodes;
      DropDistinct(ns, k);
      DropPayloads(ns, contents, k);
      assert k + 1 < |ns| ==> node.next == ns[k + 1];
      assert 0 < k ==> node.prev == ns[k - 1];
      if node.prev != null {
        node.prev.next := node.next;
      } else {
        head := node.next;
      }
      if node.next != null {
        node.next.prev := node.prev;
      } else {
        tail := node.prev;
      }
      size := size - 1;
      nodes, contents := ns[..k] + ns[k + 1..], contents[..k] + contents[k + 1..];
      forall a, b | 0 <= a && b == a + 1 && b < |nodes|
        ensures nodes[a].next == nodes[b] && nodes[b].prev == nodes[a]
      {
        if b < k {
          assert nodes[a] == ns[a] && nodes[b] == ns[b];
          assert ns[a] != ns[k - 1] && (k + 1 < |ns| ==> ns[b] != ns[k + 1]);
        } else if b == k {
          assert nodes[a] == ns[k - 1] && nodes[b] == ns[k + 1];
        } else {
          assert nodes[a] == ns[a + 1] && nodes[b] == ns[b + 1];
          assert (0 < k ==> ns[a + 1] != ns[k - 1]) && ns[b + 1] != ns[k + 1];
        }
      }
    }

    /** otrl_list_find: the first node from the head whose payload compares
        equal to `target`, or null. */
    method Find(target: T) returns (n: Node?<T>)
      requires Valid()
      ensures var k := MatchIndex(contents, target, compar);
        n == if k == |nodes| then null else nodes[k]
    {
      var cur := head;
      ghost var i := 0;
      while cur != null
        invariant 0 <= i <= |nodes|
        invariant cur == if i == |nodes| then null else nodes[i]
        invariant MatchIndex(contents, target, compar) == MatchFrom(contents, target, compar, i)
        decreases |nodes| - i
      {
        if compar(target, cur.payload) == 0 {
          return cur;
        }
        cur := cur.next;
        i := i + 1;
      }
      return null;
    }

    /** otrl_list_clear: unlinks the head until the list is empty. */
    method Clear()
      requires Valid()
      modifies this, nodes
      ensures Valid()
      ensures head == null && size == 0 && nodes == [] && contents == []
    {
      ghost var removed := 0;
      while head != null
        invariant Valid()
        invariant removed <= |old(nodes)| && nodes == old(nodes)[removed..]
        decreases |nodes|
      {
        ghost var before := nodes;
        IndexOfHead(before);
        Remove(this, head);
        DropFirst(old(nodes), removed);
        removed := removed + 1;
      }
    }
  }

  /** Dropping the first of the remaining entries advances the suffix. */
  lemma DropFirst<U>(s: seq<U>, m: nat)
    requires m < |s|
    ensures s[m..][..0] + s[m..][1..] == s[m + 1..]
  {
  }

  /** otrl_list_create: null when no comparator is supplied or the list
      cannot be allocated. */
  method Create<T>(compar: Option<Comparator<T>>, outOfMemory: bool) returns (list: List?<T>)
    ensures list == null <==> outOfMemory || compar.None?
    ensures list != null ==> fresh(list) && list.Valid() && list.compar == compar.value && list.contents == []
  {
    if outOfMemory || compar.None? {
      return null;
    }
    list := new List(compar.value);
  }

  /** otrl_list_remove: unlinks `node` and repairs the neighbours, head and
      tail; a null list or node is ignored. */
  method Remove<T>(list: List?<T>, node: Node?<T>)
    requires list != null ==> list.Valid()
    requires list != null && node != null ==> node in list.nodes
    modifies list, if list == null then [] else list.nodes
    ensures list != null ==> list.Valid()
    ensures list != null && node == null ==> list.nodes == old(list.nodes) && list.contents == old(list.contents)
    ensures list != null && node != null ==>
      var k := IndexOf(old(list.nodes), node);
      list.nodes == old(list.nodes)[..k] + old(list.nodes)[k + 1..]
      && list.contents == old(list.contents)[..k] + old(list.contents)[k + 1..]
  {
    if list == null || node == null {
      return;
    }
    list.Unlink(node, IndexOf(list.nodes, node));
  }

  /** Dropping one entry of a chain keeps the others distinct. */
  lemma DropDistinct<U>(s: seq<U>, k: nat)
    requires k < |s| && forall a, b :: 0 <= a < b < |s| ==> s[a] != s[b]
    ensures var r := s[..k] + s[k + 1..]; forall a, b :: 0 <= a < b < |r| ==> r[a] != r[b]
  {
    var r := s[..k] + s[k + 1..];
    forall a, b | 0 <= a < b < |r|
      ensures r[a] != r[b]
    {
      if a < k && b >= k {
        assert r[a] == s[a] && r[b] == s[b + 1];
      } else if a >= k {
        assert r[a] == s[a + 1] && r[b] == s[b + 1];
      }
    }
  }

  /** Dropping the same entry of a chain and of its payloads keeps them in step. */
  lemma DropPayloads<T>(ns: seq<Node<T>>, cs: seq<T>, k: nat)
    requires k < |ns| == |cs| && forall a :: 0 <= a < |ns| ==> ns[a].payload == cs[a]
    ensures var r, p := ns[..k] + ns[k + 1..], cs[..k] + cs[k + 1..];
      forall a :: 0 <= a < |r| ==> r[a].payload == p[a]
  {
    var r, p := ns[..k] + ns[k + 1..], cs[..k] + cs[k + 1..];
    forall a | 0 <= a < |r|
      ensures r[a].payload == p[a]
    {
      if a >= k {
        assert r[a] == ns[a + 1] && p[a] == cs[a + 1];
      }
    }
  }

  /** otrl_list_get: the `i`-th node from the head, or null when the list is
      null or shorter. */
  method Get<T>(list: List?<T>, i: u32) returns (n: Node?<T>)
    requires list != null ==> list.Valid()
    ensures n == if list == null || i >= |list.nodes| then null else list.nodes[i]
  {
    if list == null || i >= list.size {
      return null;
    }
    n := list.head;
    var j: u32 := 0;
    while j < i
      invariant j <= i && n == list.nodes[j]
    {
      n := n.next;
      j := j + 1;
    }
  }

  /** otrl_list_get_first. */
  function GetFirst<T>(list: List?<T>): (n: Node?<T>)
    requires list != null ==> list.Valid()
    reads list, if list == null then [] else list.nodes
    ensures n == if list == null || list.nodes == [] then null else list.nodes[0]
  {
    if list == null then null else list.head
  }

  /** otrl_list_get_last. */
  function GetLast<T>(list: List?<T>): (n: Node?<T>)
    requires list != null ==> list.Valid()
    reads list, if list == null then [] else list.nodes
    ensures n == if list == null || list.nodes == [] then null else list.nodes[|list.nodes| - 1]
  {
    if list == null then null else list.tail
  }

  // ---------------------------------------------------------------------
  // Properties of the ordering.

  /** Inserting into a list that is sorted keeps it sorted, as long as the
      comparator is antisymmetric. */
  lemma InsertKeepsSorted<T(!new)>(s: seq<T>, x: T, c: Comparator<T>)
    requires Antisymmetric(c) && Sorted(s, c)
    ensures Sorted(Inserted(s, x, c), c)
  {
    var k := InsertIndex(s, x, c);
    var r := Inserted(s, x, c);
    assert r == s[..k] + [x] + s[k..];
    if 0 < k {
      if k == 1 {
        assert c(x, s[0]) >= 0;
      } else {
        assert c(x, s[k - 1]) > 0;
      }
      assert c(s[k - 1], x) <= 0;
    }
    forall i | 0 < i < |r|
      ensures c(r[i - 1], r[i]) <= 0
    {
      if i < k {
        assert r[i - 1] == s[i - 1] && r[i] == s[i];
      } else if i == k {
        assert r[i - 1] == s[k - 1] && r[i] == x;
      } else if i == k + 1 {
        assert r[i - 1] == x && r[i] == s[k];
      } else {
        assert r[i - 1] == s[i - 2] && r[i] == s[i - 1];
      }
    }
  }

  /** Insertion keeps the old payloads in their relative order: dropping the
      new one gives the old list back. */
  lemma InsertKeepsOrder<T>(s: seq<T>, x: T, c: Comparator<T>)
    ensures var k := InsertIndex(s, x, c); var r := Inserted(s, x, c);
      r[..k] + r[k + 1..] == s
  {
    var k := InsertIndex(s, x, c);
    var r := Inserted(s, x, c);
    assert r[..k] == s[..k];
    assert r[k + 1..] == s[k..];
    assert s == s[..k] + s[k..];
  }

  /** A payload equal to the head goes after it, but a payload equal to a
      later one goes before that one. */
  lemma EqualPlacement(a: int, b: int, x: int)
    requires a < b
    ensures InsertIndex([a], a, (p: int, q: int) => p - q) == 1
    ensures InsertIndex([a, b], b, (p: int, q: int) => p - q) == 1
  {
  }

  /** A payload strictly between the first two is linked between them, so
      the branch of otrl_list_insert that forgets the successor's `prev` is
      reached. */
  lemma MiddleInsertReached()
    ensures var s := [1, 3]; var k := InsertIndex(s, 2, (p: int, q: int) => p - q);
      0 < k < |s|
  {
    var c := (p: int, q: int) => p - q;
    assert c(2, 1) > 0 && c(2, 3) < 0;
  }

  /** A located payload is a match and no earlier payload is one. */
  lemma FindIsFirstMatch<T>(s: seq<T>, target: T, c: Comparator<T>, k: nat)
    requires k < |s| && c(target, s[k]) == 0 && forall i :: 0 <= i < k ==> c(target, s[i]) != 0
    ensures MatchIndex(s, target, c) == k
  {
  }
}
