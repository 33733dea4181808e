/** The intrusive singly and doubly linked lists. */
module Lists {

  ghost predicate Distinct<T>(s: seq<T>) {
    forall i, j :: 0 <= i < j < |s| ==> s[i] != s[j]
  }

  // ---------- usb_dlist_t: circular, doubly linked ----------

  class DNode {
    var next: DNode
    var prev: DNode

    /** usb_dlist_init. */
    constructor ()
      ensures next == this && prev == this
    {
      next, prev := this, this;
    }
  }

  /** b follows a. */
  ghost predicate Linked(a: DNode, b: DNode)
    reads a, b
  {
    a.next == b && b.prev == a
  }

  /** The nodes of ns, in order, are linked in a circle both ways. Any node of a list may come first. */
  ghost predicate Ring(ns: seq<DNode>)
    reads ns
  {
    && ns != [] && Distinct(ns)
    && (forall i :: 0 < i < |ns| ==> Linked(ns[i - 1], ns[i]))
    && Linked(ns[|ns| - 1], ns[0])
  }

  /** The same list read from another of its nodes, so the operations below apply at any node. */
  lemma RingRotates(ns: seq<DNode>, k: nat)
    requires Ring(ns) && k < |ns|
    ensures Ring(ns[k..] + ns[..k])
  {
    var r := ns[k..] + ns[..k];
    forall i | 0 < i < |r|
      ensures Linked(r[i - 1], r[i])
    {
      if k + i < |ns| {
        assert Linked(ns[k + i - 1], ns[k + i]);
      } else if k + i > |ns| {
        var j := k + i - |ns|;
        assert Linked(ns[j - 1], ns[j]);
      }
    }
    if k > 0 {
      assert Linked(ns[k - 1], ns[k]);
    }
  }

  /** usb_dlist_insert_after. */
  method InsertAfter(l: DNode, n: DNode, ghost ns: seq<DNode>)
    requires Ring(ns) && ns[0] == l && n !in ns
    modifies l, l.next, n
    ensures Ring([l, n] + ns[1..])
  {
    ghost var r := [l, n] + ns[1..];
    assert |ns| > 1 ==> Linked(ns[0], ns[1]);
    l.next.prev := n;
    n.next := l.next;
    l.next := n;
    n.prev := l;
    forall i | 0 < i < |r|
      ensures Linked(r[i - 1], r[i])
    {
      if i > 2 {
        assert old(Linked(ns[i - 2], ns[i - 1]));
      }
    }
  }

  /** usb_dlist_insert_before. */
  method InsertBefore(l: DNode, n: DNode, ghost ns: seq<DNode>)
    requires Ring(ns) && ns[0] == l && n !in ns
    modifies l, l.prev, n
    ensures Ring(ns + [n])
  {
    ghost var r := ns + [n];
    l.prev.next := n;
    n.prev := l.prev;
    l.prev := n;
    n.next := l;
    forall i | 0 < i < |r|
      ensures Linked(r[i - 1], r[i])
    {
      if i < |ns| {
        assert old(Linked(ns[i - 1], ns[i]));
      }
    }
  }

  /** usb_dlist_remove of the node at position k of the list headed by ns[0]. */
  method Remove(n: DNode, ghost ns: seq<DNode>, ghost k: nat)
    requires Ring(ns) && 1 <= k < |ns| && ns[k] == n
    modifies n, n.next, n.prev
    ensures Ring(ns[..k] + ns[k + 1..]) && Ring([n])
  {
    ghost var r := ns[..k] + ns[k + 1..];
    assert Linked(ns[k - 1], ns[k]);
    assert k + 1 < |ns| ==> Linked(ns[k], ns[k + 1]);
    n.next.prev := n.prev;
    n.prev.next := n.next;
    n.next := n;
    n.prev := n;
    forall i | 0 < i < |r|
      ensures Linked(r[i - 1], r[i])
    {
      if i < k {
        assert old(Linked(ns[i - 1], ns[i]));
      } else if i > k {
        assert old(Linked(ns[(i + 1) - 1], ns[i + 1]));
      }
    }
    assert old(Linked(ns[|ns| - 1], ns[0]));
    assert Linked(r[|r| - 1], r[0]);
  }

  /** usb_dlist_move_head: the node at position k becomes the first after the head. */
  method MoveHead(l: DNode, n: DNode, ghost ns: seq<DNode>, ghost k: nat)
    requires Ring(ns) && 1 <= k < |ns| && ns[0] == l && ns[k] == n
    modifies ns
    ensures Ring([l, n] + ns[1..k] + ns[k + 1..])
    ensures multiset([l, n] + ns[1..k] + ns[k + 1..]) == multiset(ns)
  {
    ghost var r := ns[..k] + ns[k + 1..];
    RingNext(ns, k);
    Remove(n, ns, k);
    RingNext(r, 0);
    InsertAfter(l, n, r);
    MovedSame(ns, k);
  }

  /** usb_dlist_move_tail: the node at position k becomes the last. */
  method MoveTail(l: DNode, n: DNode, ghost ns: seq<DNode>, ghost k: nat)
    requires Ring(ns) && 1 <= k < |ns| && ns[0] == l && ns[k] == n
    modifies ns
    ensures Ring(ns[..k] + ns[k + 1..] + [n])
    ensures multiset(ns[..k] + ns[k + 1..] + [n]) == multiset(ns)
  {
    ghost var r := ns[..k] + ns[k + 1..];
    RingNext(ns, k);
    Remove(n, ns, k);
    RingNext(r, 0);
    InsertBefore(l, n, r);
    MovedSame(ns, k);
  }

  /** The neighbours of the node at position i. */
  lemma RingNext(ns: seq<DNode>, i: nat)
    requires Ring(ns) && i < |ns|
    ensures ns[i].next == if i + 1 < |ns| then ns[i + 1] else ns[0]
    ensures ns[i].prev == if i > 0 then ns[i - 1] else ns[|ns| - 1]
  {
    if i + 1 < |ns| {
      assert Linked(ns[(i + 1) - 1], ns[i + 1]);
    }
    if i > 0 {
      assert Linked(ns[i - 1], ns[i]);
    }
  }

  lemma MovedSame(ns: seq<DNode>, k: nat)
    requires 1 <= k < |ns|
    ensures [ns[0], ns[k]] + (ns[..k] + ns[k + 1..])[1..] == [ns[0], ns[k]] + ns[1..k] + ns[k + 1..]
    ensures multiset([ns[0], ns[k]] + ns[1..k] + ns[k + 1..]) == multiset(ns)
    ensures multiset(ns[..k] + ns[k + 1..] + [ns[k]]) == multiset(ns)
  {
    assert ns == [ns[0]] + ns[1..k] + [ns[k]] + ns[k + 1..];
    assert ns[..k] == [ns[0]] + ns[1..k];
    assert (ns[..k] + ns[k + 1..])[1..] == ns[1..k] + ns[k + 1..];
  }

  /** usb_dlist_isempty. */
  method DlistIsEmpty(l: DNode, ghost ns: seq<DNode>) returns (empty: bool)
    requires Ring(ns) && ns[0] == l
    ensures empty <==> ns == [l]
  {
    RingNext(ns, 0);
    empty := l.next == l;
  }

  /** usb_dlist_len: the head is not counted. */
  method DlistLen(l: DNode, ghost ns: seq<DNode>) returns (len: nat)
    requires Ring(ns) && ns[0] == l
    ensures len == |ns| - 1
  {
    len := 0;
    var p := l;
    RingNext(ns, 0);
    while p.next != l
      invariant len < |ns| && p == ns[len]
      invariant p.next == if len + 1 < |ns| then ns[len + 1] else l
      decreases |ns| - len
    {
      p := p.next;
      len := len + 1;
      RingNext(ns, len);
    }
  }

  // ---------- usb_slist_t: singly linked, ends in null ----------

  class SNode {
    var next: SNode?

    /** usb_slist_init. */
    constructor ()
      ensures next == null
    {
      next := null;
    }
  }

  /** The nodes of ns, head first, are chained and the last one ends the list. */
  ghost predicate Chain(ns: seq<SNode>)
    reads ns
  {
    && ns != [] && Distinct(ns)
    && (forall i :: 0 < i < |ns| ==> ns[i - 1].next == ns[i])
    && ns[|ns| - 1].next == null
  }

  /** The successor of the node at position i of a chain. */
  lemma ChainNext(ns: seq<SNode>, i: nat)
    requires Chain(ns) && i < |ns|
    ensures ns[i].next == if i + 1 < |ns| then ns[i + 1] else null
  {
    if i + 1 < |ns| {
      assert ns[(i + 1) - 1].next == ns[i + 1];
    }
  }

  /** usb_slist_add_head. */
  method AddHead(l: SNode, n: SNode, ghost ns: seq<SNode>)
    requires Chain(ns) && ns[0] == l && n !in ns
    modifies l, n
    ensures Chain([l, n] + ns[1..])
  {
    ghost var r := [l, n] + ns[1..];
    assert |ns| > 1 ==> ns[0].next == ns[1];
    n.next := l.next;
    l.next := n;
    forall i | 0 < i < |r|
      ensures r[i - 1].next == r[i]
    {
      if i > 2 {
        assert old(ns[i - 2].next) == ns[i - 1];
      }
    }
  }

  /** usb_slist_tail. */
  method Tail(l: SNode, ghost ns: seq<SNode>) returns (t: SNode)
    requires Chain(ns) && ns[0] == l
    ensures t == ns[|ns| - 1]
  {
    t := l;
    ghost var k := 0;
    ChainNext(ns, 0);
    while t.next != null
      invariant k < |ns| && t == ns[k]
      invariant t.next == if k + 1 < |ns| then ns[k + 1] else null
      decreases |ns| - k
    {
      t := t.next;
      k := k + 1;
      ChainNext(ns, k);
    }
  }

  /** usb_slist_add_tail. */
  method AddTail(l: SNode, n: SNode, ghost ns: seq<SNode>)
    requires Chain(ns) && ns[0] == l && n !in ns
    modifies ns, n
    ensures Chain(ns + [n])
  {
    ghost var r := ns + [n];
    var tmp := Tail(l, ns);
    tmp.next := n;
    n.next := null;
    forall i | 0 < i < |r|
      ensures r[i - 1].next == r[i]
    {
      if i < |ns| {
        assert old(ns[i - 1].next) == ns[i];
      }
    }
  }

  /** The two stores of insert: at the node before the position, n enters the chain; at n itself, where the
      loop repeats them, nothing changes. */
  method Splice(cur: SNode, next: SNode, n: SNode, ghost ns: seq<SNode>, ghost k: nat)
    requires 1 <= k < |ns| && ns[k] == next && n !in ns
    requires (cur == ns[k - 1] && Chain(ns)) || (cur == n && Chain(ns[..k] + [n] + ns[k..]))
    modifies cur, n
    ensures Chain(ns[..k] + [n] + ns[k..])
  {
    ghost var r := ns[..k] + [n] + ns[k..];
    ghost var again := cur == n;
    cur.next := n;
    n.next := next;
    forall i | 0 < i < |r|
      ensures r[i - 1].next == r[i]
    {
      if again {
        assert old(r[i - 1].next) == r[i];
      } else if i < k {
        assert old(ns[i - 1].next) == ns[i];
      } else if i > k + 1 {
        assert old(ns[i - 2].next) == ns[i - 1];
      }
    }
    assert old(r[|r| - 1].next) == null;
  }

  /** usb_slist_insert ahead of `next`, whose position is k; a `next` that is not behind the head changes nothing, and
      null makes the source dereference it. The loop goes on to the end after inserting, and repeats its stores
      once, at the inserted node itself, to no effect. */
  method Insert(l: SNode, next: SNode?, n: SNode, ghost ns: seq<SNode>) returns (nullDereferenced: bool, ghost k: nat)
    requires Chain(ns) && ns[0] == l && n !in ns
    modifies ns, n
    ensures nullDereferenced <==> next == null
    ensures next == null || next !in ns[1..] ==> Chain(ns)
    ensures next != null && next in ns[1..] ==> 1 <= k < |ns| && ns[k] == next && Chain(ns[..k] + [n] + ns[k..])
  {
    k := |ns|;
    if next == null {
      return true, k;  // usb_slist_add_tail(next, l) follows the null pointer
    }
    if next in ns[1..] {
      ghost var j :| 0 <= j < |ns[1..]| && ns[1..][j] == next;
      k := j + 1;
    }
    InsertAt(l, next, n, ns, k);
    nullDereferenced := false;
  }

  /** The loop of insert; k is the length of the list when `next` is not behind the head. */
  method InsertAt(l: SNode, next: SNode, n: SNode, ghost ns: seq<SNode>, ghost k: nat)
    requires Chain(ns) && ns[0] == l && n !in ns && 1 <= k <= |ns|
    requires if k < |ns| then ns[k] == next else next !in ns[1..]
    modifies ns, n
    ensures Chain(if k < |ns| then ns[..k] + [n] + ns[k..] else ns)
  {
    ghost var r := if k < |ns| then ns[..k] + [n] + ns[k..] else ns;
    var cur := l;
    ghost var i := 0;  // the position of cur
    ChainNext(ns, 0);
    while cur.next != null
      invariant 0 <= i < |r| && cur == r[i]
      invariant i < k ==> Chain(ns)
      invariant i >= k ==> Chain(r)
      invariant cur.next == null ==> i >= k || k == |ns|
      decreases |r| - i
    {
      if i < k {
        ChainNext(ns, i);
      } else {
        ChainNext(r, i);
      }
      if cur.next == next {
        assert i + 1 < |ns| ==> ns[i + 1] in ns[1..];
        assert if i < k then i == k - 1 else i == k;
        Splice(cur, next, n, ns, k);
      }
      cur := cur.next;
      i := i + 1;
      if i < k {
        ChainNext(ns, i);
      } else {
        ChainNext(r, i);
      }
    }
  }

  /** The loop of remove: the node before n, or the last node when n is not in the list. */
  method FindBefore(l: SNode, n: SNode, ghost ns: seq<SNode>) returns (tmp: SNode, ghost i: nat)
    requires Chain(ns) && ns[0] == l
    ensures i < |ns| && tmp == ns[i]
    ensures if n in ns[1..] then i + 1 < |ns| && ns[i + 1] == n else i + 1 == |ns|
  {
    tmp, i := l, 0;
    ChainNext(ns, 0);
    while tmp.next != null && tmp.next != n
      invariant i < |ns| && tmp == ns[i] && n !in ns[1..i + 1]
      invariant tmp.next == if i + 1 < |ns| then ns[i + 1] else null
      decreases |ns| - i
    {
      tmp := tmp.next;
      i := i + 1;
      ChainNext(ns, i);
    }
    assert i + 1 < |ns| ==> ns[1..][i] == n;
  }

  /** The store of remove: the node after tmp leaves the chain. */
  method Unlink(tmp: SNode, ghost ns: seq<SNode>, ghost k: nat)
    requires Chain(ns) && 1 <= k < |ns| && tmp == ns[k - 1] && tmp.next != null
    modifies tmp
    ensures Chain(ns[..k] + ns[k + 1..])
  {
    ghost var r := ns[..k] + ns[k + 1..];
    ChainNext(ns, k - 1);
    ChainNext(ns, k);
    tmp.next := tmp.next.next;
    forall j | 0 < j < |r|
      ensures r[j - 1].next == r[j]
    {
      if j < k {
        assert old(ns[j - 1].next) == ns[j];
      } else if j > k {
        assert old(ns[(j + 1) - 1].next) == ns[j + 1];
      }
    }
    assert old(ns[|ns| - 1].next) == null;
  }

  /** usb_slist_remove: takes the node out, or changes nothing when it is not behind the head; k is its position. */
  method SlistRemove(l: SNode, n: SNode, ghost ns: seq<SNode>) returns (ghost k: nat)
    requires Chain(ns) && ns[0] == l
    modifies ns
    ensures n !in ns[1..] ==> Chain(ns)
    ensures n in ns[1..] ==> 1 <= k < |ns| && ns[k] == n && Chain(ns[..k] + ns[k + 1..])
  {
    var tmp, i := FindBefore(l, n, ns);
    k := i + 1;
    ChainNext(ns, i);
    if tmp.next != null {
      Unlink(tmp, ns, k);
    }
  }

  /** usb_slist_len. */
  method SlistLen(l: SNode, ghost ns: seq<SNode>) returns (len: nat)
    requires Chain(ns) && ns[0] == l
    ensures len == |ns| - 1
  {
    len := 0;
    var list := l.next;
    ChainNext(ns, 0);
    while list != null
      invariant len < |ns|
      invariant list == if len + 1 < |ns| then ns[len + 1] else null
      decreases |ns| - len
    {
      ChainNext(ns, len + 1);
      list := list.next;
      len := len + 1;
    }
  }

  /** usb_slist_contains: 0 means found. */
  method Contains(l: SNode, n: SNode, ghost ns: seq<SNode>) returns (r: nat)
    requires Chain(ns) && ns[0] == l
    ensures r == if n in ns[1..] then 0 else 1
  {
    var cur := l;
    ghost var i := 0;
    ChainNext(ns, 0);
    while cur.next != null
      invariant i < |ns| && cur == ns[i] && n !in ns[1..i + 1]
      invariant cur.next == if i + 1 < |ns| then ns[i + 1] else null
      decreases |ns| - i
    {
      if cur.next == n {
        assert ns[1..][i] == n;
        return 0;
      }
      cur := cur.next;
      i := i + 1;
      ChainNext(ns, i);
    }
    return 1;
  }
}
