/** Links of the ring, the allocator that hands them out, and the exchange of
    two rings (BaseNode::swap). A node whose value is never read serves as the
    sentinel: the model has one node class where the source has BaseNode and
    Node deriving from it. */
module Nodes {

  /** What the environment does at one allocate-then-construct step: succeed,
      make allocate(1) throw, or make the value's copy constructor throw. */
  datatype Fault = Succeeds | AllocationFails | ConstructionFails

  /** The fault at step i of a script of faults; steps past its end succeed. */
  function FaultAt(faults: seq<Fault>, i: nat): (f: Fault)
  {
    if i < |faults| then faults[i] else Succeeds
  }

  class Node<T(0)> {
    var prev: Node?<T>
    var next: Node?<T>
    var value: T

    /** BaseNode(): a link that closes on itself. */
    constructor Sentinel()
      ensures prev == this && next == this
    {
      new;
      prev := this;
      next := this;
    }

    /** The memory allocate(1) returns, before any construction. */
    constructor Raw()
      ensures prev == null && next == null
    {
      prev, next := null, null;
    }

    /** Placement construction Node(p, n, val): the BaseNode(p, n) part sets
        the links first, then the value is copied; when the copy throws, the
        links are already written and the value is left as it was. */
    method Construct(p: Node<T>, n: Node<T>, v: T, fails: bool) returns (ok: bool)
      modifies this
      ensures ok == !fails
      ensures prev == p && next == n
      ensures value == if ok then v else old(value)
    {
      prev, next := p, n;
      if fails {
        return false;
      }
      value := v;
      ok := true;
    }

    /** BaseNode::swap as the source writes it. Lines 21-24 overwrite a link
        and then read it back, which aliases when a ring is a self-loop. */
    method SwapAsWritten(other: Node<T>, ghost xs: seq<Node<T>>, ghost ys: seq<Node<T>>)
      requires Disjoint(this, xs, other, ys)
      requires IsRing(this, xs) && IsRing(other, ys)
      modifies this, other, set n | n in xs + ys
      ensures |xs| > 0 && |ys| > 0 ==> IsRing(this, ys) && IsRing(other, xs)
      ensures |xs| == 0 || |ys| == 0 ==> next == this && prev == other
      ensures |xs| == 0 || |ys| == 0 ==> !IsRing(this, ys)
    {
      EndsOf(this, xs);
      EndsOf(other, ys);
      ghost var empty := |xs| == 0 || |ys| == 0;
      prev.next := other;
      assert next == if |xs| == 0 then other else xs[0];
      next.prev := other;
      assert other.prev == if |xs| == 0 then other else if |ys| == 0 then other else ys[|ys| - 1];
      other.prev.next := this;
      assert other.next == if empty then this else ys[0];
      other.next.prev := this;

      var prevThis := prev;
      var nextThis := next;
      next := other.next;
      prev := other.prev;
      other.next := nextThis;
      other.prev := prevThis;
      if !empty {
        forall i | 0 <= i < |xs| - 1
          ensures xs[i].next == xs[i + 1] && xs[i + 1].prev == xs[i]
        {
          assert xs[i] != xs[|xs| - 1] && xs[i + 1] != xs[0];
          assert old(xs[i].next) == xs[i + 1] && old(xs[i + 1].prev) == xs[i];
        }
        forall i | 0 <= i < |ys| - 1
          ensures ys[i].next == ys[i + 1] && ys[i + 1].prev == ys[i]
        {
          assert ys[i] != ys[|ys| - 1] && ys[i + 1] != ys[0];
          assert old(ys[i].next) == ys[i + 1] && old(ys[i + 1].prev) == ys[i];
        }
        LinkedAfterSwap(this, xs, other, ys);
      } else {
        LoopedIsNoRing(this, other, ys);
      }
    }

    /** The exchange BaseNode::swap is meant to perform: afterwards this
        sentinel anchors the other ring and the other sentinel anchors this
        one, for empty rings too. Only links change: every value stays. */
    method Swap(other: Node<T>, ghost xs: seq<Node<T>>, ghost ys: seq<Node<T>>)
      requires Disjoint(this, xs, other, ys)
      requires IsRing(this, xs) && IsRing(other, ys)
      modifies this`prev, this`next, other`prev, other`next
      modifies (set n | n in xs + ys)`prev, (set n | n in xs + ys)`next
      ensures IsRing(this, ys) && IsRing(other, xs)
    {
      EndsOf(this, xs);
      EndsOf(other, ys);
      prev, other.prev := other.prev, prev;
      next, other.next := other.next, next;
      if next == other {
        next, prev := this, this;
      } else {
        next.prev := this;
        prev.next := this;
      }
      if other.next == this {
        other.next, other.prev := other, other;
      } else {
        other.next.prev := other;
        other.prev.next := other;
      }
      forall i | 0 <= i < |xs| - 1
        ensures xs[i].next == xs[i + 1] && xs[i + 1].prev == xs[i]
      {
        assert xs[i] != xs[|xs| - 1] && xs[i + 1] != xs[0];
        assert old(xs[i].next) == xs[i + 1] && old(xs[i + 1].prev) == xs[i];
      }
      forall i | 0 <= i < |ys| - 1
        ensures ys[i].next == ys[i + 1] && ys[i + 1].prev == ys[i]
      {
        assert ys[i] != ys[|ys| - 1] && ys[i + 1] != ys[0];
        assert old(ys[i].next) == ys[i + 1] && old(ys[i + 1].prev) == ys[i];
      }
      if |ys| > 0 && |xs| > 0 {
        LinkedAfterSwap(this, xs, other, ys);
      } else if |ys| > 0 {
        LinkedOne(this, ys);
      } else if |xs| > 0 {
        LinkedOne(other, xs);
      }
    }
  }

  /** No two positions of ns hold the same node. */
  ghost predicate Distinct<T(0)>(ns: seq<Node<T>>)
  {
    forall i, j :: 0 <= i < j < |ns| ==> ns[i] != ns[j]
  }

  /** Consecutive entries of r are joined both ways: next forward, prev back. */
  ghost predicate Linked<T(0)>(r: seq<Node<T>>)
    reads set n | n in r
  {
    forall i :: 0 <= i < |r| - 1 ==> r[i].next == r[i + 1] && r[i + 1].prev == r[i]
  }

  /** The ring anchored at sentinel s holds exactly the nodes ns, in order:
      s -> ns[0] -> ... -> ns[|ns|-1] -> s, and back along prev. */
  ghost predicate IsRing<T(0)>(s: Node<T>, ns: seq<Node<T>>)
    reads s, set n | n in ns
  {
    s !in ns && Distinct(ns) && Linked([s] + ns + [s])
  }

  /** Two rings share no node. */
  ghost predicate Disjoint<T(0)>(s: Node<T>, xs: seq<Node<T>>, t: Node<T>, ys: seq<Node<T>>)
  {
    s != t && s !in ys && t !in xs && forall i, j :: 0 <= i < |xs| && 0 <= j < |ys| ==> xs[i] != ys[j]
  }

  /** Rings whose links lie in disjoint sets of objects are disjoint. */
  lemma DisjointOf<T(0)>(s: Node<T>, xs: seq<Node<T>>, t: Node<T>, ys: seq<Node<T>>)
    requires ({s} + Objects(xs)) !! ({t} + Objects(ys))
    ensures Disjoint(s, xs, t, ys)
  {
    forall i, j | 0 <= i < |xs| && 0 <= j < |ys|
      ensures xs[i] != ys[j]
    {
      assert xs[i] in Objects(xs) && ys[j] in Objects(ys);
    }
  }

  /** The nodes of ns as a set of objects. */
  ghost function Objects<T(0)>(ns: seq<Node<T>>): (s: set<object>)
  {
    set n | n in ns
  }

  /** Within r = [s] + ns + [s], the positions 0..|ns| hold distinct links,
      and so do the positions 1..|ns|+1. */
  lemma RingPositions<T(0)>(s: Node<T>, ns: seq<Node<T>>, r: seq<Node<T>>)
    requires s !in ns && Distinct(ns) && r == [s] + ns + [s]
    ensures forall i, j :: 0 <= i < j < |r| - 1 ==> r[i] != r[j]
    ensures forall i, j :: 1 <= i < j < |r| ==> r[i] != r[j]
  {
    forall i, j | 0 <= i < j < |r| - 1
      ensures r[i] != r[j]
    {
      assert r[j] == ns[j - 1];
      if i > 0 {
        assert r[i] == ns[i - 1];
      }
    }
    forall i, j | 1 <= i < j < |r|
      ensures r[i] != r[j]
    {
      assert r[i] == ns[i - 1];
      if j < |r| - 1 {
        assert r[j] == ns[j - 1];
      }
    }
  }

  /** Putting n between the links at positions k and k+1 of the ring at s
      (k == |ns| splices before the sentinel) yields the ring with n at
      index k, provided every other pair is still joined. */
  lemma RingSplice<T(0)>(s: Node<T>, ns: seq<Node<T>>, k: nat, n: Node<T>, r: seq<Node<T>>)
    requires s !in ns && Distinct(ns) && r == [s] + ns + [s]
    requires k <= |ns| && n != s && n !in ns
    requires forall j :: 0 <= j < |r| - 1 && j != k ==> r[j].next == r[j + 1] && r[j + 1].prev == r[j]
    requires r[k].next == n && n.prev == r[k] && n.next == r[k + 1] && r[k + 1].prev == n
    ensures IsRing(s, ns[..k] + [n] + ns[k..])
  {
    var ms := ns[..k] + [n] + ns[k..];
    var q := [s] + ms + [s];
    forall i | 0 <= i < |q| - 1
      ensures q[i].next == q[i + 1] && q[i + 1].prev == q[i]
    {
      if i < k {
        assert q[i] == r[i] && q[i + 1] == r[i + 1];
      } else if i == k {
        assert q[i] == r[k] && q[i + 1] == n;
      } else if i == k + 1 {
        assert q[i] == n && q[i + 1] == r[k + 1];
      } else {
        assert q[i] == r[i - 1] && q[i + 1] == r[i];
      }
    }
    forall i, j | 0 <= i < j < |ms|
      ensures ms[i] != ms[j]
    {
      if i < k && j > k {
        assert ms[i] == ns[i] && ms[j] == ns[j - 1];
      } else if j < k {
        assert ms[i] == ns[i] && ms[j] == ns[j];
      } else if i > k {
        assert ms[i] == ns[i - 1] && ms[j] == ns[j - 1];
      }
    }
  }

  /** Joining the neighbours of the node at index k of the ring at s to each
      other yields the ring without that node, provided every pair away from
      it is still joined. */
  lemma RingUnsplice<T(0)>(s: Node<T>, ns: seq<Node<T>>, k: nat, r: seq<Node<T>>)
    requires s !in ns && Distinct(ns) && r == [s] + ns + [s]
    requires k < |ns|
    requires forall j :: 0 <= j < |r| - 1 && j != k && j != k + 1 ==> r[j].next == r[j + 1] && r[j + 1].prev == r[j]
    requires r[k].next == r[k + 2] && r[k + 2].prev == r[k]
    ensures IsRing(s, ns[..k] + ns[k + 1..])
  {
    var ms := ns[..k] + ns[k + 1..];
    var q := [s] + ms + [s];
    forall i | 0 <= i < |q| - 1
      ensures q[i].next == q[i + 1] && q[i + 1].prev == q[i]
    {
      if i < k {
        assert q[i] == r[i] && q[i + 1] == r[i + 1];
      } else if i == k {
        assert q[i] == r[k] && q[i + 1] == r[k + 2];
      } else {
        assert q[i] == r[i + 1] && q[i + 1] == r[i + 2];
      }
    }
    forall i, j | 0 <= i < j < |ms|
      ensures ms[i] != ms[j]
    {
      if i < k && j >= k {
        assert ms[i] == ns[i] && ms[j] == ns[j + 1];
      } else if j < k {
        assert ms[i] == ns[i] && ms[j] == ns[j];
      } else {
        assert ms[i] == ns[i + 1] && ms[j] == ns[j + 1];
      }
    }
  }

  /** The link p at position k of the ring at s (k == |ns| names the
      sentinel): its prev is the link at position k - 1, its next the link at
      k + 1, and it is the sentinel's next exactly when k is 0. */
  lemma AtPosition<T(0)>(s: Node<T>, ns: seq<Node<T>>, k: nat, p: Node<T>)
    requires IsRing(s, ns) && k <= |ns| && p == (ns + [s])[k]
    ensures p.prev == ([s] + ns)[k]
    ensures k < |ns| ==> p.next == (ns + [s])[k + 1]
    ensures p == s.next <==> k == 0
  {
    var r := [s] + ns + [s];
    RingPositions(s, ns, r);
    assert p == r[k + 1] && ([s] + ns)[k] == r[k] && r[0] == s;
    if k < |ns| {
      assert (ns + [s])[k + 1] == r[k + 2];
    }
    assert s.next == r[1];
  }

  /** The two stores of insert (lines 466-467): n, whose own links already
      name its neighbours, is joined in before p, the link at position k of
      the ring at s (k == |ns| names the sentinel). */
  method LinkBefore<T(0)>(s: Node<T>, ghost ns: seq<Node<T>>, ghost es: seq<T>, p: Node<T>, n: Node<T>, ghost k: nat)
    requires IsRing(s, ns) && Holds(ns, es) && k <= |ns| && p == (ns + [s])[k]
    requires n != s && n !in ns && n.prev == ([s] + ns)[k] && n.next == p
    modifies p`prev, n.prev`next
    ensures IsRing(s, ns[..k] + [n] + ns[k..])
    ensures Holds(ns[..k] + [n] + ns[k..], es[..k] + [n.value] + es[k..])
  {
    ghost var r := [s] + ns + [s];
    RingPositions(s, ns, r);
    assert p == r[k + 1] && n.prev == r[k];
    p.prev := n;
    n.prev.next := n;
    forall j | 0 <= j < |r| - 1 && j != k
      ensures r[j].next == r[j + 1] && r[j + 1].prev == r[j]
    {
      assert old(r[j].next == r[j + 1] && r[j + 1].prev == r[j]);
    }
    RingSplice(s, ns, k, n, r);
    assert Holds(ns, es);
    HoldsInsert(ns, es, k, n, n.value);
  }

  /** The two stores of erase (lines 478-479): the neighbours of p, the node
      at index k of the ring at s, are joined to each other. p keeps its own
      links. */
  method Unlink<T(0)>(s: Node<T>, ghost ns: seq<Node<T>>, ghost es: seq<T>, p: Node<T>, ghost k: nat)
    requires IsRing(s, ns) && Holds(ns, es) && k < |ns| && p == ns[k]
    requires p.prev == ([s] + ns)[k] && p.next == (ns + [s])[k + 1]
    modifies p.prev`next, p.next`prev
    ensures IsRing(s, ns[..k] + ns[k + 1..])
    ensures Holds(ns[..k] + ns[k + 1..], es[..k] + es[k + 1..])
    ensures p.prev == old(p.prev) && p.next == old(p.next)
  {
    ghost var r := [s] + ns + [s];
    RingPositions(s, ns, r);
    assert p == r[k + 1] && p.prev == r[k] && p.next == r[k + 2];
    p.prev.next := p.next;
    p.next.prev := p.prev;
    forall j | 0 <= j < |r| - 1 && j != k && j != k + 1
      ensures r[j].next == r[j + 1] && r[j + 1].prev == r[j]
    {
      assert old(r[j].next == r[j + 1] && r[j + 1].prev == r[j]);
    }
    RingUnsplice(s, ns, k, r);
    assert Holds(ns, es);
    HoldsRemove(ns, es, k);
  }

  /** The nodes ns hold the values es, position by position. */
  ghost predicate Holds<T(0)>(ns: seq<Node<T>>, es: seq<T>)
    reads set n | n in ns
  {
    |ns| == |es| && forall i :: 0 <= i < |ns| ==> ns[i].value == es[i]
  }

  lemma HoldsInsert<T(0)>(ns: seq<Node<T>>, es: seq<T>, k: nat, n: Node<T>, v: T)
    requires Holds(ns, es) && k <= |ns| && n.value == v
    ensures Holds(ns[..k] + [n] + ns[k..], es[..k] + [v] + es[k..])
  {
    var ms, fs := ns[..k] + [n] + ns[k..], es[..k] + [v] + es[k..];
    forall i | 0 <= i < |ms|
      ensures ms[i].value == fs[i]
    {
      if i < k {
        assert ms[i] == ns[i] && fs[i] == es[i];
      } else if i > k {
        assert ms[i] == ns[i - 1] && fs[i] == es[i - 1];
      }
    }
  }

  lemma HoldsRemove<T(0)>(ns: seq<Node<T>>, es: seq<T>, k: nat)
    requires Holds(ns, es) && k < |ns|
    ensures Holds(ns[..k] + ns[k + 1..], es[..k] + es[k + 1..])
  {
    var ms, fs := ns[..k] + ns[k + 1..], es[..k] + es[k + 1..];
    forall i | 0 <= i < |ms|
      ensures ms[i].value == fs[i]
    {
      if i < k {
        assert ms[i] == ns[i] && fs[i] == es[i];
      } else {
        assert ms[i] == ns[i + 1] && fs[i] == es[i + 1];
      }
    }
  }

  /** Objects of a sequence with one node put in or taken out. */
  lemma ObjectsInsert<T(0)>(ns: seq<Node<T>>, k: nat, n: Node<T>)
    requires k <= |ns|
    ensures Objects(ns[..k] + [n] + ns[k..]) == Objects(ns) + {n}
  {
    var ms := ns[..k] + [n] + ns[k..];
    forall o | o in Objects(ns)
      ensures o in Objects(ms)
    {
      var i :| 0 <= i < |ns| && ns[i] == o;
      if i < k {
        assert ms[i] == o;
      } else {
        assert ms[i + 1] == o;
      }
    }
    assert ms[k] == n;
  }

  lemma ObjectsAppend<T(0)>(ns: seq<Node<T>>, n: Node<T>)
    ensures Objects(ns + [n]) == Objects(ns) + {n}
  {
    assert (ns + [n])[|ns|] == n;
    forall o | o in Objects(ns)
      ensures o in Objects(ns + [n])
    {
      var i :| 0 <= i < |ns| && ns[i] == o;
      assert (ns + [n])[i] == o;
    }
  }

  /** A suffix of ns from position k holds ns[k] and the suffix after it. */
  lemma ObjectsSuffix<T(0)>(ns: seq<Node<T>>, k: nat)
    requires k < |ns|
    ensures Objects(ns[k..]) == Objects(ns[k + 1..]) + {ns[k]}
  {
    assert ns[k..] == [ns[k]] + ns[k + 1..];
  }

  lemma ObjectsRemove<T(0)>(ns: seq<Node<T>>, k: nat)
    requires Distinct(ns) && k < |ns|
    ensures Objects(ns[..k] + ns[k + 1..]) == Objects(ns) - {ns[k]}
  {
    var ms := ns[..k] + ns[k + 1..];
    forall o | o in Objects(ns) - {ns[k]}
      ensures o in Objects(ms)
    {
      var i :| 0 <= i < |ns| && ns[i] == o;
      if i < k {
        assert ms[i] == o;
      } else {
        assert ms[i - 1] == o;
      }
    }
    forall o | o in Objects(ms)
      ensures o in Objects(ns) - {ns[k]}
    {
      var i :| 0 <= i < |ms| && ms[i] == o;
      if i < k {
        assert ms[i] == ns[i];
      } else {
        assert ms[i] == ns[i + 1];
      }
    }
  }

  /** The link reached from n by `steps` applications of next (operator++).
      The walk may reach any link, so it reads the whole heap. */
  ghost function Advance<T(0)>(n: Node<T>, steps: nat): (m: Node?<T>)
    reads *
  {
    if steps == 0 then n
    else
      var m := Advance(n, steps - 1);
      if m == null then null else m.next
  }

  /** The link reached from n by `steps` applications of prev (operator--).
      The walk may reach any link, so it reads the whole heap. */
  ghost function Retreat<T(0)>(n: Node<T>, steps: nat): (m: Node?<T>)
    reads *
  {
    if steps == 0 then n
    else
      var m := Retreat(n, steps - 1);
      if m == null then null else m.prev
  }

  /** A sentinel whose next link loops back to itself while its prev link
      leaves it anchors no ring at all. */
  lemma LoopedIsNoRing<T(0)>(s: Node<T>, t: Node<T>, ns: seq<Node<T>>)
    requires s.next == s && s.prev == t && s != t
    ensures !IsRing(s, ns)
  {
    var r := [s] + ns + [s];
    if |ns| == 0 {
      assert r[1].prev != r[0];
    } else if s !in ns {
      assert r[0].next != r[1];
    }
  }

  /** What a ring says about the sentinel's own links and its neighbours'. */
  lemma EndsOf<T(0)>(s: Node<T>, ns: seq<Node<T>>)
    requires IsRing(s, ns)
    ensures |ns| == 0 ==> s.next == s && s.prev == s
    ensures |ns| > 0 ==> s.next == ns[0] && ns[0].prev == s && s.prev == ns[|ns| - 1] && ns[|ns| - 1].next == s
    ensures Linked(ns)
  {
    var r := [s] + ns + [s];
    assert r[0] == s && r[|r| - 1] == s;
    if |ns| > 0 {
      assert r[1] == ns[0] && r[|r| - 2] == ns[|ns| - 1];
    }
    forall i | 0 <= i < |ns| - 1
      ensures ns[i].next == ns[i + 1] && ns[i + 1].prev == ns[i]
    {
      assert r[i + 1] == ns[i] && r[i + 2] == ns[i + 1];
    }
  }

  /** The sentinel's next link names the first node, or the sentinel itself
      when the ring is empty. */
  lemma FirstOf<T(0)>(s: Node<T>, ns: seq<Node<T>>)
    requires IsRing(s, ns)
    ensures s.next == (ns + [s])[0]
  {
    var r := [s] + ns + [s];
    assert r[0] == s && r[1] == (ns + [s])[0];
  }

  /** After the exchange of two non-empty rings, each sentinel anchors the
      other's nodes, provided the outer links were rewired and the inner
      links are as before. */
  lemma LinkedAfterSwap<T(0)>(s: Node<T>, xs: seq<Node<T>>, t: Node<T>, ys: seq<Node<T>>)
    requires Disjoint(s, xs, t, ys) && Distinct(xs) && Distinct(ys) && s !in xs && t !in ys
    requires |xs| > 0 && |ys| > 0
    requires Linked(xs) && Linked(ys)
    requires s.next == ys[0] && ys[0].prev == s && s.prev == ys[|ys| - 1] && ys[|ys| - 1].next == s
    requires t.next == xs[0] && xs[0].prev == t && t.prev == xs[|xs| - 1] && xs[|xs| - 1].next == t
    ensures IsRing(s, ys) && IsRing(t, xs)
  {
    LinkedFrom(s, ys);
    LinkedFrom(t, xs);
  }

  /** One non-empty ring closed at s, the other an empty self-loop. */
  lemma LinkedOne<T(0)>(s: Node<T>, ys: seq<Node<T>>)
    requires Distinct(ys) && s !in ys && |ys| > 0
    requires Linked(ys)
    requires s.next == ys[0] && ys[0].prev == s && s.prev == ys[|ys| - 1] && ys[|ys| - 1].next == s
    ensures IsRing(s, ys)
  {
    LinkedFrom(s, ys);
  }

  /** The inner links of ns and the four links at the sentinel make the ring. */
  lemma LinkedFrom<T(0)>(s: Node<T>, ns: seq<Node<T>>)
    requires |ns| > 0
    requires Linked(ns)
    requires s.next == ns[0] && ns[0].prev == s && s.prev == ns[|ns| - 1] && ns[|ns| - 1].next == s
    ensures Linked([s] + ns + [s])
  {
    var r := [s] + ns + [s];
    forall i | 0 <= i < |r| - 1
      ensures r[i].next == r[i + 1] && r[i + 1].prev == r[i]
    {
      if 0 < i < |r| - 2 {
        assert r[i] == ns[i - 1] && r[i + 1] == ns[i];
      }
    }
  }

  /** The allocator, reduced to the set of nodes it has handed out and not
      yet taken back. Releasing a node that is not live (a double free) is
      ruled out by Deallocate's precondition. */
  class Allocator {
    ghost var live: set<object>

    constructor ()
      ensures live == {}
    {
      live := {};
    }

    /** allocate(1): fresh raw memory for one node, or a throw. */
    method Allocate<T(0)>(fails: bool) returns (n: Node?<T>)
      modifies this
      ensures n == null <==> fails
      ensures n != null ==> fresh(n) && live == old(live) + {n}
      ensures n == null ==> live == old(live)
    {
      if fails {
        return null;
      }
      n := new Node<T>.Raw();
      live := live + {n};
    }

    /** deallocate(n, 1), preceded where the source does so by destroy. */
    method Deallocate<T(0)>(n: Node<T>)
      requires n in live
      modifies this
      ensures live == old(live) - {n}
    {
      live := live - {n};
    }
  }

  /** Exchanging an empty ring with a ring of one node, as the source does it,
      leaves the first sentinel a self-loop in its next link whose prev link
      points at the other sentinel: the node it should now hold is lost. */
  method SwapIntoEmptyCounterexample() returns (a: Node<int>, b: Node<int>, n: Node<int>)
    ensures a.next == a && a.prev == b
    ensures !IsRing(a, [n]) && !IsRing(a, [])
  {
    a := new Node<int>.Sentinel();
    b := new Node<int>.Sentinel();
    n := new Node<int>.Raw();
    var ok := n.Construct(b, b, 7, false);
    b.next, b.prev := n, n;
    assert Linked([b] + [n] + [b]);
    a.SwapAsWritten(b, [], [n]);
    LoopedIsNoRing(a, b, []);
  }
}
