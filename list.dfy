/** List<T, Allocator>: a circular doubly-linked ring anchored at a sentinel
    link that holds no value. The ghost sequence `nodes` lists the real nodes
    in ring order and `elems` their values; Valid() ties both to the links. */
module Lists {
  import opened Nodes
  import opened Iterators

  class List<T(0)> {
    var last: Node<T>
    var first: Node<T>
    var size: nat
    var allocator: Allocator
    var endIter: Iterator<T>
    var beginIter: Iterator<T>

    ghost var nodes: seq<Node<T>>
    ghost var elems: seq<T>
    ghost var Repr: set<object>

    /** The object invariant: the ring at `last` holds exactly `nodes`, the
        size counter counts them, `first` and the cached iterators agree
        with the sentinel's links, and every node is live in the allocator. */
    ghost predicate Valid()
      reads this, Repr, allocator
    {
      Repr == {this, last, endIter, beginIter} + Objects(nodes) &&
      allocator !in Repr && endIter != beginIter &&
      IsRing(last, nodes) &&
      size == |nodes| && Holds(nodes, elems) &&
      first == last.next &&
      endIter.node == last && beginIter.node == first &&
      Objects(nodes) <= allocator.live
    }

    /** The link an iterator at position k names: the k-th node, or the
        sentinel (end()) for k == |nodes|. */
    ghost function Position(k: nat): (n: Node<T>)
      requires k <= |nodes|
      reads this
    {
      if k < |nodes| then nodes[k] else last
    }

    /** List() and List(Allocator) (lines 56-68). */
    constructor Empty(alloc: Allocator)
      ensures Valid() && fresh(Repr)
      ensures allocator == alloc && nodes == [] && elems == [] && size == 0
      ensures last.prev == last && last.next == last && first == last
      ensures beginIter.node == endIter.node
    {
      var s := new Node<T>.Sentinel();
      last, first, size, allocator := s, s, 0, alloc;
      endIter := new Iterator<T>.At(s);
      beginIter := new Iterator<T>.At(s);
      nodes, elems := [], [];
      new;
      Repr := {this, last, endIter, beginIter};
      assert Linked([last] + nodes + [last]);
    }

    /** The members of a sized or copy constructor before its body runs:
        a self-looped sentinel, first_ at the sentinel, size_ already set,
        and the two cached iterators not yet pointing anywhere. */
    constructor Raw(sz: nat, alloc: Allocator)
      ensures size == sz && allocator == alloc && nodes == [] && elems == []
      ensures IsRing(last, []) && last.next == last && last.prev == last && first == last
      ensures endIter != beginIter && endIter.node == null && beginIter.node == null
      ensures Repr == {this, last, endIter, beginIter} && fresh(Repr)
    {
      var s := new Node<T>.Sentinel();
      last, first, size, allocator := s, s, sz, alloc;
      endIter := new Iterator<T>.Null();
      beginIter := new Iterator<T>.Null();
      nodes, elems := [], [];
      new;
      Repr := {this, last, endIter, beginIter};
      assert Linked([last] + nodes + [last]);
    }

    /** Rollback when allocate(1) throws at step i > 0 of a sized or copy
        constructor: first_ walks the partial ring, releasing the node
        behind it, until it reaches the sentinel. */
    method ReleaseWalkingFirst(ghost built: seq<Node<T>>)
      requires IsRing(last, built) && first == last.next
      requires Objects(built) <= allocator.live
      modifies this`first, allocator
      ensures first == last
      ensures allocator.live == old(allocator.live) - Objects(built)
    {
      ghost var r := [last] + built + [last];
      ghost var j := 0;
      RingPositions(last, built, r);
      EndsOf(last, built);
      while first != last
        invariant 0 <= j <= |built| && first == r[j + 1]
        invariant allocator.live == old(allocator.live) - Objects(built[..j])
        decreases |built| - j
      {
        assert built[..j + 1] == built[..j] + [built[j]];
        assert r[j + 1] == built[j] && r[j + 1].next == r[j + 2] && r[j + 2].prev == r[j + 1];
        first := first.next;
        allocator.Deallocate(first.prev);
        j := j + 1;
      }
      assert built[..j] == built;
    }

    /** Rollback when constructing the value throws at step i > 0 of a sized
        or copy constructor: a cursor walks the partial ring from first_,
        releasing the node behind it, until it reaches the sentinel. */
    method ReleaseWithDeleter(ghost built: seq<Node<T>>)
      requires IsRing(last, built) && first == last.next
      requires Objects(built) <= allocator.live
      modifies allocator
      ensures allocator.live == old(allocator.live) - Objects(built)
    {
      ghost var r := [last] + built + [last];
      ghost var j := 0;
      RingPositions(last, built, r);
      EndsOf(last, built);
      var deleter := first;
      while deleter != last
        invariant 0 <= j <= |built| && deleter == r[j + 1]
        invariant allocator.live == old(allocator.live) - Objects(built[..j])
        decreases |built| - j
      {
        assert built[..j + 1] == built[..j] + [built[j]];
        assert r[j + 1] == built[j] && r[j + 1].next == r[j + 2] && r[j + 2].prev == r[j + 1];
        deleter := deleter.next;
        allocator.Deallocate(deleter.prev);
        j := j + 1;
      }
      assert built[..j] == built;
    }

    /** One pass of the loop that the sized and copy constructors share
        (lines 76-116, 129-168, 185-227): allocate a node, construct it
        between the current last node and the sentinel, and link it in.
        When allocate(1) throws, the nodes linked so far are released by
        walking first_ (lines 107-115); when constructing the value throws
        at the first step, only the failing node's memory is released
        (lines 104-106); at a later step, that memory and then the nodes
        linked so far (lines 94-103). */
    method BuildStep(i: nat, v: T, fault: Fault, ghost built: seq<Node<T>>, ghost vs: seq<T>) returns (ok: bool, ghost n: Node?<T>)
      requires |built| == i && IsRing(last, built) && Holds(built, vs) && first == last.next
      requires Objects(built) <= allocator.live
      modifies this`first, allocator, last, Objects(built)
      ensures ok <==> fault == Succeeds
      ensures ok ==> n != null && fresh(n)
      ensures ok ==> IsRing(last, built + [n]) && Holds(built + [n], vs + [v]) && first == last.next
      ensures ok ==> allocator.live == old(allocator.live) + {n}
      ensures !ok ==> allocator.live == old(allocator.live) - Objects(built)
    {
      EndsOf(last, built);
      var newNode := allocator.Allocate<T>(fault == AllocationFails);
      if newNode == null {
        if i > 0 {
          ReleaseWalkingFirst(built);
        }
        return false, null;
      }
      ghost var r := [last] + built + [last];
      RingPositions(last, built, r);
      if i == 0 {
        first := newNode;
        var constructed := newNode.Construct(last, last, v, fault == ConstructionFails);
        if !constructed {
          allocator.Deallocate(newNode);
          return false, null;
        }
        last.prev := first;
        last.next := first;
      } else {
        var constructed := newNode.Construct(last.prev, last, v, fault == ConstructionFails);
        if !constructed {
          allocator.Deallocate(newNode);
          ReleaseWithDeleter(built);
          return false, null;
        }
        last.prev.next := newNode;
        last.prev := newNode;
      }
      forall j | 0 <= j < |r| - 1 && j != i
        ensures r[j].next == r[j + 1] && r[j + 1].prev == r[j]
      {
        assert old(r[j].next == r[j + 1] && r[j + 1].prev == r[j]);
      }
      RingSplice(last, built, i, newNode, r);
      assert built[..i] + [newNode] + built[i..] == built + [newNode];
      assert Holds(built, vs);
      HoldsInsert(built, vs, i, newNode, v);
      assert vs[..i] + [v] + vs[i..] == vs + [v];
      ok, n := true, newNode;
    }

    /** The last lines of a sized or copy constructor (lines 119-120,
        171-173, 230-232): the cached iterators are set to end() and to the
        link after it, begin(); the ghost view takes the ring built. */
    method Seal(ghost built: seq<Node<T>>, ghost vs: seq<T>)
      requires IsRing(last, built) && Holds(built, vs) && first == last.next && size == |built|
      requires Repr == {this, last, endIter, beginIter} && endIter != beginIter
      requires Objects(built) <= allocator.live
      modifies this`nodes, this`elems, this`Repr, endIter, beginIter
      ensures Valid() && nodes == built && elems == vs
      ensures Repr == old(Repr) + Objects(built)
      ensures first == Position(0) && beginIter.node == Position(0)
    {
      endIter.node := last;
      beginIter.node := endIter.node;
      beginIter.Increment();
      nodes, elems := built, vs;
      Repr := Repr + Objects(built);
      EndsOf(last, built);
    }

    /** List(sz, val, alloc) (lines 123-174); List(sz, alloc) (lines 70-121)
        runs the same loop with T() for val. A throw at step i releases the
        failing node's memory and every node linked in steps 0..i-1, and
        construction fails (null). */
    static method Sized(sz: nat, val: T, alloc: Allocator, faults: seq<Fault>) returns (l: List?<T>)
      modifies alloc
      ensures l == null <==> exists i :: 0 <= i < sz && FaultAt(faults, i) != Succeeds
      ensures l == null ==> alloc.live == old(alloc.live)
      ensures l != null ==> l.Valid() && fresh(l.Repr) && l.allocator == alloc
      ensures l != null ==> l.size == sz && |l.elems| == sz && forall i :: 0 <= i < sz ==> l.elems[i] == val
      ensures l != null ==> l.first == l.Position(0) && l.beginIter.node == l.Position(0)
      ensures l != null ==> alloc.live == old(alloc.live) + Objects(l.nodes)
    {
      l := new List<T>.Raw(sz, alloc);
      ghost var built: seq<Node<T>> := [];
      ghost var s := l.last;
      var i: nat := 0;
      while i < l.size
        invariant l.size == sz && i <= sz && |built| == i
        invariant l.last == s && l.allocator == alloc && l.nodes == [] && l.elems == []
        invariant l.Repr == {l, s, l.endIter, l.beginIter} && fresh(l.Repr) && l.endIter != l.beginIter
        invariant IsRing(s, built) && l.first == s.next
        invariant fresh(Objects(built)) && Holds(built, seq(i, _ => val))
        invariant forall j :: 0 <= j < i ==> FaultAt(faults, j) == Succeeds
        invariant alloc.live == old(alloc.live) + Objects(built)
      {
        var ok;
        ghost var n;
        ok, n := l.BuildStep(i, val, FaultAt(faults, i), built, seq(i, _ => val));
        if !ok {
          return null;
        }
        assert seq(i, _ => val) + [val] == seq(i + 1, _ => val);
        ObjectsAppend(built, n);
        built := built + [n];
        i := i + 1;
      }
      l.Seal(built, seq(sz, _ => val));
    }

    /** List(sz, alloc) (lines 70-121): sized construction with T(), here
        the default value of T. */
    static method SizedDefault(sz: nat, alloc: Allocator, faults: seq<Fault>) returns (l: List?<T>)
      modifies alloc
      ensures l == null <==> exists i :: 0 <= i < sz && FaultAt(faults, i) != Succeeds
      ensures l == null ==> alloc.live == old(alloc.live)
      ensures l != null ==> l.Valid() && fresh(l.Repr) && l.allocator == alloc && l.size == sz
      ensures l != null ==> |l.elems| == sz && forall i, j :: 0 <= i < j < sz ==> l.elems[i] == l.elems[j]
      ensures l != null ==> alloc.live == old(alloc.live) + Objects(l.nodes)
    {
      var defaultValue: T := *;
      l := Sized(sz, defaultValue, alloc, faults);
    }

    /** The copy constructor (lines 178-233): the same loop, copying the
        values of `other` in ring order; `other` is left as it was. */
    static method Copy(other: List<T>, faults: seq<Fault>) returns (l: List?<T>)
      requires other.Valid()
      modifies other.allocator
      ensures other.Valid()
      ensures l == null <==> exists i :: 0 <= i < other.size && FaultAt(faults, i) != Succeeds
      ensures l == null ==> other.allocator.live == old(other.allocator.live)
      ensures l != null ==> l.Valid() && fresh(l.Repr) && l.allocator == other.allocator
      ensures l != null ==> l.elems == other.elems && l.size == other.size
      ensures l != null ==> other.allocator.live == old(other.allocator.live) + Objects(l.nodes)
    {
      ghost var os, ons, oes := other.last, other.nodes, other.elems;
      l := new List<T>.Raw(other.size, other.allocator);
      var ok;
      ghost var built;
      ok, built := l.CopyNodes(other.first, os, ons, oes, faults);
      if !ok {
        return null;
      }
      l.Seal(built, oes);
    }

    /** The loop of the copy constructor (lines 183-228): step i copies the
        value of the i-th node of the source ring, reached by walking
        copy_from along next from the source's first node. */
    method CopyNodes(from: Node<T>, ghost os: Node<T>, ghost ons: seq<Node<T>>, ghost oes: seq<T>, faults: seq<Fault>)
      returns (ok: bool, ghost built: seq<Node<T>>)
      requires IsRing(os, ons) && Holds(ons, oes) && from == os.next
      requires size == |ons| && IsRing(last, []) && first == last && last.next == last
      requires last != os && last !in ons
      modifies this`first, allocator, last
      ensures ok <==> forall i :: 0 <= i < size ==> FaultAt(faults, i) == Succeeds
      ensures ok ==> |built| == size && IsRing(last, built) && Holds(built, oes) && first == last.next
      ensures ok ==> fresh(Objects(built))
      ensures ok ==> allocator.live == old(allocator.live) + Objects(built)
      ensures !ok ==> allocator.live == old(allocator.live)
    {
      built := [];
      var copyFrom := from;
      FirstOf(os, ons);
      forall j {:trigger ons[j].next} | 0 <= j < |ons|
        ensures ons[j].next == (ons + [os])[j + 1] && ons[j].value == oes[j]
      {
        AtPosition(os, ons, j, ons[j]);
      }
      var i: nat := 0;
      while i < size
        invariant i <= size && |built| == i
        invariant IsRing(last, built) && first == last.next
        invariant fresh(Objects(built)) && Holds(built, oes[..i])
        invariant forall j :: 0 <= j < i ==> FaultAt(faults, j) == Succeeds
        invariant allocator.live == old(allocator.live) + Objects(built)
        invariant forall j {:trigger ons[j].next} :: 0 <= j < |ons| ==> ons[j].next == (ons + [os])[j + 1]
        invariant forall j :: 0 <= j < |ons| ==> ons[j].value == oes[j]
        invariant copyFrom == (ons + [os])[i]
      {
        var v := copyFrom.value;
        assert v == oes[i];
        assert oes[..i] + [oes[i]] == oes[..i + 1];
        ghost var n;
        ok, n := BuildStep(i, v, FaultAt(faults, i), built, oes[..i]);
        if !ok {
          return;
        }
        ObjectsAppend(built, n);
        built := built + [n];
        copyFrom := copyFrom.next;
        i := i + 1;
      }
      assert oes[..i] == oes;
      ok := true;
    }

    /** operator= (lines 235-260), copy and swap. Assigning a list to
        itself changes nothing. Otherwise a copy of `other` is built first;
        when that throws, this list is as it was. On success this list
        takes the copy's ring and the copy, now anchoring this list's former
        nodes, releases them as it goes out of scope. Both lists draw on one
        allocator, so propagating it changes nothing. */
    method Assign(other: List<T>, faults: seq<Fault>) returns (ok: bool)
      requires Valid() && other.Valid()
      requires this == other || (Repr !! other.Repr && allocator == other.allocator)
      modifies Repr, allocator
      ensures Valid() && other.Valid()
      ensures ok <==> this == other || forall i :: 0 <= i < old(other.size) ==> FaultAt(faults, i) == Succeeds
      ensures elems == old(if ok then other.elems else elems)
      ensures other.elems == old(other.elems) && other.nodes == old(other.nodes)
      ensures last == old(last) && allocator == old(allocator)
      ensures !ok || this == other ==> nodes == old(nodes) && Repr == old(Repr) && allocator.live == old(allocator.live)
      ensures ok && this != other ==> fresh(Objects(nodes))
      ensures ok && this != other ==> Repr == old(Repr) - old(Objects(nodes)) + Objects(nodes)
      ensures ok && this != other ==> allocator.live == old(allocator.live) - old(Objects(nodes)) + Objects(nodes)
    {
      if this == other {
        return true;
      }
      var copy := Copy(other, faults);
      if copy == null {
        return false;
      }
      ReplaceBy(copy);
      ok := true;
    }

    /** The rest of operator= once the copy exists (lines 241-259): this
        list takes the copy's ring, and the copy goes out of scope, its
        destructor releasing the nodes this list held before. */
    method ReplaceBy(copy: List<T>)
      requires Valid() && copy.Valid() && Repr !! copy.Repr && allocator == copy.allocator
      modifies Repr, copy.Repr, allocator
      ensures Valid() && nodes == old(copy.nodes) && elems == old(copy.elems)
      ensures last == old(last) && allocator == old(allocator)
      ensures Repr == old(Repr) - old(Objects(nodes)) + Objects(nodes)
      ensures allocator.live == old(allocator.live) - old(Objects(nodes))
    {
      ExchangeWith(copy);
      copy.Destroy();
    }

    /** The middle of operator= (lines 241-252): the two sentinels exchange
        rings, first_ and the cached iterators of both lists are set afresh
        from their sentinels, and the sizes are exchanged. */
    method ExchangeWith(copy: List<T>)
      requires Valid() && copy.Valid() && Repr !! copy.Repr && allocator == copy.allocator
      modifies Repr, copy.Repr
      ensures Valid() && copy.Valid()
      ensures nodes == old(copy.nodes) && elems == old(copy.elems)
      ensures copy.nodes == old(nodes) && copy.elems == old(elems)
      ensures last == old(last) && endIter == old(endIter) && beginIter == old(beginIter)
      ensures copy.last == old(copy.last) && copy.endIter == old(copy.endIter) && copy.beginIter == old(copy.beginIter)
      ensures allocator == old(allocator) && copy.allocator == old(copy.allocator)
    {
      ghost var xs, ys := nodes, copy.nodes;
      ghost var es, fs := elems, copy.elems;
      var sz, csz := size, copy.size;
      DisjointOf(last, xs, copy.last, ys);
      last.Swap(copy.last, xs, ys);
      Adopt(ys, fs, csz);
      copy.Adopt(xs, es, sz);
    }

    /** Lines 242-252 of operator=, for either list once the sentinels have
        exchanged rings: first_ is read off the sentinel, end_iter_ names
        the sentinel and begin_iter_ the link after it, and size_ takes the
        count of the ring now held. */
    method Adopt(ghost ns: seq<Node<T>>, ghost es: seq<T>, sz: nat)
      requires IsRing(last, ns) && Holds(ns, es) && |ns| == sz
      requires endIter != beginIter && allocator !in {this, last, endIter, beginIter} + Objects(ns)
      requires Objects(ns) <= allocator.live
      modifies this`first, this`size, this`nodes, this`elems, this`Repr, endIter, beginIter
      ensures Valid() && nodes == ns && elems == es
      ensures Repr == {this, last, endIter, beginIter} + Objects(ns)
    {
      FirstOf(last, ns);
      first := last.next;
      endIter.node := last;
      beginIter.node := endIter.node;
      beginIter.Increment();
      size := sz;
      nodes, elems := ns, es;
      Repr := {this, last, endIter, beginIter} + Objects(ns);
    }

    /** begin(): a copy of the cached begin iterator. */
    method Begin() returns (it: Iterator<T>)
      requires Valid()
      ensures fresh(it) && it.node == Position(0)
    {
      EndsOf(last, nodes);
      it := new Iterator<T>.At(beginIter.node);
    }

    /** end(): a copy of the cached end iterator, at the sentinel. */
    method End() returns (it: Iterator<T>)
      requires Valid()
      ensures fresh(it) && it.node == Position(|nodes|) && it.node == last
    {
      it := new Iterator<T>.At(endIter.node);
    }

    /** size(). */
    method Size() returns (n: nat)
      requires Valid()
      ensures n == |elems|
    {
      n := size;
    }

    /** begin() == end() exactly when the list is empty. */
    method BeginEqualsEnd() returns (same: bool)
      requires Valid()
      ensures same <==> |elems| == 0
    {
      var b := Begin();
      var e := End();
      same := b.Equals(e);
      PositionInjective(0, |nodes|);
    }

    /** insert(iter, val) (lines 452-474): a node holding v goes in just
        before the link at position k; when allocate or construct throws,
        the node's memory is released and the list is as it was. */
    method Insert(pos: Iterator<T>, v: T, fault: Fault, ghost k: nat) returns (ok: bool)
      requires Valid()
      requires k <= |nodes| && pos.node == Position(k)
      modifies Repr, allocator
      ensures Valid() && fresh(Repr - old(Repr)) && allocator == old(allocator) && last == old(last)
      ensures ok <==> fault == Succeeds
      ensures ok ==> |nodes| == old(|nodes|) + 1 && fresh(nodes[k])
      ensures ok ==> nodes == old(nodes[..k]) + [nodes[k]] + old(nodes[k..])
      ensures ok ==> elems == old(elems[..k]) + [v] + old(elems[k..]) && size == old(size) + 1
      ensures ok ==> first == if k == 0 then nodes[0] else old(first)
      ensures ok ==> allocator.live == old(allocator.live) + {nodes[k]} && Repr == old(Repr) + {nodes[k]}
      ensures !ok ==> Repr == old(Repr) && unchanged(Repr) && allocator.live == old(allocator.live)
    {
      var p := pos.node;
      assert p == (nodes + [last])[k];
      AtPosition(last, nodes, k, p);
      FirstOf(last, nodes);
      assert p == first <==> k == 0;
      var newNode := NewNode(p, v, fault);
      if newNode == null {
        return false;
      }
      var n: Node<T> := newNode;
      LinkBefore(last, nodes, elems, p, n, k);
      ghost var ns := nodes[..k] + [n] + nodes[k..];
      assert ns[0] == if k == 0 then n else nodes[0];
      ObjectsInsert(nodes, k, n);
      AfterInsert(p, n, ns, elems[..k] + [v] + elems[k..]);
      ok := true;
    }

    /** Lines 453-464 of insert: memory for one node is allocated and the node
        constructed between p's prev link and p. When the constructor throws,
        the memory goes back to the allocator; either throw leaves the
        allocator's live set as it was. */
    method NewNode(p: Node<T>, v: T, fault: Fault) returns (n: Node?<T>)
      requires p.prev != null
      modifies allocator
      ensures n == null <==> fault != Succeeds
      ensures n == null ==> allocator.live == old(allocator.live)
      ensures n != null ==> fresh(n) && allocator.live == old(allocator.live) + {n}
      ensures n != null ==> n.prev == p.prev && n.next == p && n.value == v
    {
      n := allocator.Allocate<T>(fault == AllocationFails);
      if n == null {
        return;
      }
      var constructed := n.Construct(p.prev, p, v, fault == ConstructionFails);
      if !constructed {
        allocator.Deallocate(n);
        return null;
      }
    }

    /** Lines 468-473 of insert: first_ moves to the new node when it went in
        before the old first node, begin_iter_ is refreshed from end_iter_,
        and size_ grows; the ghost state takes on the new ring. */
    method AfterInsert(p: Node<T>, newNode: Node<T>, ghost ns: seq<Node<T>>, ghost es: seq<T>)
      requires endIter != beginIter && endIter.node == last && allocator !in Repr + {newNode}
      requires Repr + {newNode} == {this, last, endIter, beginIter} + Objects(ns)
      requires IsRing(last, ns) && Holds(ns, es) && |ns| == size + 1
      requires ns[0] == if p == first then newNode else first
      requires Objects(ns) <= allocator.live
      modifies this`first, this`size, this`nodes, this`elems, this`Repr, beginIter
      ensures Valid()
      ensures first == if p == old(first) then newNode else old(first)
      ensures size == old(size) + 1
      ensures nodes == ns && elems == es && Repr == old(Repr) + {newNode}
    {
      FirstOf(last, ns);
      if p == first {
        first := newNode;
      }
      beginIter.node := endIter.node;
      beginIter.Increment();
      size := size + 1;
      nodes, elems, Repr := ns, es, Repr + {newNode};
    }

    /** Lines 480-487 of erase: first_ moves to the erased node's successor
        when the first node was erased, the node's memory is released,
        begin_iter_ is refreshed, and size_ shrinks; the ghost state takes
        on the new ring. */
    method AfterErase(p: Node<T>, ghost ns: seq<Node<T>>, ghost es: seq<T>)
      requires endIter != beginIter && endIter.node == last && allocator !in Repr && p.next != null
      requires Repr - {p} == {this, last, endIter, beginIter} + Objects(ns)
      requires IsRing(last, ns) && Holds(ns, es) && |ns| + 1 == size
      requires (ns + [last])[0] == if p == first then p.next else first
      requires Objects(ns) <= allocator.live - {p} && p in allocator.live
      modifies this`first, this`size, this`nodes, this`elems, this`Repr, beginIter, allocator
      ensures Valid()
      ensures first == if p == old(first) then p.next else old(first)
      ensures size == old(size) - 1
      ensures nodes == ns && elems == es && Repr == old(Repr) - {p}
      ensures allocator.live == old(allocator.live) - {p}
    {
      FirstOf(last, ns);
      if p == first {
        first := p.next;
      }
      allocator.Deallocate(p);
      beginIter.node := endIter.node;
      beginIter.Increment();
      size := size - 1;
      nodes, elems, Repr := ns, es, Repr - {p};
    }

    /** erase(iter) (lines 477-488): the node at index k is unlinked, its
        neighbours joined, and its memory released. */
    method Erase(pos: Iterator<T>, ghost k: nat)
      requires Valid()
      requires k < |nodes| && pos.node == nodes[k]
      modifies Repr, allocator
      ensures Valid() && allocator == old(allocator) && last == old(last)
      ensures nodes == old(nodes[..k] + nodes[k + 1..]) && elems == old(elems[..k] + elems[k + 1..])
      ensures size == old(size) - 1
      ensures first == if k == 0 then old(Position(1)) else old(first)
      ensures allocator.live == old(allocator.live) - {old(nodes[k])}
      ensures Repr == old(Repr) - {old(nodes[k])}
    {
      var p := pos.node;
      assert p == (nodes + [last])[k];
      AtPosition(last, nodes, k, p);
      FirstOf(last, nodes);
      assert p == first <==> k == 0;
      Unlink(last, nodes, elems, p, k);
      ghost var ns := nodes[..k] + nodes[k + 1..];
      assert (ns + [last])[0] == if k == 0 then (nodes + [last])[1] else nodes[0];
      ObjectsRemove(nodes, k);
      AfterErase(p, ns, elems[..k] + elems[k + 1..]);
    }

    /** push_back(val) (lines 491-493): insert before end(). */
    method PushBack(v: T, fault: Fault) returns (ok: bool)
      requires Valid()
      modifies Repr, allocator
      ensures Valid() && fresh(Repr - old(Repr)) && allocator == old(allocator)
      ensures ok <==> fault == Succeeds
      ensures ok ==> elems == old(elems) + [v] && size == old(size) + 1
      ensures ok ==> nodes == old(nodes) + [nodes[|nodes| - 1]] && fresh(nodes[|nodes| - 1])
      ensures ok ==> allocator.live == old(allocator.live) + {nodes[|nodes| - 1]}
      ensures last == old(last)
      ensures !ok ==> elems == old(elems) && nodes == old(nodes) && allocator.live == old(allocator.live)
    {
      var e := End();
      ok := Insert(e, v, fault, |nodes|);
      assert old(elems[|elems|..]) == [];
    }

    /** push_front(val) (lines 495-498): insert before begin(). */
    method PushFront(v: T, fault: Fault) returns (ok: bool)
      requires Valid()
      modifies Repr, allocator
      ensures Valid() && fresh(Repr - old(Repr)) && allocator == old(allocator)
      ensures ok <==> fault == Succeeds
      ensures ok ==> elems == [v] + old(elems) && size == old(size) + 1
      ensures ok ==> nodes == [nodes[0]] + old(nodes) && fresh(nodes[0])
      ensures ok ==> allocator.live == old(allocator.live) + {nodes[0]}
      ensures ok ==> first == nodes[0]
      ensures last == old(last)
      ensures !ok ==> elems == old(elems) && nodes == old(nodes) && allocator.live == old(allocator.live)
    {
      var b := Begin();
      ok := Insert(b, v, fault, 0);
      if ok {
        assert old(elems[..0]) == [] && old(elems[0..]) == old(elems);
      }
    }

    /** pop_back() (lines 500-503): erase the node before end(). The source
        does not guard the empty list. */
    method PopBack()
      requires Valid() && |elems| > 0
      modifies Repr, allocator
      ensures Valid() && allocator == old(allocator) && last == old(last)
      ensures nodes == old(nodes[..|nodes| - 1]) && elems == old(elems[..|elems| - 1])
      ensures allocator.live == old(allocator.live) - {old(nodes[|nodes| - 1])}
      ensures Repr == old(Repr) - {old(nodes[|nodes| - 1])}
    {
      var e := End();
      PrevOfPosition(|nodes|);
      var it := new Iterator<T>.At(e.node.prev);
      Erase(it, |nodes| - 1);
      assert old(nodes[|nodes|..]) == [] && old(elems[|elems|..]) == [];
    }

    /** pop_front() (lines 505-508): erase begin(). */
    method PopFront()
      requires Valid() && |elems| > 0
      modifies Repr, allocator
      ensures Valid() && allocator == old(allocator) && last == old(last)
      ensures nodes == old(nodes[1..]) && elems == old(elems[1..])
      ensures first == old(Position(1))
      ensures allocator.live == old(allocator.live) - {old(nodes[0])}
      ensures Repr == old(Repr) - {old(nodes[0])}
    {
      var b := Begin();
      Erase(b, 0);
    }

    /** ~List() (lines 382-386): pop_back until size_ is 0, so that every
        node is released exactly once. */
    method Destroy()
      requires Valid()
      modifies Repr, allocator
      ensures Valid() && nodes == [] && elems == [] && size == 0
      ensures allocator == old(allocator) && last == old(last)
      ensures allocator.live == old(allocator.live) - old(Objects(nodes))
      ensures Repr == old(Repr) - old(Objects(nodes))
    {
      while size != 0
        invariant Valid() && allocator == old(allocator) && last == old(last)
        invariant size <= old(size)
        invariant nodes == old(nodes)[..size] && elems == old(elems)[..size]
        invariant allocator.live == old(allocator.live) - Objects(old(nodes)[size..])
        invariant Repr == old(Repr) - Objects(old(nodes)[size..])
        decreases size
      {
        ghost var k := size - 1;
        ObjectsSuffix(old(nodes), k);
        PopBack();
      }
      assert old(nodes)[0..] == old(nodes);
    }

    /** ++ from the link at position k reaches position k + 1, and ++ from
        end() wraps round to begin(). */
    lemma NextOfPosition(k: nat)
      requires Valid() && k <= |nodes|
      ensures Position(k).next == if k < |nodes| then Position(k + 1) else Position(0)
    {
      var r := [last] + nodes + [last];
      EndsOf(last, nodes);
      if k < |nodes| {
        assert Position(k) == r[k + 1] && Position(k + 1) == r[k + 2];
      }
    }

    /** -- from the link at position k reaches position k - 1, and -- from
        begin() reaches the sentinel. */
    lemma PrevOfPosition(k: nat)
      requires Valid() && k <= |nodes|
      ensures Position(k).prev == if k > 0 then Position(k - 1) else last
    {
      var r := [last] + nodes + [last];
      EndsOf(last, nodes);
      if 0 < k {
        assert Position(k) == r[k + 1] && Position(k - 1) == r[k];
      }
    }

    /** Distinct positions name distinct links: iterators compare equal
        exactly when they stand at the same position. */
    lemma PositionInjective(i: nat, j: nat)
      requires Valid() && i <= |nodes| && j <= |nodes|
      ensures Position(i) == Position(j) <==> i == j
    {
      if i != j {
        RingPositions(last, nodes, [last] + nodes + [last]);
        assert Position(i) == ([last] + nodes + [last])[i + 1];
        assert Position(j) == ([last] + nodes + [last])[j + 1];
      }
    }

    /** operator== and operator!= (lines 305-312) on iterators standing at
        positions i and j: equal exactly when the positions are, unequal
        exactly when they differ. */
    lemma IteratorsCompare(a: Iterator<T>, b: Iterator<T>, i: nat, j: nat)
      requires Valid() && i <= |nodes| && j <= |nodes|
      requires a.node == Position(i) && b.node == Position(j)
      ensures a.Equals(b) <==> i == j
      ensures a.NotEquals(b) <==> i != j
    {
      PositionInjective(i, j);
    }

    /** operator* (lines 336-338) on an iterator at a real position k reads
        the k-th element of the list. */
    lemma ValueAtPosition(it: Iterator<T>, k: nat)
      requires Valid() && k < |nodes| && it.node == Position(k)
      ensures it.Value() == elems[k]
    {
    }

    /** Stepping ++ from begin() k times reaches position k: end() after
        exactly size() steps and not before. */
    lemma {:induction false} AdvanceFromBegin(k: nat)
      requires Valid() && k <= |nodes|
      ensures Advance(first, k) == Position(k)
      ensures Advance(first, k) == last <==> k == |nodes|
    {
      if k == 0 {
        EndsOf(last, nodes);
      } else {
        AdvanceFromBegin(k - 1);
        NextOfPosition(k - 1);
      }
      PositionInjective(k, |nodes|);
    }

    /** Stepping -- from end() k times reaches position size() - k: begin()
        after exactly size() steps. */
    lemma {:induction false} RetreatFromEnd(k: nat)
      requires Valid() && k <= |nodes|
      ensures Retreat(last, k) == Position(|nodes| - k)
      ensures Retreat(last, k) == first <==> k == |nodes|
    {
      if k > 0 {
        RetreatFromEnd(k - 1);
        PrevOfPosition(|nodes| - (k - 1));
      }
      EndsOf(last, nodes);
      PositionInjective(|nodes| - k, 0);
    }
  }
}
