/** List::Iterator: a cursor that names one link of a ring and owns nothing.
    The mutable and constant variants behave alike at run time, so one class
    models both. */
module Iterators {
  import opened Nodes

  class Iterator<T(0)> {
    var node: Node?<T>

    /** Iterator(): a cursor that names no link. */
    constructor Null()
      ensures node == null
    {
      node := null;
    }

    /** Iterator(BaseNode*). */
    constructor At(n: Node<T>)
      ensures node == n
    {
      node := n;
    }

    /** operator==: two cursors are equal when they name the same link,
        whatever the values. */
    predicate Equals(other: Iterator<T>)
      reads this, other
    {
      node == other.node
    }

    /** operator!=. */
    predicate NotEquals(other: Iterator<T>)
      reads this, other
    {
      node != other.node
    }

    /** Prefix operator++: step along next. */
    method Increment()
      requires node != null
      modifies this
      ensures node == old(node.next)
    {
      node := node.next;
    }

    /** Prefix operator--: step along prev. */
    method Decrement()
      requires node != null
      modifies this
      ensures node == old(node.prev)
    {
      node := node.prev;
    }

    /** Postfix operator++: step along next and hand back the former position. */
    method PostIncrement() returns (before: Iterator<T>)
      requires node != null
      modifies this
      ensures fresh(before) && before.node == old(node)
      ensures node == old(node.next)
    {
      before := new Iterator<T>.At(node);
      node := node.next;
    }

    /** Postfix operator--: step along prev and hand back the former position. */
    method PostDecrement() returns (before: Iterator<T>)
      requires node != null
      modifies this
      ensures fresh(before) && before.node == old(node)
      ensures node == old(node.prev)
    {
      before := new Iterator<T>.At(node);
      node := node.prev;
    }

    /** operator*: the value stored in the named node. */
    function Value(): (v: T)
      requires node != null
      reads this, node
    {
      node.value
    }
  }
}
