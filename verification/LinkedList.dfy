/** container/list: a doubly linked list of elements. The caller says which elements it
    holds, as a ghost sequence from front to back. */
module LinkedList {
  import opened Seqs
  import opened LruModel

  /** A list element and the item it carries. */
  class Element {
    var item: Item
    var prev: Element?
    var next: Element?

    constructor (item: Item)
      ensures this.item == item
    {
      this.item := item;
      prev, next := null, null;
    }
  }

  ghost function Nth(chain: seq<Element>, i: int): Element? {
    if 0 <= i < |chain| then chain[i] else null
  }

  lemma Distinct(chain: seq<Element>, i: int)
    requires NoDup(chain)
    ensures forall k :: 0 <= k < |chain| && k != i ==> chain[k] != Nth(chain, i)
  {
  }

  class List {
    var front: Element?
    var back: Element?

    constructor ()
      ensures Linked([])
    {
      front, back := null, null;
    }

    /** Following next from the front lists `chain`. */
    ghost predicate Forward(chain: seq<Element>)
      reads this`front, chain`next
    {
      && front == Nth(chain, 0)
      && forall i {:trigger chain[i].next} :: 0 <= i < |chain| ==> chain[i].next == Nth(chain, i + 1)
    }

    /** Following prev from the back lists `chain` in reverse. */
    ghost predicate Backward(chain: seq<Element>)
      reads this`back, chain`prev
    {
      && back == Nth(chain, |chain| - 1)
      && forall i {:trigger chain[i].prev} :: 0 <= i < |chain| ==> chain[i].prev == Nth(chain, i - 1)
    }

    ghost predicate Linked(chain: seq<Element>)
      reads this`front, this`back, chain`next, chain`prev
    {
      NoDup(chain) && Forward(chain) && Backward(chain)
    }

    method SkipForward(p: Element?, n: Element?, ghost chain: seq<Element>, ghost i: nat)
      requires NoDup(chain) && Forward(chain) && i < |chain|
      requires p == Nth(chain, i - 1) && n == Nth(chain, i + 1)
      modifies this`front, chain`next
      ensures Forward(Cut(chain, i))
    {
      hide NoDup;
      Distinct(chain, i - 1);
      if p == null { front := n; } else { p.next := n; }
      ghost var rest := Cut(chain, i);
      forall j | 0 <= j < |rest|
        ensures rest[j].next == Nth(rest, j + 1)
      {
        assert rest[j] == chain[if j < i then j else j + 1];
      }
    }

    method SkipBackward(p: Element?, n: Element?, ghost chain: seq<Element>, ghost i: nat)
      requires NoDup(chain) && Backward(chain) && i < |chain|
      requires p == Nth(chain, i - 1) && n == Nth(chain, i + 1)
      modifies this`back, chain`prev
      ensures Backward(Cut(chain, i))
    {
      hide NoDup;
      Distinct(chain, i + 1);
      if n == null { back := p; } else { n.prev := p; }
      ghost var rest := Cut(chain, i);
      forall j | 0 <= j < |rest|
        ensures rest[j].prev == Nth(rest, j - 1)
      {
        assert rest[j] == chain[if j < i then j else j + 1];
      }
    }

    /** Unlinks e, which sits at position i. */
    method Unlink(e: Element, ghost chain: seq<Element>, ghost i: nat)
      requires Linked(chain) && i < |chain| && chain[i] == e
      modifies this`front, this`back, chain`prev, chain`next
      ensures Linked(Cut(chain, i))
    {
      var p, n := e.prev, e.next;
      SkipForward(p, n, chain, i);
      SkipBackward(p, n, chain, i);
    }

    method PushFront(e: Element, ghost chain: seq<Element>)
      requires Linked(chain) && e !in chain
      modifies this`front, this`back, e`prev, e`next, chain`prev
      ensures Linked([e] + chain)
    {
      e.prev, e.next := null, front;
      if front == null { back := e; } else { front.prev := e; }
      front := e;
    }

    method MoveToFront(e: Element, ghost chain: seq<Element>, ghost i: nat)
      requires Linked(chain) && i < |chain| && chain[i] == e
      modifies this`front, this`back, chain`prev, chain`next
      ensures Linked([e] + Cut(chain, i))
    {
      if front == e {
        assert i == 0;
        assert [e] + Cut(chain, i) == chain;
        return;
      }
      Unlink(e, chain, i);
      PushFront(e, Cut(chain, i));
    }
  }
}
