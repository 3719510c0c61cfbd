/** CPtrList: a doubly linked list of pointers. */
module PtrList {
  import opened Sequences

  class Element {
    var prev: Element?
    var next: Element?
    var ptr: nat

    constructor (ptr: nat)
      ensures this.ptr == ptr && prev == null && next == null
    {
      this.ptr := ptr;
      prev := null;
      next := null;
    }
  }

  /** The element at an index, or null outside of the list. */
  ghost function NodeAt(nodes: seq<Element>, i: int): Element? {
    if 0 <= i < |nodes| then nodes[i] else null
  }

  /** Every element points to its neighbours. */
  ghost predicate Linked(nodes: seq<Element>)
    reads nodes
  {
    && (forall i {:trigger nodes[i].prev} | 0 <= i < |nodes| :: nodes[i].prev == NodeAt(nodes, i - 1))
    && (forall i {:trigger nodes[i].next} | 0 <= i < |nodes| :: nodes[i].next == NodeAt(nodes, i + 1))
  }

  /** The element at index `i` is at no other index. */
  ghost predicate OnlyAt(s: seq<Element>, i: int) {
    forall k | 0 <= k < |s| && k != i :: s[k] != NodeAt(s, i)
  }

  lemma DistinctOnlyAt(s: seq<Element>, i: int)
    requires Distinct(s)
    ensures OnlyAt(s, i)
  {
  }

  lemma DistinctInsert(s: seq<Element>, i: nat, x: Element)
    requires Distinct(s) && i <= |s| && x !in s
    ensures Distinct(InsertAt(s, i, x))
  {
  }

  lemma DistinctRemove(s: seq<Element>, i: nat)
    requires Distinct(s) && i < |s|
    ensures Distinct(RemoveAt(s, i))
  {
  }

  /** The links of `s` when `x` has been hooked in at index `i`. */
  ghost predicate HookedIn(s: seq<Element>, i: nat, x: Element)
    reads s, x
  {
    && (forall k {:trigger s[k].next} | 0 <= k < |s| :: s[k].next == if k == i - 1 then x else NodeAt(s, k + 1))
    && (forall k {:trigger s[k].prev} | 0 <= k < |s| :: s[k].prev == if k == i then x else NodeAt(s, k - 1))
    && x.prev == NodeAt(s, i - 1) && x.next == NodeAt(s, i)
  }

  lemma LinkedInsert(s: seq<Element>, i: nat, x: Element, r: seq<Element>)
    requires i <= |s| && HookedIn(s, i, x) && r == InsertAt(s, i, x)
    ensures Linked(r) && NodeAt(r, 0) == if i == 0 then x else NodeAt(s, 0)
  {
  }

  ghost predicate Holds(s: seq<Element>, c: seq<nat>)
    reads s
  {
    |s| == |c| && forall k {:trigger s[k].ptr} | 0 <= k < |s| :: s[k].ptr == c[k]
  }

  lemma HoldsInsert(s: seq<Element>, c: seq<nat>, i: nat, x: Element)
    requires i <= |s| && Holds(s, c)
    ensures Holds(InsertAt(s, i, x), InsertAt(c, i, x.ptr))
  {
  }

  lemma HoldsRemove(s: seq<Element>, c: seq<nat>, i: nat)
    requires i < |s| && Holds(s, c)
    ensures Holds(RemoveAt(s, i), RemoveAt(c, i))
  {
  }

  /** The links of `s` when the element at index `i` has been taken out. */
  ghost predicate TakenOut(s: seq<Element>, i: nat)
    reads s
  {
    && (forall k {:trigger s[k].next} | 0 <= k < |s| && k != i ::
      s[k].next == NodeAt(s, if k == i - 1 then k + 2 else k + 1))
    && (forall k {:trigger s[k].prev} | 0 <= k < |s| && k != i ::
      s[k].prev == NodeAt(s, if k == i + 1 then k - 2 else k - 1))
  }

  lemma LinkedRemove(s: seq<Element>, i: nat, r: seq<Element>)
    requires i < |s| && TakenOut(s, i) && r == RemoveAt(s, i)
    ensures Linked(r) && NodeAt(r, 0) == NodeAt(s, if i == 0 then 1 else 0)
  {
  }

  class PtrList {
    var first: Element?
    ghost var nodes: seq<Element>
    ghost var contents: seq<nat>   // the pointers in the list, in order
    ghost var repr: set<Element>   // every element that was ever in the list

    ghost predicate Valid()
      reads this, nodes, repr
    {
      (forall k | 0 <= k < |nodes| :: nodes[k] in repr) && Distinct(nodes) && first == NodeAt(nodes, 0)
        && Linked(nodes) && Holds(nodes, contents)
    }

    constructor ()
      ensures Valid() && nodes == [] && contents == [] && repr == {}
    {
      first := null;
      nodes := [];
      contents := [];
      repr := {};
    }

    method GetFirst() returns (e: Element?)
      requires Valid()
      ensures e == NodeAt(nodes, 0)
    {
      return first;
    }

    method GetNext(e: Element, ghost i: nat) returns (n: Element?)
      requires Valid() && i < |nodes| && nodes[i] == e
      ensures n == NodeAt(nodes, i + 1)
    {
      return e.next;
    }

    method GetPtr(e: Element, ghost i: nat) returns (p: nat)
      requires Valid() && i < |nodes| && nodes[i] == e
      ensures p == contents[i]
    {
      return e.ptr;
    }

    /** The pointer assignments of InsertBefore. */
    method HookBefore(after: Element, element: Element, ghost i: nat)
      requires first == NodeAt(nodes, 0) && Linked(nodes)
      requires i < |nodes| && nodes[i] == after && element !in nodes
      requires OnlyAt(nodes, 0) && OnlyAt(nodes, i) && OnlyAt(nodes, i - 1)
      modifies this`first, nodes`prev, nodes`next, element`prev, element`next
      ensures HookedIn(nodes, i, element)
      ensures first == if i == 0 then element else NodeAt(nodes, 0)
    {
      if after == first {
        element.prev := null;
        element.next := after;
        first.prev := element;
        first := element;
      } else {
        element.prev := after.prev;
        element.next := after;
        if after.prev != null {
          after.prev.next := element;
        }
        after.prev := element;
      }
    }

    /** The pointer assignments of InsertAfter. */
    method HookAfter(before: Element?, element: Element, ghost i: nat)
      requires first == NodeAt(nodes, 0) && Linked(nodes)
      requires element !in nodes
      requires if before == null then nodes == [] && i == 0 else 0 < i <= |nodes| && nodes[i - 1] == before
      requires OnlyAt(nodes, i) && OnlyAt(nodes, i - 1)
      modifies this`first, nodes`prev, nodes`next, element`prev, element`next
      ensures HookedIn(nodes, i, element)
      ensures first == if i == 0 then element else NodeAt(nodes, 0)
    {
      if before == null {
        element.prev := null;
        element.next := null;
        first := element;
      } else {
        element.prev := before;
        element.next := before.next;
        if before.next != null {
          before.next.prev := element;
        }
        before.next := element;
      }
    }

    /** The pointer assignments of Remove. */
    method Unhook(e: Element, ghost i: nat)
      requires first == NodeAt(nodes, 0) && Linked(nodes)
      requires i < |nodes| && nodes[i] == e
      requires OnlyAt(nodes, 0) && OnlyAt(nodes, i - 1) && OnlyAt(nodes, i + 1)
      modifies this`first, nodes`prev, nodes`next
      ensures TakenOut(nodes, i)
      ensures first == NodeAt(nodes, if i == 0 then 1 else 0)
    {
      if e == first {
        first := e.next;
        if e.next != null {
          e.next.prev := null;
        }
      } else {
        e.prev.next := e.next;
        if e.next != null {
          e.next.prev := e.prev;
        }
      }
    }

    method InsertBefore(after: Element, ptr: nat, ghost i: nat)
      requires Valid() && i < |nodes| && nodes[i] == after
      modifies this, repr
      ensures Valid()
      ensures |nodes| == |old(nodes)| + 1 && fresh(repr - old(repr)) && nodes == InsertAt(old(nodes), i, nodes[i])
      ensures contents == InsertAt(old(contents), i, ptr)
    {
      var element := new Element(ptr);
      DistinctOnlyAt(nodes, 0);
      DistinctOnlyAt(nodes, i);
      DistinctOnlyAt(nodes, i - 1);
      HookBefore(after, element, i);
      Inserted(element, i);
    }

    method InsertAfter(before: Element?, ptr: nat, ghost i: nat)
      requires Valid()
      requires if before == null then nodes == [] && i == 0 else 0 < i <= |nodes| && nodes[i - 1] == before
      modifies this, repr
      ensures Valid()
      ensures |nodes| == |old(nodes)| + 1 && fresh(repr - old(repr)) && nodes == InsertAt(old(nodes), i, nodes[i])
      ensures contents == InsertAt(old(contents), i, ptr)
    {
      var element := new Element(ptr);
      DistinctOnlyAt(nodes, i);
      DistinctOnlyAt(nodes, i - 1);
      HookAfter(before, element, i);
      Inserted(element, i);
    }

    method Remove(e: Element, ghost i: nat)
      requires Valid() && i < |nodes| && nodes[i] == e
      modifies this, repr
      ensures Valid()
      ensures repr == old(repr) && nodes == RemoveAt(old(nodes), i)
      ensures contents == RemoveAt(old(contents), i)
    {
      DistinctOnlyAt(nodes, 0);
      DistinctOnlyAt(nodes, i - 1);
      DistinctOnlyAt(nodes, i + 1);
      Unhook(e, i);
      Removed(i);
    }

    ghost method Inserted(element: Element, i: nat)
      requires i <= |nodes| && element !in nodes && Distinct(nodes)
      requires forall k | 0 <= k < |nodes| :: nodes[k] in repr
      requires HookedIn(nodes, i, element) && Holds(nodes, contents)
      requires first == if i == 0 then element else NodeAt(nodes, 0)
      modifies this`nodes, this`contents, this`repr
      ensures Valid() && repr == old(repr) + {element}
      ensures nodes == InsertAt(old(nodes), i, element) && contents == InsertAt(old(contents), i, element.ptr)
    {
      DistinctInsert(nodes, i, element);
      LinkedInsert(nodes, i, element, InsertAt(nodes, i, element));
      HoldsInsert(nodes, contents, i, element);
      nodes := InsertAt(nodes, i, element);
      contents := InsertAt(contents, i, element.ptr);
      repr := repr + {element};
    }

    ghost method Removed(i: nat)
      requires i < |nodes| && Distinct(nodes)
      requires forall k | 0 <= k < |nodes| :: nodes[k] in repr
      requires TakenOut(nodes, i) && Holds(nodes, contents)
      requires first == NodeAt(nodes, if i == 0 then 1 else 0)
      modifies this`nodes, this`contents
      ensures Valid()
      ensures nodes == RemoveAt(old(nodes), i) && contents == RemoveAt(old(contents), i)
    {
      DistinctRemove(nodes, i);
      LinkedRemove(nodes, i, RemoveAt(nodes, i));
      HoldsRemove(nodes, contents, i);
      nodes := RemoveAt(nodes, i);
      contents := RemoveAt(contents, i);
    }

    /** The first element with this pointer. */
    method Find(ptr: nat) returns (e: Element?, ghost i: nat)
      requires Valid()
      ensures i <= |nodes| && e == NodeAt(nodes, i)
      ensures forall j | 0 <= j < i :: contents[j] != ptr
      ensures i < |nodes| ==> contents[i] == ptr
      ensures e == null <==> ptr !in contents
      ensures e != null ==> e.ptr == ptr
    {
      e := first;
      i := 0;
      while e != null
        invariant i <= |nodes| && e == NodeAt(nodes, i)
        invariant forall j | 0 <= j < i :: contents[j] != ptr
        decreases |nodes| - i
      {
        if e.ptr == ptr {
          return;
        }
        e := e.next;
        i := i + 1;
      }
    }
  }
}
