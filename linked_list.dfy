/** A singly linked list of integers that keeps a reference to its first node (`head`) and to its
    last node (`tail`).  The ghost sequence `spine` lists the nodes from head to tail and
    `Contents` the values they hold; every method states its effect on both. */
module LinkedLists {
  import opened Text
  import opened LinkedListSpec

  /** `LinkedListNode`: a value and the link to the following node (null for the last node). */
  class Node {
    var value: int
    var next: Node?

    constructor (value: int)
      ensures this.value == value && next == null
    {
      this.value := value;
      next := null;
    }
  }

  class LinkedList {
    var head: Node?
    var tail: Node?
    ghost var spine: seq<Node>
    ghost var Contents: seq<int>

    /** The chain from `head` follows `spine` link by link, ends in `tail` whose link is null,
        visits no node twice, and holds `Contents`. */
    ghost predicate Valid()
      reads this, spine
    {
      && |Contents| == |spine|
      && (forall i :: 0 <= i < |spine| ==> spine[i].value == Contents[i])
      && (forall i :: 0 <= i < |spine| - 1 ==> spine[i].next == spine[i + 1])
      && Distinct(spine)
      && (spine == [] ==> head == null && tail == null)
      && (spine != [] ==> head == spine[0] && tail == spine[|spine| - 1] && tail.next == null)
    }

    constructor ()
      ensures Valid()
      ensures Contents == [] && head == null && tail == null
    {
      head := null;
      tail := null;
      spine := [];
      Contents := [];
    }

    /** Adds `v` in front; on an empty list the new node is also the tail. */
    method InsertHead(v: int)
      requires Valid()
      modifies this
      ensures Valid()
      ensures Contents == [v] + old(Contents)
      ensures fresh(head) && spine == [head] + old(spine)
      ensures old(head) == null ==> tail == head
      ensures old(head) != null ==> tail == old(tail)
    {
      var node := new Node(v);
      if head == null {
        head := node;
        tail := node;
      } else {
        node.next := head;
        head := node;
      }
      spine := [node] + spine;
      Contents := [v] + Contents;
    }

    /** Adds `v` at the end; the new node becomes the tail (and the head of an empty list). */
    method InsertTail(v: int)
      requires Valid()
      modifies this, spine
      ensures Valid()
      ensures Contents == old(Contents) + [v]
      ensures fresh(tail) && spine == old(spine) + [tail]
      ensures old(tail) == null ==> head == tail
      ensures old(tail) != null ==> head == old(head)
    {
      var node := new Node(v);
      if tail == null {
        head := node;
        tail := node;
      } else {
        tail.next := node;
        tail := node;
      }
      spine := spine + [node];
      Contents := Contents + [v];
    }

    /** Drops the last node; nothing happens on an empty list, and the predecessor of the old
        tail becomes the tail. */
    method RemoveTail()
      requires Valid()
      modifies this, spine
      ensures Valid()
      ensures old(Contents) == [] ==> Contents == [] && spine == []
      ensures old(Contents) != [] ==> Contents == old(Contents)[..|old(Contents)| - 1]
      ensures old(spine) != [] ==> spine == old(spine)[..|old(spine)| - 1]
      ensures |old(spine)| >= 2 ==> tail == old(spine)[|old(spine)| - 2]
    {
      if head == null {
        return;
      }
      if head == tail {
        assert |spine| == 1;
        head := null;
        tail := null;
        spine := [];
        Contents := [];
        return;
      }
      var current := head;
      ghost var k := 0;
      while current.next != tail
        invariant 0 <= k < |spine| - 1
        invariant current == spine[k]
        decreases |spine| - k
      {
        current := current.next;
        k := k + 1;
      }
      assert spine[k + 1] == tail;
      assert k + 1 == |spine| - 1;
      current.next := null;
      tail := current;
      spine := spine[..k + 1];
      Contents := Contents[..k + 1];
    }

    /** Unlinks the first node holding `v`; when that node was the tail its predecessor becomes
        the tail; an absent `v` leaves the list as it was. */
    method Remove(v: int)
      requires Valid()
      modifies this, spine
      ensures Valid()
      ensures Contents == RemoveFirst(old(Contents), v)
      ensures spine == DropAt(old(spine), FirstIndex(old(Contents), v))
      ensures v !in old(Contents) ==> head == old(head) && tail == old(tail)
      ensures |old(spine)| >= 2 && FirstIndex(old(Contents), v) == |old(spine)| - 1 ==>
                tail == old(spine)[|old(spine)| - 2]
    {
      RemoveFirstIsDropAt(Contents, v);
      if head == null {
        return;
      }
      assert head.value == Contents[0];
      if head.value == v {
        FirstIndexAt(Contents, v, 0);
        assert DropAt(spine, 0) == spine[1..] && DropAt(Contents, 0) == Contents[1..];
        DropHead();
        return;
      }
      var current: Node;
      ghost var k: nat;
      current, k := FindPredecessor(v);
      if current.next != null {
        FirstIndexAt(Contents, v, k + 1);
        UnlinkAfter(current, k);
      } else {
        assert v !in Contents;
      }
    }

    /** The search of `Remove`: walks from the head to the node just before the first node holding
        `v`, or to the tail when no node after the head holds it. */
    method FindPredecessor(v: int) returns (current: Node, ghost k: nat)
      requires Valid() && head != null && head.value != v
      ensures k < |spine| && current == spine[k]
      ensures current.next == if k + 1 < |spine| then spine[k + 1] else null
      ensures forall j :: 0 <= j <= k ==> Contents[j] != v
      ensures k + 1 < |spine| ==> Contents[k + 1] == v
    {
      current := head;
      k := 0;
      while current.next != null && current.next.value != v
        invariant 0 <= k < |spine|
        invariant current == spine[k]
        invariant current.next == if k + 1 < |spine| then spine[k + 1] else null
        invariant forall j :: 0 <= j <= k ==> Contents[j] != v
        decreases |spine| - k
      {
        assert spine[k + 1].value == Contents[k + 1];
        current := current.next;
        k := k + 1;
      }
      if current.next != null {
        assert spine[k + 1].value == Contents[k + 1];
      }
    }

    /** The unlinking step of `Remove`: the node after `current` (at index `k`) leaves the chain,
        and `current` becomes the tail if that node was the tail. */
    method UnlinkAfter(current: Node, ghost k: nat)
      requires Valid() && k + 1 < |spine| && current == spine[k]
      modifies this, spine
      ensures Valid()
      ensures spine == DropAt(old(spine), k + 1) && Contents == DropAt(old(Contents), k + 1)
      ensures head == old(head)
      ensures k + 2 == |old(spine)| ==> tail == current
      ensures k + 2 < |old(spine)| ==> tail == old(tail)
    {
      ghost var S, C := spine, Contents;
      var target := current.next;
      assert target == S[k + 1];
      if target == tail {
        tail := current;
      }
      current.next := target.next;
      spine := S[..k + 1] + S[k + 2..];
      Contents := C[..k + 1] + C[k + 2..];
      DistinctDropAt(S, k + 1);
      forall i | 0 <= i < |spine|
        ensures spine[i] == (if i <= k then S[i] else S[i + 1])
        ensures spine[i].value == Contents[i]
      {
      }
      forall i | 0 <= i < |spine| - 1
        ensures spine[i].next == spine[i + 1]
      {
        if i < k {
          assert S[i] != current;
        } else if i > k {
          assert S[i + 1] != current;
        }
      }
    }

    /** The head step of `Remove`: the first node leaves the chain. */
    method DropHead()
      requires Valid() && head != null
      modifies this
      ensures Valid()
      ensures spine == old(spine)[1..] && Contents == old(Contents)[1..]
      ensures old(spine) != [] && |old(spine)| > 1 ==> tail == old(tail)
    {
      head := head.next;
      if head == null {
        tail := null;
      }
      spine := spine[1..];
      Contents := Contents[1..];
    }

    /** Links a new node holding `y` right after the first node holding `x`; the new node becomes
        the tail when `x` was at the tail; an absent `x` leaves the list as it was. */
    method InsertAfter(x: int, y: int)
      requires Valid()
      modifies this, spine
      ensures Valid()
      ensures Contents == InsertAfterFirst(old(Contents), x, y)
      ensures x !in old(Contents) ==> spine == old(spine) && head == old(head) && tail == old(tail)
      ensures x in old(Contents) ==>
                var i := FirstIndex(old(Contents), x);
                i + 1 < |spine| && fresh(spine[i + 1]) && spine == InsertAt(old(spine), i + 1, spine[i + 1])
      ensures FirstIndex(old(Contents), x) == |old(Contents)| - 1 ==> fresh(tail)
    {
      var current: Node?;
      ghost var k: nat;
      current, k := FindFirst(x);
      InsertAfterFirstIsInsertAt(Contents, x, y);
      if current != null {
        FirstIndexAt(Contents, x, k);
        LinkAfter(current, k, y);
      }
    }

    /** The search of `InsertAfter`: walks from the head to the first node holding `x`, or off
        the end when there is none. */
    method FindFirst(x: int) returns (current: Node?, ghost k: nat)
      requires Valid()
      ensures k <= |spine| && current == if k < |spine| then spine[k] else null
      ensures forall j :: 0 <= j < k ==> Contents[j] != x
      ensures k < |spine| ==> Contents[k] == x
    {
      current := head;
      k := 0;
      while current != null && current.value != x
        invariant 0 <= k <= |spine|
        invariant current == if k < |spine| then spine[k] else null
        invariant forall j :: 0 <= j < k ==> Contents[j] != x
        decreases |spine| - k
      {
        assert spine[k].value == Contents[k];
        current := current.next;
        k := k + 1;
      }
      if current != null {
        assert spine[k].value == Contents[k];
      }
    }

    /** The linking step of `InsertAfter`: a new node holding `y` goes right after `current`
        (at index `k`), and becomes the tail if `current` was the tail. */
    method LinkAfter(current: Node, ghost k: nat, y: int)
      requires Valid() && k < |spine| && current == spine[k]
      modifies this, spine
      ensures Valid()
      ensures k + 1 < |spine| && fresh(spine[k + 1])
      ensures spine == InsertAt(old(spine), k + 1, spine[k + 1])
      ensures Contents == InsertAt(old(Contents), k + 1, y)
      ensures head == old(head)
      ensures k + 1 == |old(spine)| ==> tail == spine[k + 1]
      ensures k + 1 < |old(spine)| ==> tail == old(tail)
    {
      ghost var S, C := spine, Contents;
      var node := new Node(y);
      node.next := current.next;
      current.next := node;
      if current == tail {
        tail := node;
      }
      spine := InsertAt(S, k + 1, node);
      Contents := InsertAt(C, k + 1, y);
      DistinctInsertAt(S, k + 1, node);
      forall i | 0 <= i < |spine|
        ensures spine[i] == (if i <= k then S[i] else if i == k + 1 then node else S[i - 1])
        ensures spine[i].value == Contents[i]
      {
      }
      forall i | 0 <= i < |spine| - 1
        ensures spine[i].next == spine[i + 1]
      {
        if i < k {
          assert S[i] != current;
        } else if i > k + 1 {
          assert S[i - 1] != current;
        }
      }
    }

    /** Overwrites the value of every node holding `a` with `b`; no node and no link changes. */
    method Replace(a: int, b: int)
      requires Valid()
      modifies this, spine
      ensures Valid()
      ensures Contents == ReplaceAll(old(Contents), a, b)
      ensures spine == old(spine) && head == old(head) && tail == old(tail)
      ensures forall i :: 0 <= i < |spine| ==> spine[i].next == old(spine[i].next)
    {
      var current := head;
      ghost var k := 0;
      while current != null
        modifies spine
        invariant 0 <= k <= |spine|
        invariant current == if k < |spine| then spine[k] else null
        invariant forall i, j :: 0 <= i < j < |spine| ==> spine[i] != spine[j]
        invariant forall j :: 0 <= j < |spine| ==> spine[j].next == old(spine[j].next)
        invariant forall j :: 0 <= j < k ==> spine[j].value == if Contents[j] == a then b else Contents[j]
        invariant forall j :: k <= j < |spine| ==> spine[j].value == Contents[j]
        decreases |spine| - k
      {
        if current.value == a {
          current.value := b;
        }
        current := current.next;
        k := k + 1;
      }
      ReplaceAllAt(Contents, a, b);
      Contents := ReplaceAll(Contents, a, b);
    }

    /** `GetEnumerator`: the values from head to tail. */
    method Values() returns (r: seq<int>)
      requires Valid()
      ensures r == Contents
    {
      r := [];
      var current := head;
      ghost var k := 0;
      while current != null
        invariant 0 <= k <= |spine|
        invariant current == if k < |spine| then spine[k] else null
        invariant r == Contents[..k]
        decreases |spine| - k
      {
        r := r + [current.value];
        current := current.next;
        k := k + 1;
      }
    }

    /** `Reverse`: pushes every value onto a stack, then pops them all; the list is not touched. */
    method Reverse() returns (r: seq<int>)
      requires Valid()
      ensures r == Reversed(Contents)
    {
      var stack: seq<int> := [];
      var current := head;
      ghost var k := 0;
      while current != null
        invariant 0 <= k <= |spine|
        invariant current == if k < |spine| then spine[k] else null
        invariant stack == Contents[..k]
        decreases |spine| - k
      {
        stack := stack + [current.value];
        current := current.next;
        k := k + 1;
      }
      assert stack == Contents;
      r := [];
      while |stack| > 0
        invariant Reversed(Contents) == r + Reversed(stack)
        decreases |stack|
      {
        var top := stack[|stack| - 1];
        assert stack == stack[..|stack| - 1] + [top];
        ReversedSnoc(stack[..|stack| - 1], top);
        r := r + [top];
        stack := stack[..|stack| - 1];
      }
    }

    /** `ToString`: "<LinkedList>{" and the values from head to tail separated by ", ", then "}". */
    method ToString() returns (s: string)
      requires Valid()
      ensures s == Format("<LinkedList>{", Contents)
    {
      s := "<LinkedList>{";
      ghost var body, trail := "", "";
      var current := head;
      ghost var k := 0;
      while current != null
        invariant 0 <= k <= |spine|
        invariant current == if k < |spine| then spine[k] else null
        invariant body == Join(IntStrings(Contents[..k]), ", ")
        invariant trail == if 0 < k < |spine| then ", " else ""
        invariant s == "<LinkedList>{" + body + trail
        decreases |spine| - k
      {
        JoinIntStringsStep(Contents, k);
        var text := IntToString(current.value);
        ghost var trail' := if current.next != null then ", " else "";
        AppendRegrouped("<LinkedList>{", body, trail, text, trail');
        s := s + text;
        if current.next != null {
          s := s + ", ";
        }
        body, trail := body + trail + text, trail';
        current := current.next;
        k := k + 1;
      }
      assert Contents[..k] == Contents;
      s := s + "}";
    }
  }

  lemma AppendRegrouped(prefix: string, body: string, trail: string, text: string, trail': string)
    ensures prefix + body + trail + text + trail' == prefix + (body + trail + text) + trail'
  {
  }

  lemma AppendAssociates(a: string, b: string, c: string)
    ensures a + b + c == a + (b + c)
  {
  }

  /** `HeadAndTailAreNull`. */
  predicate HeadAndTailAreNull(l: LinkedList)
    reads l
  {
    l.head == null && l.tail == null
  }

  /** `HeadAndTailAreNotNull`. */
  predicate HeadAndTailAreNotNull(l: LinkedList)
    reads l
  {
    l.head != null && l.tail != null
  }

  /** In a valid list head and tail are null together, exactly when the list is empty. */
  lemma HeadAndTailNullExactlyWhenEmpty(l: LinkedList)
    requires l.Valid()
    ensures HeadAndTailAreNull(l) <==> l.Contents == []
    ensures HeadAndTailAreNotNull(l) <==> l.Contents != []
    ensures (l.head == null) == (l.tail == null)
  {
  }

  /** `AsString` over any enumeration of values: "<IEnumerable>{" and the values separated
      by ", ", then "}". */
  method AsString(items: seq<int>) returns (s: string)
    ensures s == Format("<IEnumerable>{", items)
  {
    s := "<IEnumerable>{";
    ghost var body := "";
    var first := true;
    for i := 0 to |items|
      invariant first <==> i == 0
      invariant body == Join(IntStrings(items[..i]), ", ")
      invariant s == "<IEnumerable>{" + body
    {
      if !first {
        JoinIntStringsNext(items, i);
        AppendAssociates("<IEnumerable>{", body, ", ");
        s := s + ", ";
        body := body + ", ";
      } else {
        JoinIntStringsFirst(items);
      }
      var text := IntToString(items[i]);
      AppendAssociates("<IEnumerable>{", body, text);
      s := s + text;
      body := body + text;
      first := false;
    }
    assert items[..|items|] == items;
    s := s + "}";
  }
}
