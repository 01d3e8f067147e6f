/** The singly linked list the application keeps its contacts in. */
module LinkedStore {
  import opened Contacts

  /** One cell of the list: a payload and a link to the next cell, or null at the tail. */
  class Node {
    var data: Data
    var next: Node?

    constructor (data: Data)
      ensures this.data == data && next == null
    {
      this.data := data;
      next := null;
    }
  }

  class LinkedList {
    var head: Node?

    /** The payloads in link order, the cells that carry them, and the objects the list
        consists of. */
    ghost var contents: seq<Data>
    ghost var nodes: seq<Node>
    ghost var Repr: set<object>

    /** The chain starting at `head` visits `nodes` one after the other and ends in null;
        the cells are pairwise distinct, so the chain has no cycle. */
    ghost predicate Valid()
      reads this, Repr
    {
      this in Repr &&
      |nodes| == |contents| &&
      (forall i :: 0 <= i < |nodes| ==> nodes[i] in Repr) &&
      (forall i, j :: 0 <= i < j < |nodes| ==> nodes[i] != nodes[j]) &&
      head == (if nodes == [] then null else nodes[0]) &&
      (forall i :: 0 <= i < |nodes| ==> nodes[i].data == contents[i]) &&
      (forall i :: 0 <= i < |nodes| - 1 ==> nodes[i].next == nodes[i + 1]) &&
      (nodes != [] ==> nodes[|nodes| - 1].next == null)
    }

    constructor ()
      ensures Valid() && fresh(Repr)
      ensures head == null && contents == []
    {
      head := null;
      contents, nodes := [], [];
      Repr := {this};
    }

    /** No cell links back to itself or to a cell before it. */
    lemma Acyclic()
      requires Valid()
      ensures forall i, j :: 0 <= j <= i < |nodes| ==> nodes[i].next != nodes[j]
    {
      forall i, j | 0 <= j <= i < |nodes|
        ensures nodes[i].next != nodes[j]
      {
        if i + 1 < |nodes| {
          assert nodes[i].next == nodes[i + 1];
        }
      }
    }

    /** Walks to the tail and links a new cell holding `d` there. */
    method Append(d: Data)
      requires Valid()
      modifies Repr
      ensures Valid() && fresh(Repr - old(Repr))
      ensures contents == old(contents) + [d]
      ensures |nodes| == |old(nodes)| + 1 && nodes[..|old(nodes)|] == old(nodes)
      ensures fresh(nodes[|old(nodes)|])
      ensures old(head) == null ==> head == nodes[0]
      ensures old(head) != null ==> head == old(head)
      ensures forall i :: 0 <= i < |old(nodes)| ==> nodes[i].data == old(nodes[i].data)
    {
      var newNode := new Node(d);
      if head == null {
        head := newNode;
      } else {
        var current := head;
        ghost var i := 0;
        while current.next != null
          invariant 0 <= i < |nodes| && current == nodes[i]
          invariant current.next == if i + 1 < |nodes| then nodes[i + 1] else null
          decreases |nodes| - i
        {
          current := current.next;
          i := i + 1;
        }
        assert i == |nodes| - 1;
        current.next := newNode;
      }
      nodes := nodes + [newNode];
      contents := contents + [d];
      Repr := Repr + {newNode};
    }

    /** The payloads of the cells reachable from `head`, in link order. */
    method ToList() returns (result: seq<Data>)
      requires Valid()
      ensures result == contents
    {
      result := [];
      var current := head;
      ghost var i := 0;
      while current != null
        invariant 0 <= i <= |nodes|
        invariant current == if i < |nodes| then nodes[i] else null
        invariant result == contents[..i]
        decreases |nodes| - i
      {
        result := result + [current.data];
        current := current.next;
        i := i + 1;
      }
    }

    /** The contacts whose lower-cased name or email contains `query`, in link order. */
    method Search(query: string) returns (results: seq<Data>)
      requires Valid()
      ensures results == Filter(query, contents)
    {
      results := [];
      var current := head;
      ghost var i := 0;
      while current != null
        invariant 0 <= i <= |nodes|
        invariant current == if i < |nodes| then nodes[i] else null
        invariant results == Filter(query, contents[..i])
        decreases |nodes| - i
      {
        assert contents[..i + 1] == contents[..i] + [current.data];
        FilterSnoc(query, contents[..i], current.data);
        if current.data.Contact? {
          if Contains(query, Lower(current.data.name)) || Contains(query, Lower(current.data.email)) {
            results := results + [current.data];
          }
        }
        current := current.next;
        i := i + 1;
      }
      assert contents[..i] == contents;
    }
  }
}
