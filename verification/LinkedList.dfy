/** The heap-linked list of connected peers. */
module LinkedList {
  datatype Peer = Peer(name: string, port: string, ip: string)

  /** Index of the first peer with that name, or |c|. */
  function Position(c: seq<Peer>, name: string): (i: nat)
    ensures i <= |c|
    ensures i < |c| ==> c[i].name == name
    ensures forall j :: 0 <= j < i ==> c[j].name != name
  {
    if c == [] || c[0].name == name then 0 else 1 + Position(c[1..], name)
  }

  /** The list without the first peer of that name, if there is one. */
  function WithoutFirst(c: seq<Peer>, name: string): seq<Peer> {
    var i := Position(c, name);
    if i == |c| then c else Dropped(c, i)
  }

  lemma PositionIs(c: seq<Peer>, name: string, i: nat)
    requires i <= |c| && (i < |c| ==> c[i].name == name) && forall j :: 0 <= j < i ==> c[j].name != name
    ensures Position(c, name) == i
  {
  }

  function Dropped<T>(s: seq<T>, k: nat): (t: seq<T>)
    requires k < |s|
    ensures |t| == |s| - 1 && forall i :: 0 <= i < |t| ==> t[i] == s[if i < k then i else i + 1]
  {
    s[..k] + s[k + 1..]
  }

  class Node {
    var data: Peer
    var next: Node?

    constructor (data: Peer)
      ensures this.data == data && next == null
    {
      this.data, next := data, null;
    }
  }

  /** The i-th node of a chain, or null behind its end. */
  ghost function NodeAt(s: seq<Node>, i: nat): Node? {
    if i < |s| then s[i] else null
  }

  ghost predicate Linked(s: seq<Node>, c: seq<Peer>)
    reads s
  {
    && |s| == |c|
    && (forall i {:trigger s[i].next} :: 0 <= i < |s| ==> s[i].next == NodeAt(s, i + 1))
    && (forall i {:trigger s[i].data} {:trigger c[i]} :: 0 <= i < |s| ==> s[i].data == c[i])
    && (forall i, j :: 0 <= i < j < |s| ==> s[i] != s[j])
  }

  class List {
    var head: Node?
    var size: nat
    ghost var spine: seq<Node>      // the nodes in list order
    ghost var contents: seq<Peer>   // their data

    /** The chain of `next` pointers visits the spine once and ends; hence it is acyclic. */
    ghost predicate Valid()
      reads this, spine
    {
      size == |spine| && head == NodeAt(spine, 0) && Linked(spine, contents)
    }

    ghost function Nodes(): set<Node>
      reads this
    {
      set n | n in spine
    }

    constructor ()
      ensures Valid() && contents == [] && spine == []
    {
      head, size := null, 0;
      spine, contents := [], [];
    }

    method AddElement(data: Peer)
      requires Valid()
      modifies this, Nodes()
      ensures Valid() && contents == old(contents) + [data]
      ensures |spine| == old(|spine|) + 1 && spine[..old(|spine|)] == old(spine) && fresh(spine[old(|spine|)])
    {
      var node := new Node(data);
      if head == null {
        head := node;
      } else {
        var current := head;
        ghost var k := 0;
        while current.next != null
          invariant k < |spine| && current == spine[k]
          decreases |spine| - k
        {
          current := current.next;
          k := k + 1;
        }
        current.next := node;
      }
      size := size + 1;
      spine := spine + [node];
      contents := contents + [data];
    }

    /** Unlinks the first node of that name; every other node stays where it is. */
    method DeleteElement(name: string)
      requires Valid()
      modifies this, Nodes()
      ensures Valid() && contents == WithoutFirst(old(contents), name)
      ensures spine == (var i := Position(old(contents), name);
                        if i == |old(contents)| then old(spine) else Dropped(old(spine), i))
      ensures forall n :: n in old(spine) ==> n.data == old(n.data)
    {
      var current := head;
      var previous := current;
      ghost var k := 0;
      while current != null && current.data.name != name
        invariant k <= |spine| && current == NodeAt(spine, k)
        invariant previous == NodeAt(spine, if k == 0 then 0 else k - 1)
        invariant forall j :: 0 <= j < k ==> contents[j].name != name
        decreases |spine| - k
      {
        previous := current;
        current := current.next;
        k := k + 1;
      }
      PositionIs(contents, name, k);
      if current != null {
        Unlink(previous, current, k);
      }
    }

    /** Takes `current`, the node at k, out of the chain. */
    method Unlink(previous: Node, current: Node, ghost k: nat)
      requires Valid() && k < |spine| && current == spine[k] && previous == spine[if k == 0 then 0 else k - 1]
      modifies this, previous`next
      ensures Valid() && contents == Dropped(old(contents), k) && spine == Dropped(old(spine), k)
    {
      ghost var s, c := spine, contents;
      previous.next := current.next;
      assert k > 0 ==> s[k - 1].next == NodeAt(s, k + 1);
      assert forall i {:trigger s[i].next} :: 0 <= i < |s| && i != k && i != k - 1 ==> s[i].next == NodeAt(s, i + 1);
      RelinkedWithout(s, c, k);
      size := size - 1;
      if current == head {
        head := current.next;
      }
      spine := Dropped(s, k);
      contents := Dropped(c, k);
    }

    /** Copies the list into a buffer of `size` slots, filling it exactly. */
    method GetElements() returns (users: array<Peer>)
      requires Valid()
      ensures fresh(users) && users[..] == contents
    {
      users := new Peer[size];
      var current := head;
      var ii := 0;
      while current != null
        invariant 0 <= ii <= |spine| && current == NodeAt(spine, ii)
        invariant forall j :: 0 <= j < ii ==> users[j] == contents[j]
        decreases |spine| - ii
      {
        users[ii] := current.data;
        current := current.next;
        ii := ii + 1;
      }
    }

    method FindElementByName(name: string) returns (found: bool)
      requires Valid()
      ensures found <==> Position(contents, name) < |contents|
    {
      var current := head;
      ghost var k := 0;
      while current != null
        invariant k <= |spine| && current == NodeAt(spine, k)
        invariant forall j :: 0 <= j < k ==> contents[j].name != name
        decreases |spine| - k
      {
        if current.data.name == name {
          return true;
        }
        current := current.next;
        k := k + 1;
      }
      return false;
    }

    /** The first node of that name, null if there is none. */
    method GetElementByName(name: string) returns (node: Node?)
      requires Valid()
      ensures node == NodeAt(spine, Position(contents, name))
    {
      var current := head;
      ghost var k := 0;
      while current != null
        invariant k <= |spine| && current == NodeAt(spine, k)
        invariant forall j :: 0 <= j < k ==> contents[j].name != name
        decreases |spine| - k
      {
        if current.data.name == name {
          PositionIs(contents, name, k);
          return current;
        }
        current := current.next;
        k := k + 1;
      }
      return null;
    }
  }

  /** A chain in which the node before k skips node k. */
  lemma RelinkedWithout(s: seq<Node>, c: seq<Peer>, k: nat)
    requires k < |s| == |c| && forall i, j :: 0 <= i < j < |s| ==> s[i] != s[j]
    requires forall i :: 0 <= i < |s| ==> s[i].data == c[i]
    requires forall i {:trigger s[i].next} :: 0 <= i < |s| && i != k && i != k - 1 ==> s[i].next == NodeAt(s, i + 1)
    requires k > 0 ==> s[k - 1].next == NodeAt(s, k + 1)
    ensures Linked(Dropped(s, k), Dropped(c, k))
  {
    var t, d := Dropped(s, k), Dropped(c, k);
    forall i | 0 <= i < |t| ensures t[i].next == NodeAt(t, i + 1) && t[i].data == d[i] {
      var o := if i < k then i else i + 1;
      assert t[i] == s[o] && d[i] == c[o];
    }
  }
}
