/**
 The VLAN HAL's list of default VLAN IDs: a singly linked list of group names and IDs, with
 insertion at the tail, removal of the first match, and lookup of the first match.
 */
module VlanConfig {
  import opened CText
  import opened CTypes

  datatype Entry = Entry(groupName: string, vlanID: string)

  // ---------------------------------------------------------------- the list as a value

  /** What `delete` leaves: everything but the first entry of the group. */
  function WithoutFirst(es: seq<Entry>, g: string): seq<Entry> {
    if es == [] then []
    else if es[0].groupName == g then es[1..]
    else [es[0]] + WithoutFirst(es[1..], g)
  }

  function FirstId(es: seq<Entry>, g: string): Option<string> {
    if es == [] then None
    else if es[0].groupName == g then Some(es[0].vlanID)
    else FirstId(es[1..], g)
  }

  ghost function Removed<T>(s: seq<T>, i: nat): (r: seq<T>)
    requires i < |s|
    ensures |r| == |s| - 1
    ensures forall j :: 0 <= j < i ==> r[j] == s[j]
    ensures forall j :: i <= j < |r| ==> r[j] == s[j + 1]
  {
    s[..i] + s[i + 1..]
  }

  // ---------------------------------------------------------------- the heap

  /** A list node; its texts are written once, when the entry is made. */
  class Node {
    const groupName: string
    const vlanID: string
    var nextlink: Node?

    constructor (groupName: string, vlanID: string)
      ensures this.groupName == groupName && this.vlanID == vlanID && nextlink == null
    {
      this.groupName, this.vlanID, nextlink := groupName, vlanID, null;
    }
  }

  /** The entries of the nodes, in order. */
  ghost function EntriesOf(ns: seq<Node>): (es: seq<Entry>)
    ensures |es| == |ns|
    ensures forall i :: 0 <= i < |ns| ==> es[i] == Entry(ns[i].groupName, ns[i].vlanID)
  {
    seq(|ns|, i requires 0 <= i < |ns| => Entry(ns[i].groupName, ns[i].vlanID))
  }

  ghost function NodeAt(ns: seq<Node>, i: nat): Node? {
    if i < |ns| then ns[i] else null
  }

  ghost predicate Apart(ns: seq<Node>) {
    forall i, j :: 0 <= i < j < |ns| ==> ns[i] != ns[j]
  }

  /** Every node of `ns` links to the next one, the last to NULL; `skip` is left out. */
  ghost predicate Linked(ns: seq<Node>, skip: int)
    reads ns
  {
    forall i :: 0 <= i < |ns| && i != skip ==> ns[i].nextlink == NodeAt(ns, i + 1)
  }

  /** A chain that jumps over its i-th node is the chain without that node. */
  lemma {:induction false} LinksRemoved(ns: seq<Node>, i: nat)
    requires i < |ns| && Apart(ns) && Linked(ns, i - 1)
    requires i > 0 ==> ns[i - 1].nextlink == NodeAt(ns, i + 1)
    ensures Apart(Removed(ns, i)) && Linked(Removed(ns, i), -1)
    ensures NodeAt(Removed(ns, i), 0) == NodeAt(ns, if i == 0 then 1 else 0)
  {
    var r := Removed(ns, i);
    forall j | 0 <= j < |r| ensures r[j].nextlink == NodeAt(r, j + 1) {
      if j >= i {
        assert r[j] == ns[j + 1];
      }
    }
  }

  /** A chain whose last link goes to a new node is a chain that ends in that node. */
  lemma {:induction false} LinksAppended(ns: seq<Node>, temp: Node)
    requires Apart(ns) && temp !in ns && temp.nextlink == null
    requires Linked(ns, |ns| - 1) && (ns != [] ==> ns[|ns| - 1].nextlink == temp)
    ensures Apart(ns + [temp]) && Linked(ns + [temp], -1)
    ensures NodeAt(ns + [temp], 0) == if ns == [] then temp else ns[0]
  {
    var r := ns + [temp];
    forall j | 0 <= j < |r| ensures r[j].nextlink == NodeAt(r, j + 1) {
      assert j < |ns| ==> r[j] == ns[j];
    }
  }

  lemma {:induction false} EntriesRemoved(ns: seq<Node>, i: nat)
    requires i < |ns|
    ensures EntriesOf(Removed(ns, i)) == Removed(EntriesOf(ns), i)
  {
  }

  class ConfigList {
    var head: Node?
    ghost var spine: seq<Node>
    ghost var repr: set<Node>

    /** The links follow the spine, end in NULL and never come back: the list is acyclic. */
    ghost predicate Valid()
      reads this, repr
    {
      && (forall i :: 0 <= i < |spine| ==> spine[i] in repr)
      && head == NodeAt(spine, 0) && Linked(spine, -1) && Apart(spine)
    }

    ghost function Entries(): seq<Entry>
      reads this
    {
      EntriesOf(spine)
    }

    constructor ()
      ensures Valid() && Entries() == [] && fresh(repr)
    {
      head, spine, repr := null, [], {};
    }

    /** The walk to the tail. */
    method Last() returns (curr: Node)
      requires Valid() && head != null
      ensures spine != [] && curr == spine[|spine| - 1]
    {
      curr := head;
      ghost var i := 0;
      while curr.nextlink != null
        invariant 0 <= i < |spine| && curr == spine[i]
        decreases |spine| - i
      {
        curr := curr.nextlink;
        i := i + 1;
      }
    }

    method Insert(groupName: string, vlanID: string) returns (status: int)
      requires Valid()
      modifies this, repr
      ensures Valid() && status == RETURN_OK
      ensures Entries() == old(Entries()) + [Entry(groupName, vlanID)]
      ensures fresh(repr - old(repr))
    {
      var temp := new Node(groupName, vlanID);
      Append(temp);
      return RETURN_OK;
    }

    /** Link a new node behind the tail. */
    method Append(temp: Node)
      requires Valid() && temp !in repr && temp.nextlink == null
      modifies this, repr
      ensures Valid() && spine == old(spine) + [temp] && repr == old(repr) + {temp}
      ensures Entries() == old(Entries()) + [Entry(temp.groupName, temp.vlanID)]
    {
      LinkTail(temp);
      LinksAppended(spine, temp);
      spine, repr := spine + [temp], repr + {temp};
    }

    /** Let the head of an empty list, or the tail, point at a new node. */
    method LinkTail(temp: Node)
      requires Valid() && temp !in repr && temp.nextlink == null
      modifies this`head, repr
      ensures Linked(spine, |spine| - 1) && (spine != [] ==> spine[|spine| - 1].nextlink == temp)
      ensures head == if spine == [] then temp else spine[0]
    {
      if head == null {
        head := temp;
      } else {
        var curr := Last();
        curr.nextlink := temp;
      }
    }

    /** Let the link to `curr` point behind it. */
    method Relink(prev: Node?, curr: Node, ghost i: nat)
      requires Valid() && i < |spine| && curr == spine[i]
      requires prev == if i == 0 then null else spine[i - 1]
      modifies this`head, repr
      ensures Linked(spine, i - 1) && (i > 0 ==> spine[i - 1].nextlink == NodeAt(spine, i + 1))
      ensures head == NodeAt(spine, if i == 0 then 1 else 0)
    {
      assert curr.nextlink == NodeAt(spine, i + 1);
      if prev == null {
        head := curr.nextlink;
      } else {
        prev.nextlink := curr.nextlink;
      }
    }

    /** Take the i-th node out of the chain. */
    method Unlink(prev: Node?, curr: Node, ghost i: nat)
      requires Valid() && i < |spine| && curr == spine[i]
      requires prev == if i == 0 then null else spine[i - 1]
      modifies this, repr
      ensures Valid() && spine == Removed(old(spine), i) && repr == old(repr)
      ensures Entries() == Removed(old(Entries()), i)
    {
      ghost var ns := spine;
      Relink(prev, curr, i);
      LinksRemoved(ns, i);
      EntriesRemoved(ns, i);
      spine := Removed(ns, i);
    }

    /** The walk to the first entry of the group, with the node before it. */
    method FindEntry(groupName: string) returns (prev: Node?, curr: Node?, ghost i: nat)
      requires Valid()
      ensures i <= |spine| && curr == NodeAt(spine, i)
      ensures prev == if i == 0 then null else spine[i - 1]
      ensures forall j :: 0 <= j < i ==> Entries()[j].groupName != groupName
      ensures if curr == null then i == |spine| else i < |spine| && Entries()[i].groupName == groupName
    {
      prev, curr, i := null, head, 0;
      while curr != null
        invariant i <= |spine| && curr == NodeAt(spine, i)
        invariant prev == if i == 0 then null else spine[i - 1]
        invariant forall j :: 0 <= j < i ==> Entries()[j].groupName != groupName
        decreases |spine| - i
      {
        if curr.groupName == groupName {
          break;
        }
        prev, curr, i := curr, curr.nextlink, i + 1;
      }
    }

    method Delete(groupName: string) returns (status: int)
      requires Valid()
      modifies this, repr
      ensures Valid() && status == RETURN_OK
      ensures Entries() == WithoutFirst(old(Entries()), groupName)
      ensures repr == old(repr)
    {
      ghost var es := Entries();
      var prev, curr, i := FindEntry(groupName);
      assert Entries() == es;
      if curr != null {
        FirstMatch(es, groupName, i);
        Unlink(prev, curr, i);
      } else {
        NoMatch(es, groupName);
      }
      return RETURN_OK;
    }

    method Get(groupName: string) returns (status: int, vlanID: string)
      requires Valid()
      ensures FirstId(Entries(), groupName) == if status == RETURN_OK then Some(vlanID) else None
      ensures status == RETURN_OK || status == RETURN_ERR
    {
      var temp := head;
      ghost var i := 0;
      while temp != null
        invariant 0 <= i <= |spine| && temp == NodeAt(spine, i)
        invariant forall j :: 0 <= j < i ==> Entries()[j].groupName != groupName
        decreases |spine| - i
      {
        if temp.groupName == groupName {
          FirstMatch(Entries(), groupName, i);
          return RETURN_OK, temp.vlanID;
        }
        temp := temp.nextlink;
        i := i + 1;
      }
      NoMatch(Entries(), groupName);
      return RETURN_ERR, [];
    }
  }

  lemma {:induction false} FirstMatch(es: seq<Entry>, g: string, i: nat)
    requires i < |es| && es[i].groupName == g
    requires forall j :: 0 <= j < i ==> es[j].groupName != g
    ensures WithoutFirst(es, g) == Removed(es, i)
    ensures FirstId(es, g) == Some(es[i].vlanID)
  {
    if i > 0 {
      FirstMatch(es[1..], g, i - 1);
    }
  }

  lemma {:induction false} NoMatch(es: seq<Entry>, g: string)
    requires forall j :: 0 <= j < |es| ==> es[j].groupName != g
    ensures WithoutFirst(es, g) == es && FirstId(es, g) == None
  {
    if es != [] {
      NoMatch(es[1..], g);
    }
  }

  // ---------------------------------------------------------------- the list is a map to queues

  /** The IDs stored for a group, oldest first. */
  function Queue(es: seq<Entry>, g: string): seq<string> {
    if es == [] then []
    else (if es[0].groupName == g then [es[0].vlanID] else []) + Queue(es[1..], g)
  }

  /** Insertion enqueues at its own group. */
  lemma {:induction false} InsertEnqueues(es: seq<Entry>, e: Entry, g: string)
    ensures Queue(es + [e], g) == if g == e.groupName then Queue(es, g) + [e.vlanID] else Queue(es, g)
  {
    if es == [] {
      assert es + [e] == [e];
    } else {
      assert (es + [e])[1..] == es[1..] + [e];
      InsertEnqueues(es[1..], e, g);
    }
  }

  /** Deletion drops the front at its own group, if there is one, and no other group notices. */
  lemma {:induction false} DeleteDropsFront(es: seq<Entry>, d: string, g: string)
    ensures Queue(WithoutFirst(es, d), g)
         == if g == d && Queue(es, g) != [] then Queue(es, g)[1..] else Queue(es, g)
  {
    if es != [] && es[0].groupName != d {
      assert ([es[0]] + WithoutFirst(es[1..], d))[1..] == WithoutFirst(es[1..], d);
      DeleteDropsFront(es[1..], d, g);
    }
  }

  /** Lookup returns the front. */
  lemma {:induction false} GetIsFront(es: seq<Entry>, g: string)
    ensures FirstId(es, g) == if Queue(es, g) == [] then None else Some(Queue(es, g)[0])
  {
    if es != [] {
      GetIsFront(es[1..], g);
    }
  }

  ghost predicate Distinct(es: seq<Entry>) {
    forall i, j :: 0 <= i < j < |es| ==> es[i].groupName != es[j].groupName
  }

  /** The entries of the other groups, in order. */
  ghost function Others(es: seq<Entry>, g: string): seq<Entry> {
    if es == [] then []
    else (if es[0].groupName == g then [] else [es[0]]) + Others(es[1..], g)
  }

  ghost predicate Names(es: seq<Entry>, g: string) {
    exists i :: 0 <= i < |es| && es[i].groupName == g
  }

  lemma {:induction false} NoneToLeaveOut(es: seq<Entry>, g: string)
    requires forall i :: 0 <= i < |es| ==> es[i].groupName != g
    ensures Others(es, g) == es
  {
    if es != [] {
      NoneToLeaveOut(es[1..], g);
    }
  }

  /** With distinct names a deletion leaves just the entries of the other groups, in order. */
  lemma {:induction false} DeleteLeavesTheOthers(es: seq<Entry>, g: string)
    requires Distinct(es)
    ensures WithoutFirst(es, g) == Others(es, g)
  {
    if es != [] {
      assert forall i :: 0 <= i < |es| - 1 ==> es[1..][i] == es[i + 1];
      if es[0].groupName == g {
        NoneToLeaveOut(es[1..], g);
      } else {
        DeleteLeavesTheOthers(es[1..], g);
      }
    }
  }

  /** With distinct names the queues have at most one ID: the list is a plain map. */
  lemma {:induction false} DistinctIsAMap(es: seq<Entry>, g: string)
    ensures Queue(es, g) == [] <==> !Names(es, g)
    ensures Distinct(es) ==> |Queue(es, g)| <= 1
  {
    if es != [] {
      DistinctIsAMap(es[1..], g);
      assert forall i :: 0 <= i < |es| - 1 ==> es[1..][i] == es[i + 1];
      assert Names(es, g) <==> es[0].groupName == g || Names(es[1..], g) by {
        assert forall i :: 0 < i < |es| ==> es[i] == es[1..][i - 1];
      }
    }
  }

  /** Deleting a group leaves a stale entry behind exactly when it was stored more than once. */
  lemma {:induction false} WhenDeleteLeavesAnEntry(es: seq<Entry>, g: string)
    ensures Names(WithoutFirst(es, g), g) <==> |Queue(es, g)| >= 2
  {
    DeleteDropsFront(es, g, g);
    DistinctIsAMap(WithoutFirst(es, g), g);
  }
}
