/** The singly linked list whose size and tail live on its current head (list.c, list.h). */
module NcList {
  import opened Callbacks

  // ---------------------------------------------------------------- the list as a sequence

  /** The first place of d in s, or |s|. */
  function Place(s: seq<Pointer>, d: Pointer): (i: nat)
    ensures i <= |s| && (i < |s| ==> s[i] == d)
    ensures forall j :: 0 <= j < i ==> s[j] != d
  {
    if s == [] || s[0] == d then 0 else 1 + Place(s[1..], d)
  }

  function RemoveFirst(s: seq<Pointer>, d: Pointer): seq<Pointer> {
    var i := Place(s, d);
    if i < |s| then s[..i] + s[i + 1..] else s
  }

  datatype Op = Append(d: Pointer) | Prepend(d: Pointer) | Remove(d: Pointer)

  function Step(s: seq<Pointer>, op: Op): seq<Pointer> {
    match op
    case Append(d) => s + [d]
    case Prepend(d) => [d] + s
    case Remove(d) => RemoveFirst(s, d)
  }

  function After(ops: seq<Op>): seq<Pointer> {
    if ops == [] then [] else Step(After(ops[..|ops| - 1]), ops[|ops| - 1])
  }

  /** The items a run put in, and those its successful removals took out. */
  function Added(ops: seq<Op>): multiset<Pointer> {
    if ops == [] then multiset{}
    else
      var op := ops[|ops| - 1];
      Added(ops[..|ops| - 1]) + if op.Remove? then multiset{} else multiset{op.d}
  }

  function Taken(ops: seq<Op>): multiset<Pointer> {
    if ops == [] then multiset{}
    else
      var front, op := ops[..|ops| - 1], ops[|ops| - 1];
      Taken(front) + if op.Remove? && op.d in After(front) then multiset{op.d} else multiset{}
  }

  lemma RemoveBag(s: seq<Pointer>, d: Pointer)
    ensures d in s ==> multiset(RemoveFirst(s, d)) + multiset{d} == multiset(s)
    ensures d !in s ==> RemoveFirst(s, d) == s
  {
    var i := Place(s, d);
    if i < |s| {
      assert s == s[..i] + [d] + s[i + 1..];
    }
  }

  /** Nothing is lost or duplicated over any run. */
  lemma {:induction false} Conserved(ops: seq<Op>)
    ensures multiset(After(ops)) + Taken(ops) == Added(ops)
  {
    if ops != [] {
      var front, op := ops[..|ops| - 1], ops[|ops| - 1];
      Conserved(front);
      if op.Remove? {
        RemoveBag(After(front), op.d);
      }
    }
  }

  /** Removal takes out the first occurrence and leaves what is around it in order. */
  lemma RemoveAround(a: seq<Pointer>, d: Pointer, b: seq<Pointer>)
    requires d !in a
    ensures RemoveFirst(a + [d] + b, d) == a + b
  {
    var s := a + [d] + b;
    assert s[|a|] == d && forall j :: 0 <= j < |a| ==> s[j] == a[j];
    assert Place(s, d) == |a|;
    assert s[..|a|] == a && s[|a| + 1..] == b;
  }

  /** Removal takes the first occurrence: it undoes a prepend, and an append of a new item. */
  lemma RemoveUndoes(s: seq<Pointer>, d: Pointer)
    ensures RemoveFirst([d] + s, d) == s
    ensures d !in s ==> RemoveFirst(s + [d], d) == s
  {
    assert Place([d] + s, d) == 0;
    var t := s + [d];
    assert t[|s|] == d;
    assert forall j :: 0 <= j < |s| ==> t[j] == s[j];
  }

  // ---------------------------------------------------------------- nodes

  class Node {
    var data: Pointer
    var next: Node?
    var tail: Node?
    var size: nat

    /** Whether it has been freed. */
    ghost var dead: bool

    /** calloc */
    constructor ()
      ensures data == NULL && next == null && tail == null && size == 0 && !dead
    {
      data, next, tail, size, dead := NULL, null, null, 0, false;
    }
  }

  ghost predicate Distinct(nodes: seq<Node>) {
    forall i, j :: 0 <= i < j < |nodes| ==> nodes[i] != nodes[j]
  }

  lemma DropDistinct(nodes: seq<Node>, i: nat)
    requires Distinct(nodes) && i < |nodes|
    ensures var rest := nodes[..i] + nodes[i + 1..];
      && Distinct(rest) && nodes[i] !in rest
      && forall k :: 0 <= k < |rest| ==> rest[k] == nodes[if k < i then k else k + 1]
  {
  }

  ghost predicate Carries(n: Node, d: Pointer)
    reads n`data, n`dead
  {
    n.data == d && !n.dead
  }

  /** The nodes are linked in order and carry the contents; none of them is freed or occurs twice. */
  ghost predicate Chain(nodes: seq<Node>, contents: seq<Pointer>)
    reads nodes`data, nodes`next, nodes`dead
  {
    && |contents| == |nodes|
    && (forall i :: 0 <= i < |nodes| ==> Carries(nodes[i], contents[i]))
    && (forall i :: 0 <= i < |nodes| - 1 ==> nodes[i].next == nodes[i + 1])
    && (nodes != [] ==> nodes[|nodes| - 1].next == null)
    && Distinct(nodes)
  }

  /** Freed nodes were freed once. */
  ghost predicate Buried(freed: seq<Node>)
    reads freed`dead
  {
    Distinct(freed) && forall i :: 0 <= i < |freed| ==> freed[i].dead
  }

  lemma NextNode(nodes: seq<Node>, contents: seq<Pointer>, i: nat)
    requires Chain(nodes, contents) && i < |nodes|
    ensures nodes[i].next == (if i + 1 < |nodes| then nodes[i + 1] else null)
    ensures nodes[i].data == contents[i] && !nodes[i].dead
  {
    assert Carries(nodes[i], contents[i]);
  }

  /** Nodes linked in order but for node i, which its predecessor passes over. */
  ghost predicate Bypassed(nodes: seq<Node>, contents: seq<Pointer>, i: nat)
    reads nodes`data, nodes`next, nodes`dead
  {
    && i < |nodes| == |contents| && Distinct(nodes)
    && (forall k :: 0 <= k < |nodes| && k != i ==> Carries(nodes[k], contents[k]))
    && (forall k :: 0 <= k < |nodes| - 1 && k != i - 1 && k != i ==> nodes[k].next == nodes[k + 1])
    && (i > 0 ==> nodes[i - 1].next == if i + 1 < |nodes| then nodes[i + 1] else null)
    && (i < |nodes| - 1 ==> nodes[|nodes| - 1].next == null)
  }

  /** Without that node they are a chain. */
  lemma RestChain(nodes: seq<Node>, contents: seq<Pointer>, i: nat)
    requires Bypassed(nodes, contents, i)
    ensures Chain(nodes[..i] + nodes[i + 1..], contents[..i] + contents[i + 1..])
    ensures nodes[i] !in nodes[..i] + nodes[i + 1..]
  {
    DropDistinct(nodes, i);
  }

  lemma ConsChain(first: Node, nodes: seq<Node>, data: Pointer, contents: seq<Pointer>)
    requires Chain(nodes, contents) && nodes != [] && first !in nodes
    requires Carries(first, data) && first.next == nodes[0]
    ensures Chain([first] + nodes, [data] + contents)
    ensures ([first] + nodes)[|nodes|] == nodes[|nodes| - 1]
  {
  }

  lemma SnocChain(nodes: seq<Node>, last: Node, contents: seq<Pointer>, data: Pointer)
    requires nodes != [] && |nodes| == |contents| && Distinct(nodes) && last !in nodes
    requires forall i :: 0 <= i < |nodes| ==> Carries(nodes[i], contents[i])
    requires forall i :: 0 <= i < |nodes| - 1 ==> nodes[i].next == nodes[i + 1]
    requires nodes[|nodes| - 1].next == last && last.next == null && Carries(last, data)
    ensures Chain(nodes + [last], contents + [data])
  {
  }

  lemma JoinDistinct(freed: seq<Node>, nodes: seq<Node>, contents: seq<Pointer>)
    requires Buried(freed) && Chain(nodes, contents)
    ensures Distinct(freed + nodes)
  {
    forall i, j | 0 <= i < |freed| && 0 <= j < |nodes|
      ensures freed[i] != nodes[j]
    {
      assert Carries(nodes[j], contents[j]);
    }
  }

  lemma JoinBuried(freed: seq<Node>, nodes: seq<Node>)
    requires Distinct(freed + nodes)
    requires forall j :: 0 <= j < |freed| ==> freed[j].dead
    requires forall j :: 0 <= j < |nodes| ==> nodes[j].dead
    ensures Buried(freed + nodes)
  {
  }

  /** The caller's list pointer. */
  class List {
    var head: Node?

    /** The data pointers handed to free. */
    var dataFreed: seq<Pointer>

    ghost var nodes: seq<Node>
    ghost var contents: seq<Pointer>

    /** The nodes handed to free. */
    ghost var freed: seq<Node>

    /** The head carries the true length and the true last node. */
    ghost predicate Valid()
      reads this, nodes, freed
    {
      && Chain(nodes, contents) && Buried(freed)
      && (if nodes == [] then head == null
          else head == nodes[0] && nodes[0].size == |nodes| && nodes[0].tail == nodes[|nodes| - 1])
    }

    constructor ()
      ensures Valid() && contents == [] && freed == [] && dataFreed == []
    {
      head, dataFreed := null, [];
      nodes, contents, freed := [], [], [];
    }

    /** New list generation, shared by append and prepend. */
    method NewHead(data: Pointer)
      requires Valid() && head == null
      modifies this
      ensures Valid() && contents == [data]
      ensures |nodes| == 1 && fresh(nodes[0])
      ensures freed == old(freed) && dataFreed == old(dataFreed)
    {
      head := new Node();
      head.size := 1;
      head.tail := head;
      head.next := null;
      head.data := data;
      nodes, contents := [head], [data];
    }

    /** New tail generation. */
    method AddTail(data: Pointer)
      requires Valid() && head != null
      modifies this, nodes
      ensures Valid() && contents == old(contents) + [data]
      ensures |nodes| == |old(nodes)| + 1 && nodes == old(nodes) + [nodes[|nodes| - 1]] && fresh(nodes[|nodes| - 1])
      ensures freed == old(freed) && dataFreed == old(dataFreed)
    {
      var next := new Node();
      head.size := head.size + 1;
      var parent := head.tail;
      parent.next := next;
      head.tail := next;
      next.next := null;
      next.data := data;
      SnocChain(nodes, next, contents, data);
      nodes, contents := nodes + [next], contents + [data];
    }

    /** nc_list_append */
    method Append(data: Pointer) returns (ok: bool)
      requires Valid()
      modifies this, nodes
      ensures Valid() && ok && contents == old(contents) + [data]
      ensures |nodes| == |old(nodes)| + 1 && nodes == old(nodes) + [nodes[|nodes| - 1]] && fresh(nodes[|nodes| - 1])
      ensures freed == old(freed) && dataFreed == old(dataFreed)
    {
      if head == null {
        NewHead(data);
      } else {
        AddTail(data);
      }
      ok := true;
    }

    /** The new node takes over size and tail. */
    method MoveHead(data: Pointer) returns (prev: Node)
      requires head != null
      modifies head`size, head`tail
      ensures fresh(prev) && Carries(prev, data) && prev.next == head
      ensures prev.size == old(head.size) + 1 && prev.tail == old(head.tail)
    {
      prev := new Node();
      prev.size := head.size + 1;
      head.size := 0;
      prev.next := head;
      prev.tail := head.tail;
      head.tail := null;
      prev.data := data;
    }

    /** New head generation: size and tail move from the old head to the new one. */
    method AddHead(data: Pointer)
      requires Valid() && head != null
      modifies this, head`size, head`tail
      ensures Valid() && contents == [data] + old(contents)
      ensures |nodes| == |old(nodes)| + 1 && nodes == [nodes[0]] + old(nodes) && fresh(nodes[0])
      ensures freed == old(freed) && dataFreed == old(dataFreed)
    {
      var prev := MoveHead(data);
      ConsChain(prev, nodes, data, contents);
      head := prev;
      nodes, contents := [prev] + nodes, [data] + contents;
    }

    /** nc_list_prepend */
    method Prepend(data: Pointer) returns (ok: bool)
      requires Valid()
      modifies this, nodes
      ensures Valid() && ok && contents == [data] + old(contents)
      ensures |nodes| == |old(nodes)| + 1 && nodes == [nodes[0]] + old(nodes) && fresh(nodes[0])
      ensures freed == old(freed) && dataFreed == old(dataFreed)
    {
      if head == null {
        NewHead(data);
      } else {
        AddHead(data);
      }
      ok := true;
    }

    /** The search loop of nc_list_remove. */
    method Search(data: Pointer) returns (prev: Node?, current: Node?, ghost i: nat)
      requires Valid()
      ensures i == Place(contents, data) && i <= |nodes|
      ensures current == if i < |nodes| then nodes[i] else null
      ensures current != null ==> current.data == data
      ensures 0 < i < |nodes| ==> prev == nodes[i - 1] && current != head
    {
      prev, current, i := head, head, 0;
      while current != null && current.data != data
        invariant i <= |nodes| && current == if i < |nodes| then nodes[i] else null
        invariant forall j :: 0 <= j < i ==> contents[j] != data
        invariant 0 < i < |nodes| ==> prev == nodes[i - 1]
        decreases |nodes| - i
      {
        NextNode(nodes, contents, i);
        prev := current;
        current := current.next;
        i := i + 1;
      }
      if i < |nodes| {
        NextNode(nodes, contents, i);
      }
    }

    /** free(current), for a node that is passed over. */
    method Release(current: Node, ghost i: nat)
      requires Bypassed(nodes, contents, i) && current == nodes[i] && !current.dead && Buried(freed)
      modifies this`nodes, this`contents, this`freed, current`dead
      ensures Chain(nodes, contents) && Buried(freed)
      ensures nodes == old(nodes)[..i] + old(nodes)[i + 1..] && contents == old(contents)[..i] + old(contents)[i + 1..]
      ensures freed == old(freed) + [current] && current !in nodes
    {
      current.dead := true;
      freed := freed + [current];
      RestChain(nodes, contents, i);
      nodes, contents := nodes[..i] + nodes[i + 1..], contents[..i] + contents[i + 1..];
    }

    /** Data on the head: the next node becomes the head and takes over size and tail. */
    method UnlinkHead(ghost i: nat)
      requires Valid() && i == 0 < |nodes|
      modifies this, nodes`next, nodes`size, nodes`tail, nodes`dead
      ensures Valid() && dataFreed == old(dataFreed)
      ensures nodes == old(nodes)[..i] + old(nodes)[i + 1..] && contents == old(contents)[..i] + old(contents)[i + 1..]
      ensures freed == old(freed) + [old(nodes)[i]] && old(nodes)[i] !in nodes
    {
      NextNode(nodes, contents, 0);
      var current := head;
      if head.next != null {
        head.next.size := head.size - 1;
        head.next.tail := head.tail;
      }
      head := head.next;
      // The tail update is not needed here: a new head has taken over a tail other than the removed node.
      if head != null && head.tail == current {
        assert false;
      }
      Release(current, i);
    }

    /** Middle or end: the node before is linked to the node after. */
    method Unlink(prev: Node?, current: Node, ghost i: nat)
      requires Valid() && 0 < i < |nodes| && current == nodes[i] && prev == nodes[i - 1]
      modifies this, nodes`next, nodes`size, nodes`tail, nodes`dead
      ensures Valid() && dataFreed == old(dataFreed)
      ensures nodes == old(nodes)[..i] + old(nodes)[i + 1..] && contents == old(contents)[..i] + old(contents)[i + 1..]
      ensures freed == old(freed) + [old(nodes)[i]] && old(nodes)[i] !in nodes
    {
      NextNode(nodes, contents, i);
      prev.next := current.next;
      head.size := head.size - 1;
      if head.tail == current {
        head.tail := prev;
      }
      Release(current, i);
    }

    /** Take the node out of the list and free it. */
    method Detach(prev: Node?, current: Node, ghost i: nat)
      requires Valid() && i < |nodes| && current == nodes[i] && (i > 0 ==> prev == nodes[i - 1] && current != head)
      modifies this, nodes`next, nodes`size, nodes`tail, nodes`dead
      ensures Valid() && dataFreed == old(dataFreed)
      ensures nodes == old(nodes)[..i] + old(nodes)[i + 1..] && contents == old(contents)[..i] + old(contents)[i + 1..]
      ensures freed == old(freed) + [old(nodes)[i]] && old(nodes)[i] !in nodes
    {
      if current == head {
        UnlinkHead(i);
      } else {
        Unlink(prev, current, i);
      }
    }

    /** free(current->data), if asked for. */
    method FreeData(current: Node, doFree: bool)
      requires Valid()
      modifies this`dataFreed
      ensures Valid() && dataFreed == old(dataFreed) + if doFree then [current.data] else []
    {
      if doFree {
        dataFreed := dataFreed + [current.data];
      }
    }

    /** nc_list_remove */
    method Remove(data: Pointer, doFree: bool) returns (ok: bool)
      requires Valid()
      modifies this, nodes`next, nodes`size, nodes`tail, nodes`dead
      ensures Valid() && contents == RemoveFirst(old(contents), data) && (ok <==> data in old(contents))
      ensures !ok ==> nodes == old(nodes) && freed == old(freed) && dataFreed == old(dataFreed)
      ensures ok ==>
        var i := Place(old(contents), data);
        && contents == old(contents)[..i] + old(contents)[i + 1..]
        && nodes == old(nodes)[..i] + old(nodes)[i + 1..]
        && freed == old(freed) + [old(nodes)[i]] && old(nodes)[i] !in nodes
        && dataFreed == old(dataFreed) + if doFree then [data] else []
      ensures forall n :: n in old(nodes) ==> n.data == old(n.data)
    {
      var prev, current, i := Search(data);
      if current == null {
        return false;
      }
      FreeData(current, doFree);
      Detach(prev, current, i);
      ok := true;
    }

    /** The nodes ns[..i], and with `items` their data, have been freed since the given records. */
    ghost predicate FreedTo(was: seq<Node>, data: seq<Pointer>, items: bool, ns: seq<Node>, cs: seq<Pointer>, i: nat)
      reads this
      requires i <= |ns| == |cs|
    {
      freed == was + ns[..i] && dataFreed == data + if items then cs[..i] else []
    }

    /** One round of the loop below. */
    method FreeNode(elem: Node, items: bool, ghost was: seq<Node>, ghost data: seq<Pointer>,
                    ghost ns: seq<Node>, ghost cs: seq<Pointer>, ghost i: nat)
      returns (node: Node?)
      requires i < |ns| == |cs| && elem == ns[i] && FreedTo(was, data, items, ns, cs, i)
      requires Carries(elem, cs[i]) && elem.next == if i + 1 < |ns| then ns[i + 1] else null
      modifies this`freed, this`dataFreed, elem`dead
      ensures node == (if i + 1 < |ns| then ns[i + 1] else null) && elem.dead
      ensures FreedTo(was, data, items, ns, cs, i + 1)
    {
      assert ns[..i + 1] == ns[..i] + [ns[i]] && cs[..i + 1] == cs[..i] + [cs[i]];
      if items {
        dataFreed := dataFreed + [elem.data];
      }
      node := elem.next;
      elem.dead := true;
      freed := freed + [elem];
    }

    /** nc_list_free, and with `items` nc_list_free_all: every node is freed once, in order. */
    method FreeAll(items: bool)
      requires Valid()
      modifies this, nodes`dead
      ensures Valid() && head == null && contents == []
      ensures freed == old(freed) + old(nodes)
      ensures dataFreed == old(dataFreed) + if items then old(contents) else []
    {
      var elem := head;
      ghost var was, data, ns, cs, i := freed, dataFreed, nodes, contents, 0;
      JoinDistinct(was, ns, cs);
      while elem != null
        invariant 0 <= i <= |ns| && elem == if i < |ns| then ns[i] else null
        invariant nodes == ns && contents == cs && FreedTo(was, data, items, ns, cs, i)
        invariant forall j :: 0 <= j < i ==> ns[j].dead
        invariant forall j :: i <= j < |ns| ==> !ns[j].dead
        invariant forall j :: 0 <= j < |was| ==> was[j].dead
        decreases |ns| - i
      {
        assert old(Carries(ns[i], cs[i]));
        elem := FreeNode(elem, items, was, data, ns, cs, i);
        i := i + 1;
      }
      assert ns[..|ns|] == ns && cs[..|ns|] == cs;
      JoinBuried(was, ns);
      head := null;
      nodes, contents := [], [];
    }
  }

  lemma AfterNext(ops: seq<Op>, i: nat)
    requires i < |ops|
    ensures After(ops[..i + 1]) == Step(After(ops[..i]), ops[i])
    ensures Taken(ops[..i + 1]) ==
      Taken(ops[..i]) + if ops[i].Remove? && ops[i].d in After(ops[..i]) then multiset{ops[i].d} else multiset{}
  {
    assert ops[..i + 1][..i] == ops[..i];
  }

  /** One call on the nodes is one step on the sequence; a removal that succeeds frees one node. */
  method Do(l: List, op: Op) returns (ok: bool)
    requires l.Valid()
    modifies l, l.nodes
    ensures l.Valid() && l.contents == Step(old(l.contents), op)
    ensures ok <==> (op.Remove? ==> op.d in old(l.contents))
    ensures |l.freed| == |old(l.freed)| + if op.Remove? && op.d in old(l.contents) then 1 else 0
    ensures forall k :: 0 <= k < |l.nodes| ==> l.nodes[k] in old(l.nodes) || fresh(l.nodes[k])
  {
    match op {
      case Append(d) => ok := l.Append(d);
      case Prepend(d) => ok := l.Prepend(d);
      case Remove(d) => ok := l.Remove(d, false);
    }
  }

  /** Any run on an empty list ends in the sequence the run describes, and has freed one node for each
      item taken out. */
  method RunOps(l: List, ops: seq<Op>)
    requires l.Valid() && l.contents == [] && l.freed == []
    modifies l
    ensures l.Valid() && l.contents == After(ops) && |l.freed| == |Taken(ops)|
  {
    assert l.nodes == [];
    for i := 0 to |ops|
      invariant l.Valid() && l.contents == After(ops[..i]) && |l.freed| == |Taken(ops[..i])|
      invariant fresh(l.nodes)
    {
      AfterNext(ops, i);
      var ok := Do(l, ops[i]);
    }
    assert ops[..|ops|] == ops;
  }
}
