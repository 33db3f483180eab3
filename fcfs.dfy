/** First-come first-served admission to the library's manuscript.  Every
    access enqueues a node; a node may proceed once it is marked awoken.
    When the head leaves, the next head is woken, and a reader head wakes
    the whole run of readers behind it.  The linked list `qhead`/`qtail`
    is modelled as a sequence of node objects; posting a node's semaphore
    is modelled as setting its `awoken` flag. */
module Fcfs {

  datatype Kind = Reader | Writer | Researcher

  /** A queue node.  Its kind and id never change; `awoken` does. */
  class Node {
    const kind: Kind
    const id: int
    var awoken: bool

    constructor (k: Kind, i: int)
      ensures kind == k && id == i && !awoken
    {
      kind, id, awoken := k, i, false;
    }
  }

  /** Length of the run of readers at the front of `ks`. */
  function ReaderRun(ks: seq<Kind>): (r: nat)
    ensures r <= |ks|
    ensures forall i :: 0 <= i < r ==> ks[i] == Reader
    ensures r < |ks| ==> ks[r] != Reader
  {
    if ks == [] || ks[0] != Reader then 0 else 1 + ReaderRun(ks[1..])
  }

  /** The awoken flags after the head has changed to the first entry of
      `ks`: an already awoken head changes nothing; an un-awoken reader
      head wakes its whole reader run; any other un-awoken head wakes
      itself only. */
  function WakeNext(ks: seq<Kind>, fs: seq<bool>): (r: seq<bool>)
    requires |ks| == |fs|
    ensures |r| == |fs|
    ensures fs != [] ==> r[0]
    ensures forall i :: 0 <= i < |fs| && fs[i] ==> r[i]
    ensures (fs == [] || fs[0]) ==> r == fs
    ensures fs != [] && !fs[0] && ks[0] == Reader ==>
              (forall i :: 0 <= i < ReaderRun(ks) ==> r[i])
              && (forall i :: ReaderRun(ks) <= i < |fs| ==> r[i] == fs[i])
    ensures fs != [] && !fs[0] && ks[0] != Reader ==>
              forall i :: 1 <= i < |fs| ==> r[i] == fs[i]
  {
    if fs == [] || fs[0] then fs
    else if ks[0] == Reader then
      var run := ReaderRun(ks);
      seq(|fs|, i requires 0 <= i < |fs| => if i < run then true else fs[i])
    else [true] + fs[1..]
  }

  function Kinds(q: seq<Node>): (r: seq<Kind>)
    ensures |r| == |q| && forall i :: 0 <= i < |q| ==> r[i] == q[i].kind
  {
    seq(|q|, i requires 0 <= i < |q| => q[i].kind)
  }

  ghost function Flags(q: seq<Node>): (r: seq<bool>)
    reads set m | m in q
    ensures |r| == |q| && forall i :: 0 <= i < |q| ==> r[i] == q[i].awoken
  {
    seq(|q|, i reads set m | m in q requires 0 <= i < |q| => q[i].awoken)
  }

  /** The admission queue: `qhead` and `qtail` point at the ends of the
      node sequence, and are null together exactly when it is empty. */
  class Queue {
    var nodes: seq<Node>
    var qhead: Node?
    var qtail: Node?

    ghost predicate Valid()
      reads this
    {
      && (forall i, j :: 0 <= i < j < |nodes| ==> nodes[i] != nodes[j])
      && (nodes == [] ==> qhead == null && qtail == null)
      && (nodes != [] ==> qhead == nodes[0] && qtail == nodes[|nodes| - 1])
    }

    constructor ()
      ensures Valid() && nodes == []
    {
      nodes, qhead, qtail := [], null, null;
    }

    /** enqueue_and_maybe_wake: appends `node` at the tail.  A node that
        enters an empty queue is its head and is woken at once; any other
        node starts un-awoken. */
    method Enqueue(node: Node)
      requires Valid() && node !in nodes
      modifies this, node
      ensures Valid()
      ensures nodes == old(nodes) + [node]
      ensures node.awoken <==> old(nodes) == []
      ensures forall m :: m in old(nodes) ==> m.awoken == old(m.awoken)
    {
      node.awoken := false;
      if qtail == null {
        nodes := [node];
        qhead, qtail := node, node;
        node.awoken := true;
      } else {
        nodes := nodes + [node];
        qtail := node;
      }
    }

    /** pop_and_wake_next: on an empty queue nothing happens; otherwise
        the head leaves and the new head is woken as WakeNext says. */
    method PopAndWakeNext()
      requires Valid()
      modifies this, nodes
      ensures Valid()
      ensures old(nodes) == [] ==> nodes == [] && unchanged(old(nodes))
      ensures old(nodes) != [] ==> nodes == old(nodes)[1..]
      ensures old(nodes) != [] ==>
        Flags(nodes) == WakeNext(Kinds(nodes), old(Flags(nodes[1..])))
      ensures old(nodes) != [] ==> old(nodes)[0].awoken == old(nodes[0].awoken)
      ensures qtail == null <==> nodes == []
    {
      if qhead == null {
        return;
      }
      ghost var popped := nodes[0];
      Unlink();
      assert Flags(nodes) == old(Flags(nodes[1..]));
      assert popped !in nodes;
      if qhead != null && !qhead.awoken {
        if qhead.kind == Reader {
          WakeReaderRun();
        } else {
          WakeHead();
        }
      }
    }

    /** The head leaves: `qhead` moves one node on, and both ends are
        cleared when the queue becomes empty. */
    method Unlink()
      requires Valid() && nodes != []
      modifies this
      ensures Valid() && nodes == old(nodes)[1..]
      ensures old(nodes)[0] !in nodes
      ensures qtail == null <==> nodes == []
    {
      nodes := nodes[1..];
      qhead := if nodes == [] then null else nodes[0];
      if qhead == null { qtail := null; }
    }

    /** A head that is not a reader is woken on its own. */
    method WakeHead()
      requires Valid() && nodes != [] && nodes[0].kind != Reader && !nodes[0].awoken
      modifies nodes[0]
      ensures Flags(nodes) == WakeNext(Kinds(nodes), old(Flags(nodes)))
    {
      ghost var fs := Flags(nodes);
      ghost var ks := Kinds(nodes);
      Wake(0);
      ghost var r := WakeNext(ks, fs);
      assert forall i :: 0 <= i < |nodes| ==> nodes[i].awoken == r[i];
    }

    /** The loop of pop_and_wake_next over the reader run at the head. */
    method WakeReaderRun()
      requires Valid() && nodes != [] && nodes[0].kind == Reader && !nodes[0].awoken
      modifies nodes
      ensures Flags(nodes) == WakeNext(Kinds(nodes), old(Flags(nodes)))
    {
      ghost var fs := Flags(nodes);
      ghost var ks := Kinds(nodes);
      var k := 0;
      while k < |nodes| && nodes[k].kind == Reader
        invariant 0 <= k <= ReaderRun(ks)
        invariant forall i :: 0 <= i < k ==> nodes[i].awoken
        invariant forall i :: k <= i < |nodes| ==> nodes[i].awoken == fs[i]
      {
        if !nodes[k].awoken {
          Wake(k);
        }
        k := k + 1;
      }
      assert k == ReaderRun(ks);
      ghost var r := WakeNext(ks, fs);
      assert forall i :: 0 <= i < |nodes| ==> nodes[i].awoken == r[i];
    }

    /** Posting the semaphore of the node at position `k` wakes that node
        and no other. */
    method Wake(k: nat)
      requires Valid() && k < |nodes|
      modifies nodes[k]
      ensures nodes[k].awoken
      ensures forall i :: 0 <= i < |nodes| && i != k ==> nodes[i].awoken == old(nodes[i].awoken)
    {
      nodes[k].awoken := true;
    }
  }
}
