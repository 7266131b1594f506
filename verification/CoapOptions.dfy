/** The option list of a CoAP message: singly linked nodes with a head and a tail pointer. */
module CoapOptions {
  import opened Bytes
  import opened CoapFormat

  /** struct mg_coap_option */
  class Node {
    const number: nat
    const value: bytes
    var next: Node?

    constructor (number: nat, value: bytes)
      ensures this.number == number && this.value == value && next == null
    {
      this.number, this.value, next := number, value, null;
    }
  }

  /** The options of a chain of nodes. */
  function OptsOf(nodes: seq<Node>): (r: seq<Opt>)
    ensures |r| == |nodes|
    ensures forall i :: 0 <= i < |nodes| ==> r[i] == Opt(nodes[i].number, nodes[i].value)
  {
    seq(|nodes|, i requires 0 <= i < |nodes| => Opt(nodes[i].number, nodes[i].value))
  }

  lemma OptsOfInserted(was: seq<Node>, k: nat, node: Node)
    requires k <= |was|
    ensures OptsOf(was[..k] + [node] + was[k..])
         == OptsOf(was)[..k] + [Opt(node.number, node.value)] + OptsOf(was)[k..]
  {
  }

  /** Each node points to the one behind it, the last one to NULL. */
  ghost predicate Chained(nodes: seq<Node>)
    reads nodes
  {
    && (forall i :: 0 <= i < |nodes| - 1 ==> nodes[i].next == nodes[i + 1])
    && (nodes != [] ==> nodes[|nodes| - 1].next == null)
  }

  lemma {:induction false} FirstAboveUnique(opts: seq<Opt>, n: nat, k: nat)
    requires k <= |opts|
    requires forall i :: 0 <= i < k ==> opts[i].number <= n
    requires k < |opts| ==> opts[k].number > n
    ensures FirstAbove(opts, n) == k
  {
    if k > 0 {
      FirstAboveUnique(opts[1..], n, k - 1);
    }
  }

  lemma DistinctInserted(was: seq<Node>, k: nat, node: Node)
    requires k <= |was| && Distinct(was) && node !in was
    ensures Distinct(was[..k] + [node] + was[k..])
  {
    var now := was[..k] + [node] + was[k..];
    forall i, j | 0 <= i < j < |now|
      ensures now[i] != now[j]
    {
      var i', j' := if i < k then i else i - 1, if j < k then j else j - 1;
      if i == k {
        assert now[j] == was[j'];
      } else if j == k {
        assert now[i] == was[i'];
      } else {
        assert now[i] == was[i'] && now[j] == was[j'];
      }
    }
  }

  class OptionList {
    var head: Node?
    var tail: Node?
    ghost var nodes: seq<Node>

    ghost predicate Valid()
      reads this, nodes
    {
      && (if nodes == [] then head == null else head == nodes[0] && tail == nodes[|nodes| - 1])
      && Distinct(nodes)
      && Chained(nodes)
    }

    ghost function Options(): seq<Opt>
      reads this
    {
      OptsOf(nodes)
    }

    constructor ()
      ensures Valid() && nodes == []
    {
      head, tail, nodes := null, null, [];
    }

    /** mg_coap_free_options */
    method Free()
      requires Valid()
      modifies this
      ensures Valid() && nodes == []
    {
      ghost var i := 0;
      while head != null
        modifies this`head
        invariant 0 <= i <= |nodes| && Chained(nodes)
        invariant head == if i < |nodes| then nodes[i] else null
        decreases |nodes| - i
      {
        head := head.next;
        i := i + 1;
      }
      nodes := [];
    }

    /** The search loop: the last node not above `number`, and its successor. */
    method FindPlace(number: nat) returns (prev: Node?, current: Node?, ghost k: nat)
      requires Valid()
      ensures k == FirstAbove(Options(), number)
      ensures prev == if k > 0 then nodes[k - 1] else null
      ensures current == if k < |nodes| then nodes[k] else null
    {
      prev, current, k := null, head, 0;
      while current != null && current.number <= number
        invariant k <= |nodes|
        invariant prev == if k > 0 then nodes[k - 1] else null
        invariant current == if k < |nodes| then nodes[k] else null
        invariant forall i :: 0 <= i < k ==> nodes[i].number <= number
        decreases |nodes| - k
      {
        prev := current;
        current := current.next;
        k := k + 1;
      }
      FirstAboveUnique(Options(), number, k);
    }

    /** The new node becomes the last one. */
    method LinkLast(node: Node)
      requires Valid() && node !in nodes && node.next == null
      modifies this, nodes
      ensures Valid() && nodes == old(nodes) + [node]
    {
      DistinctInserted(nodes, |nodes|, node);
      assert nodes[..|nodes|] + [node] + nodes[|nodes|..] == nodes + [node];
      if head == null {
        head, tail := node, node;
      } else {
        tail.next := node;
        tail := node;
      }
      nodes := nodes + [node];
    }

    /** The new node goes between `prev` and `current`, or to the beginning. */
    method LinkBetween(node: Node, prev: Node?, current: Node?, ghost k: nat)
      requires Valid() && node !in nodes && k < |nodes|
      requires prev == if k > 0 then nodes[k - 1] else null
      requires current == nodes[k]
      modifies this, nodes, node
      ensures Valid() && nodes == old(nodes)[..k] + [node] + old(nodes)[k..]
    {
      hide Distinct;
      ghost var was := nodes;
      assert forall i :: 0 <= i < |was| && i != k - 1 ==> was[i] != prev by {
        DistinctAt(was, k - 1);
      }
      if prev != null {
        prev.next := node;
        node.next := current;
      } else {
        node.next := head;
        head := node;
      }
      nodes := was[..k] + [node] + was[k..];
      DistinctInserted(was, k, node);
      ChainedInserted(was, nodes, k, node);
    }

    static lemma DistinctAt(nodes: seq<Node>, k: int)
      requires Distinct(nodes) && k < |nodes|
      ensures forall i :: 0 <= i < |nodes| && 0 <= k != i ==> nodes[i] != nodes[k]
    {
    }

    static lemma ChainedInserted(was: seq<Node>, now: seq<Node>, k: nat, node: Node)
      requires k < |was| && now == was[..k] + [node] + was[k..]
      requires forall i :: 0 <= i < |was| - 1 && i != k - 1 ==> was[i].next == was[i + 1]
      requires was[|was| - 1].next == null
      requires k > 0 ==> was[k - 1].next == node
      requires node.next == was[k]
      ensures Chained(now)
    {
      forall i | 0 <= i < |now| - 1
        ensures now[i].next == now[i + 1]
      {
        if i > k {
          assert now[i] == was[i - 1] && now[i + 1] == was[i];
          assert was[i - 1].next == was[i - 1 + 1];
        }
      }
    }

    /** mg_coap_add_option */
    method Add(number: nat, value: bytes)
      requires Valid()
      modifies this, nodes
      ensures Valid() && Options() == AddOption(old(Options()), Opt(number, value))
      ensures forall i :: 0 <= i < |nodes| ==> nodes[i] in old(nodes) || fresh(nodes[i])
    {
      hide Valid, OptsOf, AddOption, FirstAbove, Place;
      var node := new Node(number, value);
      ghost var was := nodes;
      Ends();
      if head == null || tail.number <= number {
        LinkLast(node);
        AppendedLast(was, node);
      } else {
        var prev, current, k := FindPlace(number);
        FirstAboveInside(was, number);
        LinkBetween(node, prev, current, k);
        Inserted(was, k, node);
      }
    }

    static lemma AppendedLast(was: seq<Node>, node: Node)
      requires was == [] || was[|was| - 1].number <= node.number
      ensures OptsOf(was + [node]) == AddOption(OptsOf(was), Opt(node.number, node.value))
    {
    }

    static lemma Inserted(was: seq<Node>, k: nat, node: Node)
      requires was != [] && was[|was| - 1].number > node.number && k <= |was|
      requires k == FirstAbove(OptsOf(was), node.number)
      ensures OptsOf(was[..k] + [node] + was[k..]) == AddOption(OptsOf(was), Opt(node.number, node.value))
      ensures var now := was[..k] + [node] + was[k..]; forall i :: 0 <= i < |now| ==> now[i] in was || now[i] == node
    {
      hide FirstAbove;
      OptsOfInserted(was, k, node);
      AddOptionInside(OptsOf(was), Opt(node.number, node.value));
    }

    static lemma AddOptionInside(opts: seq<Opt>, o: Opt)
      requires opts != [] && opts[|opts| - 1].number > o.number
      ensures var k := FirstAbove(opts, o.number); AddOption(opts, o) == opts[..k] + [o] + opts[k..]
    {
    }

    lemma Ends()
      requires Valid()
      ensures head == null <==> nodes == []
      ensures nodes != [] ==> tail == nodes[|nodes| - 1]
    {
    }

    /** When the last number is above `number`, the place is not behind the end. */
    static lemma FirstAboveInside(s: seq<Node>, number: nat)
      requires s != [] && s[|s| - 1].number > number
      ensures FirstAbove(OptsOf(s), number) < |s|
    {
    }
  }
}
