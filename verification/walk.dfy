/** `walkConsumerList` (etw-enum-windbg.js:99-182): the bounded walk along the
    `Flink` links of a session's real-time consumer list, collecting one entry
    per consumer whose process identity resolves. The loop is stated over a
    `Viewer`, the per-node part of the loop body, so that its bounds and stop
    conditions hold whatever the nodes contain. */
module Walk {
  import opened Options
  import opened Target
  import opened Resolver

  /** Bytes read from a node before it is looked at as a structure: eight quadwords (line 119) */
  const NODE_PROBE_BYTES: nat := 64

  /** One entry the walk appends to the session's consumer list (lines 139-144) */
  datatype Consumer = Consumer(pid: nat, imageName: string, consumerAddr: Addr, eprocessAddr: Addr)

  /** What one pass of the loop body learns about a node. `Unreadable`: the raw
      read or the `ProcessObject` read threw, so nothing was appended. `Readable`:
      the entry it appended, if any, and its `Links.Flink` (`None` when that read
      threw after the entry was already appended). */
  datatype NodeView = Unreadable | Readable(entry: Option<Consumer>, next: Option<Addr>)

  type View = Addr -> NodeView

  /** Why the walk ended */
  datatype Stop =
    | EndOfList     // the current address was 0 or the list head (line 108)
    | Exhausted     // `count` reached `maxConsumers` (line 105)
    | BackAtHead    // a node's Flink was the list head (line 161)
    | BackAtFirst   // a node's Flink was the first node (line 166)
    | ReadFault     // a read threw (line 174)

  /** The consumers appended, and the nodes examined in order */
  datatype Walked = Walked(consumers: seq<Consumer>, examined: seq<Addr>, stop: Stop)

  /** The body of the loop for the node at `node` (lines 119-156) */
  function ViewNode(t: Snapshot, layout: Layout, node: Addr): (v: NodeView)
    ensures v.Readable? && v.entry.Some? ==>
      && v.entry.value.consumerAddr == node
      && v.entry.value.eprocessAddr != 0
      && v.entry.value.pid > 0
    ensures v.Unreadable? <==>
      ReadBytes(t.memory, node, NODE_PROBE_BYTES).None? || ReadQuad(t.memory, node, layout.processObjectOffset).None?
    ensures v.Readable? ==> v.next == ReadQuad(t.memory, node, layout.linksOffset)
    ensures v.Readable? ==>
      var process := ReadQuad(t.memory, node, layout.processObjectOffset).value;
      && (v.entry.Some? <==> process != 0 && ResolveProcess(t, process).Some?)
      && (v.entry.Some? ==>
            && v.entry.value.eprocessAddr == process
            && v.entry.value.pid == ResolveProcess(t, process).value.pid
            && v.entry.value.imageName == ResolveProcess(t, process).value.imageName)
  {
    if ReadBytes(t.memory, node, NODE_PROBE_BYTES).None? then Unreadable
    else match ReadQuad(t.memory, node, layout.processObjectOffset)
      case None => Unreadable
      case Some(process) =>
        var entry :=
          if process == 0 then None
          else match ResolveProcess(t, process)
            case None => None
            case Some(id) => Some(Consumer(id.pid, id.imageName, node, process));
        Readable(entry, ReadQuad(t.memory, node, layout.linksOffset))
  }

  function Viewer(t: Snapshot, layout: Layout): View {
    (node: Addr) => ViewNode(t, layout, node)
  }

  /** Every entry a view appends names the node it came from and a resolved process */
  ghost predicate SoundView(view: View) {
    forall node: Addr {:trigger view(node)} ::
      view(node).Readable? && view(node).entry.Some? ==>
        && view(node).entry.value.consumerAddr == node
        && view(node).entry.value.eprocessAddr != 0
        && view(node).entry.value.pid > 0
  }

  lemma ViewerIsSound(t: Snapshot, layout: Layout)
    ensures SoundView(Viewer(t, layout))
  {
    forall node: Addr
      ensures Viewer(t, layout)(node) == ViewNode(t, layout, node)
    {
    }
  }

  /** The entry, if any, that examining `node` appends */
  function EntryOf(view: View, node: Addr): Option<Consumer> {
    match view(node)
    case Unreadable => None
    case Readable(entry, _) => entry
  }

  /** The Flink read from `node`, `None` when the node or its link cannot be read */
  function NextOf(view: View, node: Addr): Option<Addr> {
    match view(node)
    case Unreadable => None
    case Readable(_, next) => next
  }

  /** Through the snapshot's view, the link the walk follows from a node is the
      node's `Links.Flink`, and there is none when the node cannot be read */
  lemma ViewerLinks(t: Snapshot, layout: Layout, node: Addr)
    ensures NextOf(Viewer(t, layout), node) ==
      if ReadBytes(t.memory, node, NODE_PROBE_BYTES).None? || ReadQuad(t.memory, node, layout.processObjectOffset).None?
      then None
      else ReadQuad(t.memory, node, layout.linksOffset)
  {
    assert Viewer(t, layout)(node) == ViewNode(t, layout, node);
  }

  /** The entries examining `nodes` in order appends: the nodes' own entries, in node order */
  function Entries(view: View, nodes: seq<Addr>): (cs: seq<Consumer>)
    ensures |cs| <= |nodes|
    ensures SoundView(view) ==>
      forall i | 0 <= i < |cs| :: cs[i].consumerAddr in nodes && cs[i].eprocessAddr != 0 && cs[i].pid > 0
  {
    if |nodes| == 0 then []
    else
      var rest := Entries(view, nodes[1..]);
      match EntryOf(view, nodes[0])
      case None => rest
      case Some(c) => [c] + rest
  }

  /** The loop from the node at `cur`, with `count` nodes already advanced past */
  function WalkFrom(view: View, first: Addr, head: Addr, maxConsumers: nat, cur: Addr, count: nat): (w: Walked)
    requires count <= maxConsumers
    ensures count + |w.examined| <= maxConsumers
    ensures w.consumers == Entries(view, w.examined)
    decreases maxConsumers - count
  {
    if count >= maxConsumers then Walked([], [], Exhausted)
    else if cur == 0 || cur == head then Walked([], [], EndOfList)
    else match view(cur)
      case Unreadable => Walked([], [cur], ReadFault)
      case Readable(entry, next) =>
        var here := if entry.Some? then [entry.value] else [];
        if next.None? then Walked(here, [cur], ReadFault)
        else if next.value == head then Walked(here, [cur], BackAtHead)
        else if next.value == first then Walked(here, [cur], BackAtFirst)
        else
          var rest := WalkFrom(view, first, head, maxConsumers, next.value, count + 1);
          Walked(here + rest.consumers, [cur] + rest.examined, rest.stop)
  }

  /** The nodes the walk examines start at `cur` and follow the Flink links; none
      is 0 or the head, and none after the start is the first node again */
  lemma {:induction false} WalkFollowsLinks(view: View, first: Addr, head: Addr, maxConsumers: nat, cur: Addr, count: nat)
    requires count <= maxConsumers
    ensures var e := WalkFrom(view, first, head, maxConsumers, cur, count).examined;
      && (|e| > 0 ==> e[0] == cur)
      && (forall i | 0 <= i < |e| :: e[i] != 0 && e[i] != head)
      && (forall i | 0 < i < |e| :: e[i] != first)
      && (forall i | 0 <= i < |e| - 1 :: NextOf(view, e[i]) == Some(e[i + 1]))
    decreases maxConsumers - count
  {
    if count < maxConsumers && cur != 0 && cur != head {
      var v := view(cur);
      if v.Readable? && v.next.Some? && v.next.value != head && v.next.value != first {
        var next := v.next.value;
        WalkFollowsLinks(view, first, head, maxConsumers, next, count + 1);
        var rest := WalkFrom(view, first, head, maxConsumers, next, count + 1).examined;
        var e := WalkFrom(view, first, head, maxConsumers, cur, count).examined;
        assert e == [cur] + rest;
        assert NextOf(view, cur) == Some(next);
        forall i | 0 <= i < |e| - 1
          ensures NextOf(view, e[i]) == Some(e[i + 1])
        {
          if i > 0 {
            assert e[i] == rest[i - 1] && e[i + 1] == rest[i];
          }
        }
      }
    }
  }

  /** `walkConsumerList(first, head, consumers, maxConsumers)` started on an empty `consumers` */
  function WalkConsumerList(view: View, first: Addr, head: Addr, maxConsumers: nat): (w: Walked)
    ensures |w.examined| <= maxConsumers
    ensures |w.consumers| <= |w.examined|
    ensures w.consumers == Entries(view, w.examined)
    ensures |w.examined| > 0 ==> w.examined[0] == first
    ensures forall i | 0 <= i < |w.examined| :: w.examined[i] != 0 && w.examined[i] != head
    ensures forall i | 0 < i < |w.examined| :: w.examined[i] != first
    ensures forall i | 0 <= i < |w.examined| - 1 :: NextOf(view, w.examined[i]) == Some(w.examined[i + 1])
    ensures SoundView(view) ==> forall i | 0 <= i < |w.consumers| ::
      w.consumers[i].consumerAddr in w.examined && w.consumers[i].eprocessAddr != 0 && w.consumers[i].pid > 0
  {
    WalkFollowsLinks(view, first, head, maxConsumers, first, 0);
    WalkFrom(view, first, head, maxConsumers, first, 0)
  }

  /** The last node the walk examined */
  function Last(nodes: seq<Addr>): Addr
    requires |nodes| > 0
  {
    nodes[|nodes| - 1]
  }

  /** Why the walk stopped, in terms of the last node examined */
  lemma {:induction false} WalkStopReason(view: View, first: Addr, head: Addr, maxConsumers: nat, cur: Addr, count: nat)
    requires count <= maxConsumers
    ensures var w := WalkFrom(view, first, head, maxConsumers, cur, count);
      && (w.stop == Exhausted ==> count + |w.examined| == maxConsumers)
      && (w.stop == EndOfList ==> if |w.examined| == 0 then cur == 0 || cur == head else NextOf(view, Last(w.examined)) == Some(0))
      && (w.stop == BackAtHead ==> |w.examined| > 0 && NextOf(view, Last(w.examined)) == Some(head))
      && (w.stop == BackAtFirst ==> |w.examined| > 0 && NextOf(view, Last(w.examined)) == Some(first))
      && (w.stop == ReadFault ==> |w.examined| > 0 && NextOf(view, Last(w.examined)).None?)
    decreases maxConsumers - count
  {
    if count < maxConsumers && cur != 0 && cur != head {
      var v := view(cur);
      if v.Readable? && v.next.Some? && v.next.value != head && v.next.value != first {
        var rest := WalkFrom(view, first, head, maxConsumers, v.next.value, count + 1);
        WalkStopReason(view, first, head, maxConsumers, v.next.value, count + 1);
        var w := WalkFrom(view, first, head, maxConsumers, cur, count);
        assert w.examined == [cur] + rest.examined && w.stop == rest.stop;
        if |rest.examined| > 0 {
          assert Last(w.examined) == Last(rest.examined);
        }
      }
    }
  }

  /** A start at address 0 or at the list head reads nothing: the result is the
      same whatever the nodes hold */
  lemma WalkAtEndReadsNothing(view1: View, view2: View, first: Addr, head: Addr, maxConsumers: nat, cur: Addr, count: nat)
    requires count <= maxConsumers
    requires cur == 0 || cur == head
    ensures WalkFrom(view1, first, head, maxConsumers, cur, count) == WalkFrom(view2, first, head, maxConsumers, cur, count)
    ensures WalkFrom(view1, first, head, maxConsumers, cur, count).examined == []
  {
  }

  /** `nodes` form a readable circular list hanging off `head`: each node's Flink
      is the next node, the last one's is the head or the first node again */
  ghost predicate IsRing(view: View, head: Addr, nodes: seq<Addr>) {
    && |nodes| > 0
    && (forall i | 0 <= i < |nodes| :: nodes[i] != 0 && nodes[i] != head && view(nodes[i]).Readable?)
    && (forall i | 0 < i < |nodes| :: nodes[i] != nodes[0])
    && (forall i | 0 <= i < |nodes| - 1 :: NextOf(view, nodes[i]) == Some(nodes[i + 1]))
    && (NextOf(view, nodes[|nodes| - 1]) == Some(head) || NextOf(view, nodes[|nodes| - 1]) == Some(nodes[0]))
  }

  function Min(a: nat, b: nat): nat {
    if a <= b then a else b
  }

  /** Inside a ring, the walk examines the node it stands on and carries on at the next one */
  lemma RingStep(view: View, head: Addr, nodes: seq<Addr>, maxConsumers: nat, i: nat)
    requires IsRing(view, head, nodes)
    requires i + 1 < |nodes| && i < maxConsumers
    ensures var w := WalkFrom(view, nodes[0], head, maxConsumers, nodes[i], i);
      var rest := WalkFrom(view, nodes[0], head, maxConsumers, nodes[i + 1], i + 1);
      w.examined == [nodes[i]] + rest.examined && w.stop == rest.stop
  {
    var v := view(nodes[i]);
    assert v.Readable? && v.next == NextOf(view, nodes[i]);
    assert v.next == Some(nodes[i + 1]) && nodes[i + 1] != head && nodes[i + 1] != nodes[0];
  }

  /** At the last node of a ring, the walk examines it and stops back at the head or the first node */
  lemma RingLast(view: View, head: Addr, nodes: seq<Addr>, maxConsumers: nat)
    requires IsRing(view, head, nodes)
    requires |nodes| <= maxConsumers
    ensures var w := WalkFrom(view, nodes[0], head, maxConsumers, nodes[|nodes| - 1], |nodes| - 1);
      w.examined == [nodes[|nodes| - 1]] && (w.stop == BackAtHead || w.stop == BackAtFirst)
  {
    var v := view(nodes[|nodes| - 1]);
    assert v.Readable? && v.next == NextOf(view, nodes[|nodes| - 1]);
  }

  /** A non-empty slice is its first element followed by the rest */
  lemma SliceCons(s: seq<Addr>, i: nat, m: nat)
    requires i < m <= |s|
    ensures s[i..m] == [s[i]] + s[i + 1..m]
  {
  }

  lemma {:induction false} WalkRingFrom(view: View, head: Addr, nodes: seq<Addr>, maxConsumers: nat, i: nat)
    requires IsRing(view, head, nodes)
    requires i < |nodes| && i <= maxConsumers
    ensures var w := WalkFrom(view, nodes[0], head, maxConsumers, nodes[i], i);
      w.examined == nodes[i..Min(|nodes|, maxConsumers)]
    decreases |nodes| - i
  {
    var m := Min(|nodes|, maxConsumers);
    if i < maxConsumers {
      if i + 1 < |nodes| {
        RingStep(view, head, nodes, maxConsumers, i);
        WalkRingFrom(view, head, nodes, maxConsumers, i + 1);
        SliceCons(nodes, i, m);
      } else {
        RingLast(view, head, nodes, maxConsumers);
        assert nodes[i..m] == [nodes[i]];
      }
    }
  }

  lemma {:induction false} WalkRingStopFrom(view: View, head: Addr, nodes: seq<Addr>, maxConsumers: nat, i: nat)
    requires IsRing(view, head, nodes)
    requires i < |nodes| && i <= maxConsumers
    ensures var w := WalkFrom(view, nodes[0], head, maxConsumers, nodes[i], i);
      && (|nodes| <= maxConsumers ==> w.stop == BackAtHead || w.stop == BackAtFirst)
      && (|nodes| > maxConsumers ==> w.stop == Exhausted)
    decreases |nodes| - i
  {
    if i < maxConsumers {
      if i + 1 < |nodes| {
        RingStep(view, head, nodes, maxConsumers, i);
        WalkRingStopFrom(view, head, nodes, maxConsumers, i + 1);
      } else {
        RingLast(view, head, nodes, maxConsumers);
      }
    }
  }

  /** A circular list of K nodes is walked in link order: all K nodes when K is
      within `maxConsumers`, stopping back at the head or the first node, and
      only the first `maxConsumers` of them otherwise */
  lemma WalkRing(view: View, head: Addr, nodes: seq<Addr>, maxConsumers: nat)
    requires IsRing(view, head, nodes)
    ensures var w := WalkConsumerList(view, nodes[0], head, maxConsumers);
      && w.examined == nodes[..Min(|nodes|, maxConsumers)]
      && w.consumers == Entries(view, nodes[..Min(|nodes|, maxConsumers)])
      && (|nodes| <= maxConsumers ==> w.stop == BackAtHead || w.stop == BackAtFirst)
      && (|nodes| > maxConsumers ==> w.stop == Exhausted)
  {
    WalkRingFrom(view, head, nodes, maxConsumers, 0);
    WalkRingStopFrom(view, head, nodes, maxConsumers, 0);
  }
}
