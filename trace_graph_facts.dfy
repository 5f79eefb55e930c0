/** What the fold `TraceGraph.Build` guarantees about the graph of a whole
    trace: which nodes exist, which state each ends in, which edges appear,
    and that the emitted node list is determined up to order. */
module TraceGraphFacts {
  import opened TraceGraph

  /** The creation edges of a trace read front to back: one per creation
      event, in event order, none merged and none dropped. */
  function CreateEdges(events: seq<Event>): seq<Edge>
  {
    if events == [] then []
    else
      (if events[0].kind.GoCreate? then [Edge(events[0].g, events[0].arg0)] else [])
      + CreateEdges(events[1..])
  }

  /** The positions of the creation events of a trace. */
  function CreatePositions(events: seq<Event>): set<nat>
  {
    set i: nat | i < |events| && events[i].kind.GoCreate?
  }

  /** Every id a creation event names, as parent or as child. */
  function CreatedIds(events: seq<Event>): set<u64>
  {
    (set i | 0 <= i < |events| && events[i].kind.GoCreate? :: events[i].g)
    + (set i | 0 <= i < |events| && events[i].kind.GoCreate? :: events[i].arg0)
  }

  /** `ev` is a start or end event of goroutine `k`. */
  predicate Touches(ev: Event, k: u64)
  {
    (ev.kind.GoStart? || ev.kind.GoEnd?) && ev.g == k
  }

  lemma {:induction false} CreateEdgesAppend(a: seq<Event>, b: seq<Event>)
    ensures CreateEdges(a + b) == CreateEdges(a) + CreateEdges(b)
    decreases |a|
  {
    if a != [] {
      assert (a + b)[1..] == a[1..] + b;
      CreateEdgesAppend(a[1..], b);
    } else {
      assert a + b == b;
    }
  }

  /** The empty trace yields the main goroutine alone, running, and no edge. */
  lemma EmptyTrace()
    ensures Build([]) == Builder(map[MainId := Running], [])
  {
  }

  /** The edge list is exactly the creation edges, in event order. */
  lemma {:induction false} EdgesAreCreations(events: seq<Event>)
    ensures Build(events).edges == CreateEdges(events)
    decreases |events|
  {
    if events != [] {
      var p, last := events[..|events| - 1], events[|events| - 1];
      assert events == p + [last];
      EdgesAreCreations(p);
      CreateEdgesAppend(p, [last]);
    }
  }

  /** Appending one event adds its position, if it is a creation. */
  lemma CreatePositionsSnoc(p: seq<Event>, last: Event)
    ensures CreatePositions(p + [last])
         == CreatePositions(p) + (if last.kind.GoCreate? then {|p|} else {})
  {
    var e := p + [last];
    forall i: nat | i < |p| ensures e[i] == p[i] {}
    assert e[|p|] == last;
  }

  /** As many edges as creation events. */
  lemma {:induction false} EdgeCount(events: seq<Event>)
    ensures |Build(events).edges| == |CreatePositions(events)|
    decreases |events|
  {
    if events != [] {
      var n := |events| - 1;
      var p, last := events[..n], events[n];
      EdgeCount(p);
      assert events == p + [last];
      CreatePositionsSnoc(p, last);
      assert n !in CreatePositions(p);
    }
  }

  /** Appending one event adds the ids it names, if it is a creation. */
  lemma CreatedIdsSnoc(p: seq<Event>, last: Event)
    ensures CreatedIds(p + [last])
         == CreatedIds(p) + (if last.kind.GoCreate? then {last.g, last.arg0} else {})
  {
    var e := p + [last];
    forall x | x in CreatedIds(e)
      ensures x in CreatedIds(p) + (if last.kind.GoCreate? then {last.g, last.arg0} else {})
    {
      var i :| 0 <= i < |e| && e[i].kind.GoCreate? && (x == e[i].g || x == e[i].arg0);
      if i < |p| {
        assert e[i] == p[i];
      }
    }
    forall x | x in CreatedIds(p) ensures x in CreatedIds(e) {
      var i :| 0 <= i < |p| && p[i].kind.GoCreate? && (x == p[i].g || x == p[i].arg0);
      assert e[i] == p[i];
    }
    if last.kind.GoCreate? {
      assert e[|p|] == last;
    }
  }

  /** The node ids are the main goroutine and every id a creation names. */
  lemma {:induction false} NodeKeys(events: seq<Event>)
    ensures Build(events).goroutines.Keys == {MainId} + CreatedIds(events)
    decreases |events|
  {
    if events != [] {
      var n := |events| - 1;
      var p, last := events[..n], events[n];
      NodeKeys(p);
      assert events == p + [last];
      CreatedIdsSnoc(p, last);
    }
  }

  /** No node comes from a start or end event alone: an id that is not main
      and that no creation names has no node. */
  lemma NoSynthesis(events: seq<Event>, k: u64)
    requires k != MainId && k !in CreatedIds(events)
    ensures k !in Build(events).goroutines
  {
    NodeKeys(events);
  }

  /** The last start or end event of a goroutine that already has a node
      decides its final state, whatever came before. */
  lemma {:induction false} LastLifecycleWins(events: seq<Event>, k: u64, j: nat)
    requires j < |events| && Touches(events[j], k)
    requires k == MainId || k in CreatedIds(events[..j])
    requires forall n :: j < n < |events| ==> !Touches(events[n], k)
    ensures k in Build(events).goroutines
    ensures Build(events).goroutines[k] == Target(events[j].kind)
    decreases |events|
  {
    var n := |events| - 1;
    var p := events[..n];
    if n == j {
      NodeKeys(p);
    } else {
      assert p[..j] == events[..j];
      LastLifecycleWins(p, k, j);
    }
  }

  /** A goroutine whose start and end events all came while it had no node
      (or that has none) keeps the state it was first given: running for
      main, created for every other. Together with `LastLifecycleWins` this
      fixes the final state of every node. */
  lemma {:induction false} UntouchedKeepsInitial(events: seq<Event>, k: u64)
    requires k in Build(events).goroutines
    requires forall n :: 0 <= n < |events| && Touches(events[n], k) ==> k !in Build(events[..n]).goroutines
    ensures Build(events).goroutines[k] == if k == MainId then Running else Created
    decreases |events|
  {
    if events != [] {
      var p := events[..|events| - 1];
      if k in Build(p).goroutines {
        forall n | 0 <= n < |p| && Touches(p[n], k)
          ensures k !in Build(p[..n]).goroutines
        {
          assert p[..n] == events[..n];
        }
        UntouchedKeepsInitial(p, k);
      }
    }
  }

  /** A four-event trace: main creates 2, 2 starts, creates 3 and ends. */
  lemma ExampleTrace()
    ensures Build([Event(GoCreate, 1, 2), Event(GoStart, 2, 0), Event(GoCreate, 2, 3), Event(GoEnd, 2, 0)])
         == Builder(map[1 := Running, 2 := Finished, 3 := Created], [Edge(1, 2), Edge(2, 3)])
  {
    var e := [Event(GoCreate, 1, 2), Event(GoStart, 2, 0), Event(GoCreate, 2, 3), Event(GoEnd, 2, 0)];
    assert e[..1][..0] == [] && e[..2][..1] == e[..1] && e[..3][..2] == e[..2];
    assert Build(e[..1]) == Builder(map[1 := Running, 2 := Created], [Edge(1, 2)]);
    assert Build(e[..2]) == Builder(map[1 := Running, 2 := Running], [Edge(1, 2)]);
    assert Build(e[..3]) == Builder(map[1 := Running, 2 := Running, 3 := Created], [Edge(1, 2), Edge(2, 3)]);
  }

  /** The ids of a node list. */
  function Ids(nodes: seq<Node>): set<u64>
  {
    set i | 0 <= i < |nodes| :: nodes[i].id
  }

  lemma {:induction false} DistinctIdsCount(nodes: seq<Node>)
    requires forall i, j :: 0 <= i < j < |nodes| ==> nodes[i].id != nodes[j].id
    ensures |Ids(nodes)| == |nodes|
    decreases |nodes|
  {
    if nodes != [] {
      var n := |nodes| - 1;
      var p := nodes[..n];
      DistinctIdsCount(p);
      assert Ids(nodes) == Ids(p) + {nodes[n].id};
      assert nodes[n].id !in Ids(p);
    }
  }

  /** An emitted node list has exactly one entry per node of the map. */
  lemma NodeListSize(nodes: seq<Node>, m: map<u64, State>)
    requires ListsNodes(nodes, m)
    ensures |nodes| == |m|
  {
    DistinctIdsCount(nodes);
    assert Ids(nodes) == m.Keys;
  }

  /** Two emitted node lists of one map hold the same nodes: they can differ
      in order only. */
  lemma NodeListsAgree(a: seq<Node>, b: seq<Node>, m: map<u64, State>)
    requires ListsNodes(a, m) && ListsNodes(b, m)
    ensures |a| == |b|
    ensures forall x :: x in a <==> x in b
  {
    NodeListSize(a, m);
    NodeListSize(b, m);
    forall x | x in a ensures x in b {
      var i :| 0 <= i < |a| && a[i] == x;
      var j :| 0 <= j < |b| && b[j].id == x.id;
    }
    forall x | x in b ensures x in a {
      var j :| 0 <= j < |b| && b[j] == x;
      var i :| 0 <= i < |a| && a[i].id == x.id;
    }
  }
}
