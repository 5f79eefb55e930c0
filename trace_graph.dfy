/** The concurrency-graph builder of the trace visualiser backend.

    A single forward pass over the decoded runtime trace folds the events into
    a graph: one node per goroutine id, carrying a lifecycle state, and one
    "created by" edge per goroutine-creation event, in event order.

    `Build` is the fold as a function (the specification); `BuildGraph` is the
    loop the backend runs, proved to compute it; `AnalyzeTrace` adds the two
    ways reading the trace file can fail. */
module TraceGraph {

  /** Go's uint64, the type of goroutine ids in the trace. */
  newtype u64 = x: int | 0 <= x < 0x1_0000_0000_0000_0000

  /** The main goroutine, present before any event is read. */
  const MainId: u64 := 1

  datatype State = Created | Running | Finished

  /** The event kinds the builder acts on; every other kind the decoder
      yields falls into `Other` and is skipped. */
  datatype Kind = GoCreate | GoStart | GoEnd | Other

  /** A decoded trace event: its kind, the goroutine it belongs to (`G`) and
      its first argument (`Args[0]`), which for a creation is the new
      goroutine's id. */
  datatype Event = Event(kind: Kind, g: u64, arg0: u64)

  /** "`from` created `to`". */
  datatype Edge = Edge(from: u64, to: u64)

  datatype Node = Node(id: u64, state: State)

  datatype Graph = Graph(nodes: seq<Node>, edges: seq<Edge>)

  /** The accumulator of the fold: the state of every goroutine seen so far,
      keyed by id, and the edges appended so far. */
  datatype Builder = Builder(goroutines: map<u64, State>, edges: seq<Edge>)

  /** The state a start or end event moves an existing goroutine to. */
  function Target(kind: Kind): State
    requires kind.GoStart? || kind.GoEnd?
  {
    if kind.GoStart? then Running else Finished
  }

  /** The accumulator before the first event: only the main goroutine, running. */
  function Seed(): Builder
  {
    Builder(map[MainId := Running], [])
  }

  /** One event applied to the accumulator. */
  function Step(b: Builder, ev: Event): (b': Builder)
    // a creation seeds the missing parent and child as Created, keeps every
    // existing node as it was, and adds exactly one edge parent -> child
    ensures ev.kind.GoCreate? ==>
      && b'.goroutines.Keys == b.goroutines.Keys + {ev.g, ev.arg0}
      && (forall k :: k in b.goroutines ==> b'.goroutines[k] == b.goroutines[k])
      && (forall k :: k in b'.goroutines && k !in b.goroutines ==> b'.goroutines[k] == Created)
      && b'.edges == b.edges + [Edge(ev.g, ev.arg0)]
    // a start or end for an unknown goroutine changes nothing
    ensures (ev.kind.GoStart? || ev.kind.GoEnd?) && ev.g !in b.goroutines ==> b' == b
    // a start or end for a known goroutine moves that node only
    ensures (ev.kind.GoStart? || ev.kind.GoEnd?) && ev.g in b.goroutines ==>
      && b'.goroutines.Keys == b.goroutines.Keys
      && b'.goroutines[ev.g] == Target(ev.kind)
      && (forall k :: k in b.goroutines && k != ev.g ==> b'.goroutines[k] == b.goroutines[k])
      && b'.edges == b.edges
    // any other kind is skipped
    ensures ev.kind.Other? ==> b' == b
  {
    match ev.kind
    case GoCreate =>
      var withParent := if ev.g in b.goroutines then b.goroutines else b.goroutines[ev.g := Created];
      var withChild := if ev.arg0 in withParent then withParent else withParent[ev.arg0 := Created];
      Builder(withChild, b.edges + [Edge(ev.g, ev.arg0)])
    case GoStart =>
      if ev.g in b.goroutines then b.(goroutines := b.goroutines[ev.g := Running]) else b
    case GoEnd =>
      if ev.g in b.goroutines then b.(goroutines := b.goroutines[ev.g := Finished]) else b
    case Other =>
      b
  }

  /** The fold of a whole event sequence, in order, starting from `Seed()`. */
  function Build(events: seq<Event>): (b: Builder)
    ensures MainId in b.goroutines
    decreases |events|
  {
    if events == [] then Seed()
    else Step(Build(events[..|events| - 1]), events[|events| - 1])
  }

  /** `nodes` lists every entry of `m` exactly once, in some order. */
  predicate ListsNodes(nodes: seq<Node>, m: map<u64, State>)
  {
    && (forall i :: 0 <= i < |nodes| ==> nodes[i].id in m && m[nodes[i].id] == nodes[i].state)
    && (forall k :: k in m ==> exists i :: 0 <= i < |nodes| && nodes[i].id == k)
    && (forall i, j :: 0 <= i < j < |nodes| ==> nodes[i].id != nodes[j].id)
  }

  /** The graph-building part of `analyzeTrace`: the event loop over a
      mutable id-to-node map and edge list, then the loop that copies the
      map's nodes into the output list in the map's (unspecified) order. */
  method BuildGraph(events: seq<Event>) returns (graph: Graph)
    ensures graph.edges == Build(events).edges
    ensures ListsNodes(graph.nodes, Build(events).goroutines)
  {
    var goroutines: map<u64, State> := map[MainId := Running];
    var edges: seq<Edge> := [];
    for i := 0 to |events|
      invariant Builder(goroutines, edges) == Build(events[..i])
    {
      var ev := events[i];
      match ev.kind {
        case GoCreate =>
          var childId, parentId := ev.arg0, ev.g;
          if parentId !in goroutines {
            goroutines := goroutines[parentId := Created];
          }
          if childId !in goroutines {
            goroutines := goroutines[childId := Created];
          }
          edges := edges + [Edge(parentId, childId)];
        case GoStart =>
          if ev.g in goroutines {
            goroutines := goroutines[ev.g := Running];
          }
        case GoEnd =>
          if ev.g in goroutines {
            goroutines := goroutines[ev.g := Finished];
          }
        case Other =>
      }
      assert events[..i + 1][..i] == events[..i];
    }
    assert events[..|events|] == events;

    var nodes: seq<Node> := [];
    var pending := goroutines.Keys;
    while pending != {}
      invariant pending <= goroutines.Keys
      invariant forall i :: 0 <= i < |nodes| ==>
        nodes[i].id in goroutines && nodes[i].id !in pending && goroutines[nodes[i].id] == nodes[i].state
      invariant forall k :: k in goroutines && k !in pending ==> exists i :: 0 <= i < |nodes| && nodes[i].id == k
      invariant forall i, j :: 0 <= i < j < |nodes| ==> nodes[i].id != nodes[j].id
      decreases pending
    {
      var id :| id in pending;
      ghost var before := nodes;
      nodes := nodes + [Node(id, goroutines[id])];
      pending := pending - {id};
      forall k | k in goroutines && k !in pending
        ensures exists i :: 0 <= i < |nodes| && nodes[i].id == k
      {
        if k == id {
          assert nodes[|nodes| - 1].id == k;
        } else {
          var i :| 0 <= i < |before| && before[i].id == k;
          assert nodes[i].id == k;
        }
      }
    }
    graph := Graph(nodes, edges);
  }

  /** What reading the trace file produced: the file could not be opened,
      the decoder rejected it, or the decoded events. */
  datatype Decoded = OpenFailed(cause: string) | ParseFailed(cause: string) | Parsed(events: seq<Event>)

  datatype Result<T> = Ok(value: T) | Err(message: string)

  const OpenErrorPrefix := "could not open trace file: "
  const ParseErrorPrefix := "failed to parse trace data: "

  /** `analyzeTrace`: an open or decode failure becomes an error whose text
      wraps the cause; a decoded trace becomes the graph. */
  method AnalyzeTrace(decoded: Decoded) returns (r: Result<Graph>)
    ensures decoded.OpenFailed? ==> r == Err(OpenErrorPrefix + decoded.cause)
    ensures decoded.ParseFailed? ==> r == Err(ParseErrorPrefix + decoded.cause)
    ensures decoded.Parsed? ==>
      && r.Ok?
      && r.value.edges == Build(decoded.events).edges
      && ListsNodes(r.value.nodes, Build(decoded.events).goroutines)
  {
    match decoded {
      case OpenFailed(cause) =>
        r := Err(OpenErrorPrefix + cause);
      case ParseFailed(cause) =>
        r := Err(ParseErrorPrefix + cause);
      case Parsed(events) =>
        var graph := BuildGraph(events);
        r := Ok(graph);
    }
  }
}
