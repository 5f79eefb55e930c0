# Goroutine trace visualiser backend — graph builder and request outcome

The backend receives a short Go program, runs it with `go run` under a
5-second deadline, reads the runtime trace file `trace.out` that the program
writes, and answers with a concurrency graph: one node per goroutine, with a
lifecycle state (`created`, `running` or `finished`), and one edge per
goroutine creation (parent → child).

This project models two parts of `backend.go`:

- **The graph builder** in `analyzeTrace` (module `TraceGraph`, lemmas in
  `TraceGraphFacts`). Events are folded in order into a map from goroutine
  id to state, seeded with goroutine 1 running, plus an edge list.
  `Step` and `Build` are that fold written as functions. `BuildGraph` is the
  backend's loop over a mutable map and edge list, proved to compute `Build`.
  It then copies the map's nodes into a list, one entry per id. The order of
  that copy is chosen nondeterministically, because Go's map iteration order
  is unspecified. `AnalyzeTrace` adds the two ways reading the file fails:
  it cannot be opened, or it cannot be decoded.
- **The request outcome cascade** in `traceHandler` (module `Handler`).
  The checks run in this order: body read, source file written, deadline
  exceeded, trace file missing, analysis failed. The first that fails
  decides the reply. `Classify` is the cascade up to analysis.
  `TraceHandler` adds the analysis and its reply.

Goroutine ids are Go `uint64`, modelled as the newtype `u64`. A decoded
event carries its kind, its goroutine `G` and its first argument `Args[0]`.
For a creation, `Args[0]` is the new goroutine's id. The trace library's
`Args` is a fixed-size array, so `Args[0]` always exists.

Three behaviours of the handler that the model keeps as the code has them:

- Only a not-exist result from `os.Stat` stops the handler (backend.go:81).
  Any other lookup error goes on to analysis, where opening the file may
  fail. `RunReport.traceMissing` therefore means "the lookup said
  not-exist".
- The timeout reply carries a fixed hint, not the program's output
  (backend.go:73-76).
- The error from `ioutil.TempDir` is ignored (backend.go:53). Directory
  creation is not modelled.

## Model

| member | source | states |
|---|---|---|
| TraceGraph.Step | backend.go:152-175 | A creation adds the parent and the child only if absent, in state created, keeps every existing node's state, and appends exactly one edge parent → child. A start or end for an unknown id changes nothing. For a known id it sets that node to running or finished and leaves every other node and the edges alone. Any other kind changes nothing. |
| TraceGraph.Build | backend.go:147-176 | For every event sequence, the main goroutine (id 1) has a node. |
| TraceGraph.BuildGraph | backend.go:141-181 | The loops compute the fold: the edge list is exactly `Build(events).edges`. The node list holds every entry of the final map exactly once, with its state, and nothing else. |
| TraceGraph.AnalyzeTrace | backend.go:110-189 | A file that cannot be opened gives the error "could not open trace file: " followed by the cause. A file that cannot be decoded gives "failed to parse trace data: " followed by the cause. A decoded trace gives the graph of the fold of its events. |
| TraceGraphFacts.EmptyTrace | backend.go:147-149 | The empty trace yields exactly one node, id 1 running, and no edges. |
| TraceGraphFacts.EdgesAreCreations | backend.go:153-163 | The edge list equals the creation events' (G, Args[0]) pairs, read front to back, with nothing merged and nothing dropped. |
| TraceGraphFacts.EdgeCount | backend.go:153-163 | The number of edges equals the number of creation events. |
| TraceGraphFacts.NodeKeys | backend.go:147-163 | The node ids are exactly {1} together with every parent and child id that a creation event names. |
| TraceGraphFacts.NoSynthesis | backend.go:165-174 | An id other than 1 that no creation names has no node, whatever start or end events mention it. |
| TraceGraphFacts.LastLifecycleWins | backend.go:165-174 | Take the last start or end event of a goroutine that already had a node at that point. That event decides the goroutine's final state: running for a start, finished for an end. |
| TraceGraphFacts.UntouchedKeepsInitial | backend.go:147-174 | A node whose start and end events all came while it had no node, or that has none, keeps its first state: running for id 1, created for every other id. Those early events are ignored. With LastLifecycleWins this gives the final state of every node. |
| TraceGraphFacts.ExampleTrace | backend.go:151-176 | Take the trace create(1→2), start(2), create(2→3), end(2). It yields node 1 running, node 2 finished, node 3 created, and the edges [(1,2), (2,3)]. |
| TraceGraphFacts.NodeListSize | backend.go:179-181 | An emitted node list has exactly as many entries as the map has ids. |
| TraceGraphFacts.NodeListsAgree | backend.go:179-181 | Any two node lists emitted from the same map hold the same nodes and have the same length. They differ at most in order. |
| Handler.Classify | backend.go:46-90 | Analysis happens if and only if the body was read, the file was written, the deadline did not pass and the trace was not reported missing. Once the program has run, a passed deadline gives the timeout reply, whatever the trace file's status. A missing trace gives the "trace.out not generated" reply with the program's output. No reply decided here carries a graph. |
| Handler.TraceHandler | backend.go:46-106 | A reply decided before analysis does not depend on the trace file. An open or decode failure gives the "Failed to analyze trace.out" reply with the wrapped cause. A graph reply comes if and only if the run was clean and the trace decoded, and that graph is the fold of the decoded events. |
| Handler.TimeoutIgnoresArtifact | backend.go:69-90 | When the deadline passed after the program ran, the reply is the timeout reply. It stays the same whatever the trace file's status and the program's output. |
| Handler.ErrorRepliesDistinct | backend.go:70-101 | The timeout, missing-trace and analysis-failure replies are pairwise different. |

## Left out

- HTTP plumbing is not modelled: `withCORS`, `rootHandler`, `main`, headers, and JSON encoding of the replies (backend.go:21-44). Replies are datatypes carrying the status code and the fields of the JSON object.
- Filesystem I/O is not modelled: creating the temporary directory, writing `main.go`, removing the directory, and the `os.Stat` lookup. Their outcomes are the booleans of `RunReport`.
- Running the program is not modelled: `exec.CommandContext` under a 5-second `context.WithTimeout`. Whether the deadline passed and the combined output are inputs.
- `trace.Parse` and the binary trace format belong to an external library and are not modelled. What reading the file produced is the input `Decoded`. Other event fields (timestamps, `Args[1..]`, stacks) are dropped.
- Node labels (`goroutine N`, `goroutine 1 (main)`) and the constant node type `goroutine` are presentation only and are left out of `Node`.
- In the source, node state changes through a pointer held in the map. The model replaces the map entry instead. No other reference to a node exists, so nothing is lost by this.
- Determinism of the fold (re-folding a trace gives the same graph) is not a separate lemma. It holds because `Build` is a function; `NodeListsAgree` covers the one nondeterministic part, the node order.
