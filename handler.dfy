/** The outcome cascade of the `/trace` request handler: read the submitted
    code, write it to a fresh directory, run it under a deadline, look for
    the trace file, analyze it. Each step can end the request with an error
    reply; the first failing step decides which.

    The I/O itself is not modelled: what each step observed arrives as a
    `RunReport`, and what reading the trace file produced as a
    `TraceGraph.Decoded`. */
module Handler {
  import opened TraceGraph

  /** What the steps before analysis observed.
      `codeRead`: the request body was read; `sourceWritten`: the code was
      written to the source file; `deadlineExceeded`: the run's context
      reported its deadline passed; `traceMissing`: looking up the trace
      file reported that it does not exist; `output`: the run's combined
      standard output and error. */
  datatype RunReport = RunReport(
    codeRead: bool,
    sourceWritten: bool,
    deadlineExceeded: bool,
    traceMissing: bool,
    output: string)

  /** The reply sent: a plain-text error, a JSON error object, or (with
      status 200) the JSON object holding the graph under "trace". */
  datatype Reply =
    | PlainError(status: int, text: string)
    | JsonError(status: int, fields: map<string, string>)
    | TraceReply(graph: Graph)

  /** Where the cascade stops before analysis, or that it goes on to analyze. */
  datatype Verdict = Respond(reply: Reply) | Analyze

  const ReadFailedReply := PlainError(400, "Failed to read code")

  const WriteFailedReply := PlainError(500, "Failed to write temp file")

  const TimedOutReply := JsonError(400, map[
    "error" := "Execution timed out after 5 seconds.",
    "go_run_output" := "This often happens with long-running servers or programs with infinite loops. Please ensure your program terminates to generate a complete trace."])

  function MissingTraceReply(output: string): Reply
  {
    JsonError(500, map[
      "error" := "trace.out not generated",
      "go_run_output" := output,
      "run_error" := "This can happen if there was a compile error in the code."])
  }

  function AnalyzeFailedReply(message: string): Reply
  {
    JsonError(500, map["error" := "Failed to analyze trace.out", "analyze_error" := message])
  }

  /** The checks before analysis, in the handler's order. */
  function Classify(run: RunReport): (v: Verdict)
    // analysis happens exactly when every earlier step succeeded
    ensures v.Analyze? <==>
      run.codeRead && run.sourceWritten && !run.deadlineExceeded && !run.traceMissing
    // once the program ran, a passed deadline wins over a missing trace
    ensures run.codeRead && run.sourceWritten && run.deadlineExceeded ==> v == Respond(TimedOutReply)
    // a missing trace is reported with the run's output, and never analyzed
    ensures run.codeRead && run.sourceWritten && !run.deadlineExceeded && run.traceMissing ==>
      v == Respond(MissingTraceReply(run.output))
    // no reply before analysis carries a graph
    ensures v.Respond? ==> !v.reply.TraceReply?
  {
    if !run.codeRead then Respond(ReadFailedReply)
    else if !run.sourceWritten then Respond(WriteFailedReply)
    else if run.deadlineExceeded then Respond(TimedOutReply)
    else if run.traceMissing then Respond(MissingTraceReply(run.output))
    else Analyze
  }

  /** `traceHandler`: the cascade, then, only if it got that far, the
      analysis of the trace file and its reply. */
  method TraceHandler(run: RunReport, decoded: Decoded) returns (reply: Reply)
    // a reply decided before analysis does not depend on the trace file at all
    ensures Classify(run).Respond? ==> reply == Classify(run).reply
    ensures Classify(run).Analyze? && decoded.OpenFailed? ==>
      reply == AnalyzeFailedReply(OpenErrorPrefix + decoded.cause)
    ensures Classify(run).Analyze? && decoded.ParseFailed? ==>
      reply == AnalyzeFailedReply(ParseErrorPrefix + decoded.cause)
    // only a decoded trace after a clean run yields a graph, and it is the fold of its events
    ensures reply.TraceReply? <==> Classify(run).Analyze? && decoded.Parsed?
    ensures reply.TraceReply? ==>
      && reply.graph.edges == Build(decoded.events).edges
      && ListsNodes(reply.graph.nodes, Build(decoded.events).goroutines)
  {
    match Classify(run) {
      case Respond(early) =>
        reply := early;
      case Analyze =>
        var analyzed := AnalyzeTrace(decoded);
        match analyzed {
          case Err(message) =>
            reply := AnalyzeFailedReply(message);
          case Ok(graph) =>
            reply := TraceReply(graph);
        }
    }
  }

  /** A passed deadline decides the reply whether or not a trace file exists
      and whatever the run printed. */
  lemma TimeoutIgnoresArtifact(run: RunReport, missing: bool, output: string)
    requires run.codeRead && run.sourceWritten && run.deadlineExceeded
    ensures Classify(run) == Classify(run.(traceMissing := missing, output := output))
    ensures Classify(run) == Respond(TimedOutReply)
  {
  }

  /** The three error replies once the program has run never collide: a
      timeout, a missing trace and a failed analysis are told apart. */
  lemma ErrorRepliesDistinct(output: string, message: string)
    ensures TimedOutReply != MissingTraceReply(output)
    ensures TimedOutReply != AnalyzeFailedReply(message)
    ensures MissingTraceReply(output) != AnalyzeFailedReply(message)
  {
    assert TimedOutReply.fields["error"] != MissingTraceReply(output).fields["error"];
    assert TimedOutReply.status != AnalyzeFailedReply(message).status;
    assert MissingTraceReply(output).fields["error"] != AnalyzeFailedReply(message).fields["error"];
  }
}
