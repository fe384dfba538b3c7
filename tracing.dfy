/**
 * The tracing client as the BDD adapter sees it: spans are opened and their
 * finish callbacks invoked. The client itself is not modelled; every request
 * made of it is appended to an event log.
 */
module Tracing {

  /** The callbacks a context can carry as its finish function. */
  datatype FinishFn =
    | Noop                // the root scope's `func() {}`
    | EndSpan(span: nat)  // a container's `span.Finish()`
    | EndTest(span: nat)  // the finish function returned when a test span is started

  datatype Event =
    | ContainerStarted(span: nat, name: string, step: string, framework: string)
    | TestStarted(span: nat, step: string, suite: string, framework: string)
    | Invoked(fn: FinishFn)

  class Tracer {
    var events: seq<Event>
    var nextSpan: nat

    constructor ()
      ensures events == [] && nextSpan == 0
    {
      events, nextSpan := [], 0;
    }

    /** Opens the span of a container; its identity is the next unused number. */
    method StartContainerSpan(name: string, step: string, framework: string) returns (span: nat)
      modifies this
      ensures span == old(nextSpan) && nextSpan == span + 1
      ensures events == old(events) + [ContainerStarted(span, name, step, framework)]
    {
      span := nextSpan;
      nextSpan := nextSpan + 1;
      events := events + [ContainerStarted(span, name, step, framework)];
    }

    /** Opens the span of a test; its identity is the next unused number. */
    method StartTestSpan(step: string, suite: string, framework: string) returns (span: nat)
      modifies this
      ensures span == old(nextSpan) && nextSpan == span + 1
      ensures events == old(events) + [TestStarted(span, step, suite, framework)]
    {
      span := nextSpan;
      nextSpan := nextSpan + 1;
      events := events + [TestStarted(span, step, suite, framework)];
    }

    /** Runs a finish callback once. */
    method Invoke(fn: FinishFn)
      modifies this
      ensures events == old(events) + [Invoked(fn)] && nextSpan == old(nextSpan)
    {
      events := events + [Invoked(fn)];
    }
  }
}
