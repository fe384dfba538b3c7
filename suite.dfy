/**
 * The container/test nesting state machine of the BDD adapter
 * (ginkgo/internal/suite.go). Containers push a scope with a new counter;
 * a registered test increments the counter of every scope on the chain it
 * captured; leaving the test decrements them again and runs the finish
 * callback of each scope whose count reaches 0.
 */
module Suite {
  import opened Wrappers
  import opened Tracing
  import opened Contexts
  import opened States
  import opened RefCount

  datatype SuiteError =
    | SuiteClosed                                // "suite is closed"
    | NoParentFor(top: Ctx, cause: StateError)   // "no parent for ...: state.pop: no parent"

  /** The panic of newTest: "corrupted stack on <scope>". */
  datatype RegisterPanic = CorruptedOnRegister(scope: Ctx)

  datatype LeaveError =
    | NotEntered(test: Ctx)       // "not entered in test ..."
    | CountBelowZero(scope: Ctx)  // "count < 0 for ..."
    | CorruptedStack(scope: Ctx)  // "corrupted stack on ..."

  /** The error Leave returns for an outcome of the walk over chain `ch`. */
  function LeaveErrorOf(ch: seq<Ctx>, err: Option<WalkError>): (r: Option<LeaveError>)
    requires err.Some? ==> err.value.at < |ch|
    ensures r.None? <==> err.None?
    ensures err.Some? && err.value.Negative? ==> r == Some(CountBelowZero(ch[err.value.at]))
    ensures err.Some? && err.value.Corrupted? ==> r == Some(CorruptedStack(ch[err.value.at]))
  {
    match err
    case None => None
    case Some(Negative(at)) => Some(CountBelowZero(ch[at]))
    case Some(Corrupted(at)) => Some(CorruptedStack(ch[at]))
  }

  /** The invocations of the finish callbacks of the scopes `idx` of chain `ch`, in that order. */
  ghost function FinishEvents(ch: seq<Ctx>, idx: seq<nat>): (r: seq<Event>)
    ensures |r| <= |idx|
  {
    if idx == [] then []
    else
      var first := if idx[0] < |ch| && GetFinish(ch[idx[0]]).Some? then [Invoked(GetFinish(ch[idx[0]]).value)] else [];
      first + FinishEvents(ch, idx[1..])
  }

  /** Every event is an invocation, one per index when each index is a scope carrying a callback. */
  lemma {:induction false} FinishEventsShape(ch: seq<Ctx>, idx: seq<nat>)
    ensures forall e :: e in FinishEvents(ch, idx) ==> e.Invoked?
    ensures (forall j :: 0 <= j < |idx| ==> idx[j] < |ch| && GetFinish(ch[idx[j]]).Some?) ==> |FinishEvents(ch, idx)| == |idx|
  {
    if idx != [] {
      FinishEventsShape(ch, idx[1..]);
    }
  }

  lemma {:induction false} FinishEventsSnoc(ch: seq<Ctx>, idx: seq<nat>, i: nat)
    requires i < |ch| && GetFinish(ch[i]).Some?
    ensures FinishEvents(ch, idx + [i]) == FinishEvents(ch, idx) + [Invoked(GetFinish(ch[i]).value)]
  {
    if idx != [] {
      assert (idx + [i])[1..] == idx[1..] + [i];
      FinishEventsSnoc(ch, idx[1..], i);
    }
  }

  /** Seen through the chain, adding to its first `n` counters adds to its first `n` counts. */
  lemma CountsOnChain(cells: seq<int>, ch: seq<Ctx>, n: nat, delta: int)
    requires ScopedChain(ch, |cells|) && n <= |ch|
    ensures Counts(ch, AddOnChain(cells, ch, n, delta)) == AddPrefix(Counts(ch, cells), n, delta)
  {
    AddOnChainCounts(cells, ch, n, delta);
  }

  /** A registered test: the chain it captured, and its finish function once entered. */
  class Test {
    const ctx: Ctx
    const framework: string
    const tracer: Tracer
    const store: Counters
    var finish: Option<FinishFn>

    ghost predicate Valid()
      reads store
    {
      Scoped(ctx, |store.cells|)
    }

    constructor (c: Ctx, framework: string, tracer: Tracer, store: Counters)
      requires Scoped(c, |store.cells|)
      ensures Valid() && ctx == c && this.framework == framework
      ensures this.tracer == tracer && this.store == store && finish == None
    {
      ctx, this.framework, this.tracer, this.store := c, framework, tracer, store;
      finish := None;
    }

    /** Opens the test's span below its captured chain; always succeeds. */
    method Enter(step: string, suite: string) returns (err: Option<LeaveError>)
      modifies this, tracer
      ensures err == None
      ensures finish == Some(EndTest(old(tracer.nextSpan)))
      ensures tracer.nextSpan == old(tracer.nextSpan) + 1
      ensures tracer.events == old(tracer.events) + [TestStarted(old(tracer.nextSpan), step, suite, framework)]
    {
      var span := tracer.StartTestSpan(step, suite, framework);
      finish := Some(EndTest(span));
      err := None;
    }

    /**
     * Closes the test's span, then decrements every counter of the captured
     * chain, leaf-most first, as `LeaveWalk` describes. The finish function is
     * left in place, so a second Leave walks the chain again.
     */
    method Leave() returns (err: Option<LeaveError>)
      requires Valid()
      modifies store, tracer
      ensures tracer.nextSpan == old(tracer.nextSpan)
      ensures finish.None? ==>
        err == Some(NotEntered(ctx)) && store.cells == old(store.cells) && tracer.events == old(tracer.events)
      ensures finish.Some? ==>
        var ch := Chain(ctx);
        var w := LeaveWalk(Counts(ch, old(store.cells)), 0, 0);
        && err == LeaveErrorOf(ch, w.err)
        && store.cells == AddOnChain(old(store.cells), ch, w.stop, -1)
        && tracer.events == old(tracer.events) + [Invoked(finish.value)] + FinishEvents(ch, w.finished)
    {
      if finish.None? {
        return Some(NotEntered(ctx));
      }
      tracer.Invoke(finish.value);
      err := LeaveChain(ctx, tracer, store);
    }
  }

  /** The loop of `Leave`: walks the chain of `c`, leaf-most first, as `LeaveWalk` describes. */
  method LeaveChain(c: Ctx, tracer: Tracer, store: Counters) returns (err: Option<LeaveError>)
    requires Scoped(c, |store.cells|)
    modifies store, tracer
    ensures tracer.nextSpan == old(tracer.nextSpan)
    ensures LeaveDone(Chain(c), old(store.cells), old(tracer.events),
                      LeaveWalk(Counts(Chain(c), old(store.cells)), 0, 0), err, store.cells, tracer.events)
  {
    ghost var ch := Chain(c);
    ghost var cells0 := store.cells;
    ghost var w := LeaveWalk(Counts(ch, cells0), 0, 0);
    ghost var e0 := tracer.events;
    ghost var fin: seq<nat> := [];
    ghost var i: nat := 0;
    var nbToPop := 0;
    var cur := Some(c);
    assert fin + w.finished == w.finished;
    while cur.Some?
      invariant i <= |ch|
      invariant cur.Some? <==> i < |ch|
      invariant cur.Some? ==> cur.value == ch[i]
      invariant LeaveInv(ch, cells0, e0, w, i, nbToPop, fin, store.cells, tracer.events)
      invariant tracer.nextSpan == old(tracer.nextSpan)
      decreases |ch| - i
    {
      var x := cur.value;
      LeaveInvStep(ch, cells0, e0, w, i, nbToPop, fin, store.cells, tracer.events);
      var value := DecTestCount(x, store);
      if value.value == 0 {
        if nbToPop < 0 {
          return Some(CorruptedStack(x));
        }
        nbToPop := nbToPop + 1;
        var ferr := Finish(x, tracer);
        assert ferr == None;
        fin := fin + [i];
      } else if value.value < 0 {
        return Some(CountBelowZero(x));
      } else {
        nbToPop := -1;
      }
      i := i + 1;
      cur := GetParent(x);
    }
    assert w == Walk(|ch|, fin, None) by {
      assert fin + [] == fin;
    }
    err := None;
  }

  /**
   * What holds before the pass over the `i`-th scope of `ch`: the counters before
   * it are decremented, the scopes `fin` are finished and `w` is what remains
   * of the walk after them.
   */
  ghost predicate LeaveInv(ch: seq<Ctx>, cells0: seq<int>, e0: seq<Event>, w: Walk,
                           i: nat, nbToPop: int, fin: seq<nat>, cells: seq<int>, events: seq<Event>)
    requires ScopedChain(ch, |cells0|) && i <= |ch|
  {
    && cells == AddOnChain(cells0, ch, i, -1)
    && w == Preceded(fin, LeaveWalk(Counts(ch, cells0), i, nbToPop))
    && events == e0 + FinishEvents(ch, fin)
  }

  /** What holds once the walk `w` is over: Leave's result and new state. */
  ghost predicate LeaveDone(ch: seq<Ctx>, cells0: seq<int>, e0: seq<Event>, w: Walk,
                            err: Option<LeaveError>, cells: seq<int>, events: seq<Event>)
    requires ScopedChain(ch, |cells0|) && w.stop <= |ch| && (w.err.Some? ==> w.err.value.at < |ch|)
  {
    && err == LeaveErrorOf(ch, w.err)
    && cells == AddOnChain(cells0, ch, w.stop, -1)
    && events == e0 + FinishEvents(ch, w.finished)
  }

  /** One pass of the leave loop over the `i`-th scope, in each of its four outcomes. */
  lemma LeaveInvStep(ch: seq<Ctx>, cells0: seq<int>, e0: seq<Event>, w: Walk,
                     i: nat, nbToPop: int, fin: seq<nat>, cells: seq<int>, events: seq<Event>)
    requires ScopedChain(ch, |cells0|) && i < |ch|
    requires LeaveInv(ch, cells0, e0, w, i, nbToPop, fin, cells, events)
    ensures var k := GetCounter(ch[i]).value;
      && k < |cells| && w.stop <= |ch| && (w.err.Some? ==> w.err.value.at < |ch|)
      && var value := cells[k] - 1;
      && var cells' := cells[k := value];
      && (value == 0 && nbToPop >= 0 ==>
            LeaveInv(ch, cells0, e0, w, i + 1, nbToPop + 1, fin + [i], cells', events + [Invoked(GetFinish(ch[i]).value)]))
      && (value == 0 && nbToPop < 0 ==> LeaveDone(ch, cells0, e0, w, Some(CorruptedStack(ch[i])), cells', events))
      && (value < 0 ==> LeaveDone(ch, cells0, e0, w, Some(CountBelowZero(ch[i])), cells', events))
      && (value > 0 ==> LeaveInv(ch, cells0, e0, w, i + 1, -1, fin, cells', events))
  {
    var c0 := Counts(ch, cells0);
    AddOnChainStep(cells0, ch, i, -1);
    LeaveWalkStep(c0, i, nbToPop, fin);
    LeaveWalkFinished(c0, 0, 0);
    if cells[GetCounter(ch[i]).value] == 1 && nbToPop >= 0 {
      FinishEventsSnoc(ch, fin, i);
    }
  }

  /**
   * newTest: increments every counter from `c` to the root; panics when an
   * incremented count is below 1 (the counters before it stay incremented).
   */
  method NewTest(c: Ctx, framework: string, tracer: Tracer, store: Counters) returns (r: Result<Test, RegisterPanic>)
    requires Scoped(c, |store.cells|)
    modifies store
    ensures store.cells == AddOnChain(old(store.cells), Chain(c), RegisterStop(Counts(Chain(c), old(store.cells))), 1)
    ensures r.Failure? <==> FirstNegative(Counts(Chain(c), old(store.cells))) < |Chain(c)|
    ensures r.Failure? ==> r.error == CorruptedOnRegister(Chain(c)[FirstNegative(Counts(Chain(c), old(store.cells)))])
    ensures r.Success? ==>
      && fresh(r.value) && r.value.Valid() && r.value.ctx == c && r.value.finish == None
      && r.value.framework == framework && r.value.tracer == tracer && r.value.store == store
  {
    ghost var ch := Chain(c);
    ghost var cells0 := store.cells;
    ghost var c0 := Counts(ch, cells0);
    ghost var i := 0;
    var cur := Some(c);
    while cur.Some?
      invariant 0 <= i <= |ch|
      invariant cur.Some? <==> i < |ch|
      invariant cur.Some? ==> cur.value == ch[i]
      invariant forall j :: 0 <= j < i ==> c0[j] >= 0
      invariant store.cells == AddOnChain(cells0, ch, i, 1)
      decreases |ch| - i
    {
      var x := cur.value;
      AddOnChainStep(cells0, ch, i, 1);
      var value := IncTestCount(x, store);
      if value.value < 1 {
        assert FirstNegative(c0) == i;
        return Failure(CorruptedOnRegister(x));
      }
      i := i + 1;
      cur := GetParent(x);
    }
    assert FirstNegative(c0) == |c0|;
    var t := new Test(c, framework, tracer, store);
    r := Success(t);
  }

  /** The chain that was current when it was taken. */
  class Snapshot {
    const frameworkName: string
    const ctx: Ctx
    const tracer: Tracer
    const store: Counters

    ghost predicate Valid()
      reads store
    {
      Scoped(ctx, |store.cells|)
    }

    constructor (frameworkName: string, c: Ctx, tracer: Tracer, store: Counters)
      requires Scoped(c, |store.cells|)
      ensures Valid() && this.frameworkName == frameworkName && ctx == c
      ensures this.tracer == tracer && this.store == store
    {
      this.frameworkName, ctx, this.tracer, this.store := frameworkName, c, tracer, store;
    }

    /** Registers a test on the captured chain, whatever the suite's current top is now. */
    method RegisterTest() returns (r: Result<Test, RegisterPanic>)
      requires Valid()
      modifies store
      ensures store.cells == AddOnChain(old(store.cells), Chain(ctx), RegisterStop(Counts(Chain(ctx), old(store.cells))), 1)
      ensures r.Failure? <==> FirstNegative(Counts(Chain(ctx), old(store.cells))) < |Chain(ctx)|
      ensures r.Failure? ==> r.error == CorruptedOnRegister(Chain(ctx)[FirstNegative(Counts(Chain(ctx), old(store.cells)))])
      ensures r.Success? ==>
        && fresh(r.value) && r.value.Valid() && r.value.ctx == ctx && r.value.finish == None
        && r.value.framework == frameworkName && r.value.tracer == tracer && r.value.store == store
    {
      r := NewTest(ctx, frameworkName, tracer, store);
    }
  }

  class SuiteTest {
    const frameworkName: string
    const state: State
    const tracer: Tracer
    const store: Counters
    var closed: bool

    ghost predicate Valid()
      reads this, state, store
    {
      Scoped(state.ctx, |store.cells|)
    }

    /** NewSuiteTest: a root scope with a no-op finish callback and a new counter at 0. */
    constructor (frameworkName: string, tracer: Tracer, store: Counters)
      modifies store
      ensures Valid() && fresh(state) && !closed
      ensures this.frameworkName == frameworkName && this.tracer == tracer && this.store == store
      ensures store.cells == old(store.cells) + [0]
      ensures Chain(state.ctx) == [state.ctx]
      ensures GetCounter(state.ctx) == Some(|old(store.cells)|) && GetFinish(state.ctx) == Some(Noop)
    {
      var root := WithTestCount(WithFinish(Background, Noop), 0, store);
      this.frameworkName, this.tracer, this.store := frameworkName, tracer, store;
      state := new State(root);
      closed := false;
      assert Chain(root) == [root];
    }

    /** Context: the current top. */
    function Context(): (c: Ctx)
      reads this, state, store
      requires Valid()
      ensures Scoped(c, |store.cells|) && c == state.ctx
    {
      state.ctx
    }

    /**
     * Opens a container span and pushes a scope that finishes it, with a new
     * counter at 0, unless the suite is closed. No existing counter changes.
     */
    method EnterContainer(step: string, text: string) returns (err: Option<SuiteError>)
      requires Valid()
      modifies state, tracer, store
      ensures Valid()
      ensures old(closed) ==>
        && err == Some(SuiteClosed) && state.ctx == old(state.ctx) && store.cells == old(store.cells)
        && tracer.events == old(tracer.events) && tracer.nextSpan == old(tracer.nextSpan)
      ensures !old(closed) ==>
        && err == None
        && store.cells == old(store.cells) + [0]
        && GetParent(state.ctx) == Some(old(state.ctx))
        && Chain(state.ctx) == [state.ctx] + Chain(old(state.ctx))
        && GetCounter(state.ctx) == Some(|old(store.cells)|)
        && GetFinish(state.ctx) == Some(EndSpan(old(tracer.nextSpan)))
        && tracer.nextSpan == old(tracer.nextSpan) + 1
        && tracer.events == old(tracer.events) + [ContainerStarted(old(tracer.nextSpan), text, step, frameworkName)]
    {
      if closed {
        return Some(SuiteClosed);
      }
      var span := tracer.StartContainerSpan(text, step, frameworkName);
      var n := |store.cells|;
      var c := WithTestCount(WithFinish(WithSpan(state.ctx, span), EndSpan(span)), 0, store);
      ScopedPush(c, state.ctx, n);
      state.Push(c);
      err := None;
    }

    /** Pops the top scope without finishing it, unless the suite is closed or the top is the root. */
    method LeaveContainer() returns (err: Option<SuiteError>)
      requires Valid()
      modifies state
      ensures Valid()
      ensures old(closed) ==> err == Some(SuiteClosed) && state.ctx == old(state.ctx)
      ensures !old(closed) && GetParent(old(state.ctx)).None? ==>
        err == Some(NoParentFor(old(state.ctx), NoParent)) && state.ctx == old(state.ctx)
      ensures !old(closed) && GetParent(old(state.ctx)).Some? ==>
        err == None && state.ctx == GetParent(old(state.ctx)).value
    {
      if closed {
        return Some(SuiteClosed);
      }
      ghost var top := state.ctx;
      var perr := state.Pop();
      if perr.Some? {
        return Some(NoParentFor(state.ctx, perr.value));
      }
      ScopedParent(top, |store.cells|);
      err := None;
    }

    /** Captures the current top. */
    method Snapshot() returns (s: Snapshot)
      requires Valid()
      ensures fresh(s) && s.Valid()
      ensures s.ctx == state.ctx && s.frameworkName == frameworkName && s.tracer == tracer && s.store == store
    {
      s := new Snapshot(frameworkName, state.ctx, tracer, store);
    }

    /**
     * Pops until Pop fails, so the top ends as the root, then marks the suite
     * closed. No finish callback runs and no counter changes.
     */
    method Close() returns (err: Option<SuiteError>)
      requires Valid()
      modifies this, state
      ensures Valid() && closed && err == None
      ensures state.ctx == Root(old(state.ctx)) && GetParent(state.ctx) == None
    {
      ghost var top := state.ctx;
      ghost var k := 0;
      ChainFrom(top, 0);
      var e := state.Pop();
      while e == None
        invariant k < |Chain(top)|
        invariant e == None ==> k + 1 < |Chain(top)| && state.ctx == Chain(top)[k + 1]
        invariant e != None ==> state.ctx == Chain(top)[k] && GetParent(state.ctx) == None
        decreases |Chain(top)| - k
      {
        k := k + 1;
        ChainFrom(top, k);
        e := state.Pop();
      }
      ChainFrom(top, k);
      ScopedFrom(top, |store.cells|, k);
      closed := true;
      err := None;
    }
  }

  /** The chain of SnapshotScenario: a container on cell 1 whose finish ends span 0, then the root on cell 0. */
  predicate TwoScopes(a: Ctx, root: Ctx)
  {
    && GetCounter(a) == Some(1) && GetCounter(root) == Some(0)
    && GetFinish(a) == Some(EndSpan(0)) && GetFinish(root) == Some(Noop)
  }

  lemma TwoScopesScoped(a: Ctx, root: Ctx)
    requires TwoScopes(a, root)
    ensures ScopedChain([a, root], 2) && Counts([a, root], [0, 0]) == [0, 0] && Counts([a, root], [1, 1]) == [1, 1]
  {
  }

  /** On a chain of two scopes over two cells, a full walk adds `delta` to both. */
  lemma AddOnBoth(cells: seq<int>, ch: seq<Ctx>, delta: int)
    requires |cells| == 2 && |ch| == 2 && ScopedChain(ch, 2)
    ensures AddOnChain(cells, ch, 2, delta) == [cells[0] + delta, cells[1] + delta]
  {
    AddOnChainStep(cells, ch, 0, delta);
    AddOnChainStep(cells, ch, 1, delta);
  }

  /** Registering on that chain with both counts at 0 increments both. */
  lemma TwoScopesRegister(a: Ctx, root: Ctx)
    requires TwoScopes(a, root)
    ensures ScopedChain([a, root], 2)
    ensures RegisterStop(Counts([a, root], [0, 0])) == 2 && FirstNegative(Counts([a, root], [0, 0])) == 2
    ensures AddOnChain([0, 0], [a, root], 2, 1) == [1, 1]
  {
    TwoScopesScoped(a, root);
    AddOnBoth([0, 0], [a, root], 1);
  }

  /** Leaving it with both counts at 1 finishes both scopes, leaf first. */
  lemma TwoScopesLeave(a: Ctx, root: Ctx)
    requires TwoScopes(a, root)
    ensures ScopedChain([a, root], 2)
    ensures LeaveWalk(Counts([a, root], [1, 1]), 0, 0) == Walk(2, [0, 1], None)
    ensures AddOnChain([1, 1], [a, root], 2, -1) == [0, 0]
    ensures FinishEvents([a, root], [0, 1]) == [Invoked(EndSpan(0)), Invoked(Noop)]
  {
    TwoScopesScoped(a, root);
    assert LeaveWalk([1, 1], 1, 1) == Walk(2, [1], None);
    AddOnBoth([1, 1], [a, root], -1);
    TwoScopesEvents(a, root);
  }

  lemma TwoScopesEvents(a: Ctx, root: Ctx)
    requires TwoScopes(a, root)
    ensures FinishEvents([a, root], [0, 1]) == [Invoked(EndSpan(0)), Invoked(Noop)]
  {
    var ch := [a, root];
    FinishEventsSnoc(ch, [0], 1);
    FinishEventsSnoc(ch, [], 0);
  }

  /** Leaving it again, with both counts at 0, stops at the container's count of -1. */
  lemma TwoScopesLeaveAgain(a: Ctx, root: Ctx)
    requires TwoScopes(a, root)
    ensures ScopedChain([a, root], 2)
    ensures LeaveWalk(Counts([a, root], [0, 0]), 0, 0) == Walk(1, [], Some(Negative(0)))
    ensures AddOnChain([0, 0], [a, root], 1, -1) == [0, -1]
  {
    TwoScopesScoped(a, root);
    AddOnChainStep([0, 0], [a, root], 0, -1);
  }

  /** A test registered from a snapshot of container A, taken before A was left. */
  method RegisterAfterLeaving() returns (t: Test, ghost a: Ctx, ghost root: Ctx)
    ensures fresh(t) && fresh(t.tracer) && fresh(t.store)
    ensures t.Valid() && t.finish == None && TwoScopes(a, root)
    ensures Chain(t.ctx) == [a, root] && t.store.cells == [1, 1] && t.tracer.nextSpan == 1
  {
    var tracer := new Tracer();
    var store := new Counters();
    var suite := new SuiteTest("ginkgo", tracer, store);
    root := suite.state.ctx;
    var e := suite.EnterContainer("Describe", "A");
    a := suite.state.ctx;
    var snap := suite.Snapshot();
    e := suite.LeaveContainer();
    assert Chain(a) == [a, root] && store.cells == [0, 0];
    TwoScopesRegister(a, root);
    var r := snap.RegisterTest();
    t := r.value;
  }

  /**
   * That test's Leave closes its span and finishes A and the root, whatever
   * the suite's top is by then; a second Leave finds A's count below 0.
   */
  method SnapshotScenario() returns (first: Option<LeaveError>, second: Option<LeaveError>,
                                     cells: seq<int>, finished: seq<Event>)
    ensures first == None && second.Some? && second.value.CountBelowZero?
    ensures cells == [0, -1]
    ensures finished == [Invoked(EndTest(1)), Invoked(EndSpan(0)), Invoked(Noop)]
  {
    var t, a, root := RegisterAfterLeaving();
    var entered := t.Enter("It", "suite");
    var before := t.tracer.events;
    TwoScopesLeave(a, root);
    first := t.Leave();
    finished := t.tracer.events[|before|..];
    TwoScopesLeaveAgain(a, root);
    second := t.Leave();
    cells := t.store.cells;
  }

  /** Leaving a test never entered fails and changes no counter. */
  method NotEnteredScenario() returns (err: Option<LeaveError>, cells: seq<int>)
    ensures err.Some? && err.value.NotEntered? && cells == [1]
  {
    var tracer := new Tracer();
    var store := new Counters();
    var suite := new SuiteTest("ginkgo", tracer, store);
    var snap := suite.Snapshot();
    var r := snap.RegisterTest();
    var t := r.value;
    err := t.Leave();
    cells := store.cells;
  }

  /** After Close the top is the root; containers can no longer be entered or left, and a second Close changes nothing. */
  method CloseScenario() returns (enter: Option<SuiteError>, leave: Option<SuiteError>, atRoot: bool, closedTwice: bool)
    ensures enter == Some(SuiteClosed) && leave == Some(SuiteClosed) && atRoot && closedTwice
  {
    var tracer := new Tracer();
    var store := new Counters();
    var suite := new SuiteTest("ginkgo", tracer, store);
    var root := suite.state.ctx;
    var e := suite.EnterContainer("Describe", "A");
    e := suite.EnterContainer("Context", "B");
    assert Chain(suite.state.ctx)[2] == root;
    e := suite.Close();
    atRoot := suite.state.ctx == root;
    e := suite.Close();
    closedTwice := suite.state.ctx == root && suite.closed;
    enter := suite.EnterContainer("Describe", "C");
    leave := suite.LeaveContainer();
  }
}
