/**
 * Scope contexts of the BDD adapter (ginkgo/internal/context.go).
 *
 * A Go `context.Context` is an immutable chain of key/value layers; a lookup
 * returns the value of the outermost layer carrying the key. Three keys are
 * used: the parent scope, the finish callback and a pointer to a shared test
 * counter. The counters are the only mutable part: they are the cells of one
 * `Counters` store, and a context holds the address of its cell.
 */
module Contexts {
  import opened Wrappers
  import opened Tracing

  /** The `*int64` cells WithTestCount allocates; a context refers to one by its address. */
  class Counters {
    var cells: seq<int>

    constructor ()
      ensures cells == []
    {
      cells := [];
    }
  }

  datatype Ctx =
    | Background                                 // context.Background()
    | SpanValue(inner: Ctx, span: nat)           // a context the tracer derived to carry a span
    | ParentValue(inner: Ctx, parent: Ctx)       // WithParent
    | FinishValue(inner: Ctx, finish: FinishFn)  // WithFinish
    | CountValue(inner: Ctx, counter: nat)       // WithTestCount: the address of the counter

  datatype ContextError = NoFinishFunction

  /** Number of layers, counting those of stored parents; bounds every walk. */
  function Size(c: Ctx): nat
  {
    match c
    case Background => 1
    case SpanValue(inner, _) => 1 + Size(inner)
    case ParentValue(inner, parent) => 1 + Size(inner) + Size(parent)
    case FinishValue(inner, _) => 1 + Size(inner)
    case CountValue(inner, _) => 1 + Size(inner)
  }

  /** The parent stored in `c`, or None (Go's nil) when no layer carries one. */
  function GetParent(c: Ctx): (r: Option<Ctx>)
    ensures r.Some? ==> Size(r.value) < Size(c)
    ensures c == Background ==> r == None
  {
    match c
    case Background => None
    case ParentValue(_, parent) => Some(parent)
    case SpanValue(inner, _) => GetParent(inner)
    case FinishValue(inner, _) => GetParent(inner)
    case CountValue(inner, _) => GetParent(inner)
  }

  /** The finish callback stored in `c`, if any. */
  function GetFinish(c: Ctx): (r: Option<FinishFn>)
    ensures c == Background ==> r == None
  {
    match c
    case Background => None
    case FinishValue(_, f) => Some(f)
    case SpanValue(inner, _) => GetFinish(inner)
    case ParentValue(inner, _) => GetFinish(inner)
    case CountValue(inner, _) => GetFinish(inner)
  }

  /** The address of the counter stored in `c`, if any. */
  function GetCounter(c: Ctx): (r: Option<nat>)
    ensures c == Background ==> r == None
  {
    match c
    case Background => None
    case CountValue(_, k) => Some(k)
    case SpanValue(inner, _) => GetCounter(inner)
    case ParentValue(inner, _) => GetCounter(inner)
    case FinishValue(inner, _) => GetCounter(inner)
  }

  /** `c` refers to no counter outside a store of `n` cells (a Go pointer never dangles). */
  predicate Addressed(c: Ctx, n: nat)
  {
    GetCounter(c).Some? ==> GetCounter(c).value < n
  }

  /** Attaches `parent`; every other key still resolves as in `c`. */
  function WithParent(c: Ctx, parent: Ctx): (r: Ctx)
    ensures GetParent(r) == Some(parent)
    ensures GetFinish(r) == GetFinish(c) && GetCounter(r) == GetCounter(c)
  {
    ParentValue(c, parent)
  }

  /** Attaches a finish callback; every other key still resolves as in `c`. */
  function WithFinish(c: Ctx, finish: FinishFn): (r: Ctx)
    ensures GetFinish(r) == Some(finish)
    ensures GetParent(r) == GetParent(c) && GetCounter(r) == GetCounter(c)
  {
    FinishValue(c, finish)
  }

  /** The context in which the tracer opened span `span` below `c`: no key changes. */
  function WithSpan(c: Ctx, span: nat): (r: Ctx)
    ensures GetParent(r) == GetParent(c) && GetFinish(r) == GetFinish(c)
    ensures GetCounter(r) == GetCounter(c)
  {
    SpanValue(c, span)
  }

  /** Allocates a new counter holding `count` and attaches its address; no existing cell changes. */
  method WithTestCount(c: Ctx, count: int, store: Counters) returns (r: Ctx)
    modifies store
    ensures store.cells == old(store.cells) + [count]
    ensures GetCounter(r) == Some(|old(store.cells)|)
    ensures GetParent(r) == GetParent(c) && GetFinish(r) == GetFinish(c)
  {
    r := CountValue(c, |store.cells|);
    store.cells := store.cells + [count];
  }

  /** The current count, or None where the source panics (no counter attached). */
  function GetTestCount(c: Ctx, store: Counters): (r: Option<int>)
    requires Addressed(c, |store.cells|)
    reads store
    ensures r.None? <==> GetCounter(c).None?
    ensures r.Some? ==> r.value == store.cells[GetCounter(c).value]
  {
    match GetCounter(c)
    case None => None
    case Some(k) => Some(store.cells[k])
  }

  /** Adds one to the shared counter and returns the new count; None where the source panics. */
  method IncTestCount(c: Ctx, store: Counters) returns (r: Option<int>)
    requires Addressed(c, |store.cells|)
    modifies store
    ensures GetCounter(c).None? ==> r == None && store.cells == old(store.cells)
    ensures GetCounter(c).Some? ==>
      var k := GetCounter(c).value;
      r == Some(old(store.cells[k]) + 1) && store.cells == old(store.cells)[k := r.value]
  {
    match GetCounter(c)
    case None =>
      r := None;
    case Some(k) =>
      store.cells := store.cells[k := store.cells[k] + 1];
      r := Some(store.cells[k]);
  }

  /** Subtracts one from the shared counter and returns the new count; None where the source panics. */
  method DecTestCount(c: Ctx, store: Counters) returns (r: Option<int>)
    requires Addressed(c, |store.cells|)
    modifies store
    ensures GetCounter(c).None? ==> r == None && store.cells == old(store.cells)
    ensures GetCounter(c).Some? ==>
      var k := GetCounter(c).value;
      r == Some(old(store.cells[k]) - 1) && store.cells == old(store.cells)[k := r.value]
  {
    match GetCounter(c)
    case None =>
      r := None;
    case Some(k) =>
      store.cells := store.cells[k := store.cells[k] - 1];
      r := Some(store.cells[k]);
  }

  /**
   * A counter attached by WithTestCount reads back the count it was given;
   * each call allocates its own cell, so bumping one leaves the other alone.
   */
  method TestCountScenario(c: Ctx, n: int, m: int) returns (first: Option<int>, second: Option<int>, bumped: Option<int>, firstAgain: Option<int>)
    ensures first == Some(n) && second == Some(m)
    ensures bumped == Some(m + 1) && firstAgain == Some(n)
  {
    var store := new Counters();
    var a := WithTestCount(c, n, store);
    var b := WithTestCount(c, m, store);
    first := GetTestCount(a, store);
    second := GetTestCount(b, store);
    bumped := IncTestCount(b, store);
    firstAgain := GetTestCount(a, store);
  }

  /** Runs the finish callback of `c` once, or reports that none is attached. */
  method Finish(c: Ctx, tracer: Tracer) returns (err: Option<ContextError>)
    modifies tracer
    ensures tracer.nextSpan == old(tracer.nextSpan)
    ensures GetFinish(c).None? ==> err == Some(NoFinishFunction) && tracer.events == old(tracer.events)
    ensures GetFinish(c).Some? ==>
      err == None && tracer.events == old(tracer.events) + [Invoked(GetFinish(c).value)]
  {
    match GetFinish(c)
    case None =>
      err := Some(NoFinishFunction);
    case Some(f) =>
      tracer.Invoke(f);
      err := None;
  }

  /** The scopes met by following parents from `c`: `c` first, the parentless root last. */
  function Chain(c: Ctx): (r: seq<Ctx>)
    ensures |r| >= 1 && r[0] == c
    ensures forall i {:trigger GetParent(r[i])} :: 0 <= i < |r| - 1 ==> GetParent(r[i]) == Some(r[i + 1])
    ensures GetParent(r[|r| - 1]) == None
    decreases Size(c)
  {
    match GetParent(c)
    case None => [c]
    case Some(p) => [c] + Chain(p)
  }

  /** The scope a chain ends in: the one with no parent. */
  function Root(c: Ctx): (r: Ctx)
    ensures GetParent(r).None? && r in Chain(c)
    ensures GetParent(c).None? ==> r == c
  {
    var ch := Chain(c);
    ch[|ch| - 1]
  }

  /**
   * Every scope of the chain carries a finish callback and the address of a
   * counter among the first `n` cells, and no two scopes share a counter.
   */
  ghost predicate ScopedChain(ch: seq<Ctx>, n: nat)
  {
    && (forall i :: 0 <= i < |ch| ==> GetCounter(ch[i]).Some? && GetCounter(ch[i]).value < n && GetFinish(ch[i]).Some?)
    && (forall i, j :: 0 <= i < j < |ch| ==> GetCounter(ch[i]) != GetCounter(ch[j]))
  }

  /** The shape every context the suite builds has, over a store of `n` cells. */
  ghost predicate Scoped(c: Ctx, n: nat)
  {
    ScopedChain(Chain(c), n)
  }

  /** The counts along a chain, leaf-most first. */
  function Counts(ch: seq<Ctx>, cells: seq<int>): (r: seq<int>)
    requires forall i :: 0 <= i < |ch| ==> GetCounter(ch[i]).Some? && GetCounter(ch[i]).value < |cells|
    ensures |r| == |ch|
    ensures forall i :: 0 <= i < |ch| ==> r[i] == cells[GetCounter(ch[i]).value]
  {
    seq(|ch|, i requires 0 <= i < |ch| => cells[GetCounter(ch[i]).value])
  }

  /** Writing the counter of the `i`-th scope changes only the `i`-th count. */
  lemma CountsUpdate(ch: seq<Ctx>, cells: seq<int>, i: nat, v: int)
    requires ScopedChain(ch, |cells|) && i < |ch|
    ensures Counts(ch, cells[GetCounter(ch[i]).value := v]) == Counts(ch, cells)[i := v]
  {
    var k := GetCounter(ch[i]).value;
    var r, r0 := Counts(ch, cells[k := v]), Counts(ch, cells)[i := v];
    forall j | 0 <= j < |ch|
      ensures r[j] == r0[j]
    {
      if j != i {
        assert GetCounter(ch[j]) != GetCounter(ch[i]) by {
          if j < i {} else {}
        }
      }
    }
  }

  /** Allocating a cell changes no count of a chain that refers only to existing cells. */
  lemma CountsExtend(ch: seq<Ctx>, cells: seq<int>, v: int)
    requires ScopedChain(ch, |cells|)
    ensures Counts(ch, cells + [v]) == Counts(ch, cells)
  {
    var r, r0 := Counts(ch, cells + [v]), Counts(ch, cells);
    assert forall j :: 0 <= j < |ch| ==> r[j] == r0[j];
  }

  /** `cells` with `delta` added to the counters of the first `n` scopes of `ch`. */
  ghost function AddOnChain(cells: seq<int>, ch: seq<Ctx>, n: nat, delta: int): (r: seq<int>)
    requires ScopedChain(ch, |cells|) && n <= |ch|
    ensures |r| == |cells|
  {
    if n == 0 then cells
    else
      var prev := AddOnChain(cells, ch, n - 1, delta);
      var k := GetCounter(ch[n - 1]).value;
      prev[k := prev[k] + delta]
  }

  /** A cell no scope among the first `n` refers to keeps its value. */
  lemma {:induction false} AddOnChainOutside(cells: seq<int>, ch: seq<Ctx>, n: nat, delta: int, id: nat)
    requires ScopedChain(ch, |cells|) && n <= |ch| && id < |cells|
    requires forall j :: 0 <= j < n ==> GetCounter(ch[j]) != Some(id)
    ensures AddOnChain(cells, ch, n, delta)[id] == cells[id]
  {
    if n > 0 {
      AddOnChainOutside(cells, ch, n - 1, delta, id);
    }
  }

  /** The counter of each of the first `n` scopes moves by `delta`. */
  lemma {:induction false} AddOnChainInside(cells: seq<int>, ch: seq<Ctx>, n: nat, delta: int, j: nat)
    requires ScopedChain(ch, |cells|) && j < n <= |ch|
    ensures AddOnChain(cells, ch, n, delta)[GetCounter(ch[j]).value] == cells[GetCounter(ch[j]).value] + delta
  {
    if j == n - 1 {
      forall j' | 0 <= j' < n - 1
        ensures GetCounter(ch[j']) != GetCounter(ch[j])
      {
      }
      AddOnChainOutside(cells, ch, n - 1, delta, GetCounter(ch[j]).value);
    } else {
      AddOnChainInside(cells, ch, n - 1, delta, j);
      assert GetCounter(ch[n - 1]) != GetCounter(ch[j]);
    }
  }

  /** Seen through the chain, AddOnChain adds `delta` to the first `n` counts. */
  lemma AddOnChainCounts(cells: seq<int>, ch: seq<Ctx>, n: nat, delta: int)
    requires ScopedChain(ch, |cells|) && n <= |ch|
    ensures var r := AddOnChain(cells, ch, n, delta);
      forall j :: 0 <= j < |ch| ==> r[GetCounter(ch[j]).value] == if j < n then cells[GetCounter(ch[j]).value] + delta else cells[GetCounter(ch[j]).value]
  {
    forall j | 0 <= j < |ch|
      ensures AddOnChain(cells, ch, n, delta)[GetCounter(ch[j]).value] == if j < n then cells[GetCounter(ch[j]).value] + delta else cells[GetCounter(ch[j]).value]
    {
      if j < n {
        AddOnChainInside(cells, ch, n, delta, j);
      } else {
        forall j' | 0 <= j' < n
          ensures GetCounter(ch[j']) != Some(GetCounter(ch[j]).value)
        {
        }
        AddOnChainOutside(cells, ch, n, delta, GetCounter(ch[j]).value);
      }
    }
  }

  /** One more step of AddOnChain: the next scope's counter moves from its original value. */
  lemma AddOnChainStep(cells: seq<int>, ch: seq<Ctx>, n: nat, delta: int)
    requires ScopedChain(ch, |cells|) && n < |ch|
    ensures var k := GetCounter(ch[n]).value;
      && AddOnChain(cells, ch, n, delta)[k] == cells[k]
      && AddOnChain(cells, ch, n + 1, delta) == AddOnChain(cells, ch, n, delta)[k := cells[k] + delta]
  {
    var k := GetCounter(ch[n]).value;
    forall j | 0 <= j < n
      ensures GetCounter(ch[j]) != Some(k)
    {
    }
    AddOnChainOutside(cells, ch, n, delta, k);
  }

  /** Following parents from a scope on a chain walks the rest of that chain. */
  lemma {:induction false} ChainFrom(c: Ctx, k: nat)
    requires k < |Chain(c)|
    ensures Chain(Chain(c)[k]) == Chain(c)[k..]
    decreases k
  {
    if k > 0 {
      var p := GetParent(c).value;
      var ch, tail := Chain(c), Chain(p);
      assert ch == [c] + tail;
      ChainFrom(p, k - 1);
      assert ch[k] == tail[k - 1];
      assert ch[k..] == tail[k - 1..];
    }
  }

  /** A chain pushed onto: the new scope, then the old chain. */
  lemma ChainOfWithParent(c: Ctx, parent: Ctx)
    ensures Chain(WithParent(c, parent)) == [WithParent(c, parent)] + Chain(parent)
  {
  }

  /** The tail of a scoped chain is scoped. */
  lemma ScopedParent(c: Ctx, n: nat)
    requires Scoped(c, n) && GetParent(c).Some?
    ensures Scoped(GetParent(c).value, n)
  {
    var ch := Chain(c);
    assert Chain(GetParent(c).value) == ch[1..];
  }

  /** Every scope of a scoped chain starts a scoped chain; in particular the root does. */
  lemma {:induction false} ScopedFrom(c: Ctx, n: nat, k: nat)
    requires Scoped(c, n) && k < |Chain(c)|
    ensures Scoped(Chain(c)[k], n)
  {
    ChainFrom(c, k);
    var ch := Chain(c);
    var tail := ch[k..];
    forall i, j | 0 <= i < j < |tail|
      ensures GetCounter(tail[i]) != GetCounter(tail[j])
    {
      assert tail[i] == ch[k + i] && tail[j] == ch[k + j];
    }
    forall i | 0 <= i < |tail|
      ensures GetCounter(tail[i]).Some? && GetCounter(tail[i]).value < n && GetFinish(tail[i]).Some?
    {
      assert tail[i] == ch[k + i];
    }
  }

  /** Pushing a scope with a finish callback and a newly allocated counter keeps the chain scoped. */
  lemma ScopedPush(c: Ctx, parent: Ctx, n: nat)
    requires Scoped(parent, n)
    requires GetCounter(c) == Some(n) && GetFinish(c).Some?
    ensures Scoped(WithParent(c, parent), n + 1)
  {
    var old_ := Chain(parent);
    var ch := Chain(WithParent(c, parent));
    assert ch == [WithParent(c, parent)] + old_;
    forall i | 0 <= i < |ch|
      ensures GetCounter(ch[i]).Some? && GetCounter(ch[i]).value < n + 1 && GetFinish(ch[i]).Some?
    {
      if i > 0 {
        assert ch[i] == old_[i - 1];
      }
    }
    forall i, j | 0 <= i < j < |ch|
      ensures GetCounter(ch[i]) != GetCounter(ch[j])
    {
      assert ch[j] == old_[j - 1];
      if i > 0 {
        assert ch[i] == old_[i - 1];
      }
    }
  }
}
