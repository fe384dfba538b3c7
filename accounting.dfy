/**
 * Why the counters stay consistent (ginkgo/internal/suite.go): the count of
 * a scope is the number of registered but not yet left tests whose chain
 * passes through it. Chains are nested, since a chain through a scope goes
 * on through all of that scope's ancestors, so an ancestor's count is never
 * below a descendant's. Then registering never panics and leaving a
 * registered test never reports an error. `Reachable` bundles these facts
 * with the chains the suite has built, and each step of the suite keeps it.
 */
module Accounting {
  import opened Wrappers
  import opened Contexts
  import opened RefCount

  /** The counter addresses along a chain, leaf-most first. */
  function Ids(ch: seq<Ctx>): (r: seq<nat>)
    requires forall i :: 0 <= i < |ch| ==> GetCounter(ch[i]).Some?
    ensures |r| == |ch|
    ensures forall i :: 0 <= i < |ch| ==> GetCounter(ch[i]) == Some(r[i])
  {
    seq(|ch|, i requires 0 <= i < |ch| => GetCounter(ch[i]).value)
  }

  /** How many of the paths `live` pass through cell `k`. */
  function Tally(live: seq<seq<nat>>, k: nat): (n: nat)
    ensures n <= |live|
    ensures n == 0 <==> forall t :: 0 <= t < |live| ==> k !in live[t]
  {
    if live == [] then 0
    else Tally(live[..|live| - 1], k) + (if k in live[|live| - 1] then 1 else 0)
  }

  /** Where two paths meet, they go on together. */
  ghost predicate Nested(p: seq<nat>, q: seq<nat>)
  {
    forall a, b :: 0 <= a < |p| && 0 <= b < |q| && p[a] == q[b] ==> p[a..] == q[b..]
  }

  /** `p` is nested with every path of `live`. */
  ghost predicate NestedWithAll(p: seq<nat>, live: seq<seq<nat>>)
  {
    forall t :: 0 <= t < |live| ==> Nested(p, live[t])
  }

  /** The cells hold, for each counter, the number of live paths through it. */
  ghost predicate Accounted(cells: seq<int>, live: seq<seq<nat>>)
  {
    forall k :: 0 <= k < |cells| ==> cells[k] == Tally(live, k)
  }

  /** Every live path refers to existing cells only. */
  ghost predicate Bounded(live: seq<seq<nat>>, n: nat)
  {
    forall t, a :: 0 <= t < |live| && 0 <= a < |live[t]| ==> live[t][a] < n
  }

  /** A path that meets `q` at some scope meets it at every ancestor of that scope. */
  lemma NestedAncestor(p: seq<nat>, q: seq<nat>, a: nat, b: nat)
    requires Nested(p, q) && a <= b < |p| && p[a] in q
    ensures p[b] in q
  {
    var x :| 0 <= x < |q| && q[x] == p[a];
    assert p[a..] == q[x..];
    assert p[b] == p[a..][b - a] == q[x..][b - a] == q[x + b - a];
  }

  /** Along a path nested with all live paths, the tally never drops towards the root. */
  lemma {:induction false} TallyMonotone(live: seq<seq<nat>>, p: seq<nat>, a: nat, b: nat)
    requires NestedWithAll(p, live) && a <= b < |p|
    ensures Tally(live, p[a]) <= Tally(live, p[b])
    decreases |live|
  {
    if live != [] {
      var init := live[..|live| - 1];
      assert NestedWithAll(p, init) by {
        forall t | 0 <= t < |init|
          ensures Nested(p, init[t])
        {
          assert init[t] == live[t];
        }
      }
      TallyMonotone(init, p, a, b);
      if p[a] in live[|live| - 1] {
        NestedAncestor(p, live[|live| - 1], a, b);
      }
    }
  }

  /** Tallies add up over concatenation. */
  lemma {:induction false} TallyAppend(xs: seq<seq<nat>>, ys: seq<seq<nat>>, k: nat)
    ensures Tally(xs + ys, k) == Tally(xs, k) + Tally(ys, k)
    decreases |ys|
  {
    if ys == [] {
      assert xs + ys == xs;
    } else {
      var init := ys[..|ys| - 1];
      assert (xs + ys)[..|xs + ys| - 1] == xs + init;
      TallyAppend(xs, init, k);
    }
  }

  /** Removing the `t`-th path takes away its contribution, and only that. */
  lemma TallyRemove(live: seq<seq<nat>>, t: nat, k: nat)
    requires t < |live|
    ensures Tally(live, k) == Tally(live[..t] + live[t + 1..], k) + (if k in live[t] then 1 else 0)
  {
    var before, single, after := live[..t], [live[t]], live[t + 1..];
    assert live == before + (single + after);
    TallyAppend(before, single + after, k);
    TallyAppend(single, after, k);
    TallyAppend(before, after, k);
    assert single[..0] == [];
  }

  /** Adding or subtracting one on each counter of a chain, seen cell by cell. */
  lemma AddOnChainAll(cells: seq<int>, ch: seq<Ctx>, delta: int, k: nat)
    requires ScopedChain(ch, |cells|) && k < |cells|
    ensures AddOnChain(cells, ch, |ch|, delta)[k] == cells[k] + (if k in Ids(ch) then delta else 0)
  {
    var ids := Ids(ch);
    if k in ids {
      var j :| 0 <= j < |ids| && ids[j] == k;
      AddOnChainInside(cells, ch, |ch|, delta, j);
    } else {
      AddOnChainOutside(cells, ch, |ch|, delta, k);
    }
  }

  /** Counts seen along an accounted chain never decrease towards the root. */
  lemma AccountedMonotone(cells: seq<int>, live: seq<seq<nat>>, ch: seq<Ctx>)
    requires ScopedChain(ch, |cells|) && Accounted(cells, live) && NestedWithAll(Ids(ch), live)
    ensures Monotone(Counts(ch, cells))
  {
    var counts, ids := Counts(ch, cells), Ids(ch);
    forall a, b | 0 <= a < b < |counts|
      ensures counts[a] <= counts[b]
    {
      TallyMonotone(live, ids, a, b);
    }
  }

  /** Registering on accounted counters finds no negative count, so it never panics. */
  lemma AccountedRegisterNeverPanics(cells: seq<int>, live: seq<seq<nat>>, ch: seq<Ctx>)
    requires ScopedChain(ch, |cells|) && Accounted(cells, live)
    ensures FirstNegative(Counts(ch, cells)) == |ch|
    ensures RegisterStop(Counts(ch, cells)) == |ch|
  {
  }

  /** Registration adds the test's chain to the live paths. */
  lemma RegisterAccounted(cells: seq<int>, live: seq<seq<nat>>, ch: seq<Ctx>)
    requires ScopedChain(ch, |cells|) && Accounted(cells, live)
    ensures Accounted(AddOnChain(cells, ch, |ch|, 1), live + [Ids(ch)])
  {
    var r := AddOnChain(cells, ch, |ch|, 1);
    forall k | 0 <= k < |r|
      ensures r[k] == Tally(live + [Ids(ch)], k)
    {
      AddOnChainAll(cells, ch, 1, k);
      assert (live + [Ids(ch)])[..|live|] == live;
    }
  }

  /**
   * The structural invariant: leaving a live test's chain is clean; every
   * counter is decremented and exactly the scopes only that test still held are finished.
   */
  lemma AccountedLeaveIsClean(cells: seq<int>, live: seq<seq<nat>>, ch: seq<Ctx>, t: nat)
    requires ScopedChain(ch, |cells|) && Accounted(cells, live) && NestedWithAll(Ids(ch), live)
    requires t < |live| && live[t] == Ids(ch)
    ensures var w := LeaveWalk(Counts(ch, cells), 0, 0);
      && w.err == None && w.stop == |ch|
      && (forall k :: 0 <= k < |w.finished| ==> w.finished[k] == k)
      && (forall j :: 0 <= j < |ch| ==> (j < |w.finished| <==> Tally(live, Ids(ch)[j]) == 1))
  {
    LiveCountsMonotone(cells, live, ch, t);
    CleanByTally(cells, live, ch);
  }

  /** Along a live chain that is nested with every live chain, the counts are monotone positive tallies. */
  lemma LiveCountsMonotone(cells: seq<int>, live: seq<seq<nat>>, ch: seq<Ctx>, t: nat)
    requires ScopedChain(ch, |cells|) && Accounted(cells, live) && NestedWithAll(Ids(ch), live)
    requires t < |live| && live[t] == Ids(ch)
    ensures |Counts(ch, cells)| == |Ids(ch)| && Monotone(Counts(ch, cells))
    ensures forall j :: 0 <= j < |ch| ==> Counts(ch, cells)[j] == Tally(live, Ids(ch)[j]) >= 1
  {
    AccountedMonotone(cells, live, ch);
    LiveCountsPositive(cells, live, ch, t);
  }

  /** The leave walk over monotone counts that are positive tallies finishes exactly the scopes of tally 1. */
  lemma CleanByTally(cells: seq<int>, live: seq<seq<nat>>, ch: seq<Ctx>)
    requires forall i :: 0 <= i < |ch| ==> GetCounter(ch[i]).Some? && GetCounter(ch[i]).value < |cells|
    requires |Counts(ch, cells)| == |Ids(ch)| && Monotone(Counts(ch, cells))
    requires forall j :: 0 <= j < |ch| ==> Counts(ch, cells)[j] == Tally(live, Ids(ch)[j]) >= 1
    ensures var w := LeaveWalk(Counts(ch, cells), 0, 0);
      && w.err == None && w.stop == |ch|
      && (forall k :: 0 <= k < |w.finished| ==> w.finished[k] == k)
      && (forall j :: 0 <= j < |ch| ==> (j < |w.finished| <==> Tally(live, Ids(ch)[j]) == 1))
  {
    MonotoneLeaveIsClean(Counts(ch, cells));
  }

  /** Along a live chain every count is its tally, and at least 1. */
  lemma LiveCountsPositive(cells: seq<int>, live: seq<seq<nat>>, ch: seq<Ctx>, t: nat)
    requires ScopedChain(ch, |cells|) && Accounted(cells, live)
    requires t < |live| && live[t] == Ids(ch)
    ensures forall j :: 0 <= j < |ch| ==> Counts(ch, cells)[j] == Tally(live, Ids(ch)[j]) >= 1
  {
    var counts, ids := Counts(ch, cells), Ids(ch);
    forall j | 0 <= j < |counts|
      ensures counts[j] == Tally(live, ids[j]) >= 1
    {
      assert ids[j] in live[t];
    }
  }

  /** Even for a chain that is not live, accounted counters never give the corrupted-stack error. */
  lemma AccountedNeverCorrupted(cells: seq<int>, live: seq<seq<nat>>, ch: seq<Ctx>)
    requires ScopedChain(ch, |cells|) && Accounted(cells, live) && NestedWithAll(Ids(ch), live)
    ensures var w := LeaveWalk(Counts(ch, cells), 0, 0);
      w.err.None? || w.err.value.Negative?
  {
    AccountedMonotone(cells, live, ch);
    MonotoneNeverCorrupted(Counts(ch, cells));
  }

  /** Leaving a live test removes its chain from the live paths. */
  lemma LeaveAccounted(cells: seq<int>, live: seq<seq<nat>>, ch: seq<Ctx>, t: nat)
    requires ScopedChain(ch, |cells|) && Accounted(cells, live)
    requires t < |live| && live[t] == Ids(ch)
    ensures Accounted(AddOnChain(cells, ch, |ch|, -1), live[..t] + live[t + 1..])
  {
    var r := AddOnChain(cells, ch, |ch|, -1);
    forall k | 0 <= k < |r|
      ensures r[k] == Tally(live[..t] + live[t + 1..], k)
    {
      AddOnChainAll(cells, ch, -1, k);
      TallyRemove(live, t, k);
    }
  }

  /** A container's new counter, at 0, is accounted: no live path goes through it yet. */
  lemma EnterAccounted(cells: seq<int>, live: seq<seq<nat>>)
    requires Accounted(cells, live) && Bounded(live, |cells|)
    ensures Accounted(cells + [0], live) && Bounded(live, |cells| + 1)
  {
    var k := |cells|;
    forall t | 0 <= t < |live|
      ensures k !in live[t]
    {
    }
  }

  /** Pushing a scope with a counter no live path uses keeps the new chain nested with them. */
  lemma NestedPush(k: nat, p: seq<nat>, live: seq<seq<nat>>)
    requires NestedWithAll(p, live)
    requires forall t :: 0 <= t < |live| ==> k !in live[t]
    ensures NestedWithAll([k] + p, live)
  {
    var p' := [k] + p;
    forall t, a, b | 0 <= t < |live| && 0 <= a < |p'| && 0 <= b < |live[t]| && p'[a] == live[t][b]
      ensures p'[a..] == live[t][b..]
    {
      assert a > 0;
      assert p'[a..] == p[a - 1..];
    }
  }

  /** The chain of a container pushed by EnterContainer is nested with every live path. */
  lemma EnterNested(c: Ctx, parent: Ctx, live: seq<seq<nat>>, n: nat)
    requires Scoped(parent, n) && GetCounter(c) == Some(n) && GetFinish(c).Some?
    requires Bounded(live, n) && NestedWithAll(Ids(Chain(parent)), live)
    ensures Scoped(WithParent(c, parent), n + 1)
    ensures NestedWithAll(Ids(Chain(WithParent(c, parent))), live)
  {
    ScopedPush(c, parent, n);
    var ch, tail := Chain(WithParent(c, parent)), Chain(parent);
    assert ch == [WithParent(c, parent)] + tail;
    assert Ids(ch) == [n] + Ids(tail);
    forall t | 0 <= t < |live|
      ensures n !in live[t]
    {
    }
    NestedPush(n, Ids(tail), live);
  }

  /** Nesting is symmetric. */
  lemma NestedSym(p: seq<nat>, q: seq<nat>)
    requires Nested(p, q)
    ensures Nested(q, p)
  {
    forall b, a | 0 <= b < |q| && 0 <= a < |p| && q[b] == p[a]
      ensures q[b..] == p[a..]
    {
      assert p[a..] == q[b..];
    }
  }

  /** Suffixes of nested chains are nested. */
  lemma SuffixNested(p: seq<nat>, q: seq<nat>, i: nat, j: nat)
    requires Nested(p, q) && i <= |p| && j <= |q|
    ensures Nested(p[i..], q[j..])
  {
    var p', q' := p[i..], q[j..];
    forall a, b | 0 <= a < |p'| && 0 <= b < |q'| && p'[a] == q'[b]
      ensures p'[a..] == q'[b..]
    {
      assert p[i + a] == q[j + b];
      assert p[i + a..] == q[j + b..];
      assert p'[a..] == p[i + a..];
      assert q'[b..] == q[j + b..];
    }
  }

  /** A chain whose scopes have distinct counters is nested with itself. */
  lemma SelfNested(p: seq<nat>)
    requires forall a, b :: 0 <= a < b < |p| ==> p[a] != p[b]
    ensures Nested(p, p)
  {
    forall a, b | 0 <= a < |p| && 0 <= b < |p| && p[a] == p[b]
      ensures p[a..] == p[b..]
    {
      assert a == b;
    }
  }

  /** Popping a scope keeps the chain nested with every live path. */
  lemma PopNested(p: seq<nat>, live: seq<seq<nat>>)
    requires |p| > 0 && NestedWithAll(p, live)
    ensures NestedWithAll(p[1..], live)
  {
    forall t | 0 <= t < |live|
      ensures Nested(p[1..], live[t])
    {
      SuffixNested(p, live[t], 1, 0);
      assert live[t][0..] == live[t];
    }
  }

  /** A chain pushed with a counter it does not hold yet is nested with itself. */
  lemma PushSelfNested(k: nat, p: seq<nat>)
    requires Nested(p, p) && k !in p
    ensures Nested([k] + p, [k] + p)
  {
    var p' := [k] + p;
    forall a, b | 0 <= a < |p'| && 0 <= b < |p'| && p'[a] == p'[b]
      ensures p'[a..] == p'[b..]
    {
      if a > 0 && b > 0 {
        assert p[a - 1] == p[b - 1];
        assert p'[a..] == p[a - 1..] && p'[b..] == p[b - 1..];
      }
    }
  }

  /** Every two of the chains built so far, a chain with itself included, are nested. */
  ghost predicate AllNested(built: seq<seq<nat>>)
  {
    forall x, y :: 0 <= x < |built| && 0 <= y < |built| ==> Nested(built[x], built[y])
  }

  /**
   * The state invariant of a suite's counters: `built` holds the chains of
   * every context the suite has built (its current top, every earlier top and
   * every snapshot), `live` the chains of the registered tests not yet left.
   * The counters are accounted, all built chains refer to existing cells and
   * are pairwise nested, and every live chain is a built one.
   */
  ghost predicate Reachable(cells: seq<int>, live: seq<seq<nat>>, built: seq<seq<nat>>)
  {
    && Accounted(cells, live)
    && Bounded(built, |cells|)
    && AllNested(built)
    && (forall t :: 0 <= t < |live| ==> live[t] in built)
  }

  /** A live path is bounded, since it is a built one. */
  lemma ReachableLiveBounded(cells: seq<int>, live: seq<seq<nat>>, built: seq<seq<nat>>)
    requires Reachable(cells, live, built)
    ensures Bounded(live, |cells|)
  {
    forall t, a | 0 <= t < |live| && 0 <= a < |live[t]|
      ensures live[t][a] < |cells|
    {
      var y :| 0 <= y < |built| && built[y] == live[t];
    }
  }

  /** newSuiteTest: a fresh root counter at 0, no test registered, only the root chain built. */
  lemma ReachableStart(cells: seq<int>)
    requires Accounted(cells, [])
    ensures Reachable(cells + [0], [], [[|cells|]])
  {
    var r := cells + [0];
    forall k | 0 <= k < |r|
      ensures r[k] == Tally([], k)
    {
    }
    assert Nested([|cells|], [|cells|]);
  }

  /** EnterContainer: a new counter at 0 pushed onto a built chain keeps the invariant. */
  lemma ReachableEnter(cells: seq<int>, live: seq<seq<nat>>, built: seq<seq<nat>>, s: nat)
    requires Reachable(cells, live, built) && s < |built|
    ensures Reachable(cells + [0], live, built + [[|cells|] + built[s]])
  {
    var k, p := |cells|, built[s];
    var p' := [k] + p;
    var b' := built + [p'];
    ReachableLiveBounded(cells, live, built);
    EnterAccounted(cells, live);
    forall y | 0 <= y < |built|
      ensures k !in built[y]
    {
    }
    assert NestedWithAll(p, built) by {
      forall y | 0 <= y < |built|
        ensures Nested(p, built[y])
      {
      }
    }
    NestedPush(k, p, built);
    PushSelfNested(k, p);
    forall x, y | 0 <= x < |b'| && 0 <= y < |b'|
      ensures Nested(b'[x], b'[y])
    {
      if x < |built| && y == |built| {
        assert Nested(p', built[x]);
        NestedSym(p', built[x]);
      }
    }
    forall t | 0 <= t < |live|
      ensures live[t] in b'
    {
      assert live[t] in built;
    }
  }

  /**
   * LeaveContainer and Close: the parent's chain, or the root's, is a suffix
   * of a built chain, and adding it keeps the invariant.
   */
  lemma ReachableSuffix(cells: seq<int>, live: seq<seq<nat>>, built: seq<seq<nat>>, s: nat, i: nat)
    requires Reachable(cells, live, built) && s < |built| && i <= |built[s]|
    ensures Reachable(cells, live, built + [built[s][i..]])
  {
    var q := built[s][i..];
    var b' := built + [q];
    forall x, y | 0 <= x < |b'| && 0 <= y < |b'|
      ensures Nested(b'[x], b'[y])
    {
      if x == |built| && y == |built| {
        SuffixNested(built[s], built[s], i, i);
      } else if x == |built| {
        SuffixNested(built[s], built[y], i, 0);
        assert built[y][0..] == built[y];
      } else if y == |built| {
        SuffixNested(built[s], built[x], i, 0);
        assert built[x][0..] == built[x];
        NestedSym(q, built[x]);
      }
    }
    forall t | 0 <= t < |live|
      ensures live[t] in b'
    {
      assert live[t] in built;
    }
  }

  /** A built chain is nested with every live path. */
  lemma ReachableNested(cells: seq<int>, live: seq<seq<nat>>, built: seq<seq<nat>>, p: seq<nat>)
    requires Reachable(cells, live, built) && p in built
    ensures NestedWithAll(p, live)
  {
    var x :| 0 <= x < |built| && built[x] == p;
    forall t | 0 <= t < |live|
      ensures Nested(p, live[t])
    {
      var y :| 0 <= y < |built| && built[y] == live[t];
    }
  }

  /**
   * Registering a test on a built chain (the suite's current context or any
   * snapshot's, however old) keeps the invariant and makes the chain live.
   */
  lemma ReachableRegister(cells: seq<int>, live: seq<seq<nat>>, built: seq<seq<nat>>, ch: seq<Ctx>)
    requires Reachable(cells, live, built) && ScopedChain(ch, |cells|) && Ids(ch) in built
    ensures Reachable(AddOnChain(cells, ch, |ch|, 1), live + [Ids(ch)], built)
  {
    RegisterAccounted(cells, live, ch);
    var live' := live + [Ids(ch)];
    forall t | 0 <= t < |live'|
      ensures live'[t] in built
    {
      if t < |live| {
        assert live'[t] == live[t];
      }
    }
  }

  /** Leaving a live test keeps the invariant and drops its chain from the live paths. */
  lemma ReachableLeave(cells: seq<int>, live: seq<seq<nat>>, built: seq<seq<nat>>, ch: seq<Ctx>, t: nat)
    requires Reachable(cells, live, built) && ScopedChain(ch, |cells|)
    requires t < |live| && live[t] == Ids(ch)
    ensures Reachable(AddOnChain(cells, ch, |ch|, -1), live[..t] + live[t + 1..], built)
  {
    LeaveAccounted(cells, live, ch, t);
    var live' := live[..t] + live[t + 1..];
    forall u | 0 <= u < |live'|
      ensures live'[u] in built
    {
      if u < t {
        assert live'[u] == live[u];
      } else {
        assert live'[u] == live[u + 1];
      }
    }
  }

  /** In every reachable state, leaving a live test is clean. */
  lemma ReachableLeaveIsClean(cells: seq<int>, live: seq<seq<nat>>, built: seq<seq<nat>>, ch: seq<Ctx>, t: nat)
    requires Reachable(cells, live, built) && ScopedChain(ch, |cells|)
    requires t < |live| && live[t] == Ids(ch)
    ensures var w := LeaveWalk(Counts(ch, cells), 0, 0);
      && w.err == None && w.stop == |ch|
      && (forall k :: 0 <= k < |w.finished| ==> w.finished[k] == k)
  {
    assert Ids(ch) in built;
    ReachableNested(cells, live, built, Ids(ch));
    AccountedLeaveIsClean(cells, live, ch, t);
  }

  /** In every reachable state, leaving on a built chain never reports a corrupted stack. */
  lemma ReachableNeverCorrupted(cells: seq<int>, live: seq<seq<nat>>, built: seq<seq<nat>>, ch: seq<Ctx>)
    requires Reachable(cells, live, built) && ScopedChain(ch, |cells|) && Ids(ch) in built
    ensures var w := LeaveWalk(Counts(ch, cells), 0, 0);
      w.err.None? || w.err.value.Negative?
  {
    ReachableNested(cells, live, built, Ids(ch));
    AccountedNeverCorrupted(cells, live, ch);
  }

  /** The chain of a pushed scope: its new counter, then the parent's chain. */
  lemma IdsOfPush(c: Ctx, parent: Ctx, n: nat)
    requires Scoped(parent, n) && GetCounter(c) == Some(n) && GetFinish(c).Some?
    ensures Scoped(WithParent(c, parent), n + 1)
    ensures Ids(Chain(WithParent(c, parent))) == [n] + Ids(Chain(parent))
  {
    ScopedPush(c, parent, n);
    assert Chain(WithParent(c, parent)) == [WithParent(c, parent)] + Chain(parent);
  }

  /** The counters of a suffix of a chain are the suffix of its counters. */
  lemma IdsSuffix(ch: seq<Ctx>, k: nat)
    requires forall i :: 0 <= i < |ch| ==> GetCounter(ch[i]).Some?
    requires k <= |ch|
    ensures Ids(ch[k..]) == Ids(ch)[k..]
  {
    var tail := ch[k..];
    forall i | 0 <= i < |tail|
      ensures Ids(tail)[i] == Ids(ch)[k..][i]
    {
      assert tail[i] == ch[k + i];
    }
  }

  /**
   * The chain of any scope on a chain, the parent's (k = 1) or the root's
   * (the last k), is the matching suffix of the chain's counters.
   */
  lemma IdsFrom(c: Ctx, n: nat, k: nat)
    requires Scoped(c, n) && k < |Chain(c)|
    ensures Scoped(Chain(c)[k], n)
    ensures Ids(Chain(Chain(c)[k])) == Ids(Chain(c))[k..]
  {
    ScopedFrom(c, n, k);
    ChainFrom(c, k);
    IdsSuffix(Chain(c), k);
  }
}
