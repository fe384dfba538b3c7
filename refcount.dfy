/**
 * The arithmetic of the test counters along one chain (ginkgo/internal/suite.go,
 * newTest and test.Leave), stated on the sequence of counts, leaf-most first.
 */
module RefCount {
  import opened Wrappers

  /** `counts` with `delta` added to each of its first `n` entries. */
  function AddPrefix(counts: seq<int>, n: nat, delta: int): (r: seq<int>)
    requires n <= |counts|
    ensures |r| == |counts|
    ensures forall j :: 0 <= j < |r| ==> r[j] == if j < n then counts[j] + delta else counts[j]
  {
    seq(|counts|, j requires 0 <= j < |counts| => if j < n then counts[j] + delta else counts[j])
  }

  /** Where registration panics: the first count that is negative, so that incrementing it leaves it below 1. */
  function FirstNegative(counts: seq<int>): (i: nat)
    ensures i <= |counts|
    ensures forall j :: 0 <= j < i ==> counts[j] >= 0
    ensures i < |counts| ==> counts[i] < 0
  {
    if counts == [] then 0
    else if counts[0] < 0 then 0
    else 1 + FirstNegative(counts[1..])
  }

  /** How many counters registration increments before it returns or panics. */
  function RegisterStop(counts: seq<int>): (n: nat)
    ensures n <= |counts|
    ensures FirstNegative(counts) < |counts| ==> n == FirstNegative(counts) + 1
    ensures FirstNegative(counts) == |counts| ==> n == |counts|
  {
    var i := FirstNegative(counts);
    if i < |counts| then i + 1 else i
  }

  datatype WalkError =
    | Negative(at: nat)   // "count < 0"
    | Corrupted(at: nat)  // "corrupted stack": a count reached 0 above one still positive

  /** What the leave loop did: counters decremented, scopes finished (by index), how it ended. */
  datatype Walk = Walk(stop: nat, finished: seq<nat>, err: Option<WalkError>)

  /** `w` with the scopes `fin` finished before it. */
  function Preceded(fin: seq<nat>, w: Walk): Walk
  {
    Walk(w.stop, fin + w.finished, w.err)
  }

  /**
   * The leave loop from index `i` on, with the source's flag `nbToPop`
   * (non-negative until a count stays positive, then -1). Each counter is
   * decremented before it is examined, so `stop` counts the one an error names.
   */
  function LeaveWalk(counts: seq<int>, i: nat, nbToPop: int): (w: Walk)
    requires i <= |counts|
    ensures i <= w.stop <= |counts|
    ensures w.err.None? ==> w.stop == |counts|
    ensures w.err.Some? ==> w.err.value.at == w.stop - 1
    ensures nbToPop < 0 ==> w.finished == []
    decreases |counts| - i
  {
    if i == |counts| then Walk(i, [], None)
    else
      var value := counts[i] - 1;
      if value == 0 then
        if nbToPop < 0 then Walk(i + 1, [], Some(Corrupted(i)))
        else Preceded([i], LeaveWalk(counts, i + 1, nbToPop + 1))
      else if value < 0 then Walk(i + 1, [], Some(Negative(i)))
      else LeaveWalk(counts, i + 1, -1)
  }

  /** The scopes `w` finishes lie in `[i, w.stop)` and each had a count of 1. */
  ghost predicate FinishedWithin(counts: seq<int>, i: nat, w: Walk)
  {
    forall k :: 0 <= k < |w.finished| ==> i <= w.finished[k] < w.stop && w.finished[k] < |counts| && counts[w.finished[k]] == 1
  }

  /** The scopes the walk finishes lie where it went, and each had a count of 1. */
  lemma {:induction false} LeaveWalkFinished(counts: seq<int>, i: nat, nbToPop: int)
    requires i <= |counts|
    ensures FinishedWithin(counts, i, LeaveWalk(counts, i, nbToPop))
    decreases |counts| - i
  {
    if i < |counts| {
      if counts[i] == 1 && nbToPop >= 0 {
        LeaveWalkFinished(counts, i + 1, nbToPop + 1);
        var w' := LeaveWalk(counts, i + 1, nbToPop + 1);
        var w := LeaveWalk(counts, i, nbToPop);
        assert w == Preceded([i], w');
        forall k | 0 <= k < |w.finished|
          ensures i <= w.finished[k] < w.stop && w.finished[k] < |counts| && counts[w.finished[k]] == 1
        {
          if k > 0 {
            assert w.finished[k] == w'.finished[k - 1];
          }
        }
      } else if counts[i] > 1 {
        LeaveWalkFinished(counts, i + 1, -1);
      }
    }
  }

  /** One step of the leave loop, with the scopes `fin` already finished. */
  lemma LeaveWalkStep(counts: seq<int>, i: nat, nbToPop: int, fin: seq<nat>)
    requires i < |counts|
    ensures counts[i] == 1 && nbToPop >= 0 ==>
      Preceded(fin, LeaveWalk(counts, i, nbToPop)) == Preceded(fin + [i], LeaveWalk(counts, i + 1, nbToPop + 1))
    ensures counts[i] == 1 && nbToPop < 0 ==>
      Preceded(fin, LeaveWalk(counts, i, nbToPop)) == Walk(i + 1, fin, Some(Corrupted(i)))
    ensures counts[i] < 1 ==>
      Preceded(fin, LeaveWalk(counts, i, nbToPop)) == Walk(i + 1, fin, Some(Negative(i)))
    ensures counts[i] > 1 ==>
      Preceded(fin, LeaveWalk(counts, i, nbToPop)) == Preceded(fin, LeaveWalk(counts, i + 1, -1))
  {
    if counts[i] == 1 && nbToPop >= 0 {
      var w := LeaveWalk(counts, i + 1, nbToPop + 1);
      assert fin + ([i] + w.finished) == (fin + [i]) + w.finished;
    }
  }

  /** The condition under which the walk from `i` ends without error. */
  ghost predicate CleanFrom(counts: seq<int>, i: nat, nbToPop: int)
  {
    && (forall j :: i <= j < |counts| ==> counts[j] >= 1)
    && (nbToPop < 0 ==> forall j :: i <= j < |counts| ==> counts[j] >= 2)
    && (forall a, b :: i <= a < b < |counts| && counts[a] >= 2 ==> counts[b] >= 2)
  }

  /**
   * A chain is left cleanly when every count is at least 1 and no count of
   * exactly 1 lies above (root-ward of) a count of 2 or more.
   */
  ghost predicate Clean(counts: seq<int>)
  {
    && (forall j :: 0 <= j < |counts| ==> counts[j] >= 1)
    && (forall a, b :: 0 <= a < b < |counts| && counts[a] >= 2 ==> counts[b] >= 2)
  }

  /** Counts that never decrease towards the root. */
  ghost predicate Monotone(counts: seq<int>)
  {
    forall a, b :: 0 <= a < b < |counts| ==> counts[a] <= counts[b]
  }

  lemma {:induction false} LeaveWalkCleanFrom(counts: seq<int>, i: nat, nbToPop: int)
    requires i <= |counts|
    ensures LeaveWalk(counts, i, nbToPop).err.None? <==> CleanFrom(counts, i, nbToPop)
    decreases |counts| - i
  {
    if i < |counts| {
      var value := counts[i] - 1;
      if value == 0 {
        if nbToPop >= 0 {
          LeaveWalkCleanFrom(counts, i + 1, nbToPop + 1);
        }
      } else if value > 0 {
        LeaveWalkCleanFrom(counts, i + 1, -1);
        if CleanFrom(counts, i + 1, -1) {
          assert CleanFrom(counts, i, nbToPop);
        }
      }
    }
  }

  /** The leave loop returns no error exactly when the chain's counts are clean. */
  lemma LeaveWalkSucceedsIffClean(counts: seq<int>)
    ensures LeaveWalk(counts, 0, 0).err.None? <==> Clean(counts)
  {
    LeaveWalkCleanFrom(counts, 0, 0);
  }

  /** On a clean walk the finished scopes are the leading run of counts equal to 1, leaf-most first. */
  lemma {:induction false} LeaveWalkFinishedFrom(counts: seq<int>, i: nat, nbToPop: int)
    requires i <= |counts| && CleanFrom(counts, i, nbToPop)
    ensures var w := LeaveWalk(counts, i, nbToPop);
      && (forall k :: 0 <= k < |w.finished| ==> w.finished[k] == i + k)
      && (forall j :: i <= j < |counts| ==> (j < i + |w.finished| <==> counts[j] == 1))
    decreases |counts| - i
  {
    if i < |counts| {
      if counts[i] == 1 {
        LeaveWalkFinishedFrom(counts, i + 1, nbToPop + 1);
      } else {
      }
    }
  }

  /**
   * Leaving a chain whose counts are at least 1 and never decrease towards
   * the root: no error, every counter decremented, and the scopes finished are
   * exactly the leading ones whose count was 1.
   */
  lemma MonotoneLeaveIsClean(counts: seq<int>)
    requires forall j :: 0 <= j < |counts| ==> counts[j] >= 1
    requires Monotone(counts)
    ensures var w := LeaveWalk(counts, 0, 0);
      && w.err == None && w.stop == |counts|
      && (forall k :: 0 <= k < |w.finished| ==> w.finished[k] == k)
      && (forall j :: 0 <= j < |counts| ==> (j < |w.finished| <==> counts[j] == 1))
  {
    LeaveWalkCleanFrom(counts, 0, 0);
    LeaveWalkFinishedFrom(counts, 0, 0);
  }

  /** A corrupted-stack report names a count of 1 that lies above a count of 2 or more. */
  lemma {:induction false} CorruptedWitness(counts: seq<int>, i: nat, nbToPop: int)
    requires i <= |counts|
    requires nbToPop < 0 ==> i > 0 && counts[i - 1] >= 2
    requires forall j :: 0 <= j < i ==> counts[j] >= 1
    requires nbToPop >= 0 ==> forall j :: 0 <= j < i ==> counts[j] == 1
    requires LeaveWalk(counts, i, nbToPop).err.Some? && LeaveWalk(counts, i, nbToPop).err.value.Corrupted?
    ensures var at := LeaveWalk(counts, i, nbToPop).err.value.at;
      counts[at] == 1 && exists a :: 0 <= a < at && counts[a] >= 2
    decreases |counts| - i
  {
    var value := counts[i] - 1;
    if value == 0 {
      if nbToPop >= 0 {
        CorruptedWitness(counts, i + 1, nbToPop + 1);
      } else {
        assert counts[i - 1] >= 2;
      }
    } else if value > 0 {
      CorruptedWitness(counts, i + 1, -1);
    }
  }

  /** The corrupted-stack error never comes from counts that never decrease towards the root. */
  lemma MonotoneNeverCorrupted(counts: seq<int>)
    requires Monotone(counts)
    ensures LeaveWalk(counts, 0, 0).err.None? || LeaveWalk(counts, 0, 0).err.value.Negative?
  {
    var w := LeaveWalk(counts, 0, 0);
    if w.err.Some? && w.err.value.Corrupted? {
      CorruptedWitness(counts, 0, 0);
    }
  }
}
