/**
 * The scope stack of the BDD adapter (ginkgo/internal/state.go): the current
 * context is the top; its parent links lead down to the root.
 */
module States {
  import opened Wrappers
  import opened Contexts

  datatype StateError = NoParent  // "state.pop: no parent"

  class State {
    var ctx: Ctx

    /** NewState: `c` is the top. */
    constructor (c: Ctx)
      ensures ctx == c
    {
      ctx := c;
    }

    /** The new context becomes the top, with the previous top as its parent. */
    method Push(c: Ctx)
      modifies this
      ensures ctx == WithParent(c, old(ctx))
      ensures GetParent(ctx) == Some(old(ctx))
      ensures Chain(ctx) == [ctx] + Chain(old(ctx))
    {
      ctx := WithParent(c, ctx);
    }

    /** Replaces the top with its parent, or fails and leaves the top alone when it has none. */
    method Pop() returns (err: Option<StateError>)
      modifies this
      ensures GetParent(old(ctx)).None? ==> err == Some(NoParent) && ctx == old(ctx)
      ensures GetParent(old(ctx)).Some? ==> err == None && ctx == GetParent(old(ctx)).value
      ensures err == None ==> Chain(old(ctx)) == [old(ctx)] + Chain(ctx)
    {
      var parent := GetParent(ctx);
      if parent.None? {
        return Some(NoParent);
      }
      ctx := parent.value;
      err := None;
    }

    /** All contexts of the stack, top first. */
    method GetContexts() returns (result: seq<Ctx>)
      ensures result == Chain(ctx)
      ensures |result| >= 1 && result[0] == ctx && GetParent(result[|result| - 1]) == None
    {
      result := [];
      var cur := Some(ctx);
      while cur.Some?
        invariant cur.None? ==> result == Chain(ctx)
        invariant cur.Some? ==> result + Chain(cur.value) == Chain(ctx)
        decreases if cur.Some? then Size(cur.value) else 0
      {
        var c := cur.value;
        match GetParent(c)
        case None =>
          assert Chain(c) == [c];
          result := result + [c];
          cur := None;
        case Some(p) =>
          assert Chain(c) == [c] + Chain(p);
          assert (result + [c]) + Chain(p) == result + ([c] + Chain(p));
          result := result + [c];
          cur := Some(p);
      }
    }
  }

  /** A fresh stack holds one context; one push makes two. */
  method GetContextsScenario() returns (initial: nat, afterPush: nat, afterPop: nat)
    ensures initial == 1 && afterPush == 2 && afterPop == 1
  {
    var s := new State(Background);
    var cs := s.GetContexts();
    initial := |cs|;
    s.Push(Background);
    cs := s.GetContexts();
    afterPush := |cs|;
    var err := s.Pop();
    assert err == None;
    cs := s.GetContexts();
    afterPop := |cs|;
  }

  /** Popping a fresh stack fails; a push followed by a pop restores the top. */
  method PushPopScenario(c: Ctx, d: Ctx) returns (first: Option<StateError>, second: Option<StateError>, restored: bool)
    requires GetParent(c).None?
    ensures first == Some(NoParent) && second == None && restored
  {
    var s := new State(c);
    first := s.Pop();
    s.Push(d);
    second := s.Pop();
    restored := s.ctx == c;
  }
}
