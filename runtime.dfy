/**
 * IncrementOffset (ginkgo/internal/runtime.go): the variadic arguments of a
 * Ginkgo DSL call, in which the first code-location offset, if any, is
 * shifted by the adapter's own stack depth, and one is appended otherwise.
 */
module Runtime {
  import opened Wrappers

  const TWO_64: int := 0x1_0000_0000_0000_0000

  /** ginkgo.Offset is declared `type Offset uint`: an unsigned Go `uint`, 64 bits wide. */
  newtype uint64 = x: int | 0 <= x < 0x1_0000_0000_0000_0000

  /** Go's `+` on `uint`: the sum modulo 2^64. */
  function AddWrap(a: uint64, b: uint64): (r: uint64)
    ensures a as int + b as int < TWO_64 ==> r as int == a as int + b as int
    ensures a as int + b as int >= TWO_64 ==> r as int == a as int + b as int - TWO_64
    ensures r as int % TWO_64 == (a as int + b as int) % TWO_64
  {
    var s := a as int + b as int;
    if s >= TWO_64 then (s - TWO_64) as uint64 else s as uint64
  }

  /** One argument of the call: an Offset, or any other value (a closure, a label, ...). */
  datatype Arg = Offset(n: uint64) | Other(id: nat)

  /** The index of the first Offset argument, the one the range loop stops at. */
  function FirstOffset(s: seq<Arg>): (r: Option<nat>)
    ensures r.Some? ==> r.value < |s| && s[r.value].Offset?
    ensures r.Some? ==> forall j :: 0 <= j < r.value ==> !s[j].Offset?
    ensures r.None? <==> forall j :: 0 <= j < |s| ==> !s[j].Offset?
  {
    if s == [] then None
    else if s[0].Offset? then Some(0)
    else
      match FirstOffset(s[1..])
      case None => None
      case Some(i) => Some(i + 1)
  }

  /** The argument list IncrementOffset returns. */
  function Incremented(additional: uint64, s: seq<Arg>): (r: seq<Arg>)
    ensures FirstOffset(s).Some? ==> |r| == |s|
    ensures FirstOffset(s).None? ==> |r| == |s| + 1 && r[|s|] == Offset(additional)
  {
    match FirstOffset(s)
    case Some(i) => s[i := Offset(AddWrap(s[i].n, additional))]
    case None => s + [Offset(additional)]
  }

  /**
   * IncrementOffset: with an Offset among the arguments, the first one is
   * shifted in place and the same list is returned; otherwise a new list
   * with the offset appended is returned and the arguments are untouched.
   */
  method IncrementOffset(additional: uint64, args: array<Arg>) returns (r: array<Arg>)
    modifies args
    ensures r[..] == Incremented(additional, old(args[..]))
    ensures FirstOffset(old(args[..])).Some? ==> r == args
    ensures FirstOffset(old(args[..])).None? ==> fresh(r) && args[..] == old(args[..])
  {
    var i := 0;
    while i < args.Length
      invariant 0 <= i <= args.Length
      invariant args[..] == old(args[..])
      invariant forall j :: 0 <= j < i ==> !args[j].Offset?
    {
      if args[i].Offset? {
        assert FirstOffset(args[..]) == Some(i) by {
          FirstOffsetIs(args[..], i);
        }
        args[i] := Offset(AddWrap(args[i].n, additional));
        return args;
      }
      i := i + 1;
    }
    r := new Arg[args.Length + 1];
    forall j | 0 <= j < args.Length {
      r[j] := args[j];
    }
    r[args.Length] := Offset(additional);
  }

  /** The first Offset is the one with no Offset before it. */
  lemma FirstOffsetIs(s: seq<Arg>, i: nat)
    requires i < |s| && s[i].Offset?
    requires forall j :: 0 <= j < i ==> !s[j].Offset?
    ensures FirstOffset(s) == Some(i)
  {
  }

  /**
   * With an Offset among the arguments: the length is unchanged, the first
   * Offset is shifted by `additional`, and every other argument stays as it was.
   */
  lemma IncrementedWithOffset(additional: uint64, s: seq<Arg>, i: nat)
    requires i < |s| && s[i].Offset? && forall j :: 0 <= j < i ==> !s[j].Offset?
    ensures var r := Incremented(additional, s);
      && |r| == |s|
      && r[i] == Offset(AddWrap(s[i].n, additional))
      && forall j :: 0 <= j < |s| && j != i ==> r[j] == s[j]
  {
    FirstOffsetIs(s, i);
  }

  /** Without an Offset among the arguments: they are kept in order and one Offset is appended. */
  lemma IncrementedWithoutOffset(additional: uint64, s: seq<Arg>)
    requires forall j :: 0 <= j < |s| ==> !s[j].Offset?
    ensures var r := Incremented(additional, s);
      && |r| == |s| + 1
      && r[..|s|] == s
      && r[|s|] == Offset(additional)
  {
  }

  /** The result always holds an Offset, so a second call never appends again. */
  lemma IncrementedHasOffset(additional: uint64, s: seq<Arg>)
    ensures var r := Incremented(additional, s);
      FirstOffset(r).Some? && |Incremented(additional, r)| == |r|
  {
    var r := Incremented(additional, s);
    match FirstOffset(s)
    case Some(i) =>
      FirstOffsetIs(r, i);
    case None =>
      FirstOffsetIs(r, |s|);
  }

  /** Reduction modulo 2^64 into the range of a 64-bit `uint`. */
  function Wrap(z: int): (r: int)
    ensures 0 <= r < TWO_64
    ensures 0 <= z < TWO_64 ==> r == z
  {
    z % TWO_64
  }

  lemma AddWrapIsWrap(a: uint64, b: uint64)
    ensures AddWrap(a, b) as int == Wrap(a as int + b as int)
  {
    var s := a as int + b as int;
    if s >= TWO_64 {
      assert s == (s - TWO_64) + 1 * TWO_64;
    }
  }

  /** Wrapping ignores whole multiples of 2^64. */
  lemma WrapShift(z: int, k: int)
    ensures Wrap(z + k * TWO_64) == Wrap(z)
  {
    var q, m := z / TWO_64, z % TWO_64;
    assert z + k * TWO_64 == (q + k) * TWO_64 + m;
  }

  /** Wrapping addition is associative. */
  lemma AddWrapAssociative(x: uint64, a: uint64, b: uint64)
    ensures AddWrap(AddWrap(x, a), b) == AddWrap(x, AddWrap(a, b))
  {
    var xa, ab := AddWrap(x, a), AddWrap(a, b);
    AddWrapIsWrap(xa, b);
    AddWrapIsWrap(x, ab);
    var k1 := if x as int + a as int >= TWO_64 then -1 else 0;
    var k2 := if a as int + b as int >= TWO_64 then -1 else 0;
    assert xa as int + b as int == x as int + a as int + b as int + k1 * TWO_64;
    assert x as int + ab as int == x as int + a as int + b as int + k2 * TWO_64;
    WrapShift(x as int + a as int + b as int, k1);
    WrapShift(x as int + a as int + b as int, k2);
  }

  /**
   * Nested wrappers compose: shifting by `a` and then by `b` is one shift by
   * `a + b`, whether or not the arguments held an Offset.
   */
  lemma IncrementedTwice(a: uint64, b: uint64, s: seq<Arg>)
    ensures Incremented(b, Incremented(a, s)) == Incremented(AddWrap(a, b), s)
  {
    var r := Incremented(a, s);
    match FirstOffset(s)
    case Some(i) =>
      FirstOffsetIs(r, i);
      AddWrapAssociative(s[i].n, a, b);
    case None =>
      FirstOffsetIs(r, |s|);
  }
}
