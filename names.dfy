/**
 * Splitting a Go function's full name into its package path and its
 * function name (internal/utils/names.go, ginkgo/internal/runtime.go): the
 * split is at the first '.' after the last '/'. The name is a parameter;
 * looking it up from a program counter is not modelled.
 */
module Names {
  import opened Wrappers

  /** strings.LastIndexByte: the last index of `b` in `s`, or -1. */
  function LastIndexOf(s: string, b: char): (i: int)
    ensures -1 <= i < |s|
    ensures i >= 0 ==> s[i] == b
    ensures forall j :: i < j < |s| ==> s[j] != b
  {
    if s == [] then -1
    else if s[|s| - 1] == b then |s| - 1
    else LastIndexOf(s[..|s| - 1], b)
  }

  /** strings.IndexByte: the first index of `b` in `s`, or -1. */
  function IndexOf(s: string, b: char): (i: int)
    ensures -1 <= i < |s|
    ensures i >= 0 ==> s[i] == b
    ensures forall j :: 0 <= j < |s| && (i < 0 || j < i) ==> s[j] != b
  {
    if s == [] then -1
    else if s[0] == b then 0
    else
      var k := IndexOf(s[1..], b);
      if k < 0 then -1 else k + 1
  }

  /** Where the search for the dot starts: the last '/', or 0 when there is none. */
  function SearchStart(full: string): (k: nat)
    ensures k <= |full| && (k > 0 ==> k < |full| && full[k] == '/')
    ensures forall j :: k < j < |full| ==> full[j] != '/'
  {
    var lastSlash := LastIndexOf(full, '/');
    if lastSlash < 0 then 0 else lastSlash
  }

  /** A '.' occurs at or after where the search starts. */
  predicate DotAfterLastSlash(full: string)
  {
    exists j :: SearchStart(full) <= j < |full| && full[j] == '.'
  }

  /**
   * GetPackageAndName: `None` where Go slices with index -1 and panics, which
   * happens exactly when no '.' follows the last '/' and that '/' (if any) is the first character.
   */
  function GetPackageAndName(full: string): (r: Option<(string, string)>)
    ensures r.None? <==> !DotAfterLastSlash(full) && SearchStart(full) == 0
  {
    var start := SearchStart(full);
    var firstDot := IndexOf(full[start..], '.') + start;
    if firstDot < 0 then None
    else Some((full[..firstDot], full[firstDot + 1..]))
  }

  /**
   * When a '.' follows the last '/': the package and the name concatenate
   * back to the full name with a '.', the name holds no '/', and the part of
   * the package after its last '/' holds no '.'.
   */
  lemma SplitAtDot(full: string)
    requires DotAfterLastSlash(full)
    ensures var r := GetPackageAndName(full);
      && r.Some?
      && r.value.0 + "." + r.value.1 == full
      && '/' !in r.value.1
      && forall j :: SearchStart(r.value.0) <= j < |r.value.0| ==> r.value.0[j] != '.'
  {
    var start, dot := SplitDot(full);
    SplitAround(full, dot);
    PrefixSearchStart(full, dot);
  }

  /** Where the split happens when a '.' follows the last '/': the first '.' after the search start. */
  lemma SplitDot(full: string) returns (start: nat, dot: nat)
    requires DotAfterLastSlash(full)
    ensures start == SearchStart(full) <= dot < |full| && full[dot] == '.'
    ensures forall j :: start <= j < dot ==> full[..dot][j] != '.'
    ensures GetPackageAndName(full) == Some((full[..dot], full[dot + 1..]))
  {
    start := SearchStart(full);
    var d := IndexOf(full[start..], '.');
    DotFound(full, start);
    dot := start + d;
    NoDotBefore(full, start, dot);
  }

  lemma DotFound(full: string, start: nat)
    requires start <= |full| && exists j :: start <= j < |full| && full[j] == '.'
    ensures IndexOf(full[start..], '.') >= 0
  {
    var j :| start <= j < |full| && full[j] == '.';
    assert full[start..][j - start] == '.';
  }

  lemma NoDotBefore(full: string, start: nat, dot: nat)
    requires start <= dot <= |full| && dot - start == IndexOf(full[start..], '.')
    ensures forall j :: start <= j < dot ==> full[..dot][j] != '.'
  {
    forall j | start <= j < dot
      ensures full[..dot][j] != '.'
    {
      assert full[..dot][j] == full[start..][j - start];
    }
  }

  /** A string is the part before index `i`, the character there, and the part after it. */
  lemma SplitAround(s: string, i: nat)
    requires i < |s|
    ensures s[..i] + [s[i]] + s[i + 1..] == s
    ensures forall j :: i < j < |s| && s[j] == '/' ==> '/' in s[i + 1..]
  {
    forall j | i < j < |s| && s[j] == '/'
      ensures '/' in s[i + 1..]
    {
      assert s[i + 1..][j - i - 1] == '/';
    }
  }

  /** Cutting a string after its last '/' leaves the search start in place. */
  lemma PrefixSearchStart(s: string, n: nat)
    requires LastIndexOf(s, '/') < n <= |s|
    ensures SearchStart(s[..n]) == SearchStart(s)
  {
    LastIndexOfPrefix(s, '/', n);
  }

  /** The last occurrence in a prefix that extends past the last occurrence in the whole. */
  lemma LastIndexOfPrefix(s: string, b: char, n: nat)
    requires LastIndexOf(s, b) < n <= |s|
    ensures LastIndexOf(s[..n], b) == LastIndexOf(s, b)
  {
    LastIndexOfIs(s[..n], b, LastIndexOf(s, b));
  }

  /** The last occurrence is the one with no occurrence after it. */
  lemma LastIndexOfIs(s: string, b: char, i: int)
    requires -1 <= i < |s| && (i >= 0 ==> s[i] == b)
    requires forall j :: i < j < |s| ==> s[j] != b
    ensures LastIndexOf(s, b) == i
  {
  }

  /** The first occurrence is the one with no occurrence before it. */
  lemma IndexOfIs(s: string, b: char, i: nat)
    requires i < |s| && s[i] == b
    requires forall j :: 0 <= j < i ==> s[j] != b
    ensures IndexOf(s, b) == i
  {
  }

  /** Without any '/', the split is at the first '.'. */
  lemma SplitWithoutSlash(full: string)
    requires '/' !in full && '.' in full
    ensures var r := GetPackageAndName(full);
      && r.Some? && r.value.0 == full[..IndexOf(full, '.')] && '.' !in r.value.0
  {
    assert SearchStart(full) == 0;
    assert full[0..] == full;
  }

  /**
   * A quirk of the index arithmetic: without a '.' after a last '/' at index
   * `k > 0`, the package loses the character before the '/' and the name keeps the '/'.
   */
  lemma SplitWithoutDot(full: string)
    requires !DotAfterLastSlash(full) && SearchStart(full) > 0
    ensures var k := SearchStart(full);
      GetPackageAndName(full) == Some((full[..k - 1], full[k..]))
  {
  }

  /**
   * The converse of SplitAtDot: a package path whose last element holds no
   * '.', joined by '.' to a name without '/', splits back into the two.
   */
  lemma JoinSplit(dir: string, base: string, name: string)
    requires '/' !in base && '.' !in base && '/' !in name
    ensures GetPackageAndName(dir + "/" + base + "." + name) == Some((dir + "/" + base, name))
  {
    var full := dir + "/" + base + "." + name;
    JoinLastSlash(dir, base, name);
    JoinFirstDot(dir, base, name);
    assert full[..|dir| + |base| + 1] == dir + "/" + base;
    assert full[|dir| + |base| + 2..] == name;
  }

  lemma JoinLastSlash(dir: string, base: string, name: string)
    requires '/' !in base && '/' !in name
    ensures SearchStart(dir + "/" + base + "." + name) == |dir|
  {
    var full := dir + "/" + base + "." + name;
    var k := |dir|;
    forall j | k < j < |full|
      ensures full[j] != '/'
    {
      if j <= k + |base| {
        assert full[j] == base[j - k - 1];
      } else if j > k + |base| + 1 {
        assert full[j] == name[j - k - |base| - 2];
      }
    }
    LastIndexOfIs(full, '/', k);
  }

  lemma JoinFirstDot(dir: string, base: string, name: string)
    requires '.' !in base
    ensures IndexOf((dir + "/" + base + "." + name)[|dir|..], '.') == |base| + 1
  {
    var tail := (dir + "/" + base + "." + name)[|dir|..];
    assert tail == "/" + base + "." + name;
    forall j | 0 <= j < |base| + 1
      ensures tail[j] != '.'
    {
      if j > 0 {
        assert tail[j] == base[j - 1];
      }
    }
    IndexOfIs(tail, '.', |base| + 1);
  }

  /** internal/utils/names.go, example 1. */
  lemma ExampleTestRun(full: string)
    requires full == "github.com/DataDog/dd-sdk-go-testing.TestRun"
    ensures GetPackageAndName(full) == Some(("github.com/DataDog/dd-sdk-go-testing", "TestRun"))
  {
    var dir, base, name := "github.com/DataDog", "dd-sdk-go-testing", "TestRun";
    assert dir + "/" + base == "github.com/DataDog/dd-sdk-go-testing";
    assert dir + "/" + base + "." + name == full;
    JoinSplit(dir, base, name);
  }

  /** internal/utils/names.go, example 2: later dots stay in the name. */
  lemma ExampleClosure(full: string)
    requires full == "github.com/DataDog/dd-sdk-go-testing.TestRun.func1"
    ensures GetPackageAndName(full) == Some(("github.com/DataDog/dd-sdk-go-testing", "TestRun.func1"))
  {
    var dir, base, name := "github.com/DataDog", "dd-sdk-go-testing", "TestRun.func1";
    assert dir + "/" + base == "github.com/DataDog/dd-sdk-go-testing";
    assert dir + "/" + base + "." + name == full;
    JoinSplit(dir, base, name);
  }

  /** A name with neither '/' nor '.' makes Go panic. */
  lemma ExamplePanic()
    ensures GetPackageAndName("main") == None
  {
    assert LastIndexOf("main", '/') == -1;
  }
}
