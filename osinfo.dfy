/**
 * The /etc/os-release scanner of OSVersion (internal/utils/osinfo_linux.go).
 * The file is given as its lines, or as `None` when it cannot be opened.
 */
module OsInfo {
  import opened Wrappers
  import Names

  /** constants.Unknown */
  const Unknown := "unknown"

  /** strings.SplitN(line, "=", 2): the key, and the value when the line has an '='. */
  function SplitKey(line: string): (r: (string, Option<string>))
    ensures '=' !in r.0
    ensures r.1.None? ==> r.0 == line
    ensures r.1.Some? ==> r.0 + "=" + r.1.value == line
  {
    var i := Names.IndexOf(line, '=');
    if i < 0 then (line, None)
    else
      assert line[..i] + "=" + line[i + 1..] == line;
      (line[..i], Some(line[i + 1..]))
  }

  /** strings.TrimLeft with the cutset "\"". */
  function TrimLeftQuotes(s: string): (r: string)
    ensures |r| <= |s| && r == s[|s| - |r|..]
    ensures forall j :: 0 <= j < |s| - |r| ==> s[j] == '"'
    ensures r == [] || r[0] != '"'
  {
    if s != [] && s[0] == '"' then TrimLeftQuotes(s[1..]) else s
  }

  /** strings.TrimRight with the cutset "\"". */
  function TrimRightQuotes(s: string): (r: string)
    ensures |r| <= |s| && r == s[..|r|]
    ensures forall j :: |r| <= j < |s| ==> s[j] == '"'
    ensures r == [] || r[|r| - 1] != '"'
  {
    if s != [] && s[|s| - 1] == '"' then TrimRightQuotes(s[..|s| - 1]) else s
  }

  /** strings.Trim(s, "\""): every '"' at either end goes. */
  function Trim(s: string): (r: string)
    ensures |r| <= |s|
    ensures r == [] || (r[0] != '"' && r[|r| - 1] != '"')
  {
    var l := TrimLeftQuotes(s);
    var r := TrimRightQuotes(l);
    assert r != [] ==> r[0] == l[0];
    r
  }

  /** A value with no '"' at either end. */
  predicate Unquoted(x: string)
  {
    x == [] || (x[0] != '"' && x[|x| - 1] != '"')
  }

  /** Trim keeps a value with no '"' at either end. */
  lemma TrimUnquoted(x: string)
    requires Unquoted(x)
    ensures Trim(x) == x
  {
    if x != [] {
      assert TrimLeftQuotes(x) == x;
      assert TrimRightQuotes(x) == x;
    }
  }

  /** Trim removes the pair of quotes around such a value. */
  lemma TrimQuoted(x: string)
    requires Unquoted(x)
    ensures Trim("\"" + x + "\"") == x
  {
    var q := '"';
    assert "\"" + x + "\"" == [q] + (x + [q]);
    QuotedLeft(x);
    QuotedRight(x);
  }

  lemma QuotedLeft(x: string)
    requires Unquoted(x)
    ensures TrimLeftQuotes(['"'] + (x + ['"'])) == if x == [] then [] else x + ['"']
  {
    var xq := x + ['"'];
    assert (['"'] + xq)[1..] == xq;
    if x == [] {
      assert xq[1..] == [];
    } else {
      assert xq[0] == x[0];
    }
  }

  lemma QuotedRight(x: string)
    requires Unquoted(x)
    ensures TrimRightQuotes(x + ['"']) == x
  {
    var xq := x + ['"'];
    assert xq[..|xq| - 1] == x;
    if x != [] {
      assert TrimRightQuotes(x) == x;
    }
  }

  /** One line of the loop: the new version, or `None` where Go indexes `parts[1]` of a line without '='. */
  function Step(version: string, line: string): (r: Option<string>)
    ensures r.None? <==> SplitKey(line).1.None? && (line == "VERSION" || (line == "VERSION_ID" && version == ""))
    ensures SplitKey(line).0 != "VERSION" && SplitKey(line).0 != "VERSION_ID" ==> r == Some(version)
    ensures version != "" && SplitKey(line).0 == "VERSION_ID" ==> r == Some(version)
  {
    var (key, value) := SplitKey(line);
    if key == "VERSION" then
      if value.None? then None else Some(Trim(value.value))
    else if key == "VERSION_ID" && version == "" then
      if value.None? then None else Some(Trim(value.value))
    else Some(version)
  }

  /** The version after scanning `lines`, or the index of the line that makes Go panic. */
  function Scan(lines: seq<string>): (r: Result<string, nat>)
    ensures lines == [] ==> r == Success(Unknown)
    ensures r.Failure? ==> r.error < |lines|
  {
    if lines == [] then Success(Unknown)
    else
      match Scan(lines[..|lines| - 1])
      case Failure(i) => Failure(i)
      case Success(v) =>
        match Step(v, lines[|lines| - 1])
        case None => Failure(|lines| - 1)
        case Some(v') => Success(v')
  }

  /** OSVersion. */
  method OSVersion(file: Option<seq<string>>) returns (r: Result<string, nat>)
    ensures file.None? ==> r == Success(Unknown)
    ensures file.Some? ==> r == Scan(file.value)
  {
    if file.None? {
      return Success(Unknown);
    }
    var lines := file.value;
    var version := Unknown;
    var i := 0;
    while i < |lines|
      invariant 0 <= i <= |lines|
      invariant Scan(lines[..i]) == Success(version)
    {
      ScanNext(lines, i);
      match Step(version, lines[i])
      case None =>
        FailureSticks(lines, i + 1);
        return Failure(i);
      case Some(v) =>
        version := v;
      i := i + 1;
    }
    assert lines[..|lines|] == lines;
    return Success(version);
  }

  /** One more line: the scan so far, then one Step. */
  lemma ScanNext(lines: seq<string>, i: nat)
    requires i < |lines| && Scan(lines[..i]).Success?
    ensures Scan(lines[..i + 1]) == match Step(Scan(lines[..i]).value, lines[i])
      case None => Failure(i)
      case Some(v) => Success(v)
  {
    assert lines[..i + 1][..i] == lines[..i];
  }

  /** A line `key=value` splits at its first '=' when the key has none. */
  lemma SplitKeyOf(key: string, value: string)
    requires '=' !in key
    ensures SplitKey(key + "=" + value) == (key, Some(value))
  {
    var line := key + "=" + value;
    forall j | 0 <= j < |key|
      ensures line[j] != '='
    {
      assert line[j] == key[j];
    }
    Names.IndexOfIs(line, '=', |key|);
    assert line[..|key|] == key;
    assert line[|key| + 1..] == value;
  }

  /** A VERSION line sets the version to its trimmed value, whatever it was. */
  lemma VersionLine(version: string, x: string)
    ensures Step(version, "VERSION=" + x) == Some(Trim(x))
  {
    assert "VERSION=" + x == "VERSION" + "=" + x;
    SplitKeyOf("VERSION", x);
  }

  /** A VERSION_ID line is used only when the version so far is "". */
  lemma VersionIdLine(version: string, x: string)
    ensures Step(version, "VERSION_ID=" + x) == if version == "" then Some(Trim(x)) else Some(version)
  {
    assert "VERSION_ID=" + x == "VERSION_ID" + "=" + x;
    SplitKeyOf("VERSION_ID", x);
  }

  /** A line with any other key leaves the version as it was. */
  lemma OtherLine(version: string, line: string)
    requires SplitKey(line).0 != "VERSION" && SplitKey(line).0 != "VERSION_ID"
    ensures Step(version, line) == Some(version)
  {
  }

  /** A VERSION line without '=' makes Go panic, whatever came before. */
  lemma BareVersionPanics(prefix: seq<string>)
    requires Scan(prefix).Success?
    ensures Scan(prefix + ["VERSION"]) == Failure(|prefix|)
  {
    var all := prefix + ["VERSION"];
    assert all[..|all| - 1] == prefix && all[|all| - 1] == "VERSION";
    SplitWithoutEquals("VERSION");
    assert Step(Scan(prefix).value, "VERSION") == None;
  }

  /** A line without '=' is all key. */
  lemma SplitWithoutEquals(line: string)
    requires '=' !in line
    ensures SplitKey(line) == (line, None)
  {
  }

  /** The line a scan fails at has no '='. */
  lemma {:induction false} ScanFailsWithoutEquals(lines: seq<string>)
    requires Scan(lines).Failure?
    ensures SplitKey(lines[Scan(lines).error]).1.None?
  {
    var init := lines[..|lines| - 1];
    if Scan(init).Failure? {
      ScanFailsWithoutEquals(init);
      assert lines[Scan(lines).error] == init[Scan(init).error];
    }
  }

  /** A failed scan stays failed, at the same line, whatever lines follow. */
  lemma {:induction false} FailedAppend(prefix: seq<string>, rest: seq<string>)
    requires Scan(prefix).Failure?
    ensures Scan(prefix + rest) == Scan(prefix)
    decreases |rest|
  {
    if rest == [] {
      assert prefix + rest == prefix;
    } else {
      var init := rest[..|rest| - 1];
      FailedAppend(prefix, init);
      assert prefix + rest == (prefix + init) + [rest[|rest| - 1]];
      FailedSnoc(prefix + init, rest[|rest| - 1]);
    }
  }

  /** One more line after a failure changes nothing. */
  lemma FailedSnoc(lines: seq<string>, line: string)
    requires Scan(lines).Failure?
    ensures Scan(lines + [line]) == Scan(lines)
  {
    assert (lines + [line])[..|lines|] == lines;
  }

  /** Once the scan has failed, later lines do not matter. */
  lemma FailureSticks(lines: seq<string>, n: nat)
    requires n <= |lines| && Scan(lines[..n]).Failure?
    ensures Scan(lines) == Scan(lines[..n])
  {
    FailedAppend(lines[..n], lines[n..]);
    assert lines[..n] + lines[n..] == lines;
  }

  /**
   * Once the version is non-empty, only a VERSION line changes it: lines
   * with any other key, VERSION_ID included, leave it as it is and cannot panic.
   */
  lemma {:induction false} NonEmptyVersionKept(prefix: seq<string>, rest: seq<string>, v: string)
    requires Scan(prefix) == Success(v) && v != ""
    requires forall j :: 0 <= j < |rest| ==> SplitKey(rest[j]).0 != "VERSION"
    ensures Scan(prefix + rest) == Success(v)
    decreases |rest|
  {
    if rest == [] {
      assert prefix + rest == prefix;
    } else {
      var init := rest[..|rest| - 1];
      NonEmptyVersionKept(prefix, init, v);
      var all := prefix + rest;
      assert all[..|all| - 1] == prefix + init;
      assert all[|all| - 1] == rest[|rest| - 1];
    }
  }

  /** The last VERSION line wins when its trimmed value is not empty. */
  lemma LastVersionWins(prefix: seq<string>, x: string, rest: seq<string>)
    requires Scan(prefix).Success? && Trim(x) != ""
    requires forall j :: 0 <= j < |rest| ==> SplitKey(rest[j]).0 != "VERSION"
    ensures Scan(prefix + ["VERSION=" + x] + rest) == Success(Trim(x))
  {
    var upTo := prefix + ["VERSION=" + x];
    assert upTo[..|prefix|] == prefix;
    VersionLine(Scan(prefix).value, x);
    NonEmptyVersionKept(upTo, rest, Trim(x));
  }

  /** Without a VERSION line the result stays "unknown", whatever VERSION_ID lines there are. */
  lemma NoVersionLine(lines: seq<string>)
    requires forall j :: 0 <= j < |lines| ==> SplitKey(lines[j]).0 != "VERSION"
    ensures Scan(lines) == Success(Unknown)
  {
    NonEmptyVersionKept([], lines, Unknown);
    assert [] + lines == lines;
  }
}
