/**
 * `str(Path(d))` on a POSIX system: pathlib parses the directory argument
 * into an anchor ("", "/" or "//") and its named parts, and prints them
 * back joined by '/'. The validator prefixes every file name with this
 * string, so its `data/` argument arrives as `data`.
 */
module PyPath {
  import PyText

  /** Length of the longest prefix of `s` that does not contain `sep`. */
  function UntilSep(s: string, sep: char): (n: nat)
    ensures n <= |s|
    ensures sep !in s[..n]
    ensures n < |s| ==> s[n] == sep
  {
    if s == [] || s[0] == sep then 0
    else
      var m := UntilSep(s[1..], sep);
      assert s[..1 + m] == [s[0]] + s[1..][..m];
      1 + m
  }

  /** Python's `s.split(sep)` for a one-character separator: never empty, pieces may be. */
  function SplitOn(s: string, sep: char): (r: seq<string>)
    ensures |r| >= 1
    ensures forall i :: 0 <= i < |r| ==> sep !in r[i]
    decreases |s|
  {
    var n := UntilSep(s, sep);
    if n == |s| then [s] else [s[..n]] + SplitOn(s[n + 1..], sep)
  }

  lemma {:induction false} UntilSepAppend(a: string, sep: char, b: string)
    requires sep !in a
    requires b == [] || b[0] == sep
    ensures UntilSep(a + b, sep) == |a|
  {
    if a == [] {
      assert a + b == b;
    } else {
      assert (a + b)[0] == a[0];
      assert (a + b)[1..] == a[1..] + b;
      UntilSepAppend(a[1..], sep, b);
    }
  }

  /** `split` undoes `join` when no part contains the separator. */
  lemma {:induction false} SplitOnJoin(parts: seq<string>, sep: char)
    requires |parts| >= 1
    requires forall i :: 0 <= i < |parts| ==> sep !in parts[i]
    ensures SplitOn(PyText.JoinWith(parts, sep), sep) == parts
  {
    if |parts| == 1 {
      UntilSepAppend(parts[0], sep, []);
      assert parts[0] + [] == parts[0];
    } else {
      var rest := PyText.JoinWith(parts[1..], sep);
      var s := parts[0] + [sep] + rest;
      assert s == parts[0] + ([sep] + rest);
      UntilSepAppend(parts[0], sep, [sep] + rest);
      assert s[..|parts[0]|] == parts[0];
      assert s[|parts[0]| + 1..] == rest;
      SplitOnJoin(parts[1..], sep);
    }
  }

  lemma JoinCons(head: string, parts: seq<string>, sep: char)
    requires parts != []
    ensures PyText.JoinWith([head] + parts, sep) == head + [sep] + PyText.JoinWith(parts, sep)
  {
    var all := [head] + parts;
    assert all[0] == head && all[1..] == parts;
  }

  lemma CutAt(s: string, n: nat, sep: char)
    requires n < |s| && s[n] == sep
    ensures s == s[..n] + [sep] + s[n + 1..]
  {
  }

  /** `join` undoes `split`: splitting loses nothing. */
  lemma {:induction false} JoinSplitOn(s: string, sep: char)
    ensures PyText.JoinWith(SplitOn(s, sep), sep) == s
    decreases |s|
  {
    var n := UntilSep(s, sep);
    if n < |s| {
      var tail := s[n + 1..];
      JoinCons(s[..n], SplitOn(tail, sep), sep);
      JoinSplitOn(tail, sep);
      CutAt(s, n, sep);
    }
  }

  /** A part pathlib keeps: non-empty, not ".", free of '/'. */
  predicate IsNamed(p: string)
  {
    p != "" && p != "." && '/' !in p
  }

  /** The list comprehension `[x for x in parts if x and x != '.']`. */
  function KeepNamed(parts: seq<string>): (r: seq<string>)
    ensures (forall i :: 0 <= i < |parts| ==> '/' !in parts[i]) ==> forall i :: 0 <= i < |r| ==> IsNamed(r[i])
    ensures |r| <= |parts|
  {
    if parts == [] then []
    else (if parts[0] == "" || parts[0] == "." then [] else [parts[0]]) + KeepNamed(parts[1..])
  }

  lemma {:induction false} KeepNamedOfNamed(parts: seq<string>)
    requires forall i :: 0 <= i < |parts| ==> IsNamed(parts[i])
    ensures KeepNamed(parts) == parts
  {
    if parts != [] {
      KeepNamedOfNamed(parts[1..]);
    }
  }

  /** The named parts of a POSIX path, in order. */
  function Tail(s: string): seq<string>
  {
    KeepNamed(SplitOn(s, '/'))
  }

  /** The anchor of a POSIX path: exactly two leading slashes are kept, one or three and more become "/". */
  function Root(s: string): string
  {
    if |s| >= 1 && s[0] == '/' then
      if |s| >= 2 && s[1] == '/' && !(|s| >= 3 && s[2] == '/') then "//" else "/"
    else ""
  }

  /** `str(PurePosixPath(s))`: anchor plus named parts joined by '/', or "." when both are empty. */
  function Normalize(s: string): (r: string)
    ensures r != []
    ensures r[0] == '/' <==> s != [] && s[0] == '/'
  {
    var root := Root(s);
    var tail := Tail(s);
    if root == "" && tail == [] then "." else root + PyText.JoinWith(tail, '/')
  }

  lemma JoinNamedHead(parts: seq<string>)
    requires |parts| >= 1 && IsNamed(parts[0])
    ensures |PyText.JoinWith(parts, '/')| >= 1 && PyText.JoinWith(parts, '/')[0] == parts[0][0]
  {
  }

  lemma TailOfJoin(parts: seq<string>)
    requires forall i :: 0 <= i < |parts| ==> IsNamed(parts[i])
    ensures Tail(PyText.JoinWith(parts, '/')) == parts
    ensures forall k :: 0 <= k <= 2 ==> Tail(Slashes(k) + PyText.JoinWith(parts, '/')) == parts
  {
    var j := PyText.JoinWith(parts, '/');
    if parts == [] {
      assert SplitOn([], '/') == [[]];
    } else {
      SplitOnJoin(parts, '/');
      KeepNamedOfNamed(parts);
    }
    forall k | 0 <= k <= 2
      ensures Tail(Slashes(k) + j) == parts
    {
      TailSkipsSlashes(k, j);
    }
  }

  function Slashes(k: nat): string
  {
    if k == 0 then [] else "/" + Slashes(k - 1)
  }

  lemma KeepNamedSkipsEmpty(parts: seq<string>)
    ensures KeepNamed([""] + parts) == KeepNamed(parts)
  {
    var all := [""] + parts;
    assert all[0] == "" && all[1..] == parts;
  }

  lemma SplitOnLeadingSep(sep: char, b: string)
    ensures SplitOn([sep] + b, sep) == [""] + SplitOn(b, sep)
  {
    var s := [sep] + b;
    assert UntilSep(s, sep) == 0;
    assert s[..0] == "" && s[1..] == b;
  }

  lemma SlashesCons(k: nat, j: string)
    requires k > 0
    ensures Slashes(k) + j == ['/'] + (Slashes(k - 1) + j)
  {
  }

  /** A leading '/' adds only an empty piece, which pathlib drops. */
  lemma TailSkipsSlash(s: string)
    ensures Tail(['/'] + s) == Tail(s)
  {
    SplitOnLeadingSep('/', s);
    KeepNamedSkipsEmpty(SplitOn(s, '/'));
  }

  lemma {:induction false} TailSkipsSlashes(k: nat, j: string)
    ensures Tail(Slashes(k) + j) == Tail(j)
  {
    if k == 0 {
      assert Slashes(k) + j == j;
    } else {
      SlashesCons(k, j);
      TailSkipsSlash(Slashes(k - 1) + j);
      TailSkipsSlashes(k - 1, j);
    }
  }

  lemma RootOfSlashes(k: nat, j: string)
    requires k <= 2
    requires j == [] || j[0] != '/'
    ensures Root(Slashes(k) + j) == Slashes(k)
  {
    assert Slashes(1) == "/";
    assert Slashes(2) == "//";
    var s := Slashes(k) + j;
    if k == 1 {
      assert s[0] == '/';
      assert |s| >= 2 ==> s[1] == j[0];
    } else if k == 2 {
      assert s[0] == '/' && s[1] == '/';
      assert |s| >= 3 ==> s[2] == j[0];
    } else {
      assert s == j;
    }
  }

  lemma RootIsSlashes(s: string) returns (k: nat)
    ensures k <= 2 && Root(s) == Slashes(k)
  {
    assert Slashes(1) == "/";
    assert Slashes(2) == "//";
    k := |Root(s)|;
  }

  /** The printed path is the anchor followed by the joined parts, or "." when both are empty. */
  lemma NormalizeShape(s: string) returns (k: nat)
    ensures k <= 2 && Root(s) == Slashes(k)
    ensures Normalize(s) == if k == 0 && Tail(s) == [] then "." else Slashes(k) + PyText.JoinWith(Tail(s), '/')
  {
    k := RootIsSlashes(s);
  }

  /** Printing a parsed path and parsing it again gives back the same anchor and parts. */
  lemma NormalizeKeepsParts(s: string)
    ensures Root(Normalize(s)) == Root(s)
    ensures Tail(Normalize(s)) == Tail(s)
  {
    var tail := Tail(s);
    var k := NormalizeShape(s);
    var j := PyText.JoinWith(tail, '/');
    var printed := Normalize(s);
    if k == 0 && tail == [] {
      assert printed == ".";
      SplitOnWhole(".", '/');
      assert KeepNamed(["."]) == [];
    } else {
      assert printed == Slashes(k) + j;
      TailOfJoin(tail);
      if tail != [] {
        JoinNamedHead(tail);
      }
      RootOfSlashes(k, j);
    }
  }

  /** `str(Path(str(Path(s)))) == str(Path(s))`, and the result is never empty. */
  lemma NormalizeIdempotent(s: string)
    ensures Normalize(s) != ""
    ensures Normalize(Normalize(s)) == Normalize(s)
  {
    NormalizeKeepsParts(s);
  }

  /** The first piece of `split(sep)` is everything before the first separator. */
  lemma SplitOnCons(a: string, sep: char, b: string)
    requires sep !in a
    ensures SplitOn(a + [sep] + b, sep) == [a] + SplitOn(b, sep)
  {
    var s := a + [sep] + b;
    assert s == a + ([sep] + b);
    UntilSepAppend(a, sep, [sep] + b);
    assert s[..|a|] == a;
    assert s[|a| + 1..] == b;
  }

  lemma SplitOnWhole(a: string, sep: char)
    requires sep !in a
    ensures SplitOn(a, sep) == [a]
  {
    UntilSepAppend(a, sep, []);
    assert a + [] == a;
  }

  /** A single plain name is printed as it is. */
  lemma NormalizePlainName(d: string)
    requires IsNamed(d)
    ensures Normalize(d) == d
  {
    SplitOnWhole(d, '/');
    assert KeepNamed([d]) == [d];
  }

  /** A trailing slash is dropped: the argument `data/` gives the prefix `data`. */
  lemma NormalizeTrailingSlash(d: string)
    requires IsNamed(d)
    ensures Normalize(d + "/") == d
  {
    SplitOnCons(d, '/', "");
    assert d + ['/'] + "" == d + "/";
    SplitOnWhole("", '/');
    assert KeepNamed([d, ""]) == [d];
    assert (d + "/")[0] == d[0];
  }

  /** The empty argument names the current directory. */
  lemma NormalizeEmpty()
    ensures Normalize("") == "."
  {
    assert SplitOn("", '/') == [""];
  }
}
