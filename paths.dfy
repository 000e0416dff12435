/**
 * Path handling: the level count of jfs_calc_lvl, the components strtok
 * hands out one by one in jfs_lookup, and the last component jfs_get_name
 * returns.
 */
module Paths {

  import opened Types

  /** Number of '/' characters in `s`. */
  function CountSlash(s: seq<char>): nat
  {
    if s == [] then 0 else CountSlash(s[..|s| - 1]) + (if s[|s| - 1] == '/' then 1 else 0)
  }

  lemma {:induction false} CountSlashAppend(a: seq<char>, b: seq<char>)
    ensures CountSlash(a + b) == CountSlash(a) + CountSlash(b)
    decreases |b|
  {
    if b != [] {
      assert (a + b)[..|a + b| - 1] == a + b[..|b| - 1];
      CountSlashAppend(a, b[..|b| - 1]);
    } else {
      assert a + b == a;
    }
  }

  /** The level jfs_calc_lvl assigns a path: 0 for "/", the number of slashes otherwise. */
  function Lvl(path: seq<char>): nat
  {
    if path == "/" then 0 else CountSlash(path)
  }

  /** The examples in jfs_calc_lvl's header comment. */
  lemma LvlExamples()
    ensures Lvl("/av/c/d/f") == 4 && Lvl("/") == 0 && Lvl("/a") == 1
  {
    assert "/av/c/d/f"[..8] == "/av/c/d/";
    assert "/av/c/d/"[..7] == "/av/c/d";
    assert "/av/c/d"[..6] == "/av/c/";
    assert "/av/c/"[..5] == "/av/c";
    assert "/av/c"[..4] == "/av/";
    assert "/av/"[..3] == "/av";
    assert "/av"[..2] == "/a";
    assert "/a"[..1] == "/";
    assert "/"[..0] == [];
  }

  /** jfs_calc_lvl: counts the slashes with a pointer walk. */
  method CalcLvl(path: seq<char>) returns (lvl: nat)
    ensures lvl == Lvl(path)
  {
    lvl := 0;
    if path == "/" {
      return;
    }
    var k := 0;
    while k < |path|
      invariant 0 <= k <= |path|
      invariant lvl == CountSlash(path[..k])
    {
      assert path[..k + 1][..k] == path[..k];
      if path[k] == '/' {
        lvl := lvl + 1;
      }
      k := k + 1;
    }
    assert path[..k] == path;
  }

  /** Length of the leading run of non-'/' characters. */
  function TokenLen(s: seq<char>): (n: nat)
    ensures n <= |s|
    ensures forall i :: 0 <= i < n ==> s[i] != '/'
    ensures n < |s| ==> s[n] == '/'
  {
    if s == [] || s[0] == '/' then 0 else 1 + TokenLen(s[1..])
  }

  /** The tokens successive `strtok(…, "/")` calls return: maximal non-empty runs between slashes. */
  function Components(s: seq<char>): seq<seq<char>>
    decreases |s|
  {
    if s == [] then []
    else if s[0] == '/' then Components(s[1..])
    else
      var n := TokenLen(s);
      [s[..n]] + Components(s[n..])
  }

  /** A component a name field can hold: non-empty, no slash, no NUL, shorter than 128. */
  predicate ComponentOk(c: seq<char>)
  {
    |c| > 0 && NameOk(c) && forall i :: 0 <= i < |c| ==> c[i] != '/'
  }

  predicate ComponentsOk(cs: seq<seq<char>>)
  {
    forall i :: 0 <= i < |cs| ==> ComponentOk(cs[i])
  }

  /** "/c1/c2/…/cn". */
  function JoinPath(cs: seq<seq<char>>): seq<char>
  {
    if cs == [] then [] else "/" + cs[0] + JoinPath(cs[1..])
  }

  /**
   * The paths the filesystem is asked about: the root, or "/" followed by
   * non-empty components separated by single slashes, with no trailing slash.
   */
  predicate ValidPath(path: seq<char>)
  {
    path == "/" || (Components(path) != [] && ComponentsOk(Components(path)) && JoinPath(Components(path)) == path)
  }

  lemma {:induction false} CountSlashOfJoin(cs: seq<seq<char>>)
    requires ComponentsOk(cs)
    ensures CountSlash(JoinPath(cs)) == |cs|
    decreases |cs|
  {
    if cs != [] {
      var c := cs[0];
      var rest := JoinPath(cs[1..]);
      assert JoinPath(cs) == ("/" + c) + rest;
      CountSlashAppend("/" + c, rest);
      CountSlashAppend("/", c);
      NoSlashCount(c);
      assert CountSlash("/") == 1 by {
        assert "/"[..0] == [];
      }
      CountSlashOfJoin(cs[1..]);
    }
  }

  lemma {:induction false} NoSlashCount(c: seq<char>)
    requires forall i :: 0 <= i < |c| ==> c[i] != '/'
    ensures CountSlash(c) == 0
    decreases |c|
  {
    if c != [] {
      NoSlashCount(c[..|c| - 1]);
    }
  }

  lemma {:induction false} TokenLenOfComponent(c: seq<char>, rest: seq<char>)
    requires ComponentOk(c)
    requires rest == [] || rest[0] == '/'
    ensures TokenLen(c + rest) == |c|
    decreases |c|
  {
    if |c| == 1 {
      assert (c + rest)[1..] == rest;
    } else {
      assert (c + rest)[1..] == c[1..] + rest;
      TokenLenOfComponent(c[1..], rest);
    }
  }

  /** Tokenising a joined path gives back its components. */
  lemma {:induction false} ComponentsOfJoin(cs: seq<seq<char>>)
    requires ComponentsOk(cs)
    ensures Components(JoinPath(cs)) == cs
    decreases |cs|
  {
    if cs != [] {
      var c := cs[0];
      var rest := JoinPath(cs[1..]);
      var p := JoinPath(cs);
      assert p == "/" + (c + rest);
      assert p[1..] == c + rest;
      assert rest == [] || rest[0] == '/';
      TokenLenOfComponent(c, rest);
      assert (c + rest)[..|c|] == c;
      assert (c + rest)[|c|..] == rest;
      ComponentsOfJoin(cs[1..]);
    }
  }

  /** The level of a path is the number of its components. */
  lemma LvlCountsComponents(path: seq<char>)
    requires ValidPath(path)
    ensures Lvl(path) == |Components(path)|
  {
    if path != "/" {
      CountSlashOfJoin(Components(path));
    } else {
      assert Components(path) == Components(path[1..]);
    }
  }

  /** Index of the last '/' in `path` (what strrchr finds). */
  function LastSlash(path: seq<char>): (k: nat)
    requires '/' in path
    ensures k < |path| && path[k] == '/'
    ensures forall j :: k < j < |path| ==> path[j] != '/'
    decreases |path|
  {
    if path[|path| - 1] == '/' then |path| - 1
    else
      assert path == path[..|path| - 1] + [path[|path| - 1]];
      LastSlash(path[..|path| - 1])
  }

  /** jfs_get_name: the part of the path after its last '/'. */
  function GetName(path: seq<char>): (name: seq<char>)
    requires '/' in path
    ensures |name| < |path| && path == path[..|path| - |name| - 1] + "/" + name
    ensures forall i :: 0 <= i < |name| ==> name[i] != '/'
  {
    var k := LastSlash(path);
    assert path == path[..k] + "/" + path[k + 1..];
    path[k + 1..]
  }

  lemma {:induction false} JoinPathSnoc(cs: seq<seq<char>>)
    requires cs != []
    ensures JoinPath(cs) == JoinPath(cs[..|cs| - 1]) + "/" + cs[|cs| - 1]
    decreases |cs|
  {
    var n := |cs|;
    if n == 1 {
      assert cs[..0] == [];
      assert cs[1..] == [];
    } else {
      var tail := cs[1..];
      JoinPathSnoc(tail);
      var init := cs[..n - 1];
      assert init[0] == cs[0];
      assert init[1..] == tail[..|tail| - 1];
      assert tail[|tail| - 1] == cs[n - 1];
      calc {
        JoinPath(cs);
        "/" + cs[0] + JoinPath(tail);
        "/" + cs[0] + (JoinPath(tail[..|tail| - 1]) + "/" + cs[n - 1]);
        ("/" + cs[0] + JoinPath(init[1..])) + "/" + cs[n - 1];
        JoinPath(init) + "/" + cs[n - 1];
      }
    }
  }

  /** The name jfs_get_name returns for a non-root path is its last component. */
  lemma GetNameIsLastComponent(path: seq<char>)
    requires ValidPath(path) && path != "/"
    ensures '/' in path
    ensures GetName(path) == Components(path)[|Components(path)| - 1]
  {
    var cs := Components(path);
    var last := cs[|cs| - 1];
    JoinPathSnoc(cs);
    var prefix := JoinPath(cs[..|cs| - 1]);
    assert path == prefix + "/" + last;
    assert path[|prefix|] == '/';
    var name := GetName(path);
    assert ComponentOk(last);
    assert name == path[|path| - |name|..] == last;
  }
}
