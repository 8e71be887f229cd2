/** Node's POSIX `path.join`, `path.relative` and `path.dirname`, on absolute paths: the
    scripts make every directory absolute against the working directory before they use
    them. A normalised absolute path is the list of its segment names, `/a/b` being
    `["a", "b"]` and the root `[]`. */
module Paths {
  import opened Text

  type Path = seq<String>

  /** A segment name: not empty, not `.` or `..`, and free of the separator. */
  predicate IsName(s: String) {
    s != [] && s != "." && s != ".." && '/' !in s
  }

  predicate Normal(p: seq<String>) {
    forall i :: 0 <= i < |p| ==> IsName(p[i])
  }

  predicate NoSlash(parts: seq<String>) {
    forall i :: 0 <= i < |parts| ==> '/' !in parts[i]
  }

  /** Normalisation of `parts` on top of `base`: empty and `.` parts are skipped, `..` goes up
      one level and stops at the root, any other part is appended. */
  function Resolve(base: Path, parts: seq<String>): (r: Path)
    ensures Normal(base) && NoSlash(parts) ==> Normal(r)
    decreases |parts|
  {
    if parts == [] then base
    else
      var b :=
        if parts[0] == [] || parts[0] == "." then base
        else if parts[0] == ".." then (if base == [] then [] else base[..|base| - 1])
        else base + [parts[0]];
      Resolve(b, parts[1..])
  }

  /** `path.join(base, s)` for an absolute `base`. */
  function JoinPath(base: Path, s: String): (r: Path)
    ensures Normal(base) ==> Normal(r)
  {
    Resolve(base, Split(s, '/'))
  }

  /** The string form of an absolute path. */
  function Render(p: Path): String {
    "/" + Join(p, '/')
  }

  /** `path.isAbsolute(s) ? s : path.join(cwd, s)`, as a path. */
  function Absolute(cwd: Path, s: String): (r: Path)
    ensures Normal(cwd) ==> Normal(r)
  {
    if StartsWith(s, "/") then JoinPath([], s) else JoinPath(cwd, s)
  }

  /** `path.dirname`; the root is its own parent. */
  function Dirname(p: Path): (r: Path)
    ensures Normal(p) ==> Normal(r)
  {
    if p == [] then [] else p[..|p| - 1]
  }

  /** Length of the longest common prefix. */
  function CommonPrefix(a: Path, b: Path): (k: nat)
    ensures k <= |a| && k <= |b| && a[..k] == b[..k]
    ensures k < |a| && k < |b| ==> a[k] != b[k]
  {
    if a == [] || b == [] || a[0] != b[0] then 0
    else
      var k := CommonPrefix(a[1..], b[1..]);
      assert a[..k + 1] == [a[0]] + a[1..][..k];
      assert b[..k + 1] == [b[0]] + b[1..][..k];
      k + 1
  }

  /** A shared leading part counts in full toward the common prefix. */
  lemma {:induction false} CommonPrefixAppend(p: Path, a: Path, b: Path)
    ensures CommonPrefix(p + a, p + b) == |p| + CommonPrefix(a, b)
    decreases |p|
  {
    if p == [] {
      assert p + a == a && p + b == b;
    } else {
      assert (p + a)[0] == p[0] && (p + a)[1..] == p[1..] + a;
      assert (p + b)[0] == p[0] && (p + b)[1..] == p[1..] + b;
      CommonPrefixAppend(p[1..], a, b);
    }
  }

  function Ups(n: nat): (r: seq<String>)
    ensures |r| == n && forall i :: 0 <= i < n ==> r[i] == ".."
  {
    if n == 0 then [] else [".."] + Ups(n - 1)
  }

  /** The parts of `path.relative(from, to)`: up out of what `from` does not share with
      `to`, then down into the rest of `to`. */
  function Relative(from: Path, to: Path): seq<String> {
    var k := CommonPrefix(from, to);
    Ups(|from| - k) + to[k..]
  }

  /** `path.relative(from, to)` as a string; equal paths give `""`. */
  function RelativeStr(from: Path, to: Path): String {
    Join(Relative(from, to), '/')
  }

  lemma {:induction false} ResolveNames(base: Path, names: seq<String>)
    requires Normal(names)
    ensures Resolve(base, names) == base + names
    decreases |names|
  {
    if names != [] {
      assert IsName(names[0]);
      assert Normal(names[1..]) by {
        forall i | 0 <= i < |names| - 1 ensures IsName(names[1..][i]) {
          assert names[1..][i] == names[i + 1];
        }
      }
      ResolveNames(base + [names[0]], names[1..]);
      assert base + [names[0]] + names[1..] == base + names;
    }
  }

  lemma {:induction false} ResolveConcat(base: Path, a: seq<String>, b: seq<String>)
    ensures Resolve(base, a + b) == Resolve(Resolve(base, a), b)
    decreases |a|
  {
    if a == [] {
      assert a + b == b;
    } else {
      assert (a + b)[0] == a[0] && (a + b)[1..] == a[1..] + b;
      var b0 :=
        if a[0] == [] || a[0] == "." then base
        else if a[0] == ".." then (if base == [] then [] else base[..|base| - 1])
        else base + [a[0]];
      ResolveConcat(b0, a[1..], b);
    }
  }

  lemma {:induction false} ResolveUps(base: Path, n: nat)
    requires n <= |base|
    ensures Resolve(base, Ups(n)) == base[..|base| - n]
    decreases n
  {
    if n > 0 {
      assert Ups(n)[0] == ".." && Ups(n)[1..] == Ups(n - 1);
      ResolveUps(base[..|base| - 1], n - 1);
      assert base[..|base| - 1][..|base| - 1 - (n - 1)] == base[..|base| - n];
    }
  }

  /** Going the relative way from `from` arrives at `to`. */
  lemma RelativeResolves(from: Path, to: Path)
    requires Normal(from) && Normal(to)
    ensures Resolve(from, Relative(from, to)) == to
  {
    var k := CommonPrefix(from, to);
    var ups, rest := Ups(|from| - k), to[k..];
    assert Relative(from, to) == ups + rest;
    calc {
      Resolve(from, ups + rest);
      { ResolveConcat(from, ups, rest); }
      Resolve(Resolve(from, ups), rest);
      { UpsToPrefix(from, to, k); }
      Resolve(to[..k], rest);
      { DownToRest(to, k); }
      to;
    }
  }

  lemma UpsToPrefix(from: Path, to: Path, k: nat)
    requires k <= |from| && k <= |to| && from[..k] == to[..k]
    ensures Resolve(from, Ups(|from| - k)) == to[..k]
  {
    ResolveUps(from, |from| - k);
    assert |from| - (|from| - k) == k;
  }

  lemma DownToRest(to: Path, k: nat)
    requires Normal(to) && k <= |to|
    ensures Resolve(to[..k], to[k..]) == to
  {
    NormalSuffix(to, k);
    ResolveNames(to[..k], to[k..]);
    assert to[..k] + to[k..] == to;
  }

  lemma NormalSuffix(p: Path, k: nat)
    requires Normal(p) && k <= |p|
    ensures Normal(p[k..])
  {
    forall i | 0 <= i < |p| - k ensures IsName(p[k..][i]) { assert p[k..][i] == p[k + i]; }
  }

  /** `path.join(base, parts.join('/'))` resolves the parts themselves. */
  lemma JoinJoined(base: Path, parts: seq<String>)
    requires NoSlash(parts)
    ensures JoinPath(base, Join(parts, '/')) == Resolve(base, parts)
  {
    if parts == [] {
      var e: seq<String> := [[]];
      assert Split([], '/') == e;
      assert e[1..] == [];
    } else {
      SplitJoin(parts, '/');
    }
  }

  lemma RelativeNoSlash(from: Path, to: Path)
    requires Normal(to)
    ensures NoSlash(Relative(from, to))
  {
    var k := CommonPrefix(from, to);
    var r := Relative(from, to);
    forall i | 0 <= i < |r| ensures '/' !in r[i] {
      if i >= |from| - k { assert r[i] == to[k + i - (|from| - k)]; }
    }
  }

  /** `path.join(from, path.relative(from, to)) == to`. */
  lemma JoinRelative(from: Path, to: Path)
    requires Normal(from) && Normal(to)
    ensures JoinPath(from, RelativeStr(from, to)) == to
  {
    RelativeNoSlash(from, to);
    JoinJoined(from, Relative(from, to));
    RelativeResolves(from, to);
  }

  /** Below a directory, the relative path is the remaining segments. */
  lemma RelativeBelow(dir: Path, sub: Path)
    ensures Relative(dir, dir + sub) == sub
  {
    var k := CommonPrefix(dir, dir + sub);
    assert (dir + sub)[|dir|..] == sub;
  }

  /** Joining the string form of an absolute path onto `base` appends its segments: `join`
      does not restart at an inner `/`. */
  lemma JoinRendered(base: Path, p: Path)
    requires Normal(p)
    ensures JoinPath(base, Render(p)) == base + p
  {
    SplitCons([], '/', Join(p, '/'));
    assert Render(p) == [] + ['/'] + Join(p, '/');
    if p == [] {
      assert Split([], '/') == [[]];
      assert Resolve(base, [[], []]) == base;
    } else {
      assert NoSlash(p);
      SplitJoin(p, '/');
      ResolveNames(base, p);
    }
  }
}
