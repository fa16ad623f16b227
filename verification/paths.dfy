/** The POSIX flavour of `os.path` that the form-path handling relies on:
    `basename`, `join`, `normpath` and `abspath` (the working directory is a
    parameter). */
module PosixPath {
  import opened Text

  /** `os.path.basename`: the longest suffix without a '/'. */
  function Basename(p: string): (b: string)
    ensures '/' !in b && |b| <= |p|
    ensures p[|p| - |b|..] == b
    ensures |b| < |p| ==> p[|p| - |b| - 1] == '/'
  {
    p[RFind(p, '/') + 1..]
  }

  /** The basename of `s + "/" + b`, or of `b` alone, is `b` when `b` has no '/'. */
  lemma BasenameOfLast(s: string, b: string)
    requires '/' !in b
    ensures Basename(s + "/" + b) == b
    ensures Basename(b) == b
  {
    var p := s + "/" + b;
    assert p[|p| - |b| - 1] == '/';
    assert p[|p| - |b|..] == b;
  }

  /** `os.path.join(a, b)` for two components. */
  function JoinPath(a: string, b: string): string
  {
    if |b| > 0 && b[0] == '/' then b
    else if |a| == 0 || a[|a| - 1] == '/' then a + b
    else a + "/" + b
  }

  /** The number of leading slashes `normpath` keeps: POSIX keeps exactly two
      when a path starts with exactly two, and collapses three or more to one. */
  function LeadingSlashes(p: string): (n: nat)
    ensures n <= 2
    ensures n > 0 <==> |p| > 0 && p[0] == '/'
  {
    if |p| >= 1 && p[0] == '/' then
      (if |p| >= 2 && p[1] == '/' && (|p| == 2 || p[2] != '/') then 2 else 1)
    else 0
  }

  /** One step of `normpath`'s component loop. */
  function NormStep(acc: seq<string>, comp: string, rooted: bool): seq<string>
  {
    if comp == "" || comp == "." then acc
    else if comp != ".." || (!rooted && |acc| == 0) || (|acc| > 0 && acc[|acc| - 1] == "..") then acc + [comp]
    else if |acc| > 0 then acc[..|acc| - 1]
    else acc
  }

  /** `normpath`'s component loop over `comps`, left to right. */
  function NormComps(comps: seq<string>, rooted: bool): seq<string>
    decreases |comps|
  {
    if |comps| == 0 then []
    else NormStep(NormComps(comps[..|comps| - 1], rooted), comps[|comps| - 1], rooted)
  }

  /** A component `normpath` keeps as it is. */
  predicate PlainName(b: string)
  {
    b != "" && b != "." && b != ".." && '/' !in b
  }

  function Slashes(n: nat): (r: string)
    ensures |r| == n && forall i :: 0 <= i < n ==> r[i] == '/'
  {
    if n == 0 then "" else Slashes(n - 1) + "/"
  }

  /** `os.path.normpath` (POSIX). */
  function NormPath(p: string): (r: string)
    ensures |r| > 0
    ensures LeadingSlashes(p) > 0 ==> r[0] == '/'
  {
    var n := LeadingSlashes(p);
    var r := Slashes(n) + JoinWith(NormComps(SplitOn(p, '/'), n > 0), '/');
    if r == "" then "." else r
  }

  /** `os.path.abspath` with `os.getcwd()` passed as `cwd`. */
  function AbsPath(cwd: string, p: string): string
  {
    NormPath(if |p| > 0 && p[0] == '/' then p else JoinPath(cwd, p))
  }

  /** Joining two non-empty part lists puts one separator between their joins. */
  lemma {:induction false} JoinConcat(ps: seq<string>, qs: seq<string>, sep: char)
    requires |ps| >= 1 && |qs| >= 1
    ensures JoinWith(ps + qs, sep) == JoinWith(ps, sep) + [sep] + JoinWith(qs, sep)
    decreases |ps|
  {
    if |ps| == 1 {
      assert (ps + qs)[1..] == qs;
      assert |ps + qs| > 1;
    } else {
      assert (ps + qs)[1..] == ps[1..] + qs;
      JoinConcat(ps[1..], qs, sep);
    }
  }

  /** Splitting `x + "/" + y` splits `x` and `y` separately. */
  lemma SplitConcat(x: string, y: string)
    ensures SplitOn(x + "/" + y, '/') == SplitOn(x, '/') + SplitOn(y, '/')
  {
    var px := SplitOn(x, '/');
    var py := SplitOn(y, '/');
    JoinConcat(px, py, '/');
    SplitJoin(px + py, '/');
  }

  /** A name without '/' is one component. */
  lemma SplitSingle(b: string)
    requires '/' !in b
    ensures SplitOn(b, '/') == [b]
  {
    SplitJoin([b], '/');
  }

  /** The last '/'-separated component of `JoinPath(a, b)` is `b` when `b` is a
      plain name. */
  lemma LastComponentOfJoin(a: string, b: string) returns (front: seq<string>)
    requires PlainName(b)
    ensures SplitOn(JoinPath(a, b), '/') == front + [b]
  {
    SplitSingle(b);
    if |a| == 0 {
      front := [];
    } else if a[|a| - 1] == '/' {
      var s := a[..|a| - 1];
      assert a + b == s + "/" + b;
      SplitConcat(s, b);
      front := SplitOn(s, '/');
    } else {
      SplitConcat(a, b);
      front := SplitOn(a, '/');
    }
  }

  /** Joining a relative path onto a non-empty directory puts exactly one '/'
      between them. */
  lemma JoinPathRelative(dir: string, j: string)
    requires |dir| > 0 && !(|j| > 0 && j[0] == '/')
    ensures JoinPath(dir, j) == (if dir[|dir| - 1] == '/' then dir[..|dir| - 1] else dir) + "/" + j
  {
    if dir[|dir| - 1] == '/' {
      assert dir == dir[..|dir| - 1] + "/";
    }
  }

  lemma SplitUnder(s: string, j: string, front: seq<string>, b: string)
    requires SplitOn(j, '/') == front + [b]
    ensures SplitOn(s + "/" + j, '/') == (SplitOn(s, '/') + front) + [b]
  {
    SplitConcat(s, j);
    AppendAssoc(SplitOn(s, '/'), front, [b]);
  }

  /** Prefixing a relative path with a directory keeps its last component. */
  lemma QualifiedLast(dir: string, j: string, front: seq<string>, b: string) returns (front2: seq<string>)
    requires SplitOn(j, '/') == front + [b]
    ensures SplitOn(JoinPath(dir, j), '/') == front2 + [b]
  {
    if |j| > 0 && j[0] == '/' {
      assert JoinPath(dir, j) == j;
      front2 := front;
    } else if |dir| == 0 {
      assert JoinPath(dir, j) == j;
      front2 := front;
    } else {
      var s := if dir[|dir| - 1] == '/' then dir[..|dir| - 1] else dir;
      JoinPathRelative(dir, j);
      SplitUnder(s, j, front, b);
      front2 := SplitOn(s, '/') + front;
    }
  }

  /** `normpath`'s loop keeps a trailing plain name. */
  lemma NormCompsLast(front: seq<string>, b: string, rooted: bool)
    requires PlainName(b)
    ensures NormComps(front + [b], rooted) == NormComps(front, rooted) + [b]
  {
    assert (front + [b])[..|front + [b]| - 1] == front;
  }

  /** A rooted or relative join whose last part is a plain name has that name as
      its basename. */
  lemma BasenameOfNormalised(n: nat, kept: seq<string>, b: string)
    requires PlainName(b)
    ensures |Slashes(n) + JoinWith(kept + [b], '/')| > 0
    ensures Basename(Slashes(n) + JoinWith(kept + [b], '/')) == b
  {
    var body := JoinWith(kept + [b], '/');
    if |kept| == 0 {
      assert kept + [b] == [b];
      assert body == b;
      if n == 0 {
        assert Slashes(n) + body == b;
        BasenameOfLast("", b);
      } else {
        assert Slashes(n) + body == Slashes(n - 1) + "/" + b;
        BasenameOfLast(Slashes(n - 1), b);
      }
    } else {
      JoinConcat(kept, [b], '/');
      assert JoinWith([b], '/') == b;
      assert Slashes(n) + body == (Slashes(n) + JoinWith(kept, '/')) + "/" + b;
      BasenameOfLast(Slashes(n) + JoinWith(kept, '/'), b);
    }
  }

  /** Normalising a path whose last component is a plain name keeps that name
      as the basename. */
  lemma NormKeepsLast(p: string, front: seq<string>, b: string)
    requires PlainName(b)
    requires SplitOn(p, '/') == front + [b]
    ensures Basename(NormPath(p)) == b
  {
    var n := LeadingSlashes(p);
    NormCompsLast(front, b, n > 0);
    BasenameOfNormalised(n, NormComps(front, n > 0), b);
  }

  /** `abspath(join(formPath, basename(ui)))` has `basename(ui)` as its own basename
      whenever that basename is a plain file name: the form path a layer gets can
      be turned back into the bare form name. */
  lemma {:induction false} FormPathRoundTrip(cwd: string, formPath: string, ui: string)
    ensures PlainName(Basename(ui)) ==>
      Basename(AbsPath(cwd, JoinPath(formPath, Basename(ui)))) == Basename(ui)
  {
    var b := Basename(ui);
    if PlainName(b) {
      var j := JoinPath(formPath, b);
      var front := LastComponentOfJoin(formPath, b);
      if |j| > 0 && j[0] == '/' {
        NormKeepsLast(j, front, b);
      } else {
        var front2 := QualifiedLast(cwd, j, front, b);
        NormKeepsLast(JoinPath(cwd, j), front2, b);
      }
    }
  }
}
