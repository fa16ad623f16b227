/** `Deploy`: the AppStream deployment script's choice of the user elevation it
    hands to the plugin, the deploy stage, and where its copies land.  Paths are
    Windows `pathlib` paths: both '/' and '\' separate components. */
module Deploy {
  import opened Wrappers
  import opened Text
  import opened Constants
  import opened PosixPath

  // ------------------------------------------------------------ path parts

  /** The path with every '\' turned into '/'. */
  function Slashed(p: string): (q: string)
    ensures |q| == |p| && '\\' !in q
    ensures forall i :: 0 <= i < |p| ==> q[i] == (if p[i] == '\\' then '/' else p[i])
  {
    seq(|p|, i requires 0 <= i < |p| => if p[i] == '\\' then '/' else p[i])
  }

  /** A component `pathlib` keeps: not empty, not ".", and without a separator. */
  predicate Named(c: string)
  {
    c != "" && c != "." && '/' !in c && '\\' !in c
  }

  /** `pathlib` drops empty components (repeated or trailing separators) and ".". */
  function KeepNamed(cs: seq<string>): (r: seq<string>)
    ensures |r| <= |cs|
    ensures forall i :: 0 <= i < |r| ==> r[i] != "" && r[i] != "." && r[i] in cs
  {
    if |cs| == 0 then []
    else (if cs[0] != "" && cs[0] != "." then [cs[0]] else []) + KeepNamed(cs[1..])
  }

  lemma {:induction false} KeepNamedConcat(xs: seq<string>, ys: seq<string>)
    ensures KeepNamed(xs + ys) == KeepNamed(xs) + KeepNamed(ys)
    decreases |xs|
  {
    if |xs| > 0 {
      var head := if xs[0] != "" && xs[0] != "." then [xs[0]] else [];
      assert (xs + ys)[0] == xs[0] && (xs + ys)[1..] == xs[1..] + ys;
      assert KeepNamed(xs + ys) == head + KeepNamed(xs[1..] + ys);
      KeepNamedConcat(xs[1..], ys);
      assert KeepNamed(xs) == head + KeepNamed(xs[1..]);
      assert head + (KeepNamed(xs[1..]) + KeepNamed(ys)) == (head + KeepNamed(xs[1..])) + KeepNamed(ys);
    } else {
      assert xs + ys == ys;
    }
  }

  /** The named components of a path, split on `/` and `\\`: `Path(p).parts`
      without a leading root.  A drive such as `C:` is kept as an ordinary
      component, so a bare root has no part and `C:\\` has the part `C:`. */
  function Parts(p: string): (r: seq<string>)
    ensures forall i :: 0 <= i < |r| ==> Named(r[i])
  {
    var cs := SplitOn(Slashed(p), '/');
    var r := KeepNamed(cs);
    forall i | 0 <= i < |r| ensures Named(r[i]) {
      var j :| 0 <= j < |cs| && cs[j] == r[i];
      assert '\\' !in cs[j] by {
        assert JoinWith(cs, '/') == Slashed(p);
        ComponentInJoin(cs, '/', j, '\\');
      }
    }
    r
  }

  /** A character missing from a joined string is missing from each part. */
  lemma {:induction false} ComponentInJoin(cs: seq<string>, sep: char, j: int, c: char)
    requires 0 <= j < |cs| && c !in JoinWith(cs, sep)
    ensures c !in cs[j]
    decreases |cs|
  {
    if |cs| > 1 {
      assert cs == [cs[0]] + cs[1..];
      JoinConcat([cs[0]], cs[1..], sep);
      assert JoinWith([cs[0]], sep) == cs[0];
      var joined := JoinWith(cs, sep);
      assert joined == cs[0] + [sep] + JoinWith(cs[1..], sep);
      if j == 0 {
        assert forall k :: 0 <= k < |cs[0]| ==> cs[0][k] == joined[k];
      } else {
        assert forall k :: 0 <= k < |JoinWith(cs[1..], sep)| ==>
          JoinWith(cs[1..], sep)[k] == joined[|cs[0]| + 1 + k];
        ComponentInJoin(cs[1..], sep, j - 1, c);
      }
    } else {
      assert JoinWith(cs, sep) == cs[0];
    }
  }

  /** `dir / name`. */
  function JoinName(dir: string, name: string): string
  {
    dir + "/" + name
  }

  /** Appending a named component to a path adds exactly that part. */
  lemma PartsOfJoin(dir: string, name: string)
    requires Named(name)
    ensures Parts(JoinName(dir, name)) == Parts(dir) + [name]
  {
    var d := Slashed(dir);
    assert Slashed(JoinName(dir, name)) == d + "/" + name;
    SplitConcat(d, name);
    SplitSingle(name);
    KeepNamedConcat(SplitOn(d, '/'), [name]);
    assert KeepNamed([name]) == [name];
  }

  // ---------------------------------------------------------- destinations

  /** The last named component of a path: `parts[-1]`, and `name` for anything
      below a root; None for a path with no named component (empty, `.` or a
      bare `/`). */
  function LastPart(p: string): (r: Option<string>)
    ensures r.Some? <==> |Parts(p)| > 0
    ensures r.Some? ==> Named(r.value) && r.value == Parts(p)[|Parts(p)| - 1]
  {
    var ps := Parts(p);
    if |ps| == 0 then None else Some(ps[|ps| - 1])
  }

  /** `copy_file`: the file lands under the destination directory with its own
      name.  `copy_directory` computes its target the same way, from
      `parts[-1]`. */
  function CopyDestination(src: string, destDir: string): (r: Option<string>)
    ensures r.Some? <==> |Parts(src)| > 0
    ensures r.Some? ==> Parts(r.value) == Parts(destDir) + [LastPart(src).value]
    ensures r.Some? ==> LastPart(r.value) == LastPart(src)
  {
    var name := LastPart(src);
    if name.None? then None
    else
      PartsOfJoin(destDir, name.value);
      Some(JoinName(destDir, name.value))
  }

  /** Copying again into the destination's own directory lands on the same path:
      the destination is a fixed point. */
  lemma CopyDestinationStable(src: string, destDir: string)
    requires |Parts(src)| > 0
    ensures var d := CopyDestination(src, destDir).value;
      Parts(CopyDestination(d, destDir).value) == Parts(d)
  {
  }

  /** The stage: the last component of DEPLOY_ROOT_DIR, after the checks that it is
      set, exists and is a directory (the two file-system answers are
      parameters). */
  function DeployStage(rootDir: Option<string>, exists_: bool, isDir: bool): (r: Result<string, string>)
    ensures r.Success? <==> rootDir.Some? && rootDir.value != "" && exists_ && isDir && |Parts(rootDir.value)| > 0
    ensures r.Success? ==> Named(r.value) && Some(r.value) == LastPart(rootDir.value)
    ensures rootDir.None? || rootDir.value == "" ==> r == Failure("No root path defined! Use env var DEPLOY_ROOT_DIR!")
  {
    if rootDir.None? || rootDir.value == "" then Failure("No root path defined! Use env var DEPLOY_ROOT_DIR!")
    else if !exists_ then Failure("Root directory '" + rootDir.value + "' does not exist.")
    else if !isDir then Failure("Root directory '" + rootDir.value + "' is not a directory.")
    else
      var stage := LastPart(rootDir.value);
      if stage.None? then Failure("Root directory '" + rootDir.value + "' has no named component.")
      else Success(stage.value)
  }

  /** A root directory `<base>/<stage>` deploys stage `<stage>`. */
  lemma StageIsLastDirectory(base: string, stage: string)
    requires Named(stage)
    ensures DeployStage(Some(JoinName(base, stage)), true, true) == Success(stage)
  {
    PartsOfJoin(base, stage);
  }

  // -------------------------------------------------------- user elevation

  /** ASCII lower case: configparser's `optionxform` applied to keys and lookups. */
  function Lower(s: string): (r: string)
    ensures |r| == |s|
    ensures forall i :: 0 <= i < |s| ==> r[i] == (if 'A' <= s[i] <= 'Z' then (s[i] as int + 32) as char else s[i])
  {
    seq(|s|, i requires 0 <= i < |s| => if 'A' <= s[i] <= 'Z' then (s[i] as int + 32) as char else s[i])
  }

  /** The AppStream user is set and mapped to one of the five elevations. */
  predicate Listed(user: Option<string>, users: Option<map<string, string>>)
  {
    && user.Some? && user.value != "" && users.Some?
    && Lower(user.value) in users.value && users.value[Lower(user.value)] in ValidElevations
  }

  /** The user elevation the script exports as DEPLOY_USER_ELEVATION.  `user` is
      AppStream_UserName; `users` is the config's [users] section with its keys as
      configparser stores them (lower case), None when the section is missing. */
  function ResolveElevation(user: Option<string>, users: Option<map<string, string>>): (mode: string)
    ensures mode in ValidElevations
    ensures Listed(user, users) ==> mode == users.value[Lower(user.value)]
    ensures !Listed(user, users) ==> mode == Guest
  {
    if user.None? || user.value == "" then Guest
    else if users.None? || Lower(user.value) !in users.value then Guest
    else
      var mode := users.value[Lower(user.value)];
      if mode in ValidElevations then mode else Guest
  }

  /** Whatever the environment and the config say, the plugin's `initialize`
      accepts the exported elevation. */
  lemma ElevationAccepted(user: Option<string>, users: Option<map<string, string>>)
    ensures Initialize(Some(ResolveElevation(user, users))).Success?
    ensures Initialize(Some(ResolveElevation(user, users))).value.read
  {
  }

  /** The user lookup ignores the case of the AppStream user name. */
  lemma ElevationIgnoresCase(u1: string, u2: string, users: Option<map<string, string>>)
    requires Lower(u1) == Lower(u2) && u1 != "" && u2 != ""
    ensures ResolveElevation(Some(u1), users) == ResolveElevation(Some(u2), users)
  {
  }

  /** A user with no entry, or an entry that is not an elevation, deploys as guest
      and gets only READ. */
  lemma UnlistedUserIsGuest(user: string, users: map<string, string>)
    requires Lower(user) !in users || users[Lower(user)] !in ValidElevations
    ensures ResolveElevation(Some(user), Some(users)) == Guest
    ensures Initialize(Some(ResolveElevation(Some(user), Some(users)))) == Success(Permissions(false, false, false, false, false, true))
  {
    MissingElevationIsGuest();
  }
}
