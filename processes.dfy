/**
 * Shared types of the process listing: the record kept per executable, the
 * per-process data that `sysinfo` supplies, and Rust's `Path::file_name`
 * on Unix paths.
 */
module Processes {
  import opened Common

  type Pid = uint32

  /** A Unix path; the model treats its bytes as characters, so `to_string_lossy` is the identity. */
  type Path = string

  /** `ProcessInfo`: one entry per executable. */
  datatype ProcessInfo = ProcessInfo(executable: Path, displayName: string, isVisible: bool, isSystem: bool)

  /** What `sysinfo` reports for one process: its pid, executable path and effective uid, the last two when readable. */
  datatype SysProcess = SysProcess(pid: Pid, exe: Option<Path>, euid: Option<nat>)

  /** The executable paths the processes report. */
  function ExePaths(procs: seq<SysProcess>): (r: set<Path>)
    ensures forall p :: p in r <==> exists i :: 0 <= i < |procs| && procs[i].exe == Some(p)
  {
    set i | 0 <= i < |procs| && procs[i].exe.Some? :: procs[i].exe.value
  }

  lemma ExePathsAppend(procs: seq<SysProcess>, x: SysProcess)
    ensures ExePaths(procs + [x]) == ExePaths(procs) + (if x.exe.Some? then {x.exe.value} else {})
  {
    var l := procs + [x];
    forall p | p in ExePaths(l) ensures p in ExePaths(procs) || x.exe == Some(p) {
      var i :| 0 <= i < |l| && l[i].exe == Some(p);
      if i < |procs| {
        assert procs[i] == l[i];
      }
    }
    forall p | p in ExePaths(procs) ensures p in ExePaths(l) {
      var i :| 0 <= i < |procs| && procs[i].exe == Some(p);
      assert l[i] == procs[i];
    }
    if x.exe.Some? {
      assert l[|procs|] == x;
    }
  }

  /** Every entry is keyed by its own executable. */
  predicate KeyedByExecutable(m: map<Path, ProcessInfo>)
  {
    forall p :: p in m ==> m[p].executable == p
  }

  /** `list` holds exactly the values of `m`, each once, in some order. */
  predicate ListsValues(list: seq<ProcessInfo>, m: map<Path, ProcessInfo>)
  {
    && |list| == |m|
    && (forall i :: 0 <= i < |list| ==> list[i].executable in m && m[list[i].executable] == list[i])
    && (forall p :: p in m ==> exists i :: 0 <= i < |list| && list[i].executable == p)
  }

  /**
   * `into_values().collect()`: the map's values in the map's iteration
   * order, which is unspecified (here: an arbitrary choice at each step).
   */
  method IntoValues(m: map<Path, ProcessInfo>) returns (list: seq<ProcessInfo>)
    requires KeyedByExecutable(m)
    ensures ListsValues(list, m)
  {
    list := [];
    var rest := m.Keys;
    while rest != {}
      invariant rest <= m.Keys
      invariant |list| + |rest| == |m|
      invariant forall i :: 0 <= i < |list| ==> list[i].executable in m.Keys - rest && m[list[i].executable] == list[i]
      invariant forall p :: p in m.Keys - rest ==> exists i :: 0 <= i < |list| && list[i].executable == p
      decreases rest
    {
      var p :| p in rest;
      ghost var before, restBefore := list, rest;
      list := list + [m[p]];
      rest := rest - {p};
      assert list[|list| - 1].executable == p;
      forall q | q in m.Keys - rest
        ensures exists i :: 0 <= i < |list| && list[i].executable == q
      {
        if q != p {
          assert q in m.Keys - restBefore;
          var i :| 0 <= i < |before| && before[i].executable == q;
          assert list[i] == before[i];
        }
      }
    }
    assert m.Keys - rest == m.Keys;
  }

  // ------------------------------------------------------- Path::file_name

  /** The path split at every `/` (so `"/a//b"` gives `["", "a", "", "b"]`). */
  function Split(p: Path): (r: seq<string>)
    ensures |r| >= 1
    ensures forall i :: 0 <= i < |r| ==> '/' !in r[i]
  {
    if |p| == 0 then [""]
    else if p[0] == '/' then [""] + Split(p[1..])
    else
      var rest := Split(p[1..]);
      [[p[0]] + rest[0]] + rest[1..]
  }

  /** The pieces that are components: empty pieces and `.` are dropped, as `Path::components` does. */
  function Components(pieces: seq<string>): (r: seq<string>)
    ensures forall i :: 0 <= i < |r| ==> r[i] != "" && r[i] != "."
    ensures (forall i :: 0 <= i < |pieces| ==> '/' !in pieces[i]) ==> forall i :: 0 <= i < |r| ==> '/' !in r[i]
  {
    if |pieces| == 0 then []
    else if pieces[0] == "" || pieces[0] == "." then Components(pieces[1..])
    else [pieces[0]] + Components(pieces[1..])
  }

  /**
   * `Path::file_name`: the last component when it is a normal name; `None`
   * for a path that ends in `..`, for `/`, `.` and the empty path.
   */
  function FileName(p: Path): (r: Option<string>)
    ensures r.Some? ==> r.value != "" && r.value != "." && r.value != ".." && '/' !in r.value
  {
    var cs := Components(Split(p));
    if |cs| == 0 || cs[|cs| - 1] == ".." then None else Some(cs[|cs| - 1])
  }

  /** `file_name().unwrap_or(path)`: the name shown for an executable. */
  function DisplayName(p: Path): (r: string)
    ensures FileName(p).None? ==> r == p
    ensures FileName(p).Some? ==> r != "" && '/' !in r
  {
    match FileName(p)
    case Some(n) => n
    case None => p
  }

  lemma {:induction false} SplitNoSlash(n: string)
    requires '/' !in n
    ensures Split(n) == [n]
  {
    if |n| > 0 {
      assert '/' !in n[1..];
      SplitNoSlash(n[1..]);
      assert [n[0]] + n[1..] == n;
    }
  }

  lemma {:induction false} SplitAppend(a: string, b: string)
    ensures Split(a + "/" + b) == Split(a) + Split(b)
  {
    var s := a + "/" + b;
    if |a| == 0 {
      assert s == "/" + b && s[1..] == b;
    } else {
      assert s[0] == a[0] && s[1..] == a[1..] + "/" + b;
      SplitAppend(a[1..], b);
    }
  }

  lemma {:induction false} ComponentsAppend(x: seq<string>, y: seq<string>)
    ensures Components(x + y) == Components(x) + Components(y)
  {
    if |x| == 0 {
      assert x + y == y;
    } else {
      assert (x + y)[1..] == x[1..] + y;
      ComponentsAppend(x[1..], y);
    }
  }

  /** The file name of `dir/name` is `name` when `name` is a normal file name. */
  lemma FileNameOfJoin(dir: Path, name: string)
    requires name != "" && name != "." && name != ".." && '/' !in name
    ensures FileName(dir + "/" + name) == Some(name)
    ensures DisplayName(dir + "/" + name) == name
  {
    SplitAppend(dir, name);
    SplitNoSlash(name);
    ComponentsAppend(Split(dir), [name]);
    assert Components([name]) == [name] + Components([][..]);
  }

  /** A path that ends in `..` has no file name: the whole path is displayed. */
  lemma ParentDirHasNoFileName(dir: Path)
    ensures FileName(dir + "/" + "..") == None
    ensures DisplayName(dir + "/" + "..") == dir + "/" + ".."
  {
    SplitAppend(dir, "..");
    SplitNoSlash("..");
    ComponentsAppend(Split(dir), [".."]);
    assert Components([".."]) == [".."] + Components([][..]);
  }

  /** Trailing slashes do not change the file name. */
  lemma TrailingSlashIgnored(p: Path)
    ensures FileName(p + "/") == FileName(p)
  {
    SplitAppend(p, "");
    assert p + "/" == p + "/" + "";
    ComponentsAppend(Split(p), [""]);
    assert Components([""]) == Components([][..]);
    assert Components(Split(p)) + [] == Components(Split(p));
  }
}
