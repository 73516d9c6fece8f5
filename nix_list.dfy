/**
 * `active_executables` for Unix: the processes `sysinfo` reports, grouped by
 * executable path. The first process seen for a path fixes the entry's
 * display name and system flag; the entry is visible if any of its
 * processes owns a visible window.
 */
module NixList {
  import opened Common
  import opened Processes

  /** `visible_windows` outside macOS: no window is known to be visible. */
  function VisibleWindows(): (r: set<Pid>)
    ensures |r| == 0
  {
    {}
  }

  /** `effective_user_id()` rendered as `"0"`: the process runs as root. */
  predicate IsRoot(euid: Option<nat>)
  {
    match euid
    case Some(id) => id == 0
    case None => false
  }

  /** The position of the first process whose executable is `p`. */
  function FirstIndex(procs: seq<SysProcess>, p: Path): (r: nat)
    requires p in ExePaths(procs)
    ensures r < |procs| && procs[r].exe == Some(p)
    ensures forall j :: 0 <= j < r ==> procs[j].exe != Some(p)
  {
    if procs[0].exe == Some(p) then 0
    else
      assert p in ExePaths(procs[1..]) by {
        var i :| 0 <= i < |procs| && procs[i].exe == Some(p);
        assert procs[1..][i - 1] == procs[i];
      }
      1 + FirstIndex(procs[1..], p)
  }

  /** Some process running `p` has a visible window. */
  predicate AnyVisible(procs: seq<SysProcess>, p: Path, visible: set<Pid>)
  {
    exists i :: 0 <= i < |procs| && procs[i].exe == Some(p) && procs[i].pid in visible
  }

  /** The entry the first process of `p` creates, made visible by any of its processes. */
  function Entry(procs: seq<SysProcess>, p: Path, visible: set<Pid>): ProcessInfo
    requires p in ExePaths(procs)
  {
    ProcessInfo(p, DisplayName(p), AnyVisible(procs, p, visible), IsRoot(procs[FirstIndex(procs, p)].euid))
  }

  /**
   * The specification of the grouping: one entry per executable path,
   * named after the path, visible iff one of its processes is, and a system
   * entry iff its first process runs as root.
   */
  function Expected(procs: seq<SysProcess>, visible: set<Pid>): (m: map<Path, ProcessInfo>)
    ensures m.Keys == ExePaths(procs) && KeyedByExecutable(m)
  {
    map p | p in ExePaths(procs) :: Entry(procs, p, visible)
  }

  lemma FirstIndexAppend(procs: seq<SysProcess>, x: SysProcess, p: Path)
    requires p in ExePaths(procs)
    ensures p in ExePaths(procs + [x]) && FirstIndex(procs + [x], p) == FirstIndex(procs, p)
  {
    ExePathsAppend(procs, x);
    var l := procs + [x];
    var k := FirstIndex(procs, p);
    assert l[k] == procs[k];
    assert forall j :: 0 <= j < k ==> l[j] == procs[j];
  }

  lemma AnyVisibleAppend(procs: seq<SysProcess>, x: SysProcess, p: Path, visible: set<Pid>)
    ensures AnyVisible(procs + [x], p, visible) == (AnyVisible(procs, p, visible) || (x.exe == Some(p) && x.pid in visible))
  {
    var l := procs + [x];
    if AnyVisible(procs, p, visible) {
      var i :| 0 <= i < |procs| && procs[i].exe == Some(p) && procs[i].pid in visible;
      assert l[i] == procs[i];
    }
    if x.exe == Some(p) && x.pid in visible {
      assert l[|procs|] == x;
    }
    if AnyVisible(l, p, visible) {
      var i :| 0 <= i < |l| && l[i].exe == Some(p) && l[i].pid in visible;
      if i < |procs| {
        assert procs[i] == l[i];
      }
    }
  }

  /** An existing entry keeps its name and system flag; only its visibility can be raised. */
  lemma EntryAppend(procs: seq<SysProcess>, x: SysProcess, p: Path, visible: set<Pid>)
    requires p in ExePaths(procs)
    ensures p in ExePaths(procs + [x])
    ensures Entry(procs + [x], p, visible)
         == Entry(procs, p, visible).(isVisible := Entry(procs, p, visible).isVisible || (x.exe == Some(p) && x.pid in visible))
  {
    FirstIndexAppend(procs, x, p);
    AnyVisibleAppend(procs, x, p, visible);
  }

  /** A process without an executable path contributes nothing. */
  lemma AppendWithoutExe(procs: seq<SysProcess>, x: SysProcess, visible: set<Pid>)
    requires x.exe.None?
    ensures Expected(procs + [x], visible) == Expected(procs, visible)
  {
    ExePathsAppend(procs, x);
    forall q | q in ExePaths(procs) ensures Entry(procs + [x], q, visible) == Entry(procs, q, visible) {
      EntryAppend(procs, x, q, visible);
    }
  }

  /** A process of an executable already listed can only make its entry visible. */
  lemma AppendKnownExe(procs: seq<SysProcess>, x: SysProcess, visible: set<Pid>)
    requires x.exe.Some? && x.exe.value in ExePaths(procs)
    ensures var m := Expected(procs, visible);
            var p := x.exe.value;
            Expected(procs + [x], visible) == m[p := m[p].(isVisible := m[p].isVisible || x.pid in visible)]
  {
    var l := procs + [x];
    var p := x.exe.value;
    var m := Expected(procs, visible);
    var m' := Expected(l, visible);
    var t := m[p := m[p].(isVisible := m[p].isVisible || x.pid in visible)];
    ExePathsAppend(procs, x);
    assert m'.Keys == t.Keys;
    forall q | q in t.Keys ensures m'[q] == t[q] {
      KnownExeEntry(procs, x, q, visible);
    }
    SameEntries(m', t);
  }

  lemma SameEntries(a: map<Path, ProcessInfo>, b: map<Path, ProcessInfo>)
    requires a.Keys == b.Keys && forall q :: q in b ==> a[q] == b[q]
    ensures a == b
  {
  }

  lemma KnownExeEntry(procs: seq<SysProcess>, x: SysProcess, q: Path, visible: set<Pid>)
    requires x.exe.Some? && x.exe.value in ExePaths(procs) && q in ExePaths(procs)
    ensures q in ExePaths(procs + [x])
    ensures var m := Expected(procs, visible);
            var p := x.exe.value;
            Expected(procs + [x], visible)[q] == m[p := m[p].(isVisible := m[p].isVisible || x.pid in visible)][q]
  {
    EntryAppend(procs, x, q, visible);
  }

  /** The first process of a new executable creates its entry. */
  lemma AppendNewExe(procs: seq<SysProcess>, x: SysProcess, visible: set<Pid>)
    requires x.exe.Some? && x.exe.value !in ExePaths(procs)
    ensures var p := x.exe.value;
            Expected(procs + [x], visible)
              == Expected(procs, visible)[p := ProcessInfo(p, DisplayName(p), x.pid in visible, IsRoot(x.euid))]
  {
    var l := procs + [x];
    var p := x.exe.value;
    var m := Expected(procs, visible);
    var m' := Expected(l, visible);
    var t := m[p := ProcessInfo(p, DisplayName(p), x.pid in visible, IsRoot(x.euid))];
    ExePathsAppend(procs, x);
    assert m'.Keys == t.Keys;
    forall q | q in t.Keys ensures m'[q] == t[q] {
      if q == p {
        NewExeEntry(procs, x, visible);
      } else {
        EntryAppend(procs, x, q, visible);
      }
    }
  }

  lemma NewExeEntry(procs: seq<SysProcess>, x: SysProcess, visible: set<Pid>)
    requires x.exe.Some? && x.exe.value !in ExePaths(procs)
    ensures x.exe.value in ExePaths(procs + [x])
    ensures var p := x.exe.value;
            Entry(procs + [x], p, visible) == ProcessInfo(p, DisplayName(p), x.pid in visible, IsRoot(x.euid))
  {
    var l := procs + [x];
    var p := x.exe.value;
    ExePathsAppend(procs, x);
    AnyVisibleAppend(procs, x, p, visible);
    assert !AnyVisible(procs, p, visible);
    assert forall j :: 0 <= j < |procs| ==> l[j] == procs[j];
    assert l[|procs|] == x;
  }

  /**
   * Adding a process never removes an entry and never changes an entry's
   * display name or system flag; visibility can only go from false to true.
   */
  lemma OnlyVisibilityRises(procs: seq<SysProcess>, x: SysProcess, visible: set<Pid>, p: Path)
    requires p in Expected(procs, visible)
    ensures p in Expected(procs + [x], visible)
    ensures var before := Expected(procs, visible)[p];
            var after := Expected(procs + [x], visible)[p];
            && after.executable == before.executable
            && after.displayName == before.displayName
            && after.isSystem == before.isSystem
            && (before.isVisible ==> after.isVisible)
  {
    EntryAppend(procs, x, p, visible);
  }

  /** Outside macOS no entry is ever visible. */
  lemma NothingVisibleOutsideMacos(procs: seq<SysProcess>, p: Path)
    requires p in ExePaths(procs)
    ensures !Expected(procs, VisibleWindows())[p].isVisible
  {
  }

  lemma RaiseVisibility(m: map<Path, ProcessInfo>, p: Path, b: bool)
    requires p in m
    ensures var raised := m[p := m[p].(isVisible := m[p].isVisible || b)];
            && (!m[p].isVisible && b ==> raised == m[p := m[p].(isVisible := true)])
            && (m[p].isVisible || !b ==> raised == m)
  {
    if m[p].isVisible || !b {
      assert m[p].(isVisible := m[p].isVisible || b) == m[p];
    }
  }

  /** The loop of `active_executables`, over a map updated in place. */
  method GroupByExecutable(procs: seq<SysProcess>, visible: set<Pid>) returns (executables: map<Path, ProcessInfo>)
    ensures executables == Expected(procs, visible)
  {
    executables := map[];
    for i := 0 to |procs|
      invariant executables == Expected(procs[..i], visible)
    {
      ghost var seen := procs[..i];
      assert procs[..i + 1] == seen + [procs[i]];
      var process := procs[i];
      if process.exe.Some? {
        var path := process.exe.value;
        if path in executables {
          AppendKnownExe(seen, process, visible);
          RaiseVisibility(executables, path, process.pid in visible);
          if !executables[path].isVisible && process.pid in visible {
            executables := executables[path := executables[path].(isVisible := true)];
          }
        } else {
          AppendNewExe(seen, process, visible);
          var isSystem := match process.euid
            case Some(id) => id == 0
            case None => false;
          executables := executables[path := ProcessInfo(path, DisplayName(path), process.pid in visible, isSystem)];
        }
      } else {
        AppendWithoutExe(seen, process, visible);
      }
    }
    assert procs[..|procs|] == procs;
  }

  /** `active_executables`: the grouped entries as a list in the map's order. */
  method ActiveExecutables(procs: seq<SysProcess>, visible: set<Pid>) returns (list: seq<ProcessInfo>)
    ensures ListsValues(list, Expected(procs, visible))
    ensures |list| == |ExePaths(procs)|
  {
    var executables := GroupByExecutable(procs, visible);
    list := IntoValues(executables);
  }
}
