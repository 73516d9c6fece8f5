/**
 * `active_executables` for Linux: one entry per executable path, with no
 * display name, visibility or system information.
 */
module LinuxList {
  import opened Common
  import opened Processes

  /** The entry every executable gets: only the path is filled in. */
  function Blank(p: Path): ProcessInfo
  {
    ProcessInfo(p, "", false, false)
  }

  /** The specification: exactly the executable paths the processes report, each with a blank entry. */
  function Expected(procs: seq<SysProcess>): (m: map<Path, ProcessInfo>)
    ensures m.Keys == ExePaths(procs) && KeyedByExecutable(m)
  {
    map p | p in ExePaths(procs) :: Blank(p)
  }

  /** One more process adds its path if it is new and leaves every existing entry as it was. */
  lemma ExpectedAppend(procs: seq<SysProcess>, x: SysProcess)
    ensures Expected(procs + [x]) == if x.exe.Some? && x.exe.value !in ExePaths(procs)
                                     then Expected(procs)[x.exe.value := Blank(x.exe.value)]
                                     else Expected(procs)
  {
    ExePathsAppend(procs, x);
  }

  /** The loop of `active_executables`: insert on vacant entries only. */
  method GroupByExecutable(procs: seq<SysProcess>) returns (executables: map<Path, ProcessInfo>)
    ensures executables == Expected(procs)
  {
    executables := map[];
    for i := 0 to |procs|
      invariant executables == Expected(procs[..i])
    {
      assert procs[..i + 1] == procs[..i] + [procs[i]];
      ExpectedAppend(procs[..i], procs[i]);
      var process := procs[i];
      if process.exe.Some? {
        var exec := process.exe.value;
        if exec !in executables {
          executables := executables[exec := ProcessInfo(exec, "", false, false)];
        }
      }
    }
    assert procs[..|procs|] == procs;
  }

  /** `active_executables`: the entries as a list in the map's order. */
  method ActiveExecutables(procs: seq<SysProcess>) returns (list: seq<ProcessInfo>)
    ensures ListsValues(list, Expected(procs))
    ensures |list| == |ExePaths(procs)|
    ensures forall i :: 0 <= i < |list| ==> list[i] == Blank(list[i].executable)
  {
    var executables := GroupByExecutable(procs);
    list := IntoValues(executables);
  }
}
