/**
 * `InterceptSpec` of the macOS network extension: which processes have
 * their traffic intercepted, by pid or by a substring of the executable
 * path, optionally inverted.
 */
module InterceptSpec {
  import opened Common

  /** The network extension's view of a flow's process: its pid and, if known, its executable path. */
  datatype ProcessInfo = ProcessInfo(pid: uint32, path: Option<string>)

  /** The fields are set once by the initializer and never changed. */
  datatype Spec = Spec(pids: set<uint32>, processNames: seq<string>, invert: bool)

  /** The IPC message `Mitmproxy_Ipc_InterceptSpec`: pids arrive as a list. */
  datatype IpcInterceptSpec = IpcInterceptSpec(pids: seq<uint32>, processNames: seq<string>, invert: bool)

  /** `needle` occurs contiguously in `hay`. */
  predicate IsSubstring(needle: string, hay: string)
  {
    exists i :: 0 <= i <= |hay| && OccursAt(needle, hay, i)
  }

  /** `needle` occurs in `hay` starting at position `i`. */
  predicate OccursAt(needle: string, hay: string, i: int)
  {
    0 <= i && i + |needle| <= |hay| && hay[i..i + |needle|] == needle
  }

  /** `Set(ipc.pids)`. */
  function PidSet(xs: seq<uint32>): set<uint32>
  {
    set p | p in xs
  }

  /** The initializer's assertion: an inverted spec names at least one pid or process. */
  predicate InitAllowed(pids: set<uint32>, processNames: seq<string>, invert: bool)
  {
    invert ==> !(|processNames| == 0 && |pids| == 0)
  }

  /** `init(pids:processNames:invert:)`. */
  function New(pids: set<uint32>, processNames: seq<string>, invert: bool): (s: Spec)
    requires InitAllowed(pids, processNames, invert)
    ensures s.pids == pids && s.processNames == processNames && s.invert == invert
    ensures s.invert ==> |s.pids| > 0 || |s.processNames| > 0
  {
    Spec(pids, processNames, invert)
  }

  /** `init(from:)`: the pid list becomes a set; names and the flag are copied. */
  function FromIpc(ipc: IpcInterceptSpec): (s: Spec)
    requires InitAllowed(PidSet(ipc.pids), ipc.processNames, ipc.invert)
    ensures forall p :: p in s.pids <==> p in ipc.pids
    ensures |s.pids| <= |ipc.pids|
    ensures s.processNames == ipc.processNames && s.invert == ipc.invert
  {
    SetOfSeqSize(ipc.pids);
    New(PidSet(ipc.pids), ipc.processNames, ipc.invert)
  }

  /** Collapsing duplicates never adds pids. */
  lemma {:induction false} SetOfSeqSize(xs: seq<uint32>)
    ensures |PidSet(xs)| <= |xs|
  {
    if |xs| > 0 {
      SetOfSeqSize(xs[1..]);
      assert PidSet(xs) == PidSet(xs[1..]) + {xs[0]};
    }
  }

  /** Whether the process matches the spec's pids or names, before inversion. */
  predicate Matches(spec: Spec, p: ProcessInfo)
  {
    if p.pid in spec.pids then true
    else if p.path.Some? then exists i :: 0 <= i < |spec.processNames| && IsSubstring(spec.processNames[i], p.path.value)
    else false
  }

  /** `shouldIntercept`: the match, flipped when `invert` is set. */
  predicate ShouldIntercept(spec: Spec, p: ProcessInfo)
  {
    spec.invert != Matches(spec, p)
  }

  // ------------------------------------------------------------- lemmas

  /** A listed pid matches whatever its path: the decision is `!invert`. */
  lemma PidMatchWins(spec: Spec, p: ProcessInfo)
    requires p.pid in spec.pids
    ensures ShouldIntercept(spec, p) == !spec.invert
  {
  }

  /** Without a pid match, a known path matches iff some name is a substring of it. */
  lemma PathMatch(spec: Spec, pid: uint32, path: string)
    requires pid !in spec.pids
    ensures Matches(spec, ProcessInfo(pid, Some(path)))
        <==> exists i :: 0 <= i < |spec.processNames| && IsSubstring(spec.processNames[i], path)
  {
  }

  /** Without a pid match and without a path nothing matches: the decision is `invert`. */
  lemma NoPathNoMatch(spec: Spec, pid: uint32)
    requires pid !in spec.pids
    ensures ShouldIntercept(spec, ProcessInfo(pid, None)) == spec.invert
  {
  }

  /** Flipping `invert` with the same pids and names negates every decision. */
  lemma InvertNegates(spec: Spec, p: ProcessInfo)
    ensures ShouldIntercept(spec.(invert := !spec.invert), p) == !ShouldIntercept(spec, p)
  {
  }

  /** A spec with no pids, no names and no inversion intercepts nothing. */
  lemma EmptySpecInterceptsNothing(p: ProcessInfo)
    ensures !ShouldIntercept(New({}, [], false), p)
  {
  }

  /** A listed name at the end of the path (the executable's file name, say) matches. */
  lemma SuffixNameMatches(spec: Spec, pid: uint32, dir: string, name: string)
    requires name in spec.processNames
    ensures ShouldIntercept(spec, ProcessInfo(pid, Some(dir + name))) == !spec.invert
  {
    var path := dir + name;
    assert path[|dir|..|dir| + |name|] == name;
    var i :| 0 <= i < |spec.processNames| && spec.processNames[i] == name;
    assert OccursAt(spec.processNames[i], path, |dir|);
  }

  /** Pids listed twice in the IPC message give the same spec as listed once. */
  lemma DuplicatePidsCollapse(ipc: IpcInterceptSpec, pid: uint32)
    requires pid in ipc.pids
    requires InitAllowed(PidSet(ipc.pids), ipc.processNames, ipc.invert)
    ensures PidSet(ipc.pids + [pid]) == PidSet(ipc.pids)
    ensures FromIpc(ipc.(pids := ipc.pids + [pid])) == FromIpc(ipc)
  {
    var extended := ipc.pids + [pid];
    assert PidSet(extended) == PidSet(ipc.pids);
  }
}
