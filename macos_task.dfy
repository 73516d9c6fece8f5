/**
 * `MacosTask::run`: the loop that moves packets between the redirector's
 * pipes and the network stack. Each turn of the loop waits for one of four
 * events (shutdown, a configuration message, the inbound pipe becoming
 * readable, an outbound command); the operating-system results the turn
 * sees are part of the event, and the turn's effect is a pure function
 * `StepSpec` of the task's state and that event. The `Task` class holds the
 * same state imperatively (the fixed read buffer is an array) and its
 * methods are proved to do what `StepSpec` and `RunSpec` say.
 */
module MacosTask {
  import opened Common
  import ProtoWire
  import MacosIpc
  import Utf8

  /** `TunnelInfo::Macos { process_name }`. */
  datatype TunnelInfo = Macos(processName: Option<seq<byte>>)

  /** `NetworkEvent::ReceivePacket`: a captured packet for the network stack. */
  datatype NetworkEvent = ReceivePacket(packet: seq<byte>, tunnelInfo: TunnelInfo)

  /** errno 6 (ENXIO): opening a FIFO for writing while nobody has it open for reading. */
  const ENXIO: int := 6

  /**
   * errno 35 (EAGAIN, also EWOULDBLOCK on macOS): the error Rust reports as
   * `ErrorKind::WouldBlock`, which `try_read` and `try_write` results carry
   * as `ReadWouldBlock` and `WriteWouldBlock` instead.
   */
  const EAGAIN: int := 35

  /** Result of `try_read` on the inbound pipe. */
  datatype ReadResult = ReadOk(chunk: seq<byte>) | ReadWouldBlock | ReadFailed(errno: int)

  /** Result of one attempt to open the outbound pipe for writing. */
  datatype OpenResult = Opened | OpenFailed(errno: int)

  /** Result of waiting for the outbound pipe to become writable. */
  datatype WritableResult = WritableReady | WritableFailed(errno: int)

  /** Result of `try_write` on the outbound pipe. */
  datatype WriteResult = Written(count: nat) | WriteWouldBlock | WriteFailed(errno: int)

  /**
   * One turn of the loop, with what the operating system answered during it.
   * `SendPacket` carries the results of the successive open attempts.
   * `Consumed` is not a turn of the task: it stands for the network stack,
   * which runs concurrently, receiving up to `count` events from the other
   * end of `net_tx` between two turns.
   */
  datatype Event =
    | Shutdown
    | ConfigMessage(cmd: MacosIpc.IpcSend)
    | Readable(read: ReadResult)
    | SendPacket(packet: seq<byte>, opens: seq<OpenResult>, writable: WritableResult, write: WriteResult)
    | Consumed(count: nat)

  /** The errors `run` returns. */
  datatype TaskError =
    | DaemonExited            // "redirect daemon exited prematurely."
    | OpenError(errno: int)
    | WritableError(errno: int)
    | WriteError(errno: int)

  /** The panics of `run`. */
  datatype PanicReason = ReadError(errno: int) | UndecodableFrame

  /**
   * How a turn ends: back to waiting, `run` returning `Ok(())`, `run`
   * returning an error, a panic, or still retrying to open the outbound pipe
   * when the supplied open results run out.
   */
  datatype Outcome = Continue | Done | Failed(error: TaskError) | Panicked(reason: PanicReason) | StillOpening

  /**
   * What the task is built with. `ipValid` stands for `IpPacket::try_from`
   * succeeding and `fillChecksum` for `fill_ip_checksum`; both are defined
   * outside this model. `maxPacketSize` is `MAX_PACKET_SIZE`.
   */
  datatype Env = Env(
    schema: ProtoWire.Schema,
    capacity: nat,
    maxPacketSize: nat,
    ipValid: seq<byte> -> bool,
    fillChecksum: seq<byte> -> seq<byte>)

  /**
   * The task's state: the read buffer, the events waiting in `net_tx`, the
   * events the network stack has already received from it (oldest first),
   * the frames written to the outbound pipe and the number of 50 ms back-off
   * sleeps.
   */
  datatype View = View(buf: seq<byte>, queue: seq<NetworkEvent>, received: seq<NetworkEvent>,
                       written: seq<seq<byte>>, sleeps: nat)

  /** Everything the task has put into `net_tx`, in order: received first, then still waiting. */
  function History(v: View): seq<NetworkEvent>
  {
    v.received + v.queue
  }

  /**
   * What the operating system can answer: a read never returns more than the
   * buffer holds, and a would-block error is never reported as another error.
   */
  predicate ValidEvent(env: Env, ev: Event)
  {
    && (ev.Readable? && ev.read.ReadOk? ==> |ev.read.chunk| <= MacosIpc.IpcBufSize(env.maxPacketSize))
    && (ev.Readable? && ev.read.ReadFailed? ==> ev.read.errno != EAGAIN)
    && (ev.SendPacket? && ev.write.WriteFailed? ==> ev.write.errno != EAGAIN)
    && (ev.SendPacket? ==> |ev.packet| < ProtoWire.U64_LIMIT)
  }

  predicate ValidView(env: Env, v: View)
  {
    |v.buf| == MacosIpc.IpcBufSize(env.maxPacketSize) && |v.queue| <= env.capacity
  }

  // ------------------------------------------------------- specification

  /** `try_send` on a bounded channel: appended if there is room, dropped otherwise. */
  function TrySendSpec(capacity: nat, queue: seq<NetworkEvent>, e: NetworkEvent): (q: seq<NetworkEvent>)
  {
    if |queue| < capacity then queue + [e] else queue
  }

  /** The receiving end takes the oldest `count` events, or all of them if fewer are waiting. */
  function RecvSpec(queue: seq<NetworkEvent>, count: nat): (n: nat)
    ensures n <= |queue| && n <= count && (n == count || n == |queue|)
  {
    if count < |queue| then count else |queue|
  }

  /** Where the open-retry loop ends. */
  datatype OpenOutcome = OpenReady | OpenGaveUp(errno: int) | OpenPending

  /**
   * The open-retry loop over the successive open results: ENXIO means "no
   * reader yet" and is retried after a sleep; any other error gives up.
   * Returns where it ends and how many sleeps it took.
   */
  function OpenLoop(opens: seq<OpenResult>): (r: (OpenOutcome, nat))
    ensures r.1 <= |opens|
  {
    if |opens| == 0 then (OpenPending, 0)
    else match opens[0]
      case Opened => (OpenReady, 0)
      case OpenFailed(e) =>
        if e == ENXIO then
          var (o, k) := OpenLoop(opens[1..]);
          (o, k + 1)
        else (OpenGaveUp(e), 0)
  }

  /** An inbound read of `chunk` into the buffer and what follows it. */
  function ReceiveSpec(env: Env, v: View, chunk: seq<byte>): (r: (Outcome, View))
    requires |chunk| <= |v.buf|
    ensures r.0 == Continue || r.0 == Failed(DaemonExited) || r.0 == Panicked(UndecodableFrame)
    ensures r.1.written == v.written && r.1.sleeps == v.sleeps && r.1.received == v.received
    ensures |r.1.buf| == |v.buf| && (|chunk| > 0 ==> r.1.buf[..|chunk|] == chunk)
    ensures v.queue <= r.1.queue && |r.1.queue| <= |v.queue| + 1
    ensures r.0 != Continue ==> r.1.queue == v.queue
  {
    var buf' := chunk + v.buf[|chunk|..];
    if |chunk| == 0 then (Failed(DaemonExited), v)
    else
      match MacosIpc.DeserializePacket(env.schema, chunk)
      case Err(_) => (Panicked(UndecodableFrame), v.(buf := buf'))
      case Ok(recv) =>
        if !env.ipValid(recv.data) then (Continue, v.(buf := buf'))
        else
          var e := ReceivePacket(env.fillChecksum(recv.data), Macos(recv.processName));
          (Continue, v.(buf := buf', queue := TrySendSpec(env.capacity, v.queue, e)))
  }

  /** An outbound command: serialize, open the pipe (retrying), wait, write once. */
  function SendSpec(env: Env, v: View, packet: seq<byte>, opens: seq<OpenResult>,
                    writable: WritableResult, write: WriteResult): (r: (Outcome, View))
    requires |packet| < ProtoWire.U64_LIMIT
    ensures r.1.buf == v.buf && r.1.queue == v.queue && r.1.received == v.received
    ensures v.sleeps <= r.1.sleeps <= v.sleeps + |opens|
    ensures r.0 == Done ==> |r.1.written| == |v.written| + 1 && r.1.written[..|v.written|] == v.written
    ensures r.0 != Done ==> r.1.written == v.written
  {
    var frame := MacosIpc.SerializePacket(env.schema, MacosIpc.Packet(packet)).value;
    var (status, k) := OpenLoop(opens);
    var v' := v.(sleeps := v.sleeps + k);
    match status
    case OpenPending => (StillOpening, v')
    case OpenGaveUp(e) => (Failed(OpenError(e)), v')
    case OpenReady =>
      match writable
      case WritableFailed(e) => (Failed(WritableError(e)), v')
      case WritableReady =>
        match write
        case Written(n) =>
          var sent := if n <= |frame| then frame[..n] else frame;
          (Done, v'.(written := v.written + [sent]))
        case WriteWouldBlock => (Continue, v')
        case WriteFailed(e) => (Failed(WriteError(e)), v')
  }

  /** One turn of the `run` loop. */
  function StepSpec(env: Env, v: View, ev: Event): (r: (Outcome, View))
    requires ValidView(env, v) && ValidEvent(env, ev)
    ensures ValidView(env, r.1)
  {
    match ev
    case Shutdown => (Done, v)
    case ConfigMessage(_) => (Continue, v)
    case Readable(ReadWouldBlock) => (Continue, v)
    case Readable(ReadFailed(e)) => (Panicked(ReadError(e)), v)
    case Readable(ReadOk(chunk)) => ReceiveSpec(env, v, chunk)
    case SendPacket(packet, opens, writable, write) => SendSpec(env, v, packet, opens, writable, write)
    case Consumed(count) =>
      var n := RecvSpec(v.queue, count);
      (Continue, v.(queue := v.queue[n..], received := v.received + v.queue[..n]))
  }

  /**
   * The `run` loop over a sequence of events: it stops at the first turn that
   * does not end in `Continue`. Returns that outcome (`Continue` if every
   * event was handled and the task is still running), how many events it
   * handled, and the final state.
   */
  function RunSpec(env: Env, v: View, events: seq<Event>): (r: (Outcome, nat, View))
    requires ValidView(env, v) && forall i :: 0 <= i < |events| ==> ValidEvent(env, events[i])
    ensures ValidView(env, r.2) && r.1 <= |events|
    ensures r.0 != Continue ==> r.1 >= 1
    decreases |events|
  {
    if |events| == 0 then (Continue, 0, v)
    else
      var step := StepSpec(env, v, events[0]);
      if step.0 != Continue then (step.0, 1, step.1)
      else
        var rest := RunSpec(env, step.1, events[1..]);
        (rest.0, rest.1 + 1, rest.2)
  }

  // ------------------------------------------------------------- lemmas

  /** The shutdown signal ends `run` with `Ok(())` and changes nothing. */
  lemma ShutdownEndsRun(env: Env, v: View)
    requires ValidView(env, v)
    ensures StepSpec(env, v, Shutdown) == (Done, v)
  {
  }

  /** Configuration messages are only printed: nothing reaches the pipe or the queue. */
  lemma ConfigMessageOnlyPrinted(env: Env, v: View, cmd: MacosIpc.IpcSend)
    requires ValidView(env, v)
    ensures StepSpec(env, v, ConfigMessage(cmd)) == (Continue, v)
  {
  }

  /** A zero-length read means the redirector is gone: `run` fails, never continues. */
  lemma EmptyReadIsFatal(env: Env, v: View)
    requires ValidView(env, v)
    ensures StepSpec(env, v, Readable(ReadOk([]))) == (Failed(DaemonExited), v)
  {
  }

  /** A spurious readiness resumes waiting; any other read error panics. */
  lemma ReadErrors(env: Env, v: View, errno: int)
    requires ValidView(env, v) && errno != EAGAIN
    ensures StepSpec(env, v, Readable(ReadWouldBlock)) == (Continue, v)
    ensures StepSpec(env, v, Readable(ReadFailed(errno))) == (Panicked(ReadError(errno)), v)
  {
  }

  /** A frame that does not decode makes the task panic. */
  lemma UndecodableFramePanics(env: Env, v: View, chunk: seq<byte>)
    requires ValidView(env, v) && 0 < |chunk| <= |v.buf|
    requires ProtoWire.Decode(env.schema, chunk).None?
    ensures StepSpec(env, v, Readable(ReadOk(chunk))).0 == Panicked(UndecodableFrame)
  {
  }

  /**
   * Only the bytes of the current read are decoded: whatever the buffer
   * held before does not affect the outcome or the queue.
   */
  lemma OnlyReadBytesMatter(env: Env, v1: View, v2: View, chunk: seq<byte>)
    requires ValidView(env, v1) && ValidView(env, v2)
    requires v1.queue == v2.queue && |chunk| <= |v1.buf|
    ensures var (o1, w1) := StepSpec(env, v1, Readable(ReadOk(chunk)));
            var (o2, w2) := StepSpec(env, v2, Readable(ReadOk(chunk)));
            o1 == o2 && w1.queue == w2.queue
            && w1.buf[..|chunk|] == w2.buf[..|chunk|] == chunk
  {
  }

  /**
   * A decodable frame whose payload is a valid IP packet is delivered, with
   * its checksum filled and the decoded process name, when the queue has
   * room; the loop continues either way.
   */
  lemma ValidPacketDelivered(env: Env, v: View, data: seq<byte>, name: seq<byte>)
    requires ValidView(env, v) && ProtoWire.ValidSchema(env.schema) && Utf8.IsUtf8(name)
    requires |data| < ProtoWire.U64_LIMIT && |name| < ProtoWire.U64_LIMIT
    requires env.ipValid(data)
    requires var f := ProtoWire.Encode(env.schema, ProtoWire.RawPacket(data, name)); 0 < |f| <= |v.buf|
    ensures var f := ProtoWire.Encode(env.schema, ProtoWire.RawPacket(data, name));
            var (o, w) := StepSpec(env, v, Readable(ReadOk(f)));
            o == Continue
            && w.queue == if |v.queue| < env.capacity
                          then v.queue + [ReceivePacket(env.fillChecksum(data), Macos(Some(name)))]
                          else v.queue
  {
    MacosIpc.RedirectorFrameDecodes(env.schema, data, name);
  }

  /** A payload that is not a valid IP packet is skipped: nothing is queued and the loop continues. */
  lemma InvalidPacketSkipped(env: Env, v: View, chunk: seq<byte>)
    requires ValidView(env, v) && 0 < |chunk| <= |v.buf|
    requires MacosIpc.DeserializePacket(env.schema, chunk).Ok?
    requires !env.ipValid(MacosIpc.DeserializePacket(env.schema, chunk).value.data)
    ensures var (o, w) := StepSpec(env, v, Readable(ReadOk(chunk)));
            o == Continue && w.queue == v.queue
  {
  }

  /** A full queue drops the event: the loop neither blocks nor fails and the queue is unchanged. */
  lemma FullQueueDrops(env: Env, v: View, chunk: seq<byte>)
    requires ValidView(env, v) && |v.queue| == env.capacity
    requires 0 < |chunk| <= |v.buf| && ProtoWire.Decode(env.schema, chunk).Some?
    ensures var (o, w) := StepSpec(env, v, Readable(ReadOk(chunk)));
            o == Continue && w.queue == v.queue
  {
  }

  /** Every packet in `q` is a valid IP packet with its checksum filled. */
  ghost predicate Repaired(env: Env, q: seq<NetworkEvent>)
  {
    forall i :: 0 <= i < |q| ==> exists d :: env.ipValid(d) && q[i].packet == env.fillChecksum(d)
  }

  /**
   * `net_tx` is first in, first out, and nothing put into it is lost: every
   * turn, and every receive by the network stack, leaves the history of the
   * channel as it was or extends it at its end.
   */
  lemma StepOnlyAppends(env: Env, v: View, ev: Event)
    requires ValidView(env, v) && ValidEvent(env, ev)
    ensures var w := StepSpec(env, v, ev).1;
            && |History(v)| <= |History(w)| && History(w)[..|History(v)|] == History(v)
            && |v.received| <= |w.received| && w.received[..|v.received|] == v.received
  {
    var w := StepSpec(env, v, ev).1;
    if ev.Consumed? {
      var n := RecvSpec(v.queue, ev.count);
      assert v.queue == v.queue[..n] + v.queue[n..];
      assert History(w) == History(v);
    }
    assert History(w)[..|History(v)|] == History(v);
  }

  /**
   * The network stack receives the oldest waiting events, in order, and
   * receiving makes room in `net_tx` again.
   */
  lemma ConsumedTakesOldest(env: Env, v: View, count: nat)
    requires ValidView(env, v)
    ensures var w := StepSpec(env, v, Consumed(count)).1;
            var n := if count < |v.queue| then count else |v.queue|;
            && w.received == v.received + v.queue[..n]
            && w.queue == v.queue[n..]
            && w.buf == v.buf && w.written == v.written && w.sleeps == v.sleeps
  {
  }

  /**
   * A full channel drops packets only until the network stack receives from
   * it: after one receive, the next valid packet is queued again. (A bounded
   * tokio channel always has a capacity of at least one.)
   */
  lemma FullQueueRecovers(env: Env, v: View, count: nat, data: seq<byte>, name: seq<byte>)
    requires ValidView(env, v) && 0 < env.capacity == |v.queue| && 0 < count
    requires ProtoWire.ValidSchema(env.schema) && Utf8.IsUtf8(name)
    requires |data| < ProtoWire.U64_LIMIT && |name| < ProtoWire.U64_LIMIT && env.ipValid(data)
    requires var f := ProtoWire.Encode(env.schema, ProtoWire.RawPacket(data, name));
             0 < |f| <= |v.buf|
    ensures var f := ProtoWire.Encode(env.schema, ProtoWire.RawPacket(data, name));
            var w := StepSpec(env, v, Consumed(count)).1;
            var q := StepSpec(env, w, Readable(ReadOk(f))).1.queue;
            0 < |q| && q[|q| - 1] == ReceivePacket(env.fillChecksum(data), Macos(Some(name)))
  {
    var w := StepSpec(env, v, Consumed(count)).1;
    ConsumedTakesOldest(env, v, count);
    assert |w.queue| < env.capacity && |w.buf| == |v.buf|;
    ValidPacketDelivered(env, w, data, name);
  }

  /** No turn of the loop ever puts a packet whose checksum was not filled into `net_tx`. */
  lemma StepKeepsRepaired(env: Env, v: View, ev: Event)
    requires ValidView(env, v) && ValidEvent(env, ev) && Repaired(env, History(v))
    ensures Repaired(env, History(StepSpec(env, v, ev).1))
  {
    var h, h' := History(v), History(StepSpec(env, v, ev).1);
    StepOnlyAppends(env, v, ev);
    if ev.Readable? && ev.read.ReadOk? && |ev.read.chunk| > 0 {
      var r := MacosIpc.DeserializePacket(env.schema, ev.read.chunk);
      if r.Ok? && env.ipValid(r.value.data) && |v.queue| < env.capacity {
        assert h' == h + [ReceivePacket(env.fillChecksum(r.value.data), Macos(r.value.processName))];
        forall i | 0 <= i < |h'|
          ensures exists d :: env.ipValid(d) && h'[i].packet == env.fillChecksum(d)
        {
          if i == |h| {
            assert env.ipValid(r.value.data) && h'[i].packet == env.fillChecksum(r.value.data);
          } else {
            assert h'[i] == h[i];
          }
        }
        return;
      }
    }
    assert |h'| == |h| && h' == h'[..|h|];
  }

  /** The same over a whole run: the network stack only ever receives repaired packets. */
  lemma {:induction false} RunKeepsRepaired(env: Env, v: View, events: seq<Event>)
    requires ValidView(env, v) && forall i :: 0 <= i < |events| ==> ValidEvent(env, events[i])
    requires Repaired(env, History(v))
    ensures Repaired(env, History(RunSpec(env, v, events).2))
    decreases |events|
  {
    if |events| > 0 {
      StepKeepsRepaired(env, v, events[0]);
      var (o, v') := StepSpec(env, v, events[0]);
      if o == Continue {
        RunKeepsRepaired(env, v', events[1..]);
      }
    }
  }

  /** `k` failed opens with ENXIO. */
  function NoReaderYet(k: nat): (r: seq<OpenResult>)
  {
    seq(k, _ => OpenFailed(ENXIO))
  }

  /** ENXIO alone is never fatal: the loop keeps retrying, one sleep per attempt. */
  lemma {:induction false} NoReaderIsRetried(opens: seq<OpenResult>)
    requires forall i :: 0 <= i < |opens| ==> opens[i] == OpenFailed(ENXIO)
    ensures OpenLoop(opens) == (OpenPending, |opens|)
  {
    if |opens| > 0 {
      NoReaderIsRetried(opens[1..]);
    }
  }

  /** After `k` ENXIO failures the open that succeeds is used, after `k` sleeps. */
  lemma {:induction false} OpensOnceReaderAppears(k: nat, rest: seq<OpenResult>)
    ensures OpenLoop(NoReaderYet(k) + [Opened] + rest) == (OpenReady, k)
  {
    var s := NoReaderYet(k) + [Opened] + rest;
    if k > 0 {
      assert s[1..] == NoReaderYet(k - 1) + [Opened] + rest;
      OpensOnceReaderAppears(k - 1, rest);
    } else {
      assert s[0] == Opened;
    }
  }

  /** Any other open error after `k` retries makes `run` fail with it. */
  lemma {:induction false} OtherOpenErrorIsFatal(k: nat, errno: int, rest: seq<OpenResult>)
    requires errno != ENXIO
    ensures OpenLoop(NoReaderYet(k) + [OpenFailed(errno)] + rest) == (OpenGaveUp(errno), k)
  {
    var s := NoReaderYet(k) + [OpenFailed(errno)] + rest;
    if k > 0 {
      assert s[1..] == NoReaderYet(k - 1) + [OpenFailed(errno)] + rest;
      OtherOpenErrorIsFatal(k - 1, errno, rest);
    } else {
      assert s[0] == OpenFailed(errno);
    }
  }

  /**
   * Once the pipe is open and writable, a successful write ends `run` with
   * `Ok(())`, exactly as the shutdown signal does; a would-block write drops
   * the packet and resumes waiting; any other write error is returned.
   */
  lemma WriteOutcomes(env: Env, v: View, packet: seq<byte>, k: nat, rest: seq<OpenResult>, n: nat, errno: int)
    requires ValidView(env, v) && |packet| < ProtoWire.U64_LIMIT && errno != EAGAIN
    ensures var opens := NoReaderYet(k) + [Opened] + rest;
            var frame := MacosIpc.SerializePacket(env.schema, MacosIpc.Packet(packet)).value;
            && StepSpec(env, v, SendPacket(packet, opens, WritableReady, Written(n)))
               == (Done, v.(sleeps := v.sleeps + k, written := v.written + [if n <= |frame| then frame[..n] else frame]))
            && StepSpec(env, v, SendPacket(packet, opens, WritableReady, WriteWouldBlock))
               == (Continue, v.(sleeps := v.sleeps + k))
            && StepSpec(env, v, SendPacket(packet, opens, WritableReady, WriteFailed(errno)))
               == (Failed(WriteError(errno)), v.(sleeps := v.sleeps + k))
            && StepSpec(env, v, SendPacket(packet, opens, WritableFailed(errno), Written(n)))
               == (Failed(WritableError(errno)), v.(sleeps := v.sleeps + k))
  {
    OpensOnceReaderAppears(k, rest);
  }

  /** The outbound path never touches the inbound queue or the read buffer. */
  lemma SendLeavesInbound(env: Env, v: View, packet: seq<byte>, opens: seq<OpenResult>, writable: WritableResult, write: WriteResult)
    requires ValidView(env, v) && ValidEvent(env, SendPacket(packet, opens, writable, write))
    ensures var w := StepSpec(env, v, SendPacket(packet, opens, writable, write)).1;
            w.queue == v.queue && w.buf == v.buf
  {
  }

  /**
   * Once `run` has stopped, later events are not handled: no packet is
   * queued after the task has reported its end.
   */
  lemma {:induction false} NothingAfterTermination(env: Env, v: View, events: seq<Event>, later: seq<Event>)
    requires ValidView(env, v)
    requires forall i :: 0 <= i < |events| ==> ValidEvent(env, events[i])
    requires forall i :: 0 <= i < |later| ==> ValidEvent(env, later[i])
    requires RunSpec(env, v, events).0 != Continue
    ensures RunSpec(env, v, events + later) == RunSpec(env, v, events)
    decreases |events|
  {
    var all := events + later;
    assert forall i :: 0 <= i < |all| ==> ValidEvent(env, all[i]);
    assert all[0] == events[0];
    var (o, v') := StepSpec(env, v, events[0]);
    if o == Continue {
      assert all[1..] == events[1..] + later;
      NothingAfterTermination(env, v', events[1..], later);
    }
  }

  /**
   * Over a run, `net_tx` stays first in, first out and loses nothing it
   * accepted: the channel's history only grows at its end, and so does what
   * the network stack has received.
   */
  lemma {:induction false} RunOnlyAppends(env: Env, v: View, events: seq<Event>)
    requires ValidView(env, v) && forall i :: 0 <= i < |events| ==> ValidEvent(env, events[i])
    ensures var w := RunSpec(env, v, events).2;
            && |History(v)| <= |History(w)| && History(w)[..|History(v)|] == History(v)
            && |v.received| <= |w.received| && w.received[..|v.received|] == v.received
    decreases |events|
  {
    if |events| > 0 {
      StepOnlyAppends(env, v, events[0]);
      var (o, v') := StepSpec(env, v, events[0]);
      if o == Continue {
        RunOnlyAppends(env, v', events[1..]);
        var w := RunSpec(env, v', events[1..]).2;
        assert History(w)[..|History(v)|] == History(w)[..|History(v')|][..|History(v)|];
        assert w.received[..|v.received|] == w.received[..|v'.received|][..|v.received|];
      }
    }
  }

  // ------------------------------------------------------------- classes

  /**
   * The bounded `net_tx` channel: the events waiting in it and, on the
   * receiving side, the events the network stack has taken out of it.
   */
  class EventChannel {
    var items: seq<NetworkEvent>
    var received: seq<NetworkEvent>
    const capacity: nat

    ghost predicate Valid()
      reads this
    {
      |items| <= capacity
    }

    constructor (capacity: nat)
      ensures Valid() && items == [] && received == [] && this.capacity == capacity
    {
      items := [];
      received := [];
      this.capacity := capacity;
    }

    /** `try_send`: never waits; fails and leaves the queue as it was when the queue is full. */
    method TrySend(e: NetworkEvent) returns (ok: bool)
      requires Valid()
      modifies this
      ensures Valid()
      ensures ok == (|old(items)| < capacity)
      ensures items == TrySendSpec(capacity, old(items), e) && received == old(received)
    {
      ok := |items| < capacity;
      if ok {
        items := items + [e];
      }
    }

    /** The network stack's `recv`, `count` times without waiting: takes the oldest events. */
    method Recv(count: nat) returns (got: seq<NetworkEvent>)
      requires Valid()
      modifies this
      ensures Valid()
      ensures got == old(items)[..RecvSpec(old(items), count)]
      ensures items == old(items)[RecvSpec(old(items), count)..]
      ensures received == old(received) + got
    {
      var n := RecvSpec(items, count);
      got := items[..n];
      items := items[n..];
      received := received + got;
    }
  }

  /** `MacosTask`: the read buffer, the inbound channel and the outbound pipe's history. */
  class Task {
    const env: Env
    const buf: array<byte>
    const netTx: EventChannel
    var written: seq<seq<byte>>
    var sleeps: nat

    ghost predicate Valid()
      reads this, netTx
    {
      && buf.Length == MacosIpc.IpcBufSize(env.maxPacketSize)
      && netTx.capacity == env.capacity
      && netTx.Valid()
    }

    ghost function State(): (v: View)
      reads this, buf, netTx
    {
      View(buf[..], netTx.items, netTx.received, written, sleeps)
    }

    /** `MacosConf::build`'s task: a zeroed buffer of `IPC_BUF_SIZE` bytes. */
    constructor (env: Env, netTx: EventChannel)
      requires netTx.Valid() && netTx.capacity == env.capacity
      ensures Valid() && fresh(buf) && this.env == env && this.netTx == netTx
      ensures State() == View(seq(MacosIpc.IpcBufSize(env.maxPacketSize), _ => 0), netTx.items, netTx.received, [], 0)
    {
      this.env := env;
      this.netTx := netTx;
      buf := new byte[MacosIpc.IpcBufSize(env.maxPacketSize)](_ => 0);
      written := [];
      sleeps := 0;
    }

    /** `try_read` into the buffer: the first `|chunk|` bytes are overwritten, the rest keep stale data. */
    method ReadInto(chunk: seq<byte>) returns (len: nat)
      requires |chunk| <= buf.Length
      modifies buf
      ensures len == |chunk|
      ensures buf[..] == chunk + old(buf[..])[len..]
    {
      len := |chunk|;
      var i := 0;
      while i < len
        invariant 0 <= i <= len
        invariant buf[..i] == chunk[..i]
        invariant buf[i..] == old(buf[..])[i..]
      {
        buf[i] := chunk[i];
        i := i + 1;
        assert buf[..i] == buf[..i - 1] + [buf[i - 1]];
      }
      assert buf[..] == buf[..len] + buf[len..];
    }

    /** The readable branch: read, decode `buf[..len]`, repair the checksum and try to queue. */
    method Receive(chunk: seq<byte>) returns (o: Outcome)
      requires Valid() && |chunk| <= buf.Length
      modifies buf, netTx
      ensures Valid()
      ensures (o, State()) == ReceiveSpec(env, old(State()), chunk)
    {
      var len := ReadInto(chunk);
      if len == 0 {
        assert buf[..] == old(buf[..]);
        return Failed(DaemonExited);
      }
      assert buf[..len] == chunk;
      var decoded := MacosIpc.DeserializePacket(env.schema, buf[..len]);
      match decoded
      case Err(_) =>
        o := Panicked(UndecodableFrame);
      case Ok(recv) =>
        if !env.ipValid(recv.data) {
          o := Continue;
        } else {
          var packet := env.fillChecksum(recv.data);
          var _ := netTx.TrySend(ReceivePacket(packet, Macos(recv.processName)));
          o := Continue;
        }
    }

    /**
     * The outbound branch: serialize, open the pipe with retries while the
     * error is ENXIO (sleeping 50 ms between attempts), then write once.
     */
    method Send(packet: seq<byte>, opens: seq<OpenResult>, writable: WritableResult, write: WriteResult)
      returns (o: Outcome)
      requires |packet| < ProtoWire.U64_LIMIT
      modifies this
      ensures (o, State()) == SendSpec(env, old(State()), packet, opens, writable, write)
    {
      var frame := MacosIpc.SerializePacket(env.schema, MacosIpc.Packet(packet)).value;
      var status, _ := OpenWriteEnd(opens);
      match status
      case OpenPending =>
        return StillOpening;
      case OpenGaveUp(e) =>
        return Failed(OpenError(e));
      case OpenReady =>
      match writable
      case WritableFailed(e) =>
        return Failed(WritableError(e));
      case WritableReady =>
      match write
      case Written(n) =>
        written := written + [if n <= |frame| then frame[..n] else frame];
        o := Done;
      case WriteWouldBlock =>
        o := Continue;
      case WriteFailed(e) =>
        o := Failed(WriteError(e));
    }

    /** The retry loop of the outbound branch: one 50 ms sleep after each ENXIO. */
    method OpenWriteEnd(opens: seq<OpenResult>) returns (status: OpenOutcome, attempts: nat)
      modifies this
      ensures (status, attempts) == OpenLoop(opens)
      ensures sleeps == old(sleeps) + attempts && written == old(written)
    {
      var i := 0;
      while true
        invariant 0 <= i <= |opens|
        invariant sleeps == old(sleeps) + i && written == old(written)
        invariant var (r, k) := OpenLoop(opens[i..]); OpenLoop(opens) == (r, k + i)
        decreases |opens| - i
      {
        if i == |opens| {
          return OpenPending, i;
        }
        assert opens[i..][1..] == opens[i + 1..];
        match opens[i]
        case Opened =>
          return OpenReady, i;
        case OpenFailed(e) =>
          if e != ENXIO {
            return OpenGaveUp(e), i;
          }
        sleeps := sleeps + 1;
        i := i + 1;
      }
    }

    /** One turn of the `run` loop. */
    method Step(ev: Event) returns (o: Outcome)
      requires Valid() && ValidEvent(env, ev)
      modifies this, buf, netTx
      ensures Valid()
      ensures (o, State()) == StepSpec(env, old(State()), ev)
    {
      match ev
      case Shutdown =>
        o := Done;
      case ConfigMessage(_) =>
        o := Continue;
      case Readable(ReadWouldBlock) =>
        o := Continue;
      case Readable(ReadFailed(e)) =>
        o := Panicked(ReadError(e));
      case Readable(ReadOk(chunk)) =>
        o := Receive(chunk);
      case SendPacket(packet, opens, writable, write) =>
        o := Send(packet, opens, writable, write);
      case Consumed(count) =>
        var _ := netTx.Recv(count);
        o := Continue;
    }

    /** `run`: handle events until one ends the loop. */
    method Run(events: seq<Event>) returns (o: Outcome, handled: nat)
      requires Valid() && forall i :: 0 <= i < |events| ==> ValidEvent(env, events[i])
      modifies this, buf, netTx
      ensures Valid()
      ensures (o, handled, State()) == RunSpec(env, old(State()), events)
    {
      handled := 0;
      o := Continue;
      while handled < |events|
        invariant Valid() && handled <= |events| && o == Continue
        invariant var rest := RunSpec(env, State(), events[handled..]);
                  RunSpec(env, old(State()), events) == (rest.0, rest.1 + handled, rest.2)
        decreases |events| - handled
      {
        ghost var rest := events[handled..];
        assert rest[0] == events[handled] && rest[1..] == events[handled + 1..];
        o := Step(events[handled]);
        handled := handled + 1;
        if o != Continue {
          return;
        }
      }
    }
  }
}
