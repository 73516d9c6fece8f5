# mitmproxy-rs core, modelled in Dafny

This project models the parts of mitmproxy-rs that move intercepted traffic between the
operating-system redirector and the Python-facing proxy core. It also models the small
utility layer that the Python bindings rely on. It proves properties of each part.

- **MacosIpc / ProtoWire**: the framing protocol between the macOS redirector and the Rust
  task. The packet messages are proto3. `ProtoWire` is the protobuf wire format for the
  two-field packet message. It covers varints of at most ten bytes, field keys, length-delimited
  fields, the skipping of unknown fields and the proto3 rule that empty fields are not written.
  The field numbers of the schema are a parameter. `MacosIpc` holds `serialize_packet`,
  `deserialize_packet` and the size of the IPC buffer.
- **MacosTask**: the event loop of `MacosTask::run`. One turn of the `select!` loop is a pure
  function `StepSpec` over a view of the task's state, and a whole run is `RunSpec`. The same loop
  is written imperatively as the class `Task`:
  - it owns the read buffer (an `array`), the bounded `net_tx` channel (class `EventChannel`),
    the frames written to the pipe and the back-off sleeps taken;
  - each of its methods is proved to perform exactly the step the specification describes.

  The events the runtime delivers are an input sequence. These include the shutdown signal,
  configuration messages, the result of a read, and a command together with the outcomes of the
  open/writable/write calls made for it.
- **InterceptSpec**: the redirector's decision of whether a process is intercepted. The
  decision is made by pid, by a substring of the executable path, and by the invert flag.
- **Processes / NixList / LinuxList**: the listing of active executables. Running processes
  are grouped by executable path, with one entry per executable. On macOS the visibility of
  windows raises an entry to visible, and the display name is the path's final component.
  The grouping loops are methods proved against declarative maps.
- **Base64 / FfiUtil**: the helpers in the Python bindings:
  - WireGuard keys as strict Base64 (RFC 4648, section 4): `string_to_key`, `genkey`, `pubkey`;
  - the body extraction of `add_cert`, which uses Rust `str::lines` semantics;
  - the conversion of a Python `(host, port)` tuple to and from a socket address.

Three behaviours of the outbound branch of `run` are modelled exactly as written:

- The write end is reopened for as long as the open fails with `ENXIO`
  (src/packet_sources/macos.rs:246-254), so `OpenLoop` has no bound.
- A would-block write `continue`s the outer loop and drops the serialized packet
  (src/packet_sources/macos.rs:264-266).
- A successful write `break`s out of the `select!` loop, so `run` returns `Ok(())`
  (src/packet_sources/macos.rs:261-263, 278-279).

The network stack receives from `net_tx` concurrently with the task. Its receives are the
`Consumed` events of the input sequence, interleaved with the task's turns.

## Model

| member | source | states |
|---|---|---|
| ProtoWire.VarintRoundTrip | src/packet_sources/macos.rs:31-50 | Decoding a varint that `EncodeVarint` wrote returns the value and leaves the following bytes untouched, for every 64-bit value. |
| ProtoWire.VarintLength | src/packet_sources/macos.rs:31-39 | A value below 2^(7k) is encoded in at most k bytes. |
| ProtoWire.DecodeVarint | src/packet_sources/macos.rs:41-50 | A decoded varint is below 2^64 and ends at its first byte below 128, within ten bytes; ten bytes with the continuation bit set fail. |
| ProtoWire.VarintShape | src/packet_sources/macos.rs:41-50 | A varint read after `count` bytes ends at its first byte below 128, within `10 - count` bytes. |
| ProtoWire.KeyRoundTrip | src/packet_sources/macos.rs:31-50 | Decoding the key of a field returns the field number and wire type that encoded it. |
| ProtoWire.DecodeKey | src/packet_sources/macos.rs:41-50 | A decoded key has a field number in 1..2^29 and a wire type of at most 5, and it consumes input. |
| ProtoWire.LengthDelimitedRoundTrip | src/packet_sources/macos.rs:31-50 | A length-prefixed byte string decodes to itself and leaves the rest of the input in place. |
| ProtoWire.DecodeLengthDelimited | src/packet_sources/macos.rs:41-50 | On success the value and the remainder are exactly the tail of the input after the length prefix. |
| ProtoWire.SkipField | src/packet_sources/macos.rs:41-50 | Skipping leaves a suffix of the input; a fixed64 value takes exactly 8 bytes and a fixed32 value exactly 4, failing only on shorter input; group and unknown wire types fail. |
| ProtoWire.SkipVarint | src/packet_sources/macos.rs:41-50 | Skipping an unknown varint value consumes exactly that varint. |
| ProtoWire.SkipLengthDelimited | src/packet_sources/macos.rs:41-50 | Skipping an unknown length-delimited value consumes its length prefix and exactly its bytes. |
| ProtoWire.DecodeKnownField | src/packet_sources/macos.rs:41-50 | A `data` or `process_name` field sets that field of the message being decoded and decoding goes on with the rest. |
| ProtoWire.UnknownFieldIgnored | src/packet_sources/macos.rs:41-50 | A length-delimited field whose number is not in the schema is skipped without changing the message. |
| ProtoWire.UnknownVarintIgnored | src/packet_sources/macos.rs:41-50 | A varint field whose number is not in the schema is skipped without changing the message. |
| ProtoWire.UnknownFixedIgnored | src/packet_sources/macos.rs:41-50 | A fixed64 or fixed32 field whose number is not in the schema is skipped without changing the message. |
| ProtoWire.DecodeIfSet | src/packet_sources/macos.rs:31-50 | Whether or not an empty field was left out, decoding yields the same message. |
| ProtoWire.DecodeFields | src/packet_sources/macos.rs:41-50 | Decoding keeps the process name valid UTF-8 and returns the accumulator unchanged on empty input. |
| ProtoWire.Decode | src/packet_sources/macos.rs:41-50 | A decoded message always has a UTF-8 process name, and the empty input decodes to the default message. |
| ProtoWire.Encode | src/packet_sources/macos.rs:35-37 | Only the empty message encodes to no bytes, and each field that is set takes its value plus at least two bytes of key and length. |
| ProtoWire.RoundTrip | src/packet_sources/macos.rs:31-50 | `Decode(Encode(m)) == Some(m)` for every packet message with a UTF-8 name. |
| MacosIpc.SerializePacket | src/packet_sources/macos.rs:31-39 | Serializing fails exactly for `SetIntercept` (the panic) and otherwise yields a frame that decodes to the same payload with an empty process name. |
| MacosIpc.EmptyNameRoundTrip | src/packet_sources/macos.rs:31-39 | The frame of an outgoing packet decodes to the packet's data with an empty process name. |
| MacosIpc.DeserializePacket | src/packet_sources/macos.rs:41-50 | It fails exactly when the protobuf decode fails; on success the process name is always present and UTF-8; an empty frame is a packet with empty data and name. |
| MacosIpc.SerializeDeserialize | src/packet_sources/macos.rs:31-50 | What `serialize_packet` writes, `deserialize_packet` reads back as the same data with `Some("")` as the name. |
| MacosIpc.RedirectorFrameDecodes | src/packet_sources/macos.rs:41-50 | A frame written by the redirector with data and a UTF-8 name deserializes to exactly that data and `Some(name)`. |
| MacosIpc.SerializedFitsIpcBuffer | src/packet_sources/macos.rs:25 | When the `data` field number is below 16 and `MAX_PACKET_SIZE` is below 2 MiB, the frame of an outgoing packet no larger than `MAX_PACKET_SIZE` fits into the IPC buffer of `MAX_PACKET_SIZE + 4` bytes. |
| MacosIpc.IpcBufSize | src/packet_sources/macos.rs:25 | The read buffer holds `MAX_PACKET_SIZE` plus four bytes of framing. |
| MacosIpc.NamedFullPacketExceedsBuffer | src/packet_sources/macos.rs:25 | A frame from the redirector with a packet of `MAX_PACKET_SIZE` bytes and a non-empty process name is longer than the read buffer. |
| MacosTask.OpenLoop | src/packet_sources/macos.rs:246-254 | The open-retry loop ends ready, gives up on the first error other than `ENXIO`, or is still retrying; it never sleeps more often than it has tried. |
| MacosTask.ReceiveSpec | src/packet_sources/macos.rs:200-239 | A read continues, fails with "redirect daemon exited prematurely." or panics. It puts the bytes read at the front of the buffer and leaves the pipe, the sleeps and what the stack has received alone. It adds at most one event at the end of `net_tx`, and none when the loop stops. |
| MacosTask.SendSpec | src/packet_sources/macos.rs:241-274 | A command leaves the read buffer and `net_tx` alone and sleeps at most once per open attempt. It writes exactly one frame when `run` ends with `Ok(())`, and writes nothing otherwise. |
| MacosTask.StepSpec | src/packet_sources/macos.rs:189-275 | Every turn keeps the buffer at `IPC_BUF_SIZE` bytes and `net_tx` within its capacity. |
| MacosTask.RunSpec | src/packet_sources/macos.rs:188-279 | A run keeps the same bounds, handles at most the events given, and stops right after the first turn that does not continue. |
| MacosTask.ShutdownEndsRun | src/packet_sources/macos.rs:191 | The shutdown signal ends the loop and changes no state. |
| MacosTask.ConfigMessageOnlyPrinted | src/packet_sources/macos.rs:193-198 | A configuration message reaches neither the pipe nor the queue; the loop continues. |
| MacosTask.EmptyReadIsFatal | src/packet_sources/macos.rs:203-215 | A zero-length read ends `run` with the "redirect daemon exited prematurely." error. |
| MacosTask.ReadErrors | src/packet_sources/macos.rs:236-237 | A would-block read resumes the loop unchanged; any other read error panics. |
| MacosTask.UndecodableFramePanics | src/packet_sources/macos.rs:217-219 | A frame that does not decode makes the task panic. |
| MacosTask.OnlyReadBytesMatter | src/packet_sources/macos.rs:203-219 | Only the `len` bytes just read are decoded: stale buffer contents never change the outcome or the queue. |
| MacosTask.ValidPacketDelivered | src/packet_sources/macos.rs:217-234 | A frame the redirector encodes from a packet and a UTF-8 process name, when the packet is a valid IP packet, is queued with its checksum filled and its process name when the channel has room; otherwise it is dropped; the loop continues. |
| MacosTask.InvalidPacketSkipped | src/packet_sources/macos.rs:220-224 | A payload that is not an IP packet is skipped: nothing is queued and the loop continues. |
| MacosTask.FullQueueDrops | src/packet_sources/macos.rs:232-234 | With the channel full an event is dropped without blocking or failing. |
| MacosTask.StepOnlyAppends | src/packet_sources/macos.rs:232-234 | `net_tx` is first in, first out and loses nothing it accepted: each turn or receive leaves the sequence of events ever accepted (received, then waiting) as it was or extends it at its end; what the network stack has received also only grows at its end. |
| MacosTask.ConsumedTakesOldest | src/packet_sources/macos.rs:232-234 | A receive by the network stack takes the oldest `min(count, waiting)` events, in order, and changes nothing else. |
| MacosTask.FullQueueRecovers | src/packet_sources/macos.rs:226-234 | A full channel drops packets only until the network stack receives: after one receive the next valid packet is queued again. |
| MacosTask.StepKeepsRepaired | src/packet_sources/macos.rs:220-234 | No turn puts a packet into `net_tx` that is not a valid IP packet with its checksum filled. |
| MacosTask.RunKeepsRepaired | src/packet_sources/macos.rs:188-276 | The same holds for every event put into `net_tx` during a whole run, and so for everything the network stack receives. |
| MacosTask.NoReaderIsRetried | src/packet_sources/macos.rs:246-254 | `ENXIO` (errno 6) is never fatal: every failed attempt is retried after one sleep. |
| MacosTask.OpensOnceReaderAppears | src/packet_sources/macos.rs:246-254 | After `k` `ENXIO` failures, the first successful open is used after exactly `k` sleeps. |
| MacosTask.OtherOpenErrorIsFatal | src/packet_sources/macos.rs:246-254 | Any other open error after `k` retries ends `run` with that error. |
| MacosTask.WriteOutcomes | src/packet_sources/macos.rs:256-270 | Once the pipe is open: a successful write records the frame prefix written and ends `run`; a would-block write drops the packet and continues; a write or writable error ends `run` with that error. |
| MacosTask.SendLeavesInbound | src/packet_sources/macos.rs:241-274 | The outbound path never touches the inbound queue or the read buffer. |
| MacosTask.NothingAfterTermination | src/packet_sources/macos.rs:188-279 | Once `run` has stopped, later events change nothing. |
| MacosTask.RunOnlyAppends | src/packet_sources/macos.rs:188-276 | Over a whole run, the sequence of events `net_tx` ever accepted and the sequence the network stack received both only grow at their ends: nothing is reordered, altered or lost. |
| MacosTask.EventChannel.constructor | src/packet_sources/macos.rs:172-179 | A new bounded channel of the given capacity holds no events and has delivered none. |
| MacosTask.EventChannel.TrySend | src/packet_sources/macos.rs:232-234 | `try_send` succeeds exactly when the channel is below capacity, and then appends the event; otherwise the channel is unchanged. |
| MacosTask.EventChannel.Recv | src/packet_sources/macos.rs:232-234 | The receiving end takes the oldest waiting events, up to `count`, and appends them to what it has received. |
| MacosTask.Task.constructor | src/packet_sources/macos.rs:158-168 | A new task owns a zeroed buffer of `IPC_BUF_SIZE` bytes and the channel it is given, with no pipe writes and no sleeps. |
| MacosTask.Task.ReadInto | src/packet_sources/macos.rs:203 | `try_read` copies the bytes read to the front of the buffer and leaves the rest of it untouched. |
| MacosTask.Task.Receive | src/packet_sources/macos.rs:200-239 | The readable branch changes the task exactly as `ReceiveSpec` describes. |
| MacosTask.Task.OpenWriteEnd | src/packet_sources/macos.rs:246-254 | The retry loop returns the outcome `OpenLoop` describes and sleeps once per failed attempt; nothing is written. |
| MacosTask.Task.Send | src/packet_sources/macos.rs:241-274 | The send branch changes the task exactly as `SendSpec` describes. |
| MacosTask.Task.Step | src/packet_sources/macos.rs:189-275 | One turn of the `select!` loop is exactly `StepSpec`. |
| MacosTask.Task.Run | src/packet_sources/macos.rs:183-280 | `run` over a sequence of events ends with the outcome, number of events handled and state of `RunSpec`. |
| InterceptSpec.New | mitmproxy-macos/redirector/network-extension/InterceptSpec.swift:9-16 | The fields are stored as given, and an inverted spec always names some pid or process name. |
| InterceptSpec.FromIpc | mitmproxy-macos/redirector/network-extension/InterceptSpec.swift:18-24 | The spec built from the IPC message holds its pids as a set, its names and its invert flag. |
| InterceptSpec.Matches | mitmproxy-macos/redirector/network-extension/InterceptSpec.swift:28-35 | A process matches when its pid is listed or, for a known path, when some name is a substring of it. |
| InterceptSpec.ShouldIntercept | mitmproxy-macos/redirector/network-extension/InterceptSpec.swift:27-37 | The decision is the match, flipped when `invert` is set. |
| InterceptSpec.PidMatchWins | mitmproxy-macos/redirector/network-extension/InterceptSpec.swift:29-30 | A listed pid matches regardless of the path. |
| InterceptSpec.PathMatch | mitmproxy-macos/redirector/network-extension/InterceptSpec.swift:31-32 | A path that contains one of the names matches. |
| InterceptSpec.NoPathNoMatch | mitmproxy-macos/redirector/network-extension/InterceptSpec.swift:33-35 | Without a known path only the pid can match. |
| InterceptSpec.InvertNegates | mitmproxy-macos/redirector/network-extension/InterceptSpec.swift:36 | With invert set the decision is the negation of the match. |
| InterceptSpec.EmptySpecInterceptsNothing | mitmproxy-macos/redirector/network-extension/InterceptSpec.swift:27-37 | A non-inverted spec without pids or names intercepts nothing. |
| InterceptSpec.SuffixNameMatches | mitmproxy-macos/redirector/network-extension/InterceptSpec.swift:31-32 | A name that is the tail of the path (the executable's file name) matches. |
| InterceptSpec.DuplicatePidsCollapse | mitmproxy-macos/redirector/network-extension/InterceptSpec.swift:20 | Repeated pids in the message give the same decision as one of them. |
| Processes.IntoValues | src/processes/nix_list.rs:70 | The returned list holds every value of the map exactly once and nothing else. |
| Processes.Split | src/processes/nix_list.rs:50-54 | A path splits into at least one piece, and no piece contains `/`. |
| Processes.Components | src/processes/nix_list.rs:50-54 | The components are neither empty nor `.`, and contain no `/` when the pieces do not. |
| Processes.FileName | src/processes/nix_list.rs:50-54 | A file name is a single normal component: not empty, not `.` or `..`, without `/`. |
| Processes.DisplayName | src/processes/nix_list.rs:50-54 | The name shown is the file name, a non-empty text without `/`; without a file name it is the whole path. |
| Processes.FileNameOfJoin | src/processes/nix_list.rs:50-54 | The display name of `dir/name` is `name`. |
| Processes.ParentDirHasNoFileName | src/processes/nix_list.rs:50-54 | A path ending in `..` has no file name, so the whole path is displayed instead. |
| Processes.TrailingSlashIgnored | src/processes/nix_list.rs:50-54 | A trailing `/` does not change the file name. |
| NixList.VisibleWindows | src/processes/nix_list.rs:109-113 | Outside macOS no window is reported visible. |
| NixList.Expected | src/processes/nix_list.rs:25-71 | The expected map is keyed by exactly the executables seen, each entry under its own path. |
| NixList.AppendWithoutExe | src/processes/nix_list.rs:34-36 | A process without an executable path changes nothing. |
| NixList.AppendKnownExe | src/processes/nix_list.rs:39-45 | A process of a known executable only raises that entry's visibility when its pid has a visible window. |
| NixList.AppendNewExe | src/processes/nix_list.rs:46-65 | A new executable gets one entry with its display name, system flag and window visibility. |
| NixList.NewExeEntry | src/processes/nix_list.rs:46-65 | The entry of an executable is built from the first process that has it. |
| NixList.OnlyVisibilityRises | src/processes/nix_list.rs:39-45 | Later processes of an executable never change its display name or system flag and never lower its visibility. |
| NixList.NothingVisibleOutsideMacos | src/processes/nix_list.rs:109-113 | With no windows reported, no entry is visible. |
| NixList.RaiseVisibility | src/processes/nix_list.rs:42-43 | The in-place update sets `is_visible` only for an invisible entry whose pid has a visible window; otherwise the map is unchanged. |
| NixList.GroupByExecutable | src/processes/nix_list.rs:34-67 | The loop builds exactly the expected map. |
| NixList.ActiveExecutables | src/processes/nix_list.rs:25-71 | The result lists each executable's expected entry exactly once. |
| LinuxList.Expected | src/processes/linux_list.rs:8-33 | The expected map is keyed by exactly the executables seen, each entry under its own path. |
| LinuxList.ExpectedAppend | src/processes/linux_list.rs:18-29 | A new executable adds a blank entry; a known one or a process without a path changes nothing. |
| LinuxList.GroupByExecutable | src/processes/linux_list.rs:13-30 | The loop builds exactly the expected map. |
| LinuxList.ActiveExecutables | src/processes/linux_list.rs:8-33 | The result lists each executable once, with an empty display name and both flags false. |
| Base64.ValueOfChar | ffi/src/util.rs:23 | Every sextet's alphabet character decodes back to it. |
| Base64.CharOfValue | ffi/src/util.rs:23 | Every character that decodes maps back to that character. |
| Base64.OctetsOfSextets | ffi/src/util.rs:23 | Regrouping three bytes into four sextets and back is the identity. |
| Base64.SextetsOfOctets | ffi/src/util.rs:23 | Regrouping four sextets into three bytes and back is the identity. |
| Base64.Encode | ffi/src/util.rs:80 | The encoding has length `4 * ceil(n / 3)`. |
| Base64.Decode | ffi/src/util.rs:23 | Accepted text is a multiple of four characters long and decodes to about three bytes per four characters. |
| Base64.RoundTrip | ffi/src/util.rs:23-28 | Decoding the encoding of any byte string returns it. |
| Base64.Canonical | ffi/src/util.rs:23-28 | Any accepted text is the encoding of what it decodes to; the decoding is strict. |
| Base64.Padding | ffi/src/util.rs:80 | `=` appears exactly in the last `(3 - n % 3) % 3` positions. |
| Base64.KeyEncoding | ffi/src/util.rs:80 | A 32-byte key encodes to 44 characters ending in a single `=`. |
| Base64.EncodedAlphabet | ffi/src/util.rs:80 | Every character of an encoding is `=` or of the Base64 alphabet. |
| Base64.ForeignCharRejected | ffi/src/util.rs:23-28 | Text with a character outside the alphabet and `=` never decodes. |
| FfiUtil.StringToKey | ffi/src/util.rs:19-29 | The only error is "Invalid key.", and an accepted text is the encoding of the key it yields. |
| FfiUtil.KeyRoundTrip | ffi/src/util.rs:19-29 | Every key's encoding is accepted and yields that key. |
| FfiUtil.StringToKeyAccepts | ffi/src/util.rs:19-29 | A text is accepted exactly when it is the encoding of some 32-byte key. |
| FfiUtil.KeyTextLength | ffi/src/util.rs:19-29 | Text that is not 44 characters long is rejected. |
| FfiUtil.Genkey | ffi/src/util.rs:79-81 | A generated key is 44 characters ending in `=`, and `string_to_key` reads back the secret. |
| FfiUtil.Pubkey | ffi/src/util.rs:85-88 | It fails exactly when the private key is invalid, with "Invalid key."; otherwise it yields the encoding of the derived public key. |
| FfiUtil.GenkeyThenPubkey | ffi/src/util.rs:79-88 | The public key of a generated key is the derived key of its secret. |
| FfiUtil.Lines | ffi/src/util.rs:97 | No line contains a line feed. |
| FfiUtil.LinesOfUnlines | ffi/src/util.rs:97 | Splitting text joined with `\n` or `\r\n` gives back the lines, plus any unterminated tail. |
| FfiUtil.TakeUntilEnd | ffi/src/util.rs:99 | It takes the longest prefix without `-----END CERTIFICATE-----`, stopping right before that line. |
| FfiUtil.TakeUntilEndOf | ffi/src/util.rs:99 | On lines with no end marker before it, the prefix taken is exactly the lines before the marker. |
| FfiUtil.Concat | ffi/src/util.rs:100 | The joined text is empty exactly when every line is, and has no line feed when no line has one. |
| FfiUtil.PemBody | ffi/src/util.rs:96-100 | The extracted body contains no line feed. |
| FfiUtil.PemBodyOfCertificate | ffi/src/util.rs:96-100 | For a header line, body lines, the end marker and anything after it, the body is the concatenation of the body lines. |
| FfiUtil.PemBodyWithoutEnd | ffi/src/util.rs:96-100 | Without an end marker, every line after the first is taken. |
| FfiUtil.PemToDer | ffi/src/util.rs:96-110 | The DER bytes returned encode to exactly the body of the PEM text. |
| FfiUtil.PemToDerOfCertificate | ffi/src/util.rs:96-110 | The DER bytes of a well-formed certificate are recovered from its PEM text. |
| FfiUtil.PyToSocketAddr | ffi/src/util.rs:61-71 | It fails with ValueError for a tuple that is not a pair. It succeeds exactly when the host is a string that parses as an IP and the port is an integer in u16 range, and then yields exactly that address. |
| FfiUtil.SocketAddrToPy | ffi/src/util.rs:31-42 | The result is a pair whose second item is the port. |
| FfiUtil.SocketAddrRoundTrip | ffi/src/util.rs:31-71 | Converting an address to Python and back gives the same IP and port, whenever the IP formats to text that parses back. |

## Left out

- The async runtime, the fairness of `tokio::select!` and readiness notifications: the runtime's choice of branch is an input sequence of events. The 50 ms back-off is counted as a sleep, not timed.
- The IPC pipe server (named pipes, `mkfifo`, home directory lookup) and the launch of the redirector helper: OS I/O. Read, open, writable and write results are inputs.
- `IpPacket::try_from` and `fill_ip_checksum`: IP packet parsing lives in another crate. They are the parameters `ipValid` and `fillChecksum`.
- `MAX_PACKET_SIZE` is defined in another module and is a parameter.
- The field numbers of the `ipc.proto` schema are generated by `build.rs` from a file this model does not include. They are the parameter `Schema`.
- ProtoWire.SkipField: an unknown group field (wire types 3 and 4) makes decoding fail. prost skips such a field up to its end-group key. The redirector's proto3 encoder never writes groups, so the frames it sends are unaffected.
- The rest of the generated protobuf code and the Swift protobuf runtime: only the two-field packet message is modelled.
- The process name is kept as UTF-8-checked bytes rather than a Rust `String`.
- InterceptSpec.IsSubstring: Swift's `String.contains` compares grapheme clusters. The model compares characters and treats the empty name as contained.
- InterceptSpec.New: the Swift `assert` in the initializer is a precondition.
- The macOS `visible_windows` FFI, including its `0..count - 1` loop over the window list, is outside the model. Its result is the set of pids given to `NixList`.
- The `sysinfo` process table is an input sequence of processes.
- NixList.Expected: keys are compared as strings. `PathBuf` keys compare by components, so `/a//b`, `/a/./b` and `/a/b/` are one key to the code and three to the model. `sysinfo` reports canonical executable paths, and for those the two agree.
- LinuxList.Expected: keys are compared as strings, as in `NixList.Expected`. `PathBuf` keys that differ only in repeated `/`, `.` components or a trailing `/` are one key to the code and several to the model.
- The iteration order of the Rust `HashMap` is not modelled: `IntoValues` may return the values in any order.
- X25519 key derivation is the parameter `derive`. The random secret from `OsRng` is the parameter `secret` of `Genkey`.
- `copy_dir`: file-system copying is not modelled.
- The keychain calls, path checks and non-macOS error of `add_cert` and `remove_cert` are not modelled: they are OS side effects.
- Python object conversions are not modelled. Python values are the datatype `PyValue`, and a failed `to_str` on the host is not distinguished from a non-string.
- IP address parsing and formatting are the parameters `parseIp` and `formatIp`.
- FfiUtil.SocketAddrRoundTrip: a socket address is an IP and a port. The flow info and scope id of an IPv6 address are not modelled. `py_to_socketaddr` builds the address with both set to 0 (ffi/src/util.rs:67), so a scoped IPv6 address comes back without its scope id. The `log::debug!` call for IPv6 addresses is not modelled either.
- `event_queue_unavailable` only builds a constant error message.
- The DNS resolver (`dns_resolver.rs`), `process_info.rs` and the redirector's `app.swift` are not modelled.
- The network stack is present only through its receives from `net_tx` (the `Consumed` events). What it does with the events and its sends on `net_rx` are not modelled.
- A closed `net_tx` (receiver dropped) is not modelled. The code handles `try_send`'s `Closed` error like a full channel: it drops the packet and continues.
- MacosTask.Task.Send: the byte count returned by a successful `try_write` is ignored by the code. The model records the prefix of that length as written.
- MacosTask.ReceiveSpec: each `try_read` result is decoded on its own, as the code does. A frame longer than the buffer (`MacosIpc.NamedFullPacketExceedsBuffer`) arrives in several reads. The model does not prove which of those pieces fail to decode.
- A would-block error is the `ReadWouldBlock` and `WriteWouldBlock` results. `ValidEvent` excludes `ReadFailed` and `WriteFailed` with errno 35 (`EAGAIN`, which is `EWOULDBLOCK` on macOS).
- Errors of `readable()` are ignored by the code's `select!` branch. They are not modelled.
- MacosTask.OpenLoop: an open that keeps failing with `ENXIO` for ever is the finite outcome `OpenPending` over the open results given.
- Base64.Decode follows the strict RFC 4648 rules: padding only in the final quantum and zero trailing bits. The `data_encoding` decoder the code calls decodes padded quanta one after another, so it also accepts padding before the end, as in `AA==AA==`. The model rejects any `=` before the final quantum.
- FfiUtil.StringToKeyAccepts: describes the strict decoder. Under the library decoder, a text made of padded quanta that decode to 32 bytes in total would also be accepted as a key.
- FfiUtil.KeyTextLength: holds for the strict decoder only. Under the library decoder, such a text can be longer than 44 characters.
- FfiUtil.Lines works on characters. File names in paths are treated as characters too: `to_string_lossy` is the identity.
