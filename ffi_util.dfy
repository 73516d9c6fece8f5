/**
 * The pure helpers of the Python bindings: WireGuard keys as Base64 text,
 * the Base64 body of a PEM certificate, and socket addresses as Python
 * `(host, port)` tuples.
 */
module FfiUtil {
  import opened Common
  import Base64

  /** A WireGuard key: exactly 32 bytes, as `[u8; 32]`. */
  type Key = k: seq<byte> | |k| == 32 witness seq(32, _ => 0)

  const INVALID_KEY: string := "Invalid key."

  /** `string_to_key`: strict Base64 decoding followed by the 32-byte length check. */
  function StringToKey(data: string): (r: Result<Key, string>)
    ensures r.Err? ==> r.error == INVALID_KEY
    ensures r.Ok? ==> Base64.Encode(r.value) == data
  {
    match Base64.Decode(data)
    case Some(bytes) =>
      Base64.Canonical(data);
      if |bytes| == 32 then Ok(bytes) else Err(INVALID_KEY)
    case None => Err(INVALID_KEY)
  }

  /** Every key written as Base64 reads back as itself. */
  lemma KeyRoundTrip(k: Key)
    ensures StringToKey(Base64.Encode(k)) == Ok(k)
  {
    Base64.RoundTrip(k);
  }

  /** `string_to_key` accepts exactly the Base64 encodings of 32-byte strings. */
  lemma StringToKeyAccepts(data: string)
    ensures StringToKey(data).Ok? <==> exists k: Key :: Base64.Encode(k) == data
  {
    if k: Key :| Base64.Encode(k) == data {
      KeyRoundTrip(k);
    }
  }

  /** Text of any other length than 44 is never a key. */
  lemma KeyTextLength(data: string)
    requires |data| != 44
    ensures StringToKey(data) == Err(INVALID_KEY)
  {
    if StringToKey(data).Ok? {
      Base64.KeyEncoding(StringToKey(data).value);
    }
  }

  /** `genkey`: the Base64 text of a fresh secret; the random secret is a parameter. */
  function Genkey(secret: Key): (r: string)
    ensures |r| == 44 && r[43] == '='
    ensures StringToKey(r) == Ok(secret)
  {
    Base64.KeyEncoding(secret);
    KeyRoundTrip(secret);
    Base64.Encode(secret)
  }

  /**
   * `pubkey`: read the private key, derive the public key and write it as
   * Base64; the X25519 derivation is the parameter `derive`.
   */
  function Pubkey(privateKey: string, derive: Key -> Key): (r: Result<string, string>)
    ensures r.Err? <==> StringToKey(privateKey).Err?
    ensures r.Err? ==> r.error == INVALID_KEY
    ensures r.Ok? ==> StringToKey(r.value) == Ok(derive(StringToKey(privateKey).value))
  {
    match StringToKey(privateKey)
    case Ok(secret) =>
      KeyRoundTrip(derive(secret));
      Ok(Base64.Encode(derive(secret)))
    case Err(e) => Err(e)
  }

  /** What `genkey` prints, `pubkey` accepts. */
  lemma GenkeyThenPubkey(secret: Key, derive: Key -> Key)
    ensures Pubkey(Genkey(secret), derive) == Ok(Genkey(derive(secret)))
  {
  }

  // ---------------------------------------------------------------------
  // `str::lines` and the PEM body

  /** The index of the first `\n`, or the length when there is none. */
  function LineEnd(s: string): (i: nat)
    ensures i <= |s| && (i < |s| ==> s[i] == '\n')
    ensures forall j :: 0 <= j < i ==> s[j] != '\n'
  {
    if |s| == 0 || s[0] == '\n' then 0 else 1 + LineEnd(s[1..])
  }

  /** Drops one `\r` from the end, if there is one. */
  function StripCr(line: string): string
  {
    if |line| > 0 && line[|line| - 1] == '\r' then line[..|line| - 1] else line
  }

  /**
   * `str::lines`: split after each `\n`, drop the `\n` and then one `\r`
   * before it; a last line without `\n` keeps its `\r`, and an empty text
   * has no lines.
   */
  function Lines(s: string): (ls: seq<string>)
    ensures forall k :: 0 <= k < |ls| ==> '\n' !in ls[k]
    decreases |s|
  {
    if |s| == 0 then []
    else
      var i := LineEnd(s);
      if i == |s| then [s]
      else [StripCr(s[..i])] + Lines(s[i + 1..])
  }

  /** The line terminator: `\r\n` or `\n`. */
  function Eol(crlf: bool): string
  {
    if crlf then "\r\n" else "\n"
  }

  /** Lines written out, each followed by the terminator. */
  function Unlines(ls: seq<string>, crlf: bool): string
  {
    if |ls| == 0 then [] else ls[0] + Eol(crlf) + Unlines(ls[1..], crlf)
  }

  /** A line `lines` gives back unchanged after the terminator: no `\n`, and with bare `\n` no final `\r`. */
  predicate PlainLine(line: string, crlf: bool)
  {
    '\n' !in line && (!crlf ==> |line| == 0 || line[|line| - 1] != '\r')
  }

  lemma LinesStep(line: string, crlf: bool, rest: string)
    requires PlainLine(line, crlf)
    ensures Lines(line + Eol(crlf) + rest) == [line] + Lines(rest)
  {
    var s := line + Eol(crlf) + rest;
    var n := |line| + |Eol(crlf)| - 1;
    assert s[n] == '\n';
    assert forall j :: 0 <= j < n ==> s[j] != '\n' by {
      forall j | 0 <= j < n ensures s[j] != '\n' {
        if j < |line| {
          assert s[j] == line[j];
        }
      }
    }
    LineEndAt(s, n);
    assert s[n + 1..] == rest;
    assert StripCr(s[..n]) == line by {
      if crlf {
        assert s[..n] == line + "\r";
      } else {
        assert s[..n] == line;
      }
    }
  }

  lemma {:induction false} LineEndAt(s: string, n: nat)
    requires n < |s| && s[n] == '\n' && forall j :: 0 <= j < n ==> s[j] != '\n'
    ensures LineEnd(s) == n
  {
    if n > 0 {
      LineEndAt(s[1..], n - 1);
    }
  }

  /** A last line without terminator. */
  lemma LinesOfLast(tail: string)
    requires '\n' !in tail
    ensures Lines(tail) == if |tail| == 0 then [] else [tail]
  {
    if |tail| > 0 {
      assert LineEnd(tail) == |tail|;
    }
  }

  lemma UnlinesCons(ls: seq<string>, crlf: bool, tail: string)
    requires |ls| > 0
    ensures Unlines(ls, crlf) + tail == ls[0] + Eol(crlf) + (Unlines(ls[1..], crlf) + tail)
  {
  }

  /**
   * `lines` undoes `Unlines`; a final piece without terminator is one more
   * line when it is not empty.
   */
  lemma {:induction false} LinesOfUnlines(ls: seq<string>, crlf: bool, tail: string)
    requires forall k :: 0 <= k < |ls| ==> PlainLine(ls[k], crlf)
    requires '\n' !in tail
    ensures Lines(Unlines(ls, crlf) + tail) == ls + (if |tail| == 0 then [] else [tail])
  {
    if |ls| == 0 {
      assert Unlines(ls, crlf) + tail == tail;
      LinesOfLast(tail);
    } else {
      LinesOfUnlines(ls[1..], crlf, tail);
      UnlinesCons(ls, crlf, tail);
      LinesStep(ls[0], crlf, Unlines(ls[1..], crlf) + tail);
      assert ls == [ls[0]] + ls[1..];
    }
  }

  const END_CERTIFICATE: string := "-----END CERTIFICATE-----"

  /** `skip(1)`. */
  function Skip1(ls: seq<string>): seq<string>
  {
    if |ls| == 0 then [] else ls[1..]
  }

  /** `take_while(|line| line != "-----END CERTIFICATE-----")`. */
  function TakeUntilEnd(ls: seq<string>): (r: seq<string>)
    ensures |r| <= |ls| && r == ls[..|r|]
    ensures END_CERTIFICATE !in r
    ensures |r| < |ls| ==> ls[|r|] == END_CERTIFICATE
  {
    if |ls| == 0 || ls[0] == END_CERTIFICATE then [] else [ls[0]] + TakeUntilEnd(ls[1..])
  }

  /** `collect::<String>()`: the lines joined with no separator. */
  function Concat(ls: seq<string>): (r: string)
    ensures |r| == 0 <==> forall k :: 0 <= k < |ls| ==> |ls[k]| == 0
    ensures (forall k :: 0 <= k < |ls| ==> '\n' !in ls[k]) ==> '\n' !in r
  {
    if |ls| == 0 then [] else ls[0] + Concat(ls[1..])
  }

  /**
   * The PEM body `add_cert` extracts: the lines after the first, up to the
   * END line, joined. Its line breaks are gone.
   */
  function PemBody(pem: string): (r: string)
    ensures '\n' !in r
  {
    Concat(TakeUntilEnd(Skip1(Lines(pem))))
  }

  /** The lines after the header are kept up to the first END line and not past it. */
  lemma {:induction false} TakeUntilEndOf(body: seq<string>, rest: seq<string>)
    requires END_CERTIFICATE !in body
    requires |rest| == 0 || rest[0] == END_CERTIFICATE
    ensures TakeUntilEnd(body + rest) == body
  {
    if |body| == 0 {
      assert body + rest == rest;
    } else {
      TakeUntilEndOf(body[1..], rest);
      assert (body + rest)[1..] == body[1..] + rest;
    }
  }

  /** Lines that are each plain stay plain when put together. */
  lemma PlainAppend(a: seq<string>, b: seq<string>, crlf: bool)
    requires forall k :: 0 <= k < |a| ==> PlainLine(a[k], crlf)
    requires forall k :: 0 <= k < |b| ==> PlainLine(b[k], crlf)
    ensures forall k :: 0 <= k < |a + b| ==> PlainLine((a + b)[k], crlf)
  {
    forall k | 0 <= k < |a + b| ensures PlainLine((a + b)[k], crlf) {
      if k >= |a| {
        assert (a + b)[k] == b[k - |a|];
      }
    }
  }

  /** Whatever the header line, the body is the lines after it up to the first END line. */
  lemma PemBodyOfLines(pem: string, header: string, body: seq<string>, rest: seq<string>)
    requires Lines(pem) == [header] + body + rest
    requires END_CERTIFICATE !in body
    requires |rest| == 0 || rest[0] == END_CERTIFICATE
    ensures PemBody(pem) == Concat(body)
  {
    assert Skip1(Lines(pem)) == body + rest;
    TakeUntilEndOf(body, rest);
  }

  /**
   * A certificate: a header line, body lines, the END line and anything
   * after it. The body is the body lines joined, whatever follows the END
   * line.
   */
  lemma PemBodyOfCertificate(header: string, body: seq<string>, after: seq<string>, crlf: bool, tail: string)
    requires forall k :: 0 <= k < |body| ==> PlainLine(body[k], crlf) && body[k] != END_CERTIFICATE
    requires forall k :: 0 <= k < |after| ==> PlainLine(after[k], crlf)
    requires PlainLine(header, crlf) && '\n' !in tail
    ensures PemBody(Unlines([header] + body + [END_CERTIFICATE] + after, crlf) + tail) == Concat(body)
  {
    var trailing := [END_CERTIFICATE] + after;
    PlainAppend([header], body, crlf);
    PlainAppend([END_CERTIFICATE], after, crlf);
    PlainAppend([header] + body, trailing, crlf);
    var ls := [header] + body + [END_CERTIFICATE] + after;
    assert ls == [header] + body + trailing;
    LinesOfUnlines(ls, crlf, tail);
    var last := if |tail| == 0 then [] else [tail];
    assert ls + last == [header] + body + (trailing + last);
    PemBodyOfLines(Unlines(ls, crlf) + tail, header, body, trailing + last);
  }

  /** Without an END line, every line after the header is kept. */
  lemma PemBodyWithoutEnd(header: string, body: seq<string>, crlf: bool)
    requires forall k :: 0 <= k < |body| ==> PlainLine(body[k], crlf) && body[k] != END_CERTIFICATE
    requires PlainLine(header, crlf)
    ensures PemBody(Unlines([header] + body, crlf)) == Concat(body)
  {
    var ls := [header] + body;
    PlainAppend([header], body, crlf);
    LinesOfUnlines(ls, crlf, "");
    assert Unlines(ls, crlf) + "" == Unlines(ls, crlf);
    assert ls + [] == [header] + body + [];
    PemBodyOfLines(Unlines(ls, crlf), header, body, []);
  }

  /**
   * The certificate bytes `add_cert` hands to the keychain; `None` is the
   * panic of `unwrap` on a body that is not Base64.
   */
  function PemToDer(pem: string): (r: Option<seq<byte>>)
    ensures r.Some? ==> Base64.Encode(r.value) == PemBody(pem)
  {
    var der := Base64.Decode(PemBody(pem));
    if der.Some? then Base64.Canonical(PemBody(pem)); der else der
  }

  /** A certificate whose body lines spell the Base64 of `der` yields `der`. */
  lemma PemToDerOfCertificate(der: seq<byte>, header: string, body: seq<string>, after: seq<string>, crlf: bool)
    requires Concat(body) == Base64.Encode(der)
    requires forall k :: 0 <= k < |body| ==> PlainLine(body[k], crlf) && body[k] != END_CERTIFICATE
    requires forall k :: 0 <= k < |after| ==> PlainLine(after[k], crlf)
    requires PlainLine(header, crlf)
    ensures PemToDer(Unlines([header] + body + [END_CERTIFICATE] + after, crlf)) == Some(der)
  {
    var pem := Unlines([header] + body + [END_CERTIFICATE] + after, crlf);
    PemBodyOfCertificate(header, body, after, crlf, "");
    assert pem + "" == pem;
    Base64.RoundTrip(der);
  }

  // ---------------------------------------------------------------------
  // Socket addresses as Python tuples

  /** The Python values a tuple item can be, as far as the conversion tells them apart. */
  datatype PyValue = PyStr(text: string) | PyInt(n: int) | PyOther

  /** `SocketAddr`; the IP address type and its parsing and printing are parameters. */
  datatype SocketAddr<Ip> = SocketAddr(ip: Ip, port: uint16)

  /** The Python exceptions the conversion raises. */
  datatype PyErr =
    | ValueError(message: string)   // wrong arity, or an unparsable IP address
    | TypeError                     // host not a `str`, or port not an `int`
    | OverflowError                 // port outside `u16`

  const NOT_A_SOCKET_ADDRESS: string := "not a socket address"
  const INVALID_IP_ADDRESS: string := "invalid IP address syntax"

  /** `py_to_socketaddr`: arity first, then the host, then the port, then the address syntax. */
  function PyToSocketAddr<Ip>(t: seq<PyValue>, parseIp: string -> Option<Ip>): (r: Result<SocketAddr<Ip>, PyErr>)
    ensures |t| != 2 ==> r == Err(ValueError(NOT_A_SOCKET_ADDRESS))
    ensures r.Ok? <==> |t| == 2 && t[0].PyStr? && parseIp(t[0].text).Some?
                       && t[1].PyInt? && 0 <= t[1].n < 0x1_0000
    ensures r.Ok? ==> Some(r.value.ip) == parseIp(t[0].text) && t[1] == PyInt(r.value.port)
  {
    if |t| == 2 then
      if !t[0].PyStr? then Err(TypeError)
      else if !t[1].PyInt? then Err(TypeError)
      else if !(0 <= t[1].n < 0x1_0000) then Err(OverflowError)
      else match parseIp(t[0].text)
        case Some(addr) => Ok(SocketAddr(addr, t[1].n))
        case None => Err(ValueError(INVALID_IP_ADDRESS))
    else
      Err(ValueError(NOT_A_SOCKET_ADDRESS))
  }

  /** `socketaddr_to_py`: the printed address and the port, for IPv4 and IPv6 alike. */
  function SocketAddrToPy<Ip>(a: SocketAddr<Ip>, formatIp: Ip -> string): (t: seq<PyValue>)
    ensures |t| == 2 && t[1] == PyInt(a.port)
  {
    [PyStr(formatIp(a.ip)), PyInt(a.port)]
  }

  /** An address printed for Python converts back to itself whenever the printed IP parses back. */
  lemma SocketAddrRoundTrip<Ip>(a: SocketAddr<Ip>, formatIp: Ip -> string, parseIp: string -> Option<Ip>)
    requires parseIp(formatIp(a.ip)) == Some(a.ip)
    ensures PyToSocketAddr(SocketAddrToPy(a, formatIp), parseIp) == Ok(a)
  {
  }
}
