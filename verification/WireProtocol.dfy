/**
 The request a client sends to the supervisor: two strings, an argument count and the arguments, each
 string behind its length. Client and server must undo each other, and nothing else may start a child.
 */
module WireProtocol {
  import opened Octets
  import opened Wrappers

  const MAX_ARGS: nat := 128
  const MAX_STRING: nat := 65535
  const TWO_32: nat := 0x1_0000_0000

  /** The host's byte order; both ends run on the same host. */
  datatype Order = LittleEndian | BigEndian

  /** What both ends agree on: the byte order and which bytes are UTF-8. */
  datatype Host = Host(order: Order, utf8: Bytes -> bool)

  datatype Request = Request(name: Bytes, pidFile: Bytes, argv: seq<Bytes>)

  // ---- Integers ----

  /** The bytes of a 32-bit number; a larger one is truncated, as by `as u32`. */
  function U32Bytes(order: Order, v: nat): (b: Bytes)
    ensures |b| == 4
  {
    var b0, v1 := v % 256, v / 256;
    var b1, v2 := v1 % 256, v1 / 256;
    var b2, v3 := v2 % 256, v2 / 256;
    var b3 := v3 % 256;
    if order == LittleEndian then [b0, b1, b2, b3] else [b3, b2, b1, b0]
  }

  function FromBytes(b0: nat, b1: nat, b2: nat, b3: nat): nat {
    b0 + 256 * (b1 + 256 * (b2 + 256 * b3))
  }

  function U32Value(order: Order, b: Bytes): nat
    requires |b| == 4
  {
    if order == LittleEndian then FromBytes(b[0], b[1], b[2], b[3]) else FromBytes(b[3], b[2], b[1], b[0])
  }

  lemma U32OfBytes(order: Order, v: nat)
    requires v < TWO_32
    ensures U32Value(order, U32Bytes(order, v)) == v
  {
    assert v == v % 256 + 256 * (v / 256);
    assert v / 256 / 256 / 256 < 256;
  }

  lemma BytesOfU32(order: Order, b: Bytes)
    requires |b| == 4
    ensures U32Bytes(order, U32Value(order, b)) == b
  {
    var l := if order == LittleEndian then b else [b[3], b[2], b[1], b[0]];
    Digits(l[0], l[1], l[2], l[3]);
  }

  lemma Digits(b0: Byte, b1: Byte, b2: Byte, b3: Byte)
    ensures
      var v := FromBytes(b0, b1, b2, b3);
      v % 256 == b0 && v / 256 % 256 == b1 && v / 256 / 256 % 256 == b2 && v / 256 / 256 / 256 % 256 == b3
  {
    var n0: nat, n1: nat, n2: nat, n3: nat := b0, b1, b2, b3;
    assert (n0 + 256 * (n1 + 256 * (n2 + 256 * n3))) / 256 == n1 + 256 * (n2 + 256 * n3);
    assert (n1 + 256 * (n2 + 256 * n3)) / 256 == n2 + 256 * n3;
  }

  // ---- The format ----

  function EncodeString(h: Host, s: Bytes): Bytes {
    U32Bytes(h.order, |s|) + s
  }

  function EncodeStrings(h: Host, ss: seq<Bytes>): Bytes {
    if ss == [] then [] else EncodeString(h, ss[0]) + EncodeStrings(h, ss[1..])
  }

  predicate IsText(h: Host, s: Bytes) {
    |s| <= MAX_STRING && h.utf8(s)
  }

  /** A request the server will act on. */
  predicate Valid(h: Host, r: Request) {
    && IsText(h, r.name) && IsText(h, r.pidFile)
    && 1 <= |r.argv| <= MAX_ARGS
    && forall s :: s in r.argv ==> IsText(h, s)
  }

  function Encode(h: Host, r: Request): Bytes {
    EncodeString(h, r.name) + (EncodeString(h, r.pidFile) + (U32Bytes(h.order, |r.argv|) + EncodeStrings(h, r.argv)))
  }

  /** The bytes of a number: the lowest first on a little-endian host, else last. */
  lemma NumberLayout(v: nat)
    requires v < TWO_32
    ensures var b := U32Bytes(LittleEndian, v);
            var b0: nat, b1: nat, b2: nat, b3: nat := b[0], b[1], b[2], b[3];
            && b0 + 256 * b1 + 65536 * b2 + 16777216 * b3 == v
            && U32Bytes(BigEndian, v) == [b[3], b[2], b[1], b[0]]
  {
    U32OfBytes(LittleEndian, v);
  }

  /** Where the parts of a request are: each string behind its length, the name, the pid file, the arguments. */
  lemma Layout(h: Host, r: Request)
    ensures var e, n, f := Encode(h, r), |r.name|, |r.pidFile|;
            && |e| >= n + f + 12
            && e[..4] == U32Bytes(h.order, n) && e[4..4 + n] == r.name
            && e[4 + n..8 + n] == U32Bytes(h.order, f) && e[8 + n..8 + n + f] == r.pidFile
            && e[8 + n + f..12 + n + f] == U32Bytes(h.order, |r.argv|)
            && e[12 + n + f..] == EncodeStrings(h, r.argv)
  {
    hide U32Bytes, EncodeStrings;
    var tail := U32Bytes(h.order, |r.argv|) + EncodeStrings(h, r.argv);
    var file := EncodeString(h, r.pidFile) + tail;
    Behind(U32Bytes(h.order, |r.name|), r.name, file);
    Behind(U32Bytes(h.order, |r.pidFile|), r.pidFile, tail);
    assert Encode(h, r) == EncodeString(h, r.name) + file;
    ShiftedSlices(EncodeString(h, r.name), file, |r.pidFile|);
    assert tail[..4] == U32Bytes(h.order, |r.argv|) && tail[4..] == EncodeStrings(h, r.argv);
  }

  lemma Behind(len: Bytes, s: Bytes, rest: Bytes)
    requires |len| == 4
    ensures var e := len + s + rest; e[..4] == len && e[4..4 + |s|] == s && e[4 + |s|..] == rest
  {
  }

  lemma ShiftedSlices(head: Bytes, file: Bytes, f: nat)
    requires |file| >= 8 + f
    ensures var e, n := head + file, |head|;
            && e[n..n + 4] == file[..4] && e[n + 4..n + 4 + f] == file[4..4 + f]
            && e[n + 4 + f..n + 8 + f] == file[4 + f..][..4] && e[n + 8 + f..] == file[4 + f..][4..]
  {
  }

  /** And each argument behind its own length. */
  lemma {:induction false} ArgumentLayout(h: Host, ss: seq<Bytes>, i: nat)
    requires i < |ss|
    ensures var at, e, s := |EncodeStrings(h, ss[..i])|, EncodeStrings(h, ss), ss[i];
            && |e| >= at + 4 + |s|
            && e[at..at + 4] == U32Bytes(h.order, |s|) && e[at + 4..at + 4 + |s|] == s
  {
    hide U32Bytes;
    if i == 0 {
      assert ss[..0] == [];
    } else {
      ArgumentLayout(h, ss[1..], i - 1);
      assert ss[..i][1..] == ss[1..][..i - 1] && ss[..i][0] == ss[0];
    }
  }

  // ---- Reading, on the remaining input ----

  datatype Read<T> = Got(value: T, rest: Bytes) | Refused

  function ReadU32(h: Host, input: Bytes): Read<nat> {
    if |input| < 4 then Refused else Got(U32Value(h.order, input[..4]), input[4..])
  }

  function ReadString(h: Host, input: Bytes): Read<Bytes> {
    match ReadU32(h, input)
    case Refused => Refused
    case Got(len, rest) =>
      if len > MAX_STRING || |rest| < len || !h.utf8(rest[..len]) then Refused
      else Got(rest[..len], rest[len..])
  }

  function ReadStrings(h: Host, n: nat, input: Bytes): Read<seq<Bytes>> {
    if n == 0 then Got([], input)
    else
      match ReadString(h, input)
      case Refused => Refused
      case Got(s, rest) =>
        match ReadStrings(h, n - 1, rest)
        case Refused => Refused
        case Got(ss, rest') => Got([s] + ss, rest')
  }

  function Decode(h: Host, input: Bytes): Read<Request> {
    match ReadString(h, input)
    case Refused => Refused
    case Got(name, rest1) =>
      match ReadString(h, rest1)
      case Refused => Refused
      case Got(pidFile, rest2) =>
        match ReadU32(h, rest2)
        case Refused => Refused
        case Got(argc, rest3) =>
          if argc == 0 || argc > MAX_ARGS then Refused
          else
            match ReadStrings(h, argc, rest3)
            case Refused => Refused
            case Got(argv, rest4) => Got(Request(name, pidFile, argv), rest4)
  }

  // ---- The programs ----

  class Stream {
    var input: Bytes   // what the peer has sent before closing its end
    var output: Bytes

    constructor (input: Bytes)
      ensures this.input == input && output == []
    {
      this.input, output := input, [];
    }

    /** `read_exact`: all the bytes or an error; an error may have consumed some. */
    method ReadExact(n: nat) returns (r: Option<Bytes>)
      modifies this`input
      ensures if n <= |old(input)| then r == Some(old(input)[..n]) && input == old(input)[n..] else r.None?
    {
      if n <= |input| {
        r := Some(input[..n]);
        input := input[n..];
      } else {
        r := None;
        input := [];
      }
    }

    method WriteAll(bytes: Bytes)
      modifies this`output
      ensures output == old(output) + bytes
    {
      output := output + bytes;
    }

    method WriteString(h: Host, s: Bytes) returns (ok: bool)
      modifies this`output
      ensures ok == (|s| <= MAX_STRING)
      ensures output == old(output) + if ok then EncodeString(h, s) else []
    {
      if |s| > MAX_STRING {
        return false;
      }
      WriteAll(U32Bytes(h.order, |s|));
      WriteAll(s);
      ok := true;
    }

    method ReadNumber(h: Host) returns (r: Option<nat>)
      modifies this`input
      ensures match ReadU32(h, old(input)) case Refused => r.None? case Got(v, rest) => r == Some(v) && input == rest
    {
      var bytes := ReadExact(4);
      r := if bytes.None? then None else Some(U32Value(h.order, bytes.value));
    }

    method ReadText(h: Host) returns (r: Option<Bytes>)
      modifies this`input
      ensures match ReadString(h, old(input)) case Refused => r.None? case Got(s, rest) => r == Some(s) && input == rest
    {
      var len := ReadNumber(h);
      if len.None? || len.value > MAX_STRING {
        return None;
      }
      r := ReadExact(len.value);
      if r.Some? && !h.utf8(r.value) {
        r := None;
      }
    }
  }

  /** The client's bytes: everything up to the first string that is too long, or the whole request. */
  function Sent(h: Host, r: Request): Bytes {
    if |r.name| > MAX_STRING then []
    else if |r.pidFile| > MAX_STRING then EncodeString(h, r.name)
    else EncodeString(h, r.name) + (EncodeString(h, r.pidFile) +
         (U32Bytes(h.order, |r.argv|) + EncodeStrings(h, Sendable(r.argv))))
  }

  /** The strings before the first one that is too long. */
  function Sendable(ss: seq<Bytes>): (r: seq<Bytes>)
    ensures r <= ss
    ensures forall s :: s in r ==> |s| <= MAX_STRING
    ensures |r| < |ss| <==> exists s :: s in ss && |s| > MAX_STRING
  {
    if ss == [] || |ss[0]| > MAX_STRING then [] else [ss[0]] + Sendable(ss[1..])
  }

  /** `send_client_request`, up to the point where it waits for the answer. */
  method SendClientRequest(h: Host, stream: Stream, r: Request) returns (ok: bool)
    modifies stream`output
    ensures stream.output == old(stream.output) + Sent(h, r)
    ensures ok <==> |r.name| <= MAX_STRING && |r.pidFile| <= MAX_STRING && forall s :: s in r.argv ==> |s| <= MAX_STRING
  {
    hide U32Bytes, EncodeString, EncodeStrings;
    ok := stream.WriteString(h, r.name);
    if !ok {
      return;
    }
    ok := stream.WriteString(h, r.pidFile);
    if !ok {
      return;
    }
    stream.WriteAll(U32Bytes(h.order, |r.argv|));
    ok := SendArgv(h, stream, r.argv);
    assert stream.output == old(stream.output) + Sent(h, r);
  }

  method SendArgv(h: Host, stream: Stream, argv: seq<Bytes>) returns (ok: bool)
    modifies stream`output
    ensures stream.output == old(stream.output) + EncodeStrings(h, Sendable(argv))
    ensures ok <==> forall s :: s in argv ==> |s| <= MAX_STRING
  {
    hide EncodeString;
    ghost var head := stream.output;
    for i := 0 to |argv|
      invariant forall j :: 0 <= j < i ==> |argv[j]| <= MAX_STRING
      invariant stream.output == head + EncodeStrings(h, argv[..i])
    {
      ok := stream.WriteString(h, argv[i]);
      if !ok {
        SendableStops(argv, i);
        return;
      }
      assert argv[..i + 1] == argv[..i] + [argv[i]];
      EncodeStringsSnoc(h, argv[..i], argv[i]);
    }
    ok := true;
    assert argv[..|argv|] == argv == Sendable(argv);
  }

  lemma {:induction false} SendableStops(ss: seq<Bytes>, i: nat)
    requires i < |ss| && |ss[i]| > MAX_STRING && forall j :: 0 <= j < i ==> |ss[j]| <= MAX_STRING
    ensures Sendable(ss) == ss[..i]
  {
    if i > 0 {
      SendableStops(ss[1..], i - 1);
    }
  }

  lemma {:induction false} EncodeStringsSnoc(h: Host, ss: seq<Bytes>, s: Bytes)
    ensures EncodeStrings(h, ss + [s]) == EncodeStrings(h, ss) + EncodeString(h, s)
  {
    if ss == [] {
      assert ss + [s] == [s] && [s][1..] == [];
    } else {
      assert (ss + [s])[1..] == ss[1..] + [s];
      EncodeStringsSnoc(h, ss[1..], s);
    }
  }

  /** What the server does besides answering: the children it forks and the ones it then terminates. */
  class Supervisor {
    var forks: seq<seq<Bytes>>
    var terminated: seq<seq<Bytes>>
    var pidFiles: set<Bytes>

    constructor ()
      ensures forks == [] && terminated == [] && pidFiles == {}
    {
      forks, terminated, pidFiles := [], [], {};
    }
  }

  function Prepend(ss: seq<Bytes>, r: Read<seq<Bytes>>): Read<seq<Bytes>> {
    match r
    case Refused => Refused
    case Got(tail, rest) => Got(ss + tail, rest)
  }

  /** The loop of `handle_client` that pushes into `child_argv`. */
  method ReadArgv(h: Host, stream: Stream, argc: nat) returns (argv: Option<seq<Bytes>>)
    modifies stream`input
    ensures match ReadStrings(h, argc, old(stream.input))
            case Refused => argv.None?
            case Got(ss, rest) => argv == Some(ss) && stream.input == rest
  {
    hide ReadString;
    ghost var start := stream.input;
    var got: seq<Bytes> := [];
    PrependNothing(ReadStrings(h, argc, start));
    for i := 0 to argc
      invariant ReadStrings(h, argc, start) == Prepend(got, ReadStrings(h, argc - i, stream.input))
    {
      ghost var before, left := got, stream.input;
      var arg := stream.ReadText(h);
      if arg.None? {
        return None;
      }
      got := got + [arg.value];
      PrependTwice(before, [arg.value], ReadStrings(h, argc - i - 1, stream.input));
      assert ReadStrings(h, argc - i, left) == Prepend([arg.value], ReadStrings(h, argc - i - 1, stream.input));
    }
    argv := Some(got);
    assert got + [] == got;
  }

  lemma PrependNothing(r: Read<seq<Bytes>>)
    ensures Prepend([], r) == r
  {
    if r.Got? {
      assert [] + r.value == r.value;
    }
  }

  lemma PrependTwice(a: seq<Bytes>, b: seq<Bytes>, r: Read<seq<Bytes>>)
    ensures Prepend(a, Prepend(b, r)) == Prepend(a + b, r)
  {
    if r.Got? {
      assert a + (b + r.value) == a + b + r.value;
    }
  }

  datatype Reply = MalformedRequest | MalformedArgv | ForkFailed | PidFileFailed | Started(name: Bytes)

  /** The two strings and an admissible number of arguments are there; only an argument can be wrong. */
  predicate HeaderIsRead(h: Host, input: Bytes) {
    var name := ReadString(h, input);
    && name.Got?
    && var pidFile := ReadString(h, name.rest);
    && pidFile.Got?
    && var argc := ReadU32(h, pidFile.rest);
    argc.Got? && 1 <= argc.value <= MAX_ARGS
  }

  /** `handle_client`; whether the fork and the write of the pid file succeed is up to the host. */
  method HandleClient(h: Host, stream: Stream, s: Supervisor, forkWorks: bool, pidFileWorks: bool)
    returns (reply: Reply)
    modifies stream`input, s
    ensures
      match Decode(h, old(stream.input))
      case Refused =>
        reply == (if HeaderIsRead(h, old(stream.input)) then MalformedArgv else MalformedRequest) &&
        s.forks == old(s.forks) && s.terminated == old(s.terminated) && s.pidFiles == old(s.pidFiles)
      case Got(r, rest) =>
        && stream.input == rest
        && s.forks == old(s.forks) + (if forkWorks then [r.argv] else [])
        && s.terminated == old(s.terminated) + (if forkWorks && !pidFileWorks then [r.argv] else [])
        && s.pidFiles == old(s.pidFiles) + (if forkWorks && pidFileWorks then {r.pidFile} else {})
        && reply == (if !forkWorks then ForkFailed else if !pidFileWorks then PidFileFailed else Started(r.name))
  {
    hide ReadString, ReadStrings, U32Value;
    var name := stream.ReadText(h);
    if name.None? {
      return MalformedRequest;
    }
    var pidFile := stream.ReadText(h);
    if pidFile.None? {
      return MalformedRequest;
    }
    var argc := stream.ReadNumber(h);
    if argc.None? || argc.value == 0 || argc.value > MAX_ARGS {
      return MalformedRequest;
    }
    var maybeArgv := ReadArgv(h, stream, argc.value);
    if maybeArgv.None? {
      return MalformedArgv;
    }
    var argv := maybeArgv.value;
    if !forkWorks {
      return ForkFailed;
    }
    s.forks := s.forks + [argv];
    if !pidFileWorks {
      s.terminated := s.terminated + [argv];
      return PidFileFailed;
    }
    s.pidFiles := s.pidFiles + {pidFile.value};
    reply := Started(name.value);
  }

  // ---- The two ends undo each other ----

  lemma ReadWritten(h: Host, s: Bytes, rest: Bytes)
    requires IsText(h, s)
    ensures ReadString(h, EncodeString(h, s) + rest) == Got(s, rest)
  {
    hide U32Bytes, U32Value;
    var input := EncodeString(h, s) + rest;
    assert input[..4] == U32Bytes(h.order, |s|) && input[4..] == s + rest;
    U32OfBytes(h.order, |s|);
    assert (s + rest)[..|s|] == s && (s + rest)[|s|..] == rest;
  }

  lemma WrittenRead(h: Host, input: Bytes)
    requires ReadString(h, input).Got?
    ensures var Got(s, rest) := ReadString(h, input); IsText(h, s) && input == EncodeString(h, s) + rest
  {
    hide U32Bytes, U32Value;
    BytesOfU32(h.order, input[..4]);
    var Got(s, rest) := ReadString(h, input);
    assert input == input[..4] + input[4..] && input[4..] == s + rest;
  }

  lemma {:induction false} ReadStringsWritten(h: Host, ss: seq<Bytes>, rest: Bytes)
    requires forall s :: s in ss ==> IsText(h, s)
    ensures ReadStrings(h, |ss|, EncodeStrings(h, ss) + rest) == Got(ss, rest)
  {
    hide ReadString, EncodeString;
    if ss == [] {
      assert EncodeStrings(h, ss) + rest == rest;
    } else {
      var tail := EncodeStrings(h, ss[1..]) + rest;
      assert EncodeStrings(h, ss) + rest == EncodeString(h, ss[0]) + tail;
      ReadWritten(h, ss[0], tail);
      ReadStringsWritten(h, ss[1..], rest);
      assert [ss[0]] + ss[1..] == ss;
    }
  }

  lemma {:induction false} WrittenStringsRead(h: Host, n: nat, input: Bytes)
    requires ReadStrings(h, n, input).Got?
    ensures var Got(ss, rest) := ReadStrings(h, n, input);
            |ss| == n && (forall s :: s in ss ==> IsText(h, s)) && input == EncodeStrings(h, ss) + rest
  {
    hide ReadString, EncodeString, IsText;
    if n == 0 {
      assert EncodeStrings(h, []) + input == input;
    } else {
      WrittenRead(h, input);
      var Got(s, rest) := ReadString(h, input);
      WrittenStringsRead(h, n - 1, rest);
      var Got(ss, end) := ReadStrings(h, n - 1, rest);
      assert ([s] + ss)[1..] == ss;
      assert input == EncodeString(h, s) + EncodeStrings(h, ss) + end;
    }
  }

  /** The server decodes exactly what the client encoded, and leaves what follows. */
  lemma DecodeEncoded(h: Host, r: Request, rest: Bytes)
    requires Valid(h, r)
    ensures Decode(h, Encode(h, r) + rest) == Got(r, rest)
  {
    hide ReadString, EncodeString, ReadStrings, EncodeStrings, U32Bytes, U32Value, IsText;
    var args := EncodeStrings(h, r.argv) + rest;
    var number := U32Bytes(h.order, |r.argv|) + args;
    var second := EncodeString(h, r.pidFile) + number;
    assert Encode(h, r) + rest == EncodeString(h, r.name) + second;
    ReadWritten(h, r.name, second);
    ReadWritten(h, r.pidFile, number);
    assert number[..4] == U32Bytes(h.order, |r.argv|) && number[4..] == args;
    U32OfBytes(h.order, |r.argv|);
    ReadStringsWritten(h, r.argv, rest);
  }

  /** Everything the server accepts is a valid request, encoded as a client would, and the unread rest. */
  lemma EncodeDecoded(h: Host, input: Bytes)
    requires Decode(h, input).Got?
    ensures var Got(r, rest) := Decode(h, input); Valid(h, r) && input == Encode(h, r) + rest
  {
    hide ReadString, EncodeString, ReadStrings, EncodeStrings, U32Bytes, U32Value, IsText;
    WrittenRead(h, input);
    var Got(name, rest1) := ReadString(h, input);
    WrittenRead(h, rest1);
    var Got(pidFile, rest2) := ReadString(h, rest1);
    BytesOfU32(h.order, rest2[..4]);
    var Got(argc, rest3) := ReadU32(h, rest2);
    WrittenStringsRead(h, argc, rest3);
    var Got(argv, rest4) := ReadStrings(h, argc, rest3);
    assert rest2 == rest2[..4] + rest3;
    assert input == EncodeString(h, name) + (EncodeString(h, pidFile) +
                      (U32Bytes(h.order, argc) + EncodeStrings(h, argv))) + rest4;
  }

  /** No truncation of a request is accepted, so no request is a proper prefix of another. */
  lemma TruncatedIsRefused(h: Host, r: Request, n: nat)
    requires Valid(h, r) && n < |Encode(h, r)|
    ensures Decode(h, Encode(h, r)[..n]) == Refused
  {
    hide Decode, Encode, Valid;
    var whole, part := Encode(h, r), Encode(h, r)[..n];
    DecodeEncoded(h, r, []);
    assert whole + [] == whole && whole == part + whole[n..];
    if Decode(h, part).Got? {
      DecodeExtends(h, part, whole[n..]);
    }
  }

  /** More input behind an accepted request changes nothing about the request. */
  lemma DecodeExtends(h: Host, input: Bytes, more: Bytes)
    requires Decode(h, input).Got?
    ensures var Got(r, rest) := Decode(h, input); Decode(h, input + more) == Got(r, rest + more)
  {
    hide Decode, Encode, Valid;
    EncodeDecoded(h, input);
    var Got(r, rest) := Decode(h, input);
    assert input + more == Encode(h, r) + (rest + more);
    DecodeEncoded(h, r, rest + more);
  }

  /** Fewer strings than announced, and then the end of the stream, are refused. */
  lemma {:induction false} ReadStringsShort(h: Host, n: nat, ss: seq<Bytes>)
    requires |ss| < n && forall s :: s in ss ==> IsText(h, s)
    ensures ReadStrings(h, n, EncodeStrings(h, ss)) == Refused
  {
    hide EncodeString, U32Bytes, U32Value;
    if ss == [] {
      assert ReadString(h, []) == Refused;
    } else {
      ReadWritten(h, ss[0], EncodeStrings(h, ss[1..]));
      ReadStringsShort(h, n - 1, ss[1..]);
    }
  }

  /**
   From one end to the other: what any client sends starts a child exactly when the request is valid,
   and then with the request's own arguments; an over-long string, no argument or too many never do.
   */
  lemma ForkedIffValid(h: Host, r: Request)
    requires h.utf8(r.name) && h.utf8(r.pidFile) && forall s :: s in r.argv ==> h.utf8(s)
    requires |r.argv| < TWO_32
    ensures Decode(h, Sent(h, r)) == if Valid(h, r) then Got(r, []) else Refused
  {
    hide Decode, EncodeString, EncodeStrings, U32Bytes, U32Value, ReadStrings;
    if Valid(h, r) {
      DecodeEncoded(h, r, []);
      assert Sendable(r.argv) == r.argv;
      assert Sent(h, r) == Encode(h, r) + [];
    } else if |r.name| > MAX_STRING {
      NothingDecoded(h);
    } else {
      SentHeadRead(h, r);
      if |r.pidFile| <= MAX_STRING && 1 <= |r.argv| <= MAX_ARGS {
        ReadStringsShort(h, |r.argv|, Sendable(r.argv));
      }
    }
  }

  lemma NothingDecoded(h: Host)
    ensures Decode(h, []) == Refused
  {
  }

  /** How the server reads what comes before the arguments. */
  lemma SentHeadRead(h: Host, r: Request)
    requires IsText(h, r.name) && h.utf8(r.pidFile) && |r.argv| < TWO_32
    ensures
      if |r.pidFile| > MAX_STRING then Decode(h, Sent(h, r)) == Refused
      else
        Decode(h, Sent(h, r)) ==
        if |r.argv| == 0 || |r.argv| > MAX_ARGS then Refused
        else
          match ReadStrings(h, |r.argv|, EncodeStrings(h, Sendable(r.argv)))
          case Refused => Refused
          case Got(argv, rest) => Got(Request(r.name, r.pidFile, argv), rest)
  {
    hide EncodeString, EncodeStrings, ReadStrings, U32Bytes, U32Value;
    if |r.pidFile| > MAX_STRING {
      assert Sent(h, r) == EncodeString(h, r.name) + [];
      ReadWritten(h, r.name, []);
    } else {
      var args := EncodeStrings(h, Sendable(r.argv));
      var number := U32Bytes(h.order, |r.argv|) + args;
      ReadWritten(h, r.name, EncodeString(h, r.pidFile) + number);
      ReadWritten(h, r.pidFile, number);
      assert number[..4] == U32Bytes(h.order, |r.argv|) && number[4..] == args;
      U32OfBytes(h.order, |r.argv|);
    }
  }
}
