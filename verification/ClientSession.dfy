/** One client's session with the device: `handle_client` and `echo_buffer` of `client.c`. */
module ClientSession {
  import opened Bytes
  import opened ClientText
  import opened DeviceLog
  import opened CharDevice
  import CB = CircularBuffer

  // ---------------------------------------------------------------------------------------
  // The session as one action on the log
  // ---------------------------------------------------------------------------------------

  /**
   * All a session depends on besides the device: the chunks its socket delivers, what the stack
   * array `tmp_str` happens to hold, and how the kernel answers its write or its seek.
   */
  datatype Client = Client(chunks: seq<seq<byte>>, tmp: Scratch, writeEnv: WriteEnv, seekInterrupted: bool)

  datatype Request = Write(data: seq<byte>) | Seek(slot: nat, offset: nat) | Undefined

  /** The received bytes as C's string functions see them. */
  function Message(c: Client): seq<byte> {
    CString(Received(c.chunks))
  }

  /** The receive loop's `size`, 256 and every byte it carries over, is an `int`. */
  predicate Overflows(chunks: seq<seq<byte>>) {
    !FitsInt(BUFSIZE + Carried(chunks))
  }

  /** A seek command that, with `tmp_str` as it is, has no defined numbers. */
  predicate UnparsableSeek(c: Client) {
    var at := FindFirst(Message(c), SEEK_COMMAND);
    at.Some? && ParseSeek(Message(c)[at.value..][|SEEK_COMMAND|..], c.tmp).None?
  }

  /** `Undefined` when the C code has no defined behaviour before it gets to the device. */
  function RequestOf(c: Client): Request {
    var message := Message(c);
    var at := FindFirst(message, SEEK_COMMAND);
    if Overflows(c.chunks) then Undefined
    else if at.None? then Write(message)
    else
      var args := ParseSeek(message[at.value..][|SEEK_COMMAND|..], c.tmp);
      if args.None? then Undefined else Seek(args.value.0, args.value.1)
  }

  lemma OverflowsIff(chunks: seq<seq<byte>>)
    ensures Overflows(chunks) <==> Carried(chunks) > 2147483391
  {
    hide Carried;
  }

  /** Text without a seek command is written as it came, newline and all, up to its first NUL. */
  lemma PlainTextIsWritten(c: Client)
    requires !Overflows(c.chunks) && FindFirst(CString(Received(c.chunks)), SEEK_COMMAND).None?
    ensures RequestOf(c) == Write(CString(Received(c.chunks)))
    ensures NUL !in Received(c.chunks) ==> RequestOf(c) == Write(Received(c.chunks))
  {
    hide CString, Received, Overflows, FindFirst, ParseSeek;
    if NUL !in Received(c.chunks) {
      CStringWhole(Received(c.chunks));
    }
  }

  /** Text with one asks for the two numbers behind its first occurrence, in that order. */
  lemma SeekTextIsSought(c: Client, before: seq<byte>, first: seq<byte>, second: seq<byte>, rest: seq<byte>)
    requires !Overflows(c.chunks) && COMMA !in first && NEWLINE !in second
    requires |first| <= 256 && |second| <= 256
    requires
      var text := before + (SEEK_COMMAND + (first + [COMMA] + (second + [NEWLINE] + rest)));
      CString(Received(c.chunks)) == text && FindFirst(text, SEEK_COMMAND) == Some(|before|)
    ensures
      var tmp1 := first + c.tmp[|first|..];
      var x, y := Atoi(tmp1), Atoi(second + tmp1[|second|..]);
      RequestOf(c) == if x.None? || y.None? then Undefined else Seek(ToUint32(x.value), ToUint32(y.value))
  {
    hide CString, Received, Overflows, FindFirst, ParseSeek, Atoi, ToUint32;
    var args := first + [COMMA] + (second + [NEWLINE] + rest);
    ParseSeekReads(first, second, rest, c.tmp);
    assert Message(c)[|before|..] == SEEK_COMMAND + args;
    assert (SEEK_COMMAND + args)[|SEEK_COMMAND|..] == args;
  }

  /** A printed seek command asks for exactly the numbers printed, unless stale digits join the second. */
  lemma PrintedSeekIsSoughtIff(c: Client, x: nat, y: nat)
    requires Received(c.chunks) == SeekMessage(x, y) && !Overflows(c.chunks)
    requires FitsInt(x) && FitsInt(y)
    requires forall i :: 0 <= i < |c.tmp| ==> !IsDigit(c.tmp[i])
    ensures RequestOf(c) == Seek(x, y) <==> SecondNumberSurvives(x, y)
    ensures x < 10 ==> RequestOf(c) == Seek(x, y)
  {
    hide CString, Received, Overflows, FindFirst, ParseSeek, Dec, SecondNumberSurvives;
    SeekMessageNulFree(x, y);
    CStringWhole(SeekMessage(x, y));
    SeekMessageFields(x, y);
    ParseInvertsPrintIff(x, y, c.tmp);
    assert SeekMessage(x, y)[0..] == SeekMessage(x, y);
  }

  lemma SeekMessageNulFree(x: nat, y: nat)
    ensures NUL !in SeekMessage(x, y)
  {
  }

  lemma UndefinedIff(c: Client)
    ensures RequestOf(c).Undefined? <==> Overflows(c.chunks) || UnparsableSeek(c)
  {
    hide Overflows, Message;
  }

  /** The session's one change to the device, and the position its echo starts from if it gets that far. */
  function Submit(l: Log, c: Client): (Log, Option<nat>) {
    match RequestOf(c)
    case Write(data) =>
      var (l', r) := AtomicWrite(l, data, c.writeEnv);
      (l', if r < 0 then None else Some(0))
    case Seek(slot, offset) =>
      (l, if c.seekInterrupted then None else SeekTarget(l, slot, offset))
    case Undefined => (l, None)
  }

  /** A whole session: the device afterwards, and the bytes sent back, `None` when it fails before the echo. */
  function Session(l: Log, c: Client): (Log, Option<seq<byte>>) {
    var (l', start) := Submit(l, c);
    (l', if start.None? then None else Some(CString(Contents(l')[Min(start.value, |Contents(l')|)..])))
  }

  /** Nothing in the device is a NUL; then C strings carry all of it. */
  ghost predicate NulFree(l: Log) {
    && (forall i :: 0 <= i < |l.committed| ==> NUL !in l.committed[i])
    && NUL !in l.pending
  }

  lemma {:induction false} FlattenNulFree(pieces: seq<seq<byte>>)
    requires forall i :: 0 <= i < |pieces| ==> NUL !in pieces[i]
    ensures NUL !in Flatten(pieces)
  {
    if pieces != [] {
      FlattenNulFree(pieces[1..]);
    }
  }

  lemma ContentsNulFree(l: Log)
    requires NulFree(l)
    ensures NUL !in Contents(l)
  {
    var s := Stored(l);
    forall i | 0 <= i < |s| ensures NUL !in s[i] {
      assert s[i] == l.committed[|l.committed| - |s| + i];
    }
    FlattenNulFree(s);
  }

  /** Sessions write C strings only, so the device stays NUL-free and well shaped. */
  lemma SessionKeeps(l: Log, c: Client)
    requires Shaped(l) && NulFree(l)
    ensures Shaped(Session(l, c).0) && NulFree(Session(l, c).0)
  {
    hide SeekTarget, FindFirst, ParseSeek, AtomicWrite, Shaped, NulFree;
    if RequestOf(c).Write? {
      AtomicWriteKeepsShape(l, Message(c), c.writeEnv);
      AtomicWriteKeepsNulFree(l, Message(c), c.writeEnv);
    }
  }

  lemma AtomicWriteKeepsNulFree(l: Log, data: seq<byte>, env: WriteEnv)
    requires NulFree(l) && NUL !in data
    ensures NulFree(AtomicWrite(l, data, env).0)
  {
  }

  /** What a client that wrote successfully gets back: the whole device, as it is right after its own write. */
  lemma WriterSeesWholeDevice(l: Log, c: Client)
    requires NulFree(l) && Shaped(l)
    requires RequestOf(c).Write?
    ensures
      var (l', r) := AtomicWrite(l, CString(Received(c.chunks)), c.writeEnv);
      Session(l, c) == (l', if r < 0 then None else Some(Contents(l')))
  {
    SessionKeeps(l, c);
    var l' := Session(l, c).0;
    ContentsNulFree(l');
    CStringWhole(Contents(l'));
    assert Contents(l')[0..] == Contents(l');
  }

  /** A client that seeks changes nothing and gets the device from its target on, if there is one. */
  lemma SeekerSeesTail(l: Log, c: Client, x: nat, y: nat)
    requires NulFree(l) && RequestOf(c) == Seek(x, y)
    ensures
      var target := SeekTarget(l, x, y);
      Session(l, c) ==
      (l, if c.seekInterrupted || target.None? then None else Some(Contents(l)[Min(target.value, |Contents(l)|)..]))
  {
    hide Contents, CString, SeekTarget, RequestOf, NulFree;
    ContentsNulFree(l);
    var target := SeekTarget(l, x, y);
    if target.Some? {
      CStringWhole(Contents(l)[Min(target.value, |Contents(l)|)..]);
    }
  }

  lemma SeekerSeesCommand(l: Log, c: Client, x: nat, y: nat, i: nat)
    requires NulFree(l) && RequestOf(c) == Seek(x, y)
    requires |Evicted(l)| <= i < |l.committed| && i % 10 == x
    ensures Session(l, c) ==
      (l, if c.seekInterrupted || y >= |l.committed[i]| then None
          else Some(l.committed[i][y..] + Flatten(l.committed[i + 1..])))
  {
    hide *;
    SeekerSeesTail(l, c, x, y);
    SeekFindsCommand(l, i, y);
    if y < |l.committed[i]| {
      ContentsFromCommand(l, i, y);
      MinIsLeft(SeekTarget(l, x, y).value, |Contents(l)|);
    }
  }

  lemma MinIsLeft(a: int, b: int)
    requires a <= b
    ensures Min(a, b) == a
  {
  }

  /**
   * What a client that seeks gets back, the device unchanged: the rest of the command asked for and all
   * younger ones.  Command `i` of the log is in slot `i` modulo ten.
   */
  lemma SeekerSeesSuffix(l: Log, c: Client, x: nat, y: nat)
    requires NulFree(l)
    requires RequestOf(c) == Seek(x, y)
    ensures
      var target := SeekTarget(l, x, y);
      Session(l, c) ==
      (l, if c.seekInterrupted || target.None? then None else Some(Contents(l)[Min(target.value, |Contents(l)|)..]))
    ensures c.seekInterrupted || x >= 10 || x >= |l.committed| ==> Session(l, c) == (l, None)
    ensures forall i :: |Evicted(l)| <= i < |l.committed| && i % 10 == x ==>
      Session(l, c) ==
      (l, if c.seekInterrupted || y >= |l.committed[i]| then None
          else Some(l.committed[i][y..] + Flatten(l.committed[i + 1..])))
  {
    hide *;
    SeekerSeesTail(l, c, x, y);
    if x >= 10 || x >= |l.committed| {
      SeekRefusesOthers(l, x, y);
    }
    forall i | |Evicted(l)| <= i < |l.committed| && i % 10 == x
      ensures Session(l, c) ==
        (l, if c.seekInterrupted || y >= |l.committed[i]| then None
            else Some(l.committed[i][y..] + Flatten(l.committed[i + 1..])))
    {
      SeekerSeesCommand(l, c, x, y, i);
    }
  }

  /** A client that sends one line, without a seek command, and meets no failure. */
  ghost predicate SendsLine(c: Client, line: seq<byte>) {
    && Received(c.chunks) == line && !Overflows(c.chunks)
    && EndsInNewline(line) && NUL !in line && FindFirst(line, SEEK_COMMAND).None?
    && c.writeEnv == CALM
  }

  /** Its line is committed, on top of whatever was pending, and it is sent the device with that line in it. */
  lemma LineIsCommitted(l: Log, c: Client, line: seq<byte>)
    requires Shaped(l) && NulFree(l) && SendsLine(c, line) && |l.pending + line| < 128
    ensures
      var l' := Log(l.committed + [l.pending + line], []);
      Session(l, c) == (l', Some(Contents(l')))
  {
    hide RequestOf, Contents, CString, Shaped, NulFree, FindFirst, Session;
    CStringWhole(line);
    PlainTextIsWritten(c);
    WriterSeesWholeDevice(l, c);
  }

  /** A client that sends a printed seek command whose numbers survive, and is not interrupted. */
  ghost predicate SendsSeek(c: Client, x: nat, y: nat) {
    && Received(c.chunks) == SeekMessage(x, y) && !Overflows(c.chunks)
    && FitsInt(x) && FitsInt(y) && SecondNumberSurvives(x, y)
    && (forall i :: 0 <= i < |c.tmp| ==> !IsDigit(c.tmp[i]))
    && !c.seekInterrupted
  }

  /** It is sent byte `y` of the command in slot `x`, and everything after it. */
  lemma SeekIsAnswered(l: Log, c: Client, x: nat, y: nat, i: nat)
    requires NulFree(l) && SendsSeek(c, x, y)
    requires |Evicted(l)| <= i < |l.committed| && i % 10 == x
    ensures Session(l, c) ==
      (l, if y < |l.committed[i]| then Some(l.committed[i][y..] + Flatten(l.committed[i + 1..])) else None)
  {
    hide Session, RequestOf, Evicted, Flatten, SeekMessage, Contents, SeekTarget;
    PrintedSeekIsSoughtIff(c, x, y);
    SeekerSeesSuffix(l, c, x, y);
  }

  /** A negative number in a seek command names neither a slot nor an offset of any device. */
  lemma NegativeSeeksRefused(l: Log, v: int, other: nat)
    requires Shaped(l) && FitsInt(v) && v < 0
    ensures SeekTarget(l, ToUint32(v), other) == None && SeekTarget(l, other, ToUint32(v)) == None
  {
    hide Flatten;
    ToUint32Wraps(v);
    StoredBound(l);
  }

  /** Both laws on actual bytes: a line that comes in two chunks, */
  lemma HelloExample(c: Client)
    requires c.chunks == [Ascii("hel"), Ascii("lo\n")] && c.writeEnv == CALM
    ensures Session(EMPTY_LOG, c) == (Log([Ascii("hello\n")], []), Some(Ascii("hello\n")))
  {
    var line := Ascii("hello\n");
    HelloIsLine(c);
    hide *;
    LineIsCommitted(EMPTY_LOG, c, line);
    assert [] + line == line && [] + [line] == [line];
    OneCommandContents(line);
  }

  lemma HelloIsLine(c: Client)
    requires c.chunks == [Ascii("hel"), Ascii("lo\n")] && c.writeEnv == CALM
    ensures SendsLine(c, Ascii("hello\n")) && Shaped(EMPTY_LOG) && NulFree(EMPTY_LOG)
    ensures |Ascii("hello\n")| == 6
  {
    hide FindFirst, Received, Carried;
    HelloReceived(c.chunks);
    FindFirstTooShort(Ascii("hello\n"), SEEK_COMMAND);
  }

  lemma HelloReceived(chunks: seq<seq<byte>>)
    requires chunks == [Ascii("hel"), Ascii("lo\n")]
    ensures Received(chunks) == Ascii("hello\n") && Carried(chunks) == 3
  {
    assert chunks[1..] == [Ascii("lo\n")];
    assert chunks[1..][0] == Ascii("lo\n") && !EndsInNewline(chunks[0]) && EndsInNewline(chunks[1]);
    assert Ascii("hel") + Ascii("lo\n") == Ascii("hello\n");
  }

  lemma OneCommandContents(line: seq<byte>)
    ensures Contents(Log([line], [])) == line
  {
    assert Stored(Log([line], [])) == [line];
    FlattenOne(line);
  }

  /** and `AESDCHAR_IOCSEEKTO:1,2` with its newline, as `Spelled` shows. */
  lemma SeekExample(c: Client)
    requires c.chunks == [SeekMessage(1, 2)] && !c.seekInterrupted
    requires forall i :: 0 <= i < |c.tmp| ==> !IsDigit(c.tmp[i])
    ensures
      var l := Log([Ascii("aaaa\n"), Ascii("bbbb\n"), Ascii("cccc\n")], []);
      Session(l, c) == (l, Some(Ascii("bb\ncccc\n")))
  {
    var b, d := Ascii("bbbb\n"), Ascii("cccc\n");
    var l := Log([Ascii("aaaa\n"), b, d], []);
    var message := SeekMessage(1, 2);
    assert EndsInNewline(message);
    assert Received(c.chunks) == message && Carried(c.chunks) == 0;
    OneDigit(1);
    OneDigit(2);
    assert b[2..] + d == Ascii("bb\ncccc\n") && |b| == 5 && NulFree(l);
    hide Session, FindFirst, CString, SeekMessage, Received, Carried, Ascii, NulFree, Flatten, Dec;
    assert Evicted(l) == [] && l.committed[2..] == [d];
    SeekIsAnswered(l, c, 1, 2, 1);
    FlattenOne(d);
  }

  /** Served on device `l` this client leaves defined behaviour. */
  predicate Meaningless(l: Log, c: Client) {
    match RequestOf(c)
    case Write(data) => !Defined(l, data, c.writeEnv)
    case Seek(_, _) => false
    case Undefined => true
  }

  /**
   * There are three ways: a message that outgrows an `int`, a seek command without numbers, and a
   * write of nothing, with nothing pending, that is carried through.
   */
  lemma MeaninglessIff(l: Log, c: Client)
    ensures Meaningless(l, c) <==>
      || Overflows(c.chunks)
      || UnparsableSeek(c)
      || (Message(c) == [] && l.pending == [] && !c.writeEnv.interrupted && c.writeEnv.copyFault.None?)
  {
    hide Message, Overflows;
    if Message(c) == [] {
      assert FindFirst(Message(c), SEEK_COMMAND).None?;
    }
    assert l.pending + Message(c) == [] <==> l.pending == [] && Message(c) == [];
  }

  // ---------------------------------------------------------------------------------------
  // The receive loop
  // ---------------------------------------------------------------------------------------

  /** `got` and a NUL behind it. */
  ghost predicate Holds(a: array<byte>, got: seq<byte>)
    reads a
  {
    |got| < a.Length && a[..|got| + 1] == got + [NUL]
  }

  /** `malloc` and `bzero`. */
  method NewBuffer() returns (b: array<byte>)
    ensures fresh(b) && b.Length == BUFSIZE && Holds(b, [])
  {
    b := new byte[BUFSIZE](_ => NUL);
  }

  method Realloc(a: array<byte>, size: nat, ghost got: seq<byte>) returns (b: array<byte>)
    requires a.Length <= size && Holds(a, got)
    ensures fresh(b) && b.Length == size && Holds(b, got)
  {
    b := new byte[size];
    forall i | 0 <= i < a.Length {
      b[i] := a[i];
    }
    assert b[..|got| + 1] == a[..|got| + 1];
  }

  /** What a successful `read` of `data` into `&a[at]` does. */
  method StoreAt(a: array<byte>, at: nat, data: seq<byte>)
    requires at + |data| <= a.Length
    modifies a
    ensures a[..at + |data|] == old(a[..at]) + data
  {
    forall i | 0 <= i < |data| {
      a[at + i] := data[i];
    }
  }

  method Terminate(a: array<byte>, at: nat)
    requires at < a.Length
    modifies a
    ensures a[..at + 1] == old(a[..at]) + [NUL]
  {
    a[at] := NUL;
  }

  /** A `read` of one chunk and the NUL put behind it; `last` is the byte looked at to see whether it ends a line. */
  method StoreChunk(a: array<byte>, at: nat, chunk: seq<byte>, ghost got: seq<byte>) returns (last: byte)
    requires at == |got| && Holds(a, got)
    requires chunk != [] && at + |chunk| < a.Length
    modifies a
    ensures Holds(a, got + chunk)
    ensures last == chunk[|chunk| - 1] && (last == NEWLINE <==> EndsInNewline(chunk))
  {
    assert a[..at] == a[..at + 1][..at] == got;
    StoreAt(a, at, chunk);
    Terminate(a, at + |chunk|);
    last := a[at + |chunk| - 1];
    assert last == a[..at + |chunk| + 1][at + |chunk| - 1];
  }

  /** Reads until a chunk ends in a newline or the peer is done (end of input and a failing read look alike). */
  method Receive(chunks: seq<seq<byte>>) returns (buffer: array<byte>)
    requires forall i :: 0 <= i < |chunks| ==> 1 <= |chunks[i]| < BUFSIZE
    requires !Overflows(chunks)
    ensures fresh(buffer)
    ensures |Received(chunks)| < buffer.Length == BUFSIZE + Carried(chunks)
    ensures buffer[..|Received(chunks)| + 1] == Received(chunks) + [NUL]
    ensures CString(buffer[..]) == CString(Received(chunks))
  {
    assert chunks[0..] == chunks && Receiving(chunks, 0, []);
    buffer := NewBuffer();
    assert FitsInt(BUFSIZE);
    hide *;
    var size := BUFSIZE;
    var xbuf := 0;
    var i := 0;
    ghost var got: seq<byte> := [];
    while i < |chunks|
      invariant i <= |chunks| && fresh(buffer)
      invariant buffer.Length == size == BUFSIZE + xbuf && FitsInt(size)
      invariant |got| == xbuf && Holds(buffer, got)
      invariant Receiving(chunks, i, got)
      decreases |chunks| - i
    {
      var n := |chunks[i]|;
      ReceivedStep(chunks, i, got);
      var last := StoreChunk(buffer, xbuf, chunks[i], got);
      got := got + chunks[i];
      if last == NEWLINE {
        break;
      }
      xbuf := xbuf + n;
      size := size + n;
      buffer := Realloc(buffer, size, got);
      i := i + 1;
    }
    if i == |chunks| {
      ReceivedAll(chunks, got);
    }
    HeldIsString(buffer, got);
  }

  lemma HeldIsString(a: array<byte>, got: seq<byte>)
    requires Holds(a, got)
    ensures |got| < a.Length && a[..|got| + 1] == got + [NUL] && CString(a[..]) == CString(got)
  {
    TerminatedPrefix(a[..], got);
  }

  /** With `got` received so far, chunk `i` is next. */
  ghost predicate Receiving(chunks: seq<seq<byte>>, i: nat, got: seq<byte>)
    requires i <= |chunks|
  {
    Received(chunks) == got + Received(chunks[i..]) && Carried(chunks) == |got| + Carried(chunks[i..])
  }

  /** What one more chunk settles about the whole message. */
  lemma ReceivedStep(chunks: seq<seq<byte>>, i: nat, got: seq<byte>)
    requires i < |chunks| && chunks[i] != []
    requires Receiving(chunks, i, got) && !Overflows(chunks)
    ensures
      if EndsInNewline(chunks[i]) then Received(chunks) == got + chunks[i] && Carried(chunks) == |got|
      else Receiving(chunks, i + 1, got + chunks[i]) && FitsInt(BUFSIZE + |got| + |chunks[i]|)
  {
    assert chunks[i..][0] == chunks[i] && chunks[i..][1..] == chunks[i + 1..];
  }

  lemma ReceivedAll(chunks: seq<seq<byte>>, got: seq<byte>)
    requires Receiving(chunks, |chunks|, got)
    ensures Received(chunks) == got && Carried(chunks) == |got|
  {
    assert chunks[|chunks|..] == [] && got + [] == got;
  }

  // ---------------------------------------------------------------------------------------
  // The seek parser
  // ---------------------------------------------------------------------------------------

  /** `strncpy` into the scratch array. */
  method CopyInto(tmp: array<byte>, src: seq<byte>)
    requires |src| <= tmp.Length
    modifies tmp
    ensures tmp[..] == StrNCpy(old(tmp[..]), src)
  {
    forall i | 0 <= i < |src| {
      tmp[i] := src[i];
    }
  }

  /** The numbers of a seek command, whenever the C code has a defined result. */
  method ParseSeekArgs(args: seq<byte>, tmp: array<byte>) returns (writeCmd: nat, writeCmdOffset: nat)
    requires tmp.Length == TMP_SIZE
    requires ParseSeek(args, tmp[..]).Some?
    modifies tmp
    ensures Some((writeCmd, writeCmdOffset)) == old(ParseSeek(args, tmp[..]))
  {
    var comma := FindFirst(args, [COMMA]).value;
    CopyInto(tmp, args[..comma]);
    writeCmd := ToUint32(Atoi(tmp[..]).value);
    var rest := args[comma + 1..];
    var newline := FindFirst(rest, [NEWLINE]).value;
    CopyInto(tmp, rest[..newline]);
    writeCmdOffset := ToUint32(Atoi(tmp[..]).value);
  }

  // ---------------------------------------------------------------------------------------
  // The echo loop
  // ---------------------------------------------------------------------------------------

  const FSIZE: nat := 4096

  /**
   * Does one of the reads that the echo from position `p` needs fail?  Each command takes one and the
   * end takes another, which copies nothing.
   */
  predicate ReadsFail(cmds: seq<seq<byte>>, p: nat, envs: seq<ReadEnv>) {
    var n := ReadsToEnd(cmds, p);
    exists k :: 0 <= k < |envs| && k <= n && (envs[k].interrupted || (envs[k].copyFails && k < n))
  }

  /** `read(devfd, &buffer[at], FSIZE)`: memory-safe when the buffer has room for what the device returns. */
  method ReadInto(dev: AesdDevice, f: File, buffer: array<byte>, at: nat, env: ReadEnv) returns (rsize: int)
    requires dev.Valid() && f.Valid() && buffer != dev.writeBuffer
    requires at + |ReadPiece(Stored(dev.CurrentLog()), f.fPos, FSIZE)| <= buffer.Length
    modifies f, buffer
    ensures dev.Valid() && f.Valid() && dev.State() == old(dev.State())
    ensures rsize < 0 <==>
      || env.interrupted
      || (env.copyFails && ReadPiece(Stored(old(dev.CurrentLog())), old(f.fPos), FSIZE) != [])
    ensures rsize < 0 ==> f.fPos == old(f.fPos) && buffer[..] == old(buffer[..])
    ensures rsize >= 0 ==>
      var piece := ReadPiece(Stored(old(dev.CurrentLog())), old(f.fPos), FSIZE);
      && rsize == |piece| && f.fPos == old(f.fPos) + |piece|
      && at + rsize <= buffer.Length && buffer[..at + rsize] == old(buffer[..at]) + piece
  {
    hide Owns, CB.AddAll, CB.WellFormed, ReadPiece, Flatten, Committed, CB.Add;
    var piece;
    rsize, piece := dev.Read(f, FSIZE, env);
    if rsize >= 0 {
      StoreAt(buffer, at, piece);
    }
  }

  /** How the one `write` to the client's socket ends: an error, or at most `limit` bytes taken. */
  datatype SocketEnv = SocketFails | SocketTakes(limit: nat)

  /** The bytes of `sent` that leave through the socket. */
  function Delivered(sent: seq<byte>, socket: SocketEnv): seq<byte> {
    match socket
    case SocketFails => []
    case SocketTakes(limit) => sent[..Min(limit, |sent|)]
  }

  /** The echo that began at `p0` stands at `p` after `attempt` of the answers foreseen, and no read has failed. */
  ghost predicate NoneFailed(cmds: seq<seq<byte>>, p0: nat, p: nat, envs: seq<ReadEnv>, attempt: nat) {
    && attempt <= |envs|
    && ReadsToEnd(cmds, p) + attempt <= ReadsToEnd(cmds, p0)
    && (attempt < |envs| ==> ReadsToEnd(cmds, p) + attempt == ReadsToEnd(cmds, p0))
    && (forall k :: 0 <= k < attempt ==> !envs[k].interrupted && !envs[k].copyFails)
  }

  /** What one more read decides. */
  lemma EchoTurn(cmds: seq<seq<byte>>, p0: nat, p: nat, envs: seq<ReadEnv>, attempt: nat)
    requires forall i :: 0 <= i < |cmds| ==> |cmds[i]| < FSIZE
    requires NoneFailed(cmds, p0, p, envs, attempt)
    ensures
      var piece := ReadPiece(cmds, p, FSIZE);
      var next := if attempt < |envs| then attempt + 1 else attempt;
      if attempt < |envs| && (envs[attempt].interrupted || (envs[attempt].copyFails && piece != [])) then
        ReadsFail(cmds, p0, envs)
      else if piece == [] then !ReadsFail(cmds, p0, envs)
      else NoneFailed(cmds, p0, p + |piece|, envs, next)
  {
    hide ReadPiece, ReadsToEnd;
    ReadsToEndStep(cmds, p, FSIZE);
  }

  /** After reads from `p0` on that returned `got`, the position is `p`. */
  ghost predicate EchoStands(l: Log, p0: nat, p: nat, got: seq<byte>) {
    var flat := Contents(l);
    if p0 <= |flat| then p0 <= p <= |flat| && got == flat[p0..p] else p == p0 && got == []
  }

  /** One more read takes the echo further, or has read it all. */
  lemma EchoReads(l: Log, p0: nat, p: nat, got: seq<byte>)
    requires EchoStands(l, p0, p, got)
    ensures
      var flat, piece := Contents(l), ReadPiece(Stored(l), p, FSIZE);
      && |got + piece| <= |flat|
      && EchoStands(l, p0, p + |piece|, got + piece)
      && (piece == [] ==> got == flat[Min(p0, |flat|)..] && (p0 <= |flat| ==> p == |flat|))
  {
    hide ReadPiece, Flatten, Stored;
    ReadPieceIsSlice(Stored(l), p, FSIZE);
    if p0 <= |Contents(l)| {
      SliceExtends(Contents(l), p0, p, p + |ReadPiece(Stored(l), p, FSIZE)|);
    }
  }

  /**
   * Sends the device from the file position on.  The buffer has room only because a device never
   * holds more than 1270 bytes.  `envs` says how the first reads are answered; later reads succeed.
   * `sent` is handed to the socket once; the C code does not look at how much of it was taken.
   */
  method EchoBuffer(dev: AesdDevice, f: File, envs: seq<ReadEnv>, socket: SocketEnv)
    returns (ret: int, sent: seq<byte>, delivered: seq<byte>)
    requires dev.Valid() && f.Valid()
    modifies f
    ensures dev.Valid() && f.Valid() && dev.State() == old(dev.State())
    ensures
      var contents := Contents(old(dev.CurrentLog()));
      && sent == CString(contents[Min(old(f.fPos), |contents|)..])
      && (old(f.fPos) <= |contents| ==> f.fPos == |contents|)
    ensures delivered == Delivered(sent, socket)
    ensures delivered <= sent && |delivered| == if socket.SocketFails? then 0 else Min(socket.limit, |sent|)
    ensures ret == if socket.SocketFails? || ReadsFail(Stored(old(dev.CurrentLog())), old(f.fPos), envs) then 1 else 0
  {
    hide Owns, CB.AddAll, CB.WellFormed, ReadPiece, Contents, Stored, Committed, CB.Add, CString, ReadsToEnd;
    ret := 0;
    var rpos := 0;
    var fileBuffer := new byte[FSIZE];
    ghost var log, cmds := dev.CurrentLog(), Stored(dev.CurrentLog());
    ghost var got: seq<byte> := [];
    ContentsBound(log);
    StoredBound(log);
    assert EchoStands(log, f.fPos, f.fPos, got) && NoneFailed(cmds, f.fPos, f.fPos, envs, 0);
    hide EchoStands, NoneFailed, ReadsFail, Delivered;
    var attempt := 0;
    while true
      invariant dev.Valid() && f.Valid() && dev.State() == old(dev.State())
      invariant attempt <= |envs|
      invariant rpos == |got| <= 1270 && fileBuffer[..rpos] == got && EchoStands(log, old(f.fPos), f.fPos, got)
      invariant ret == 0 || (ret == 1 && ReadsFail(cmds, old(f.fPos), envs))
      invariant ret == 0 ==> NoneFailed(cmds, old(f.fPos), f.fPos, envs, attempt)
      decreases 1270 - rpos, |envs| - attempt
    {
      var env := if attempt < |envs| then envs[attempt] else ReadEnv(false, false);
      EchoReads(log, old(f.fPos), f.fPos, got);
      if ret == 0 {
        EchoTurn(cmds, old(f.fPos), f.fPos, envs, attempt);
      }
      ghost var piece := ReadPiece(cmds, f.fPos, FSIZE);
      var rsize := ReadInto(dev, f, fileBuffer, rpos, env);
      attempt := if attempt < |envs| then attempt + 1 else attempt;
      if rsize < 0 {
        ret := 1;
      } else if rsize == 0 {
        Terminate(fileBuffer, rpos);
        break;
      } else {
        rpos, got := rpos + rsize, got + piece;
      }
      if rpos >= FSIZE {
        assert false;
      }
    }
    TerminatedPrefix(fileBuffer[..], got);
    sent := CString(fileBuffer[..]);
    delivered := Delivered(sent, socket);
    if socket.SocketFails? {
      ret := 1;
    }
  }

  // ---------------------------------------------------------------------------------------
  // The whole session
  // ---------------------------------------------------------------------------------------

  /** What the C code demands of its input: reads of 1 to 255 bytes, and something meaningful to do. */
  ghost predicate Servable(l: Log, c: Client) {
    && (forall i :: 0 <= i < |c.chunks| ==> 1 <= |c.chunks[i]| < BUFSIZE)
    && !Meaningless(l, c)
  }

  /** `handle_client` on a file just opened: its effect and its reply are those of the atomic session. */
  method HandleClient(dev: AesdDevice, f: File, c: Client, envs: seq<ReadEnv>, socket: SocketEnv)
    returns (ret: int, sent: Option<seq<byte>>, delivered: seq<byte>)
    requires dev.Valid() && Shaped(dev.CurrentLog()) && f.Valid() && f.fPos == 0
    requires Servable(dev.CurrentLog(), c)
    modifies f, dev, dev.heap, dev.circularBuffer, dev.circularBuffer.entry, dev.writeBuffer
    ensures dev.Valid() && Shaped(dev.CurrentLog())
    ensures (dev.CurrentLog(), sent) == Session(old(dev.CurrentLog()), c)
    ensures delivered == if sent.Some? then Delivered(sent.value, socket) else []
    ensures sent.Some? ==>
      && delivered <= sent.value
      && |delivered| == if socket.SocketFails? then 0 else Min(socket.limit, |sent.value|)
    ensures
      var start := Submit(old(dev.CurrentLog()), c).1;
      ret ==
      if start.None? || socket.SocketFails? || ReadsFail(Stored(dev.CurrentLog()), start.value, envs) then 1 else 0
  {
    hide Owns, CB.AddAll, CB.WellFormed, Flatten, AtomicWrite, FindFirst, ParseSeek, SeekTarget, Committed, Defined;
    var received := Receive(c.chunks);
    var buffer := CString(received[..]);
    ghost var log := dev.CurrentLog();
    sent := None;
    var seek := FindFirst(buffer, SEEK_COMMAND);
    if seek.Some? {
      var tmpStr := new byte[TMP_SIZE](i requires 0 <= i < TMP_SIZE => c.tmp[i]);
      assert tmpStr[..] == c.tmp;
      var writeCmd, writeCmdOffset := ParseSeekArgs(buffer[seek.value..][|SEEK_COMMAND|..], tmpStr);
      var pos := dev.AdjustFileOffset(f, writeCmd, writeCmdOffset, c.seekInterrupted);
      if pos < 0 {
        return 1, None, [];
      }
    } else {
      AtomicWriteKeepsShape(log, buffer, c.writeEnv);
      var written := dev.Write(buffer, c.writeEnv);
      if written < 0 {
        return 1, None, [];
      }
    }
    var echoed;
    ret, echoed, delivered := EchoBuffer(dev, f, envs, socket);
    sent := Some(echoed);
  }
}
