/**
 * What the character device promises, stated on values.
 *
 * `Log` is the abstract device: every command committed since initialisation and the
 * fragment still being gathered.  `Phys` is the driver's own view: the 128-byte write
 * buffer, its index, and the committed history.
 */
module DeviceLog {
  import opened Bytes
  import CB = CircularBuffer

  const MAX_WRITE_SIZE: nat := 128

  const ENOMEM: int := -12
  const EFAULT: int := -14
  const EINVAL: int := -22
  const ERESTARTSYS: int := -512

  datatype Log = Log(committed: seq<seq<byte>>, pending: seq<byte>)

  const EMPTY_LOG := Log([], [])

  /** The commands the ring still holds, oldest first. */
  function Stored(l: Log): seq<seq<byte>> {
    Latest(l.committed, CB.SLOTS)
  }

  function Evicted(l: Log): seq<seq<byte>> {
    l.committed[..|l.committed| - |Stored(l)|]
  }

  /** The device as a reader sees it. */
  function Contents(l: Log): seq<byte> {
    Flatten(Stored(l))
  }

  // ---------------------------------------------------------------------------------------
  // Writing
  // ---------------------------------------------------------------------------------------

  /**
   * How the kernel answers one write: whether the lock wait is interrupted, the bytes a failing
   * `copy_from_user` leaves behind, and whether `kmalloc` fails.
   */
  datatype WriteEnv = WriteEnv(interrupted: bool, copyFault: Option<seq<byte>>, allocFails: bool)

  /** A write as one indivisible action on the log. */
  function AtomicWrite(l: Log, data: seq<byte>, env: WriteEnv): (res: (Log, int))
    ensures res.1 < 0 || res.1 == |data|
  {
    var gathered := l.pending + data;
    if env.interrupted then (l, ERESTARTSYS)
    else if |gathered| >= MAX_WRITE_SIZE then (l, EINVAL)
    else if env.copyFault.Some? then (l, EFAULT)
    else if !EndsInNewline(gathered) then (Log(l.committed, gathered), |data|)
    else if env.allocFails then (l, ENOMEM)
    else (Log(l.committed + [gathered], []), |data|)
  }

  datatype WriteOp = WriteOp(data: seq<byte>, env: WriteEnv)

  function RunWrites(l: Log, ops: seq<WriteOp>): Log
    decreases |ops|
  {
    if ops == [] then l else RunWrites(AtomicWrite(l, ops[0].data, ops[0].env).0, ops[1..])
  }

  /** The bytes that the writes of a run reported as consumed. */
  function Accepted(l: Log, ops: seq<WriteOp>): seq<byte>
    decreases |ops|
  {
    if ops == [] then []
    else
      var (l', r) := AtomicWrite(l, ops[0].data, ops[0].env);
      (if r < 0 then [] else ops[0].data[..r]) + Accepted(l', ops[1..])
  }

  /** The return values of a run of writes. */
  function Results(l: Log, ops: seq<WriteOp>): seq<int>
    decreases |ops|
  {
    if ops == [] then []
    else
      var (l', r) := AtomicWrite(l, ops[0].data, ops[0].env);
      [r] + Results(l', ops[1..])
  }

  /** No byte is lost, duplicated or reordered: a run only appends what it accepted. */
  lemma {:induction false} RunConserves(l: Log, ops: seq<WriteOp>)
    ensures
      var l' := RunWrites(l, ops);
      Flatten(l'.committed) + l'.pending == Flatten(l.committed) + l.pending + Accepted(l, ops)
    ensures l.committed <= RunWrites(l, ops).committed
    decreases |ops|
  {
    if ops != [] {
      var (m, r) := AtomicWrite(l, ops[0].data, ops[0].env);
      RunConserves(m, ops[1..]);
      FlattenSnoc(l.committed, l.pending + ops[0].data);
    }
  }

  lemma {:induction false} RunWritesConcat(l: Log, a: seq<WriteOp>, b: seq<WriteOp>)
    ensures RunWrites(l, a + b) == RunWrites(RunWrites(l, a), b)
    decreases |a|
  {
    if a == [] {
      assert a + b == b;
    } else {
      assert (a + b)[1..] == a[1..] + b;
      RunWritesConcat(AtomicWrite(l, a[0].data, a[0].env).0, a[1..], b);
    }
  }

  /** From initialisation: evicted commands, stored commands and the fragment are all that was accepted. */
  lemma Conservation(ops: seq<WriteOp>)
    ensures
      var l := RunWrites(EMPTY_LOG, ops);
      Accepted(EMPTY_LOG, ops) == Flatten(Evicted(l)) + Contents(l) + l.pending
  {
    hide RunWrites, Accepted, Flatten;
    RunConserves(EMPTY_LOG, ops);
    assert Flatten(EMPTY_LOG.committed) == [] by {
      FlattenBound([], 0);
    }
    var l := RunWrites(EMPTY_LOG, ops);
    assert l.committed == Evicted(l) + Stored(l);
    FlattenConcat(Evicted(l), Stored(l));
  }

  ghost predicate ShapedCommand(c: seq<byte>) {
    |c| < MAX_WRITE_SIZE && EndsInNewline(c)
  }

  ghost predicate Shaped(l: Log) {
    && (forall i :: 0 <= i < |l.committed| ==> ShapedCommand(l.committed[i]))
    && |l.pending| < MAX_WRITE_SIZE
    && !EndsInNewline(l.pending)
  }

  lemma AtomicWriteKeepsShape(l: Log, data: seq<byte>, env: WriteEnv)
    requires Shaped(l)
    ensures Shaped(AtomicWrite(l, data, env).0)
  {
  }

  lemma {:induction false} RunsAreShaped(l: Log, ops: seq<WriteOp>)
    requires Shaped(l)
    ensures Shaped(RunWrites(l, ops))
    decreases |ops|
  {
    if ops != [] {
      AtomicWriteKeepsShape(l, ops[0].data, ops[0].env);
      RunsAreShaped(AtomicWrite(l, ops[0].data, ops[0].env).0, ops[1..]);
    }
  }

  const CALM := WriteEnv(false, None, false)

  /** One undisturbed write per command, or per piece of one. */
  function CommandWrites(cmds: seq<seq<byte>>): seq<WriteOp> {
    if cmds == [] then [] else CommandWrites(cmds[..|cmds| - 1]) + [WriteOp(cmds[|cmds| - 1], CALM)]
  }

  /** One undisturbed write per command, and one for the fragment. */
  function WritesBuilding(l: Log): seq<WriteOp> {
    CommandWrites(l.committed) + if l.pending == [] then [] else [WriteOp(l.pending, CALM)]
  }

  lemma RunOneWrite(l: Log, op: WriteOp)
    ensures RunWrites(l, [op]) == AtomicWrite(l, op.data, op.env).0
  {
    assert [op][1..] == [];
  }

  lemma {:induction false} CommandWritesBuild(cmds: seq<seq<byte>>)
    requires forall i :: 0 <= i < |cmds| ==> ShapedCommand(cmds[i])
    ensures RunWrites(EMPTY_LOG, CommandWrites(cmds)) == Log(cmds, [])
  {
    if cmds != [] {
      var before, last := cmds[..|cmds| - 1], cmds[|cmds| - 1];
      CommandWritesBuild(before);
      RunWritesConcat(EMPTY_LOG, CommandWrites(before), [WriteOp(last, CALM)]);
      RunOneWrite(Log(before, []), WriteOp(last, CALM));
      assert [] + last == last && before + [last] == cmds;
    }
  }

  /** The reachable logs are exactly the shaped ones: wrapped, full and stuck devices all occur. */
  lemma ReachableIffShaped(l: Log)
    ensures Shaped(l) <==> exists ops :: RunWrites(EMPTY_LOG, ops) == l
  {
    if Shaped(l) {
      CommandWritesBuild(l.committed);
      var ops := WritesBuilding(l);
      if l.pending == [] {
        assert ops == CommandWrites(l.committed);
      } else {
        RunWritesConcat(EMPTY_LOG, CommandWrites(l.committed), [WriteOp(l.pending, CALM)]);
        RunOneWrite(Log(l.committed, []), WriteOp(l.pending, CALM));
        assert [] + l.pending == l.pending;
      }
      assert RunWrites(EMPTY_LOG, ops) == l;
    }
    forall ops | RunWrites(EMPTY_LOG, ops) == l ensures Shaped(l) {
      RunsAreShaped(EMPTY_LOG, ops);
    }
  }

  /** Why a write is refused, and with which error; any other write consumes all its bytes. */
  lemma WriteAnswers(l: Log, data: seq<byte>, env: WriteEnv)
    ensures
      var (l', r) := AtomicWrite(l, data, env);
      var length := |l.pending| + |data|;
      && (r == -512 <==> env.interrupted)
      && (r == -22 <==> !env.interrupted && length >= 128)
      && (r == -14 <==> !env.interrupted && length < 128 && env.copyFault.Some?)
      && (r == -12 <==> !env.interrupted && length < 128 && env.copyFault.None?
                        && EndsInNewline(l.pending + data) && env.allocFails)
      && (r < 0 ==> l' == l && r in {-512, -22, -14, -12})
      && (r >= 0 ==> r == |data|)
  {
  }

  lemma {:induction false} FragmentsGather(l: Log, pieces: seq<seq<byte>>)
    requires !EndsInNewline(l.pending)
    requires forall i :: 0 <= i < |pieces| ==> !EndsInNewline(pieces[i])
    requires |l.pending + Flatten(pieces)| < 128
    ensures RunWrites(l, CommandWrites(pieces)) == Log(l.committed, l.pending + Flatten(pieces))
    ensures !EndsInNewline(l.pending + Flatten(pieces))
  {
    if pieces == [] {
      assert l.pending + Flatten(pieces) == l.pending;
    } else {
      var before, last := pieces[..|pieces| - 1], pieces[|pieces| - 1];
      FlattenSnoc(before, last);
      assert pieces == before + [last];
      FragmentsGather(l, before);
      RunWritesConcat(l, CommandWrites(before), [WriteOp(last, CALM)]);
      RunOneWrite(Log(l.committed, l.pending + Flatten(before)), WriteOp(last, CALM));
      assert (l.pending + Flatten(before)) + last == l.pending + Flatten(pieces);
    }
  }

  /**
   * How a line is cut into writes makes no difference: as long as only the last piece ends in a newline
   * and they fit the buffer together, one command comes of them.
   */
  lemma PiecesMakeOneCommand(l: Log, before: seq<seq<byte>>, last: seq<byte>)
    requires !EndsInNewline(l.pending) && EndsInNewline(last)
    requires forall i :: 0 <= i < |before| ==> !EndsInNewline(before[i])
    requires |l.pending + Flatten(before + [last])| < 128
    ensures
      RunWrites(l, CommandWrites(before + [last])) == Log(l.committed + [l.pending + Flatten(before + [last])], [])
  {
    FlattenSnoc(before, last);
    assert (before + [last])[..|before|] == before;
    assert CommandWrites(before + [last]) == CommandWrites(before) + [WriteOp(last, CALM)];
    FragmentsGather(l, before);
    hide AtomicWrite, Flatten, RunWrites, CommandWrites, EndsInNewline;
    RunWritesConcat(l, CommandWrites(before), [WriteOp(last, CALM)]);
    var gathered := Log(l.committed, l.pending + Flatten(before));
    RunOneWrite(gathered, WriteOp(last, CALM));
    assert gathered.pending + last == l.pending + Flatten(before + [last]);
    LastPieceCommits(gathered, last);
  }

  lemma LastPieceCommits(l: Log, last: seq<byte>)
    requires EndsInNewline(last) && |l.pending + last| < 128
    ensures AtomicWrite(l, last, CALM).0 == Log(l.committed + [l.pending + last], [])
  {
  }

  /** The results of a run are the answers of its writes, each on the device the earlier ones left. */
  lemma {:induction false} ResultsAreAnswers(l: Log, ops: seq<WriteOp>, i: nat)
    requires i < |ops|
    ensures |Results(l, ops)| == |ops|
    ensures Results(l, ops)[i] == AtomicWrite(RunWrites(l, ops[..i]), ops[i].data, ops[i].env).1
    decreases |ops|
  {
    var l' := AtomicWrite(l, ops[0].data, ops[0].env).0;
    if i > 0 {
      ResultsAreAnswers(l', ops[1..], i - 1);
      assert ops[..i][1..] == ops[1..][..i - 1];
    } else if |ops| > 1 {
      ResultsAreAnswers(l', ops[1..], 0);
    }
  }

  /** A line of 126 letters `b`, as long as a command can be. */
  function LongLine(b: byte): seq<byte> {
    seq(126, i => b) + Ascii("\n")
  }

  /** Eleven of the longest lines: the device holds the last ten of them, 1270 bytes, and has evicted the first. */
  lemma LongLinesFill()
    ensures
      var lines := seq(11, i requires 0 <= i < 11 => LongLine(65 + i));
      var l := RunWrites(EMPTY_LOG, CommandWrites(lines));
      l == Log(lines, []) && Evicted(l) == [LongLine(65)] && Stored(l) == lines[1..] && |Contents(l)| == 1270
  {
    var lines := seq(11, i requires 0 <= i < 11 => LongLine(65 + i));
    CommandWritesBuild(lines);
    FlattenUniform(lines[1..], 127);
  }

  lemma {:induction false} FlattenUniform(pieces: seq<seq<byte>>, n: nat)
    requires forall i :: 0 <= i < |pieces| ==> |pieces[i]| == n
    ensures |Flatten(pieces)| == |pieces| * n
  {
    if pieces != [] {
      FlattenUniform(pieces[1..], n);
    }
  }

  /** A device is stuck for good exactly when 127 bytes without a newline are pending. */
  lemma StuckIffPendingFull(l: Log)
    requires Shaped(l)
    ensures
      (forall ops: seq<WriteOp> :: RunWrites(l, ops) == l)
      <==> |l.pending| == MAX_WRITE_SIZE - 1
  {
    if |l.pending| == MAX_WRITE_SIZE - 1 {
      forall ops: seq<WriteOp> ensures RunWrites(l, ops) == l {
        FullPendingAbsorbs(l, ops);
      }
    } else {
      var op := WriteOp([NEWLINE], WriteEnv(false, None, false));
      assert [op][1..] == [];
      assert |RunWrites(l, [op]).committed| == |l.committed| + 1;
    }
  }

  lemma {:induction false} FullPendingAbsorbs(l: Log, ops: seq<WriteOp>)
    requires Shaped(l) && |l.pending| == MAX_WRITE_SIZE - 1
    ensures RunWrites(l, ops) == l
    decreases |ops|
  {
    if ops != [] {
      if ops[0].data == [] {
        assert l.pending + ops[0].data == l.pending;
      }
      FullPendingAbsorbs(l, ops[1..]);
    }
  }

  /** Ten commands of at most 127 bytes: never more than 1270 bytes to read. */
  lemma ContentsBound(l: Log)
    requires forall i :: 0 <= i < |l.committed| ==> |l.committed[i]| < MAX_WRITE_SIZE
    ensures |Contents(l)| <= 1270
  {
    var s := Stored(l);
    forall i | 0 <= i < |s| ensures |s[i]| <= 127 {
      assert s[i] == l.committed[|l.committed| - |s| + i];
    }
    FlattenBound(s, 127);
  }

  // ---------------------------------------------------------------------------------------
  // The write as the driver performs it: a count sampled first, the body under the lock later
  // ---------------------------------------------------------------------------------------

  datatype Phys = Phys(buf: seq<byte>, idx: nat, committed: seq<seq<byte>>)

  ghost predicate PhysValid(p: Phys) {
    |p.buf| == MAX_WRITE_SIZE && p.idx <= MAX_WRITE_SIZE
  }

  /** Bytes of the write buffer past the index carry no meaning. */
  function Abs(p: Phys): Log
    requires p.idx <= |p.buf|
  {
    Log(p.committed, p.buf[..p.idx])
  }

  /** `unsigned int write_count = dev->write_buffer_index + count`, taken before the lock. */
  function SampleWriteCount(p: Phys, count: nat): nat {
    (p.idx + count) % 0x1_0000_0000
  }

  function Splice(buf: seq<byte>, at: nat, data: seq<byte>): (r: seq<byte>)
    requires at + |data| <= |buf|
    ensures |r| == |buf|
  {
    buf[..at] + data + buf[at + |data|..]
  }

  /**
   * The body of `aesd_write` after the sample, for any sampled count, fresh or stale.
   * `None` when it would touch memory outside the write buffer.
   */
  function WriteBody(p: Phys, writeCount: nat, data: seq<byte>, env: WriteEnv): Option<(Phys, int)>
    requires |p.buf| == MAX_WRITE_SIZE
  {
    if env.interrupted then Some((p, ERESTARTSYS))
    else if |data| >= MAX_WRITE_SIZE || writeCount >= MAX_WRITE_SIZE then Some((p, EINVAL))
    else if p.idx + |data| > MAX_WRITE_SIZE then None
    else if env.copyFault.Some? then
      var partial := env.copyFault.value[..Min(|env.copyFault.value|, |data|)];
      Some((p.(buf := Splice(p.buf, p.idx, partial)), EFAULT))
    else if writeCount == 0 then None
    else
      var buf := Splice(p.buf, p.idx, data);
      if buf[writeCount - 1] != NEWLINE then
        Some((p.(buf := buf, idx := p.idx + |data|), |data|))
      else
        var terminated := buf[writeCount := NUL];
        if env.allocFails then Some((p.(buf := terminated), ENOMEM))
        else Some((Phys(terminated, 0, p.committed + [terminated[..writeCount]]), |data|))
  }

  /** Does the body, run with this sample, act as the atomic write would? */
  ghost predicate Refines(p: Phys, writeCount: nat, data: seq<byte>, env: WriteEnv)
    requires PhysValid(p)
  {
    && WriteBody(p, writeCount, data, env).Some?
    && var (p', r) := WriteBody(p, writeCount, data, env).value;
    && PhysValid(p')
    && (Abs(p'), r) == AtomicWrite(Abs(p), data, env)
  }

  lemma SampleIsSum(p: Phys, count: nat)
    requires p.idx + count < 0x1_0000_0000
    ensures SampleWriteCount(p, count) == p.idx + count
  {
  }

  /** How the body, run with this sample, finds the byte before the sampled count, and the write its last byte. */
  predicate BothPlain(p: Phys, writeCount: nat, data: seq<byte>)
    requires PhysValid(p) && p.idx + |data| <= MAX_WRITE_SIZE && 1 <= writeCount <= MAX_WRITE_SIZE
  {
    Splice(p.buf, p.idx, data)[writeCount - 1] != NEWLINE && !EndsInNewline(Abs(p).pending + data)
  }

  predicate BothNewline(p: Phys, writeCount: nat, data: seq<byte>)
    requires PhysValid(p) && p.idx + |data| <= MAX_WRITE_SIZE && 1 <= writeCount <= MAX_WRITE_SIZE
  {
    Splice(p.buf, p.idx, data)[writeCount - 1] == NEWLINE && EndsInNewline(Abs(p).pending + data)
  }

  /**
   * When one write gets away with a sample taken at index `idx0`: it never looks at the sample, or it is
   * refused with either count, or with both counts in range it fails on the copy, or finds a plain
   * byte both at the sampled place and at its own end, or finds newlines at both and either the
   * sample is fresh or the allocation fails before the NUL put behind the sample changed a pending byte.
   */
  predicate SampleServes(p: Phys, idx0: nat, data: seq<byte>, env: WriteEnv)
    requires PhysValid(p) && idx0 <= MAX_WRITE_SIZE
  {
    var stale, count := idx0 + |data|, p.idx + |data|;
    || env.interrupted
    || |data| >= MAX_WRITE_SIZE
    || (stale >= MAX_WRITE_SIZE && count >= MAX_WRITE_SIZE)
    || (&& stale < MAX_WRITE_SIZE && count < MAX_WRITE_SIZE
        && (|| env.copyFault.Some?
            || (stale >= 1 && BothPlain(p, stale, data))
            || (&& stale >= 1 && BothNewline(p, stale, data)
                && if env.allocFails then stale >= p.idx || p.buf[stale] == NUL else idx0 == p.idx)))
  }

  lemma NewlineServesIff(p: Phys, idx0: nat, data: seq<byte>, env: WriteEnv)
    requires PhysValid(p) && idx0 <= MAX_WRITE_SIZE
    requires !env.interrupted && env.copyFault.None?
    requires 1 <= idx0 + |data| < MAX_WRITE_SIZE && p.idx + |data| < MAX_WRITE_SIZE
    requires BothNewline(p, idx0 + |data|, data)
    ensures Refines(p, idx0 + |data|, data, env) <==>
      if env.allocFails then idx0 + |data| >= p.idx || p.buf[idx0 + |data|] == NUL else idx0 == p.idx
  {
    var stale, buf := idx0 + |data|, Splice(p.buf, p.idx, data);
    var terminated := buf[stale := NUL];
    assert buf[..p.idx] == p.buf[..p.idx];
    assert buf[..p.idx + |data|] == Abs(p).pending + data;
    if env.allocFails {
      if stale < p.idx {
        assert terminated[..p.idx][stale] == NUL && p.buf[..p.idx][stale] == p.buf[stale];
        if p.buf[stale] == NUL {
          assert terminated == buf;
        }
      } else {
        assert terminated[..p.idx] == p.buf[..p.idx];
      }
    } else if idx0 == p.idx {
      assert terminated[..stale] == Abs(p).pending + data;
    } else {
      assert |terminated[..stale]| != |Abs(p).pending + data|;
      var cs := p.committed;
      assert (cs + [terminated[..stale]])[|cs|] != (cs + [Abs(p).pending + data])[|cs|];
    }
  }

  lemma SampleInRangeServesIff(p: Phys, idx0: nat, data: seq<byte>, env: WriteEnv)
    requires PhysValid(p) && !env.interrupted
    requires idx0 + |data| < MAX_WRITE_SIZE && p.idx + |data| < MAX_WRITE_SIZE
    ensures Refines(p, idx0 + |data|, data, env) <==> SampleServes(p, idx0, data, env)
  {
    var stale := idx0 + |data|;
    if env.copyFault.Some? {
      var partial := env.copyFault.value[..Min(|env.copyFault.value|, |data|)];
      assert Splice(p.buf, p.idx, partial)[..p.idx] == p.buf[..p.idx];
    } else if stale >= 1 {
      if BothNewline(p, stale, data) {
        NewlineServesIff(p, idx0, data, env);
      } else {
        PlainServesIff(p, stale, data, env);
      }
    }
  }

  lemma PlainServesIff(p: Phys, stale: nat, data: seq<byte>, env: WriteEnv)
    requires PhysValid(p) && !env.interrupted && env.copyFault.None?
    requires |data| <= stale && 1 <= stale < MAX_WRITE_SIZE && p.idx + |data| < MAX_WRITE_SIZE
    requires !BothNewline(p, stale, data)
    ensures Refines(p, stale, data, env) <==> BothPlain(p, stale, data)
  {
    assert Splice(p.buf, p.idx, data)[..p.idx + |data|] == Abs(p).pending + data;
  }

  /** For any one write the driver meets its atomic specification with a stale sample exactly then. */
  lemma SampleServesIff(p: Phys, idx0: nat, data: seq<byte>, env: WriteEnv)
    requires PhysValid(p) && idx0 <= MAX_WRITE_SIZE
    ensures Refines(p, SampleWriteCount(p.(idx := idx0), |data|), data, env) <==> SampleServes(p, idx0, data, env)
  {
    hide SampleWriteCount, BothPlain, BothNewline;
    if !env.interrupted && |data| < MAX_WRITE_SIZE {
      SampleIsSum(p.(idx := idx0), |data|);
      if idx0 + |data| < MAX_WRITE_SIZE && p.idx + |data| < MAX_WRITE_SIZE {
        SampleInRangeServesIff(p, idx0, data, env);
      }
    }
  }

  /** With a fresh sample the split write is the atomic write, wherever it stays in bounds. */
  lemma FreshSampleRefines(p: Phys, data: seq<byte>, env: WriteEnv)
    requires PhysValid(p)
    ensures p.idx + |data| >= 1 ==> WriteBody(p, SampleWriteCount(p, |data|), data, env).Some?
    ensures WriteBody(p, SampleWriteCount(p, |data|), data, env).Some? ==>
      Refines(p, SampleWriteCount(p, |data|), data, env)
  {
    hide BothPlain, BothNewline, SampleWriteCount, Refines;
    SampleServesIff(p, p.idx, data, env);
    assert p.(idx := p.idx) == p;
    if |data| < MAX_WRITE_SIZE {
      SampleIsSum(p, |data|);
      if 1 <= p.idx + |data| < MAX_WRITE_SIZE {
        FreshIsPlainOrNewline(p, data);
      }
    }
    RefinesInBounds(p, SampleWriteCount(p, |data|), data, env);
  }

  /** A fresh sample points at the last byte gathered. */
  lemma FreshIsPlainOrNewline(p: Phys, data: seq<byte>)
    requires PhysValid(p) && 1 <= p.idx + |data| < MAX_WRITE_SIZE
    ensures BothPlain(p, p.idx + |data|, data) || BothNewline(p, p.idx + |data|, data)
  {
    var buf, gathered := Splice(p.buf, p.idx, data), Abs(p).pending + data;
    assert buf[..p.idx + |data|] == gathered;
    assert buf[p.idx + |data| - 1] == buf[..p.idx + |data|][p.idx + |data| - 1];
  }

  lemma RefinesInBounds(p: Phys, writeCount: nat, data: seq<byte>, env: WriteEnv)
    requires PhysValid(p)
    ensures Refines(p, writeCount, data, env) ==> WriteBody(p, writeCount, data, env).Some?
  {
    hide WriteBody, AtomicWrite;
  }

  /** With a fresh sample, the body stays inside the buffer for every outcome exactly when it gathers a byte. */
  lemma FreshSampleInBounds(p: Phys, data: seq<byte>)
    requires PhysValid(p)
    ensures
      (forall env :: WriteBody(p, SampleWriteCount(p, |data|), data, env).Some?)
      <==> p.idx + |data| >= 1
  {
    if p.idx + |data| >= 1 {
      forall env ensures WriteBody(p, SampleWriteCount(p, |data|), data, env).Some? {
        FreshSampleRefines(p, data, env);
      }
    } else {
      var env := WriteEnv(false, None, false);
      assert WriteBody(p, SampleWriteCount(p, |data|), data, env).None?;
    }
  }

  /** A write has a defined outcome unless it is carried through with nothing gathered at all. */
  predicate Defined(l: Log, data: seq<byte>, env: WriteEnv) {
    l.pending + data != [] || env.interrupted || env.copyFault.Some?
  }

  /** With a fresh sample, the body leaves the buffer exactly on a write that is not defined. */
  lemma FreshSampleDefinedIff(p: Phys, data: seq<byte>, env: WriteEnv)
    requires PhysValid(p)
    ensures WriteBody(p, SampleWriteCount(p, |data|), data, env).Some? <==> Defined(Abs(p), data, env)
  {
    assert |Abs(p).pending + data| == p.idx + |data|;
  }

  /**
   * A sample taken at index `idx0` serves every write exactly when the index has not moved since:
   * without a lock around the whole call the driver does not meet its atomic specification.
   */
  lemma SampleServesEveryWriteIffFresh(p: Phys, idx0: nat)
    requires PhysValid(p) && p.idx < MAX_WRITE_SIZE && idx0 < MAX_WRITE_SIZE
    ensures
      (forall data: seq<byte>, env ::
         |data| >= 1 ==> Refines(p, SampleWriteCount(p.(idx := idx0), |data|), data, env))
      <==> idx0 == p.idx
  {
    if idx0 == p.idx {
      forall data: seq<byte>, env | |data| >= 1
        ensures Refines(p, SampleWriteCount(p.(idx := idx0), |data|), data, env)
      {
        FreshSampleRefines(p, data, env);
      }
    } else {
      var larger := if idx0 < p.idx then p.idx else idx0;
      var data: seq<byte> := seq(MAX_WRITE_SIZE - larger, i => NUL);
      var env := WriteEnv(false, None, false);
      assert SampleWriteCount(p.(idx := idx0), |data|) == idx0 + |data|;
      assert !Refines(p, SampleWriteCount(p.(idx := idx0), |data|), data, env);
    }
  }

  /** What the body answers and does with any sample at all, as long as it stays in the buffer. */
  lemma BodyAnswers(p: Phys, writeCount: nat, data: seq<byte>, env: WriteEnv)
    requires PhysValid(p) && WriteBody(p, writeCount, data, env).Some?
    ensures
      var (p', r) := WriteBody(p, writeCount, data, env).value;
      && (r == -512 <==> env.interrupted)
      && (r == -22 <==> !env.interrupted && (|data| >= 128 || writeCount >= 128))
      && (r == -14 <==> !env.interrupted && |data| < 128 && writeCount < 128 && env.copyFault.Some?)
      && (r == -12 <==> !env.interrupted && |data| < 128 && writeCount < 128 && env.copyFault.None?
                        && p.idx + |data| <= 128 && EndsInNewline(Splice(p.buf, p.idx, data)[..writeCount])
                        && env.allocFails)
      && (r < 0 ==> r in {-512, -22, -14, -12} && p'.idx == p.idx && p'.committed == p.committed)
      && (r >= 0 ==>
            && r == |data| && 1 <= writeCount < 128 && p.idx + |data| <= 128
            && var line := Splice(p.buf, p.idx, data)[..writeCount];
            if EndsInNewline(line) then p'.idx == 0 && p'.committed == p.committed + [line]
            else p'.idx == p.idx + |data| && p'.committed == p.committed
                 && p'.buf[..p'.idx] == p.buf[..p.idx] + data)
  {
    if p.idx + |data| <= 128 {
      assert Splice(p.buf, p.idx, data)[..p.idx + |data|] == p.buf[..p.idx] + data;
      if 1 <= writeCount < 128 {
        var buf := Splice(p.buf, p.idx, data);
        assert buf[writeCount := NUL][..writeCount] == buf[..writeCount];
        assert buf[..writeCount][writeCount - 1] == buf[writeCount - 1];
      }
    }
  }

  /** Every failing write leaves the abstract device as it was, whatever it scribbled past the index. */
  lemma FailedWriteKeepsLog(p: Phys, data: seq<byte>, env: WriteEnv)
    requires PhysValid(p)
    requires WriteBody(p, SampleWriteCount(p, |data|), data, env).Some?
    ensures
      var (p', r) := WriteBody(p, SampleWriteCount(p, |data|), data, env).value;
      r < 0 ==>
        && p'.idx == p.idx && Abs(p') == Abs(p)
        && (p'.buf != p.buf ==> r == EFAULT || r == ENOMEM)
  {
  }

  // ---------------------------------------------------------------------------------------
  // Reading
  // ---------------------------------------------------------------------------------------

  /** One read at position `p`: at most `count` bytes, and never past the end of the command holding `p`. */
  function ReadPiece(cmds: seq<seq<byte>>, p: nat, count: nat): seq<byte> {
    if cmds == [] then []
    else if p < |cmds[0]| then cmds[0][p..Min(p + count, |cmds[0]|)]
    else ReadPiece(cmds[1..], p - |cmds[0]|, count)
  }

  /** Reading at byte `offset` of command `k`. */
  lemma {:induction false} ReadPieceAt(cmds: seq<seq<byte>>, k: nat, offset: nat, count: nat)
    requires k < |cmds| && offset < |cmds[k]|
    ensures ReadPiece(cmds, |Flatten(cmds[..k])| + offset, count)
            == cmds[k][offset..Min(offset + count, |cmds[k]|)]
  {
    if k > 0 {
      ReadPieceAt(cmds[1..], k - 1, offset, count);
      assert cmds[..k][1..] == cmds[1..][..k - 1];
    }
  }

  /** A read returns consecutive bytes, and nothing exactly when it asks for nothing or is past the end. */
  lemma {:induction false} ReadPieceIsSlice(cmds: seq<seq<byte>>, p: nat, count: nat)
    ensures
      var flat, piece := Flatten(cmds), ReadPiece(cmds, p, count);
      && |piece| <= count
      && (piece == [] <==> count == 0 || p >= |flat|)
      && (p <= |flat| ==> p + |piece| <= |flat| && piece == flat[p..p + |piece|])
  {
    if cmds != [] && p >= |cmds[0]| {
      ReadPieceIsSlice(cmds[1..], p - |cmds[0]|, count);
    }
  }

  /** How many successful reads return something before one returns nothing, given room for a command each. */
  function ReadsToEnd(cmds: seq<seq<byte>>, p: nat): nat {
    if cmds == [] then 0
    else if p < |cmds[0]| then 1 + ReadsToEnd(cmds[1..], 0)
    else ReadsToEnd(cmds[1..], p - |cmds[0]|)
  }

  lemma {:induction false} ReadsToEndStep(cmds: seq<seq<byte>>, p: nat, count: nat)
    requires forall i :: 0 <= i < |cmds| ==> |cmds[i]| < count
    ensures
      var piece := ReadPiece(cmds, p, count);
      && (piece == [] <==> ReadsToEnd(cmds, p) == 0)
      && (piece != [] ==> ReadsToEnd(cmds, p) == 1 + ReadsToEnd(cmds, p + |piece|))
  {
    if cmds != [] && p >= |cmds[0]| {
      ReadsToEndStep(cmds[1..], p - |cmds[0]|, count);
    }
  }

  /** A stored command is shorter than the write buffer. */
  lemma StoredBound(l: Log)
    requires forall i :: 0 <= i < |l.committed| ==> |l.committed[i]| < MAX_WRITE_SIZE
    ensures forall i :: 0 <= i < |Stored(l)| ==> |Stored(l)[i]| < MAX_WRITE_SIZE
  {
    var s := Stored(l);
    forall i | 0 <= i < |s| ensures |s[i]| < MAX_WRITE_SIZE {
      assert s[i] == l.committed[|l.committed| - |s| + i];
    }
  }

  /** The bytes a sequence of successful reads returns, and the position it ends at. */
  function ReadMany(cmds: seq<seq<byte>>, p: nat, counts: seq<nat>): (seq<byte>, nat)
    decreases |counts|
  {
    if counts == [] then ([], p)
    else
      var piece := ReadPiece(cmds, p, counts[0]);
      var (rest, q) := ReadMany(cmds, p + |piece|, counts[1..]);
      (piece + rest, q)
  }

  /**
   * Reads reassemble the device: whatever positive counts are asked for, the pieces are the
   * contents in order, and each read before the end makes progress.
   */
  lemma {:induction false} ReadsReassemble(cmds: seq<seq<byte>>, p: nat, counts: seq<nat>)
    requires p <= |Flatten(cmds)|
    requires forall i :: 0 <= i < |counts| ==> counts[i] > 0
    ensures
      var flat := Flatten(cmds);
      var (data, q) := ReadMany(cmds, p, counts);
      && p <= q <= |flat|
      && data == flat[p..q]
      && (|counts| >= |flat| - p ==> q == |flat| && data == flat[p..])
    decreases |counts|
  {
    hide ReadPiece, Flatten;
    if counts != [] {
      ReadPieceIsSlice(cmds, p, counts[0]);
      var piece := ReadPiece(cmds, p, counts[0]);
      ReadsReassemble(cmds, p + |piece|, counts[1..]);
    }
  }

  /** Past the end nothing is read and the position stays. */
  lemma {:induction false} ReadsPastEnd(cmds: seq<seq<byte>>, p: nat, counts: seq<nat>)
    requires p >= |Flatten(cmds)|
    ensures ReadMany(cmds, p, counts) == ([], p)
    decreases |counts|
  {
    if counts != [] {
      ReadPieceIsSlice(cmds, p, counts[0]);
      ReadsPastEnd(cmds, p, counts[1..]);
      var none: seq<byte> := [];
      assert ReadPiece(cmds, p, counts[0]) == none && none + none == none;
    }
  }

  // ---------------------------------------------------------------------------------------
  // Seeking
  // ---------------------------------------------------------------------------------------

  /** The age rank of physical slot `slot`, 0 for the oldest. */
  function RankOfSlot(l: Log, slot: nat): nat
    requires slot < CB.SLOTS
  {
    CB.Distance(OldestSlot(l), slot)
  }

  function OldestSlot(l: Log): (s: nat)
    ensures s < CB.SLOTS
  {
    CB.OutOffsAfter(|l.committed|)
  }

  /** Where the seek command goes, or `None` when it is refused: `slot` indexes the array, not the age. */
  function SeekTarget(l: Log, slot: nat, offset: nat): Option<nat> {
    if slot >= CB.SLOTS then None
    else
      var rank := RankOfSlot(l, slot);
      if rank < |Stored(l)| && offset < |Stored(l)[rank]|
      then Some(|Flatten(Stored(l)[..rank])| + offset)
      else None
  }

  lemma StoredFrom(l: Log, i: nat)
    requires |Evicted(l)| <= i < |l.committed|
    ensures
      var e, s := |Evicted(l)|, Stored(l);
      && i - e < |s| && s[i - e] == l.committed[i]
      && s[..i - e] == l.committed[e..i] && s[i - e + 1..] == l.committed[i + 1..]
  {
    assert Stored(l) == l.committed[|Evicted(l)|..];
  }

  lemma RankOfCommand(l: Log, i: nat)
    requires |Evicted(l)| <= i < |l.committed|
    ensures RankOfSlot(l, i % 10) == i - |Evicted(l)|
  {
    var n := |l.committed|;
    if n > 10 {
      SlotDistance(n, i);
    }
  }

  lemma SlotDistance(n: nat, i: nat)
    requires i < n <= i + 10
    ensures CB.Distance(n % 10, i % 10) == i + 10 - n
  {
  }

  /** The `i`-th command ever committed sits in slot `i` modulo ten while it is stored, and a seek there reaches it. */
  lemma SeekFindsCommand(l: Log, i: nat, offset: nat)
    requires |Evicted(l)| <= i < |l.committed|
    ensures SeekTarget(l, i % 10, offset) ==
            if offset < |l.committed[i]| then Some(|Flatten(l.committed[|Evicted(l)|..i])| + offset) else None
  {
    hide Stored, Evicted, RankOfSlot, Flatten;
    StoredFrom(l, i);
    RankOfCommand(l, i);
  }

  /** Slots no command has reached refuse every seek, and so do numbers that are no slots. */
  lemma SeekRefusesOthers(l: Log, slot: nat, offset: nat)
    requires slot >= 10 || slot >= |l.committed|
    ensures SeekTarget(l, slot, offset) == None
  {
  }

  /** What is read from an accepted seek on: the rest of the command, and the younger commands. */
  lemma ContentsFromCommand(l: Log, i: nat, offset: nat)
    requires |Evicted(l)| <= i < |l.committed| && offset <= |l.committed[i]|
    ensures |Flatten(l.committed[|Evicted(l)|..i])| + offset <= |Contents(l)|
    ensures Contents(l)[|Flatten(l.committed[|Evicted(l)|..i])| + offset..]
            == l.committed[i][offset..] + Flatten(l.committed[i + 1..])
  {
    hide Stored, Evicted, Flatten;
    StoredFrom(l, i);
    FlattenSplit(Stored(l), i - |Evicted(l)|);
  }

  /** An accepted seek is inside the contents, and the next read starts at that byte of that command. */
  lemma SeekLands(l: Log, slot: nat, offset: nat, count: nat)
    requires SeekTarget(l, slot, offset).Some?
    ensures
      var p := SeekTarget(l, slot, offset).value;
      var cmd := Stored(l)[RankOfSlot(l, slot)];
      && p < |Contents(l)|
      && ReadPiece(Stored(l), p, count) == cmd[offset..Min(offset + count, |cmd|)]
      && Contents(l)[p] == cmd[offset]
  {
    var rank := RankOfSlot(l, slot);
    ReadPieceAt(Stored(l), rank, offset, count);
    FlattenSplit(Stored(l), rank);
  }

  /** The documented target: the byte at `offset` of the `n`-th oldest stored command. */
  function DocumentedTarget(l: Log, n: nat, offset: nat): Option<nat> {
    if n < |Stored(l)| && offset < |Stored(l)[n]|
    then Some(|Flatten(Stored(l)[..n])| + offset)
    else None
  }

  /** It is that byte of that command. */
  lemma DocumentedLands(l: Log, n: nat, offset: nat)
    requires n < |Stored(l)| && offset < |Stored(l)[n]|
    ensures DocumentedTarget(l, n, offset).Some?
    ensures
      var p := DocumentedTarget(l, n, offset).value;
      p < |Contents(l)| && Contents(l)[p] == Stored(l)[n][offset]
  {
    FlattenSplit(Stored(l), n);
  }

  lemma PrefixGrows(cmds: seq<seq<byte>>, i: nat, j: nat)
    requires i < j <= |cmds| && |cmds[i]| > 0
    ensures |Flatten(cmds[..i])| < |Flatten(cmds[..j])|
  {
    FlattenSplit(cmds[..j], i);
    assert cmds[..j][..i] == cmds[..i];
  }

  lemma DifferentCommandsStartApart(cmds: seq<seq<byte>>, i: nat, j: nat)
    requires i < |cmds| && j < |cmds| && i != j && |cmds[i]| > 0 && |cmds[j]| > 0
    ensures |Flatten(cmds[..i])| != |Flatten(cmds[..j])|
  {
    if i < j {
      PrefixGrows(cmds, i, j);
    } else {
      PrefixGrows(cmds, j, i);
    }
  }

  /**
   * A seek that is or should be accepted goes where its comment says exactly while the oldest command
   * sits in slot 0: on a wrapped ring every one of them misses.
   */
  lemma SeekMeetsDocumentationIff(l: Log, n: nat, offset: nat)
    requires Shaped(l)
    requires SeekTarget(l, n, offset).Some? || DocumentedTarget(l, n, offset).Some?
    ensures SeekTarget(l, n, offset) == DocumentedTarget(l, n, offset) <==> OldestSlot(l) == 0
  {
    if OldestSlot(l) != 0 {
      var s, rank := Stored(l), RankOfSlot(l, n);
      assert |s| == CB.SLOTS && rank != n;
      assert s[n] == l.committed[|l.committed| - |s| + n] && s[rank] == l.committed[|l.committed| - |s| + rank];
      DifferentCommandsStartApart(s, n, rank);
    }
  }

  /** Some command always misses on a wrapped ring, so all of them agree only while it has not wrapped. */
  lemma AllSeeksMeetDocumentationIff(l: Log)
    requires Shaped(l)
    ensures
      (forall n: nat, offset: nat :: SeekTarget(l, n, offset) == DocumentedTarget(l, n, offset))
      <==> OldestSlot(l) == 0
  {
    if OldestSlot(l) != 0 {
      assert Stored(l)[0] == l.committed[|l.committed| - |Stored(l)|];
      SeekMeetsDocumentationIff(l, 0, 0);
    }
  }

  /** The seek returns the new position, not the documented 0; the two agree only at the very first byte. */
  lemma SeekReturnsZeroIff(l: Log, slot: nat, offset: nat)
    requires Shaped(l) && SeekTarget(l, slot, offset).Some?
    ensures SeekTarget(l, slot, offset).value == 0 <==> slot == OldestSlot(l) && offset == 0
  {
  }

  /** `SEEK_END` through `aesd_circular_buffer_size(in_offs)`: nothing is summed once the ring is full. */
  function SeekEndPosition(l: Log): nat {
    if |l.committed| >= CB.SLOTS then 0 else |Contents(l)|
  }

  /** A full device holds at least one byte per command. */
  lemma FullIsLong(l: Log)
    requires Shaped(l)
    ensures |l.committed| >= CB.SLOTS ==> |Contents(l)| >= CB.SLOTS
  {
    if |l.committed| >= CB.SLOTS {
      var s := Stored(l);
      forall i | 0 <= i < |s| ensures |s[i]| >= 1 {
        assert s[i] == l.committed[|l.committed| - |s| + i];
      }
      FlattenAtLeast(s);
    }
  }

  lemma {:induction false} FlattenAtLeast(pieces: seq<seq<byte>>)
    requires forall i :: 0 <= i < |pieces| ==> |pieces[i]| >= 1
    ensures |Flatten(pieces)| >= |pieces|
  {
    if pieces != [] {
      FlattenAtLeast(pieces[1..]);
    }
  }
}
