// User memory as the kernel may access it, and slices of it.
module UserCopy {
  import opened Regions

  // Accessible addresses and their bytes; any other access faults.
  type UserMemory = map<nat, int>

  datatype UserSlice = UserSlice(base: nat, len: nat)
  {
    function SplitAt(idx: nat): Option<(UserSlice, UserSlice)> {
      if idx > len then None else Some((UserSlice(base, idx), UserSlice(base + idx, len - idx)))
    }

    function Advance(n: nat): Option<UserSlice> {
      var parts := SplitAt(n);
      if parts.None? then None else Some(parts.value.1)
    }

    function Limit(to: nat): Option<UserSlice> {
      var parts := SplitAt(to);
      if parts.None? then None else Some(parts.value.0)
    }
  }

  function Min(a: nat, b: nat): nat {
    if a < b then a else b
  }

  // How many bytes from `base` on can be accessed, up to `len`.
  function Accessible(mem: UserMemory, base: nat, len: nat): (n: nat)
    ensures n <= len
    ensures forall a :: base <= a < base + n ==> a in mem
    ensures n < len ==> base + n !in mem
  {
    if len == 0 then 0
    else
      var n := Accessible(mem, base, len - 1);
      if n == len - 1 && base + n in mem then len else n
  }

  function Bytes(mem: UserMemory, base: nat, n: nat): (bytes: seq<int>)
    requires forall a :: base <= a < base + n ==> a in mem
    ensures |bytes| == n
  {
    seq(n, i requires 0 <= i < n => mem[base + i])
  }

  // `copy_to_slice`: the bytes, unless one of them faults.
  function CopyIn(mem: UserMemory, s: UserSlice): Option<seq<int>> {
    if Accessible(mem, s.base, s.len) == s.len then Some(Bytes(mem, s.base, s.len)) else None
  }

  // What is left in memory by a copy to `base` that stops at the first fault.
  function Written(mem: UserMemory, base: nat, bytes: seq<int>): (r: UserMemory)
    ensures r.Keys == mem.Keys
    ensures bytes == [] ==> r == mem
  {
    map a | a in mem :: if base <= a < base + Accessible(mem, base, |bytes|) then bytes[a - base] else mem[a]
  }

  // `copy_from_slice`: the memory afterwards, and whether nothing faulted.
  function CopyOut(mem: UserMemory, s: UserSlice, bytes: seq<int>): (UserMemory, bool)
    requires |bytes| == s.len
  {
    (Written(mem, s.base, bytes), Accessible(mem, s.base, s.len) == s.len)
  }

  lemma AccessibleUnique(mem: UserMemory, base: nat, len: nat, n: nat)
    requires n <= len && (n < len ==> base + n !in mem)
    requires forall a :: base <= a < base + n ==> a in mem
    ensures Accessible(mem, base, len) == n
  {
  }

  // Two copies side by side are one copy, and fault where it would.
  lemma CopyOutJoins(mem: UserMemory, base: nat, first: seq<int>, second: seq<int>)
    requires Accessible(mem, base, |first|) == |first|
    ensures var mem' := Written(mem, base, first);
            && Written(mem', base + |first|, second) == Written(mem, base, first + second)
            && Accessible(mem, base, |first + second|) == |first| + Accessible(mem', base + |first|, |second|)
  {
  }

  // What was copied out can be read back, and nothing beyond it changed.
  lemma WrittenExact(mem: UserMemory, base: nat, bytes: seq<int>)
    ensures var r := Written(mem, base, bytes);
            && (forall a :: a in mem && !(base <= a < base + |bytes|) ==> r[a] == mem[a])
            && (Accessible(mem, base, |bytes|) == |bytes| ==>
                  Accessible(r, base, |bytes|) == |bytes| && Bytes(r, base, |bytes|) == bytes)
  {
  }

  // Copying in on from where an earlier copy stopped.
  lemma CopyInJoins(mem: UserMemory, base: nat, done: nat, n: nat, len: nat)
    requires done <= Accessible(mem, base, len) && done + n <= len
    ensures var data := CopyIn(mem, UserSlice(base + done, n));
            if data.Some? then
              && done + n <= Accessible(mem, base, len)
              && data.value == Bytes(mem, base + done, n)
              && Bytes(mem, base, done) + data.value == Bytes(mem, base, done + n)
            else
              done <= Accessible(mem, base, len) < done + n
  {
  }

  lemma CopyOutFaults(mem: UserMemory, base: nat, first: seq<int>, second: seq<int>)
    requires Accessible(mem, base, |first|) < |first|
    ensures Written(mem, base, first) == Written(mem, base, first + second)
    ensures Accessible(mem, base, |first + second|) == Accessible(mem, base, |first|)
  {
  }

  lemma CopyTwice(mem: UserMemory, base: nat, first: seq<int>, second: seq<int>)
    ensures var (mem1, ok1) := CopyOut(mem, UserSlice(base, |first|), first);
            var (mem2, ok2) := CopyOut(mem1, UserSlice(base + |first|, |second|), second);
            && Written(mem, base, first + second) == (if ok1 then mem2 else mem1)
            && (Accessible(mem, base, |first| + |second|) == |first| + |second| <==> ok1 && ok2)
  {
    hide Accessible, Written;
    assert |first + second| == |first| + |second|;
    if Accessible(mem, base, |first|) < |first| {
      CopyOutFaults(mem, base, first, second);
    } else {
      CopyOutJoins(mem, base, first, second);
    }
  }
}

// Pipes: a bounded byte queue between readers and writers.
module Pipes {
  import opened Regions
  import opened UserCopy

  const MAX_QUEUE_SIZE: nat := 65536
  const TMPBUF_SIZE: nat := 512

  datatype State = State(queue: seq<int>, readerAlive: bool, writerAlive: bool, readNonblock: bool, writeNonblock: bool)

  // Where one pass of the read or write loop ends; `Wait` is followed by another pass or by EINTR.
  datatype Outcome = Ok(n: nat) | EFAULT | EPIPE | EAGAIN | Wait

  // One pass of a read: all there is, or all that fits; nothing is consumed on a fault.
  function Read(p: State, mem: UserMemory, buf: UserSlice): (State, UserMemory, Outcome) {
    var n := Min(buf.len, |p.queue|);
    var mem' := Written(mem, buf.base, p.queue[..n]);
    if Accessible(mem, buf.base, n) < n then (p, mem', EFAULT)
    else if n > 0 then (p.(queue := p.queue[n..]), mem', Ok(n))
    else (p, mem, if buf.len == 0 || !p.writerAlive then Ok(0) else if p.readNonblock then EAGAIN else Wait)
  }

  // How much of the buffer a write takes: what fits, but on a fault only whole chunks before it.
  function Taken(p: State, mem: UserMemory, buf: UserSlice): (n: nat)
    ensures n <= Accessible(mem, buf.base, n) && n <= buf.len
    ensures |p.queue| <= MAX_QUEUE_SIZE ==> |p.queue| + n <= MAX_QUEUE_SIZE
  {
    var total := Room(p, buf);
    var ok := Accessible(mem, buf.base, total);
    if ok == total then total else
      AccessibleUnique(mem, buf.base, ok / TMPBUF_SIZE * TMPBUF_SIZE, ok / TMPBUF_SIZE * TMPBUF_SIZE);
      ok / TMPBUF_SIZE * TMPBUF_SIZE
  }

  function Room(p: State, buf: UserSlice): nat {
    Min(if |p.queue| < MAX_QUEUE_SIZE then MAX_QUEUE_SIZE - |p.queue| else 0, buf.len)
  }

  // One pass of a write. The reader being gone is noticed only when the queue is full.
  function Write(p: State, mem: UserMemory, buf: UserSlice): (State, Outcome) {
    var n := Taken(p, mem, buf);
    if n > 0 then (p.(queue := p.queue + Bytes(mem, buf.base, n)), Ok(n))
    else if Room(p, buf) > 0 then (p, EFAULT)
    else (p, WriteBlocked(p, buf))
  }

  function WriteBlocked(p: State, buf: UserSlice): Outcome {
    if buf.len == 0 then Ok(0) else if !p.readerAlive then EPIPE else if p.writeNonblock then EAGAIN else Wait
  }

  // What a reader is told it got is what was next in the queue, at the start of its buffer, and nothing
  // else in its memory changed; end of file means an empty queue and no writer.
  lemma ReadExact(p: State, mem: UserMemory, buf: UserSlice)
    ensures var (q, after, outcome) := Read(p, mem, buf);
            && after.Keys == mem.Keys
            && (forall a :: a in mem && !(buf.base <= a < buf.base + Min(buf.len, |p.queue|)) ==> after[a] == mem[a])
            && (outcome.Ok? ==>
                  && outcome.n == Min(buf.len, |p.queue|) == Accessible(after, buf.base, outcome.n)
                  && p.queue == Bytes(after, buf.base, outcome.n) + q.queue)
            && (!outcome.Ok? ==> q == p)
            && (outcome == EFAULT <==> exists a :: buf.base <= a < buf.base + Min(buf.len, |p.queue|) && a !in mem)
            && (buf.len > 0 ==> (outcome == Ok(0) <==> p.queue == [] && !p.writerAlive))
            && (outcome == EAGAIN <==> buf.len > 0 && p.queue == [] && p.writerAlive && p.readNonblock)
            && (outcome == Wait <==> buf.len > 0 && p.queue == [] && p.writerAlive && !p.readNonblock)
  {
    hide Written, Accessible, Bytes;
    var n := Min(buf.len, |p.queue|);
    var ok := Accessible(mem, buf.base, n);
    WrittenExact(mem, buf.base, p.queue[..n]);
    assert p.queue == p.queue[..n] + p.queue[n..];
    if ok < n {
      assert buf.base + ok !in mem;
    }
  }

  // Every outcome of a write. What fits is taken, or on a fault the whole chunks before it, and appended
  // in order; only a fault in the first chunk is reported. The other results need a full queue.
  lemma WriteExact(p: State, mem: UserMemory, buf: UserSlice)
    ensures var (q, outcome) := Write(p, mem, buf);
            var room := if |p.queue| < MAX_QUEUE_SIZE then MAX_QUEUE_SIZE - |p.queue| else 0;
            var fits := Min(room, buf.len);
            var ok := Accessible(mem, buf.base, fits);
            && (outcome.Ok? ==>
                  && outcome.n == (if ok == fits then fits else ok - ok % TMPBUF_SIZE)
                  && q == p.(queue := p.queue + Bytes(mem, buf.base, outcome.n)))
            && (!outcome.Ok? ==> q == p)
            && (outcome == EFAULT <==> exists a :: buf.base <= a < buf.base + Min(fits, TMPBUF_SIZE) && a !in mem)
            && (outcome == Ok(0) <==> buf.len == 0)
            && (outcome == EPIPE <==> buf.len > 0 && room == 0 && !p.readerAlive)
            && (outcome == EAGAIN <==> buf.len > 0 && room == 0 && p.readerAlive && p.writeNonblock)
            && (outcome == Wait <==> buf.len > 0 && room == 0 && p.readerAlive && !p.writeNonblock)
  {
    hide Accessible, Bytes, Taken;
    TakenExact(p, mem, buf);
    FirstChunkFaults(mem, buf.base, Room(p, buf));
  }

  lemma TakenExact(p: State, mem: UserMemory, buf: UserSlice)
    ensures var ok := Accessible(mem, buf.base, Room(p, buf));
            && Taken(p, mem, buf) == (if ok == Room(p, buf) then ok else ok - ok % TMPBUF_SIZE)
            && (Taken(p, mem, buf) == 0 <==> Room(p, buf) == 0 || ok < Min(Room(p, buf), TMPBUF_SIZE))
  {
    hide Accessible;
  }

  lemma FirstChunkFaults(mem: UserMemory, base: nat, len: nat)
    ensures Accessible(mem, base, len) < Min(len, TMPBUF_SIZE) <==>
            exists a :: base <= a < base + Min(len, TMPBUF_SIZE) && a !in mem
  {
    hide Accessible;
    var ok := Accessible(mem, base, len);
    if ok < Min(len, TMPBUF_SIZE) {
      assert base + ok !in mem;
    }
  }

  // Without a reader, a write fails as it should iff the queue is full.
  lemma BrokenPipeIff(p: State, mem: UserMemory, buf: UserSlice)
    requires !p.readerAlive && buf.len > 0
    ensures Write(p, mem, buf).1 == EPIPE <==> |p.queue| >= MAX_QUEUE_SIZE
  {
    hide Write;
    WriteExact(p, mem, buf);
  }

  /// Runs

  datatype Op =
    | ReadOp(mem: UserMemory, buf: UserSlice)
    | WriteOp(mem: UserMemory, buf: UserSlice)
    | CloseReader
    | CloseWriter
    | SetReadFlags(nonblock: bool)
    | SetWriteFlags(nonblock: bool)

  // A pipe, with the bytes its writers were told it took and those its readers were told they got.
  datatype History = History(pipe: State, accepted: seq<int>, delivered: seq<int>)

  ghost predicate Conserved(h: History) {
    h.delivered + h.pipe.queue == h.accepted && |h.pipe.queue| <= MAX_QUEUE_SIZE
  }

  // The bytes at an address, as its owner sees them.
  function Shown(mem: UserMemory, base: nat, n: nat): seq<int> {
    if Accessible(mem, base, n) == n then Bytes(mem, base, n) else []
  }

  function ReadStep(h: History, mem: UserMemory, buf: UserSlice): History {
    var (pipe, after, outcome) := Read(h.pipe, mem, buf);
    History(pipe, h.accepted, h.delivered + if outcome.Ok? then Shown(after, buf.base, outcome.n) else [])
  }

  function WriteStep(h: History, mem: UserMemory, buf: UserSlice): History {
    var (pipe, outcome) := Write(h.pipe, mem, buf);
    History(pipe, h.accepted + if outcome.Ok? then Shown(mem, buf.base, outcome.n) else [], h.delivered)
  }

  function Step(h: History, op: Op): History {
    match op
    case ReadOp(mem, buf) => ReadStep(h, mem, buf)
    case WriteOp(mem, buf) => WriteStep(h, mem, buf)
    case CloseReader => h.(pipe := h.pipe.(readerAlive := false))
    case CloseWriter => h.(pipe := h.pipe.(writerAlive := false))
    case SetReadFlags(nonblock) => h.(pipe := h.pipe.(readNonblock := nonblock))
    case SetWriteFlags(nonblock) => h.(pipe := h.pipe.(writeNonblock := nonblock))
  }

  lemma ReadConserves(h: History, mem: UserMemory, buf: UserSlice)
    requires Conserved(h)
    ensures Conserved(ReadStep(h, mem, buf))
  {
    ReadExact(h.pipe, mem, buf);
    hide Accessible, Bytes;
    var (pipe, after, outcome) := Read(h.pipe, mem, buf);
    hide Read;
    if outcome.Ok? {
      var got := Bytes(after, buf.base, outcome.n);
      assert (h.delivered + got) + pipe.queue == h.delivered + (got + pipe.queue);
    }
  }

  lemma WriteConserves(h: History, mem: UserMemory, buf: UserSlice)
    requires Conserved(h)
    ensures Conserved(WriteStep(h, mem, buf))
  {
  }

  // Over every run of reads, writes, closes and flag changes, faults included, bytes come out in the
  // order they went in, none lost, none twice, and the queue keeps within its bound.
  ghost function HistoryAfter(nonblock: bool, ops: seq<Op>): (h: History)
    ensures Conserved(h)
  {
    if ops == [] then History(State([], true, true, nonblock, nonblock), [], []) else
      var prev := HistoryAfter(nonblock, ops[..|ops| - 1]);
      StepConserves(prev, ops[|ops| - 1]);
      Step(prev, ops[|ops| - 1])
  }

  lemma StepConserves(h: History, op: Op)
    requires Conserved(h)
    ensures Conserved(Step(h, op))
  {
    hide ReadStep, WriteStep;
    match op
    case ReadOp(mem, buf) => ReadConserves(h, mem, buf);
    case WriteOp(mem, buf) => WriteConserves(h, mem, buf);
    case _ =>
  }

  // The ends are open until they are closed, for good; flags are as set last.
  lemma {:induction false} EndsFollowOps(nonblock: bool, ops: seq<Op>)
    ensures var p := HistoryAfter(nonblock, ops).pipe;
            && (p.writerAlive <==> CloseWriter !in ops) && (p.readerAlive <==> CloseReader !in ops)
            && p.readNonblock == ReadFlag(nonblock, ops) && p.writeNonblock == WriteFlag(nonblock, ops)
    decreases |ops|
  {
    hide Read, Write, Conserved;
    if ops != [] {
      var n := |ops| - 1;
      EndsFollowOps(nonblock, ops[..n]);
      assert ops == ops[..n] + [ops[n]];
      StepEnds(HistoryAfter(nonblock, ops[..n]), ops[n]);
    }
  }

  ghost function ReadFlag(nonblock: bool, ops: seq<Op>): bool {
    if ops == [] then nonblock
    else if ops[|ops| - 1].SetReadFlags? then ops[|ops| - 1].nonblock
    else ReadFlag(nonblock, ops[..|ops| - 1])
  }

  ghost function WriteFlag(nonblock: bool, ops: seq<Op>): bool {
    if ops == [] then nonblock
    else if ops[|ops| - 1].SetWriteFlags? then ops[|ops| - 1].nonblock
    else WriteFlag(nonblock, ops[..|ops| - 1])
  }

  lemma StepEnds(h: History, op: Op)
    ensures var p, q := h.pipe, Step(h, op).pipe;
            && (q.writerAlive <==> p.writerAlive && !op.CloseWriter?)
            && (q.readerAlive <==> p.readerAlive && !op.CloseReader?)
            && q.readNonblock == (if op.SetReadFlags? then op.nonblock else p.readNonblock)
            && q.writeNonblock == (if op.SetWriteFlags? then op.nonblock else p.writeNonblock)
  {
    hide Accessible, Bytes, Written, Taken;
  }

  // In every run, a read sees the end of the file iff the writer has closed the pipe and every byte ever
  // accepted has been delivered.
  lemma EndOfFileIff(nonblock: bool, ops: seq<Op>, mem: UserMemory, buf: UserSlice)
    requires buf.len > 0
    ensures var h := HistoryAfter(nonblock, ops);
            Read(h.pipe, mem, buf).2 == Ok(0) <==> CloseWriter in ops && h.delivered == h.accepted
  {
    hide Read, HistoryAfter;
    var h := HistoryAfter(nonblock, ops);
    EndsFollowOps(nonblock, ops);
    ReadExact(h.pipe, mem, buf);
    assert h.delivered == h.accepted <==> h.pipe.queue == [] by {
      assert |h.accepted| == |h.delivered| + |h.pipe.queue|;
      assert h.pipe.queue == [] ==> h.delivered + h.pipe.queue == h.delivered;
    }
  }

  // A write to a pipe whose only reader has closed it, and that succeeds.
  lemma BrokenPipeMissed()
    ensures var p := HistoryAfter(false, [CloseReader]).pipe;
            !p.readerAlive && Write(p, map[0 := 7], UserSlice(0, 1)).1 == Ok(1)
  {
    assert [CloseReader][..0] == [];
    var p := HistoryAfter(false, [CloseReader]).pipe;
    assert p == State([], false, true, false, false);
    WriteExact(p, map[0 := 7], UserSlice(0, 1));
  }

  /// The loops

  // The same read in two copies, of the runs before and after the place where the ring buffer wraps.
  lemma ReadInRuns(p: State, mem: UserMemory, buf: UserSlice, wrap: nat, n1: nat, n2: nat)
    requires wrap <= |p.queue| && n1 == Min(buf.len, wrap) && n2 == Min(buf.len - n1, |p.queue| - wrap)
    ensures var first := p.queue[..wrap][..n1];
            var second := p.queue[wrap..][..n2];
            var (mem1, ok1) := CopyOut(mem, UserSlice(buf.base, n1), first);
            var (mem2, ok2) := CopyOut(mem1, UserSlice(buf.base + n1, n2), second);
            if !ok1 then Read(p, mem, buf) == (p, mem1, EFAULT)
            else if !ok2 then Read(p, mem, buf) == (p, mem2, EFAULT)
            else if n1 + n2 > 0 then Read(p, mem, buf) == (p.(queue := p.queue[n1 + n2..]), mem2, Ok(n1 + n2))
            else
              && p.queue[n1 + n2..] == p.queue
              && Read(p, mem, buf) ==
                   (p, mem2, if buf.len == 0 || !p.writerAlive then Ok(0) else if p.readNonblock then EAGAIN else Wait)
  {
    hide Written, Accessible, CopyOut;
    var first, second := p.queue[..wrap][..n1], p.queue[wrap..][..n2];
    assert p.queue[..n1 + n2] == first + second;
    assert n1 + n2 == Min(buf.len, |p.queue|);
    CopyTwice(mem, buf.base, first, second);
    assert n1 + n2 == 0 ==> p.queue[n1 + n2..] == p.queue;
  }

  // Chunks are copied until everything fits or one faults.
  lemma WriteInChunks(p: State, mem: UserMemory, buf: UserSlice, idx: nat, written: nat)
    requires written == Min(idx * TMPBUF_SIZE, Room(p, buf)) <= Accessible(mem, buf.base, Room(p, buf))
    requires written < Room(p, buf) ==>
               Accessible(mem, buf.base, Room(p, buf)) < Min(written + TMPBUF_SIZE, Room(p, buf))
    ensures var (q, outcome) := Write(p, mem, buf);
            if written > 0 then q == p.(queue := p.queue + Bytes(mem, buf.base, written)) && outcome == Ok(written)
            else q == p && outcome == if Room(p, buf) > 0 then EFAULT else WriteBlocked(p, buf)
  {
    hide Accessible, Bytes;
  }

  // The next chunk of the source, through the small buffer, unless it faults.
  method CopyChunk(mem: UserMemory, src: UserSlice, idx: nat) returns (data: Option<seq<int>>)
    requires idx * TMPBUF_SIZE < src.len && idx * TMPBUF_SIZE <= Accessible(mem, src.base, src.len)
    ensures var start, end := idx * TMPBUF_SIZE, Min((idx + 1) * TMPBUF_SIZE, src.len);
            if data.Some? then
              && end <= Accessible(mem, src.base, src.len) && |data.value| == end - start
              && Bytes(mem, src.base, start) + data.value == Bytes(mem, src.base, end)
            else
              Accessible(mem, src.base, src.len) < end
  {
    hide Accessible, Bytes, CopyIn;
    var chunk := src.Advance(idx * TMPBUF_SIZE).value;
    var n := Min(chunk.len, TMPBUF_SIZE);
    CopyInJoins(mem, src.base, idx * TMPBUF_SIZE, n, src.len);
    data := CopyIn(mem, chunk.Limit(n).value);
  }

  class Pipe {
    var queue: seq<int>
    var readerAlive: bool
    var writerAlive: bool
    var readNonblock: bool
    var writeNonblock: bool

    ghost function Contents(): State
      reads this
    {
      State(queue, readerAlive, writerAlive, readNonblock, writeNonblock)
    }

    constructor (nonblock: bool)
      ensures Contents() == State([], true, true, nonblock, nonblock)
    {
      queue, readerAlive, writerAlive, readNonblock, writeNonblock := [], true, true, nonblock, nonblock;
    }

    // One pass of `kread`. The queue is a ring buffer whose bytes lie in two runs, divided at `wrap`;
    // where makes no difference.
    method ReadPass(mem: UserMemory, buf: UserSlice, wrap: nat) returns (after: UserMemory, outcome: Outcome)
      requires wrap <= |queue|
      modifies this
      ensures (Contents(), after, outcome) == Read(old(Contents()), mem, buf)
    {
      hide Read, Written, CopyOut;
      var s1, s2 := queue[..wrap], queue[wrap..];
      var n1 := Min(buf.len, |s1|);
      var parts := buf.SplitAt(n1).value;
      var n2 := Min(parts.1.len, |s2|);
      ReadInRuns(Contents(), mem, buf, wrap, n1, n2);
      var (mem1, ok1) := CopyOut(mem, parts.0, s1[..n1]);
      if !ok1 {
        return mem1, EFAULT;
      }
      var (mem2, ok2) := CopyOut(mem1, parts.1.Limit(n2).value, s2[..n2]);
      if !ok2 {
        return mem2, EFAULT;
      }
      var count := n1 + n2;
      queue := queue[count..];
      if count > 0 {
        return mem2, Ok(count);
      }
      after := mem2;
      if buf.len == 0 {
        return mem2, Ok(0);
      }
      outcome := if !writerAlive then Ok(0) else if readNonblock then EAGAIN else Wait;
    }

    // One pass of `kwrite`: chunk by chunk through a small buffer.
    method WritePass(mem: UserMemory, buf: UserSlice) returns (outcome: Outcome)
      modifies this
      ensures (Contents(), outcome) == Write(old(Contents()), mem, buf)
    {
      hide Accessible, Bytes, CopyIn, Taken, Write;
      var left := if |queue| < MAX_QUEUE_SIZE then MAX_QUEUE_SIZE - |queue| else 0;
      var src := buf.Limit(Min(left, buf.len)).value;
      var written := 0;
      var idx := 0;
      while idx * TMPBUF_SIZE < src.len
        invariant written == Min(idx * TMPBUF_SIZE, src.len)
        invariant written <= Accessible(mem, buf.base, src.len)
        invariant Contents() == old(Contents()).(queue := queue) && src.len == Room(old(Contents()), buf)
        invariant queue == old(queue) + Bytes(mem, buf.base, written)
        decreases src.len - idx * TMPBUF_SIZE
      {
        var data := CopyChunk(mem, src, idx);
        if data.None? {
          WriteInChunks(old(Contents()), mem, buf, idx, written);
          if idx > 0 {
            break;
          }
          return EFAULT;
        }
        queue := queue + data.value;
        written := written + |data.value|;
        idx := idx + 1;
      }
      if written == src.len {
        WriteInChunks(old(Contents()), mem, buf, idx, written);
      }
      if written > 0 {
        return Ok(written);
      }
      outcome := if buf.len == 0 then Ok(0) else if !readerAlive then EPIPE else if writeNonblock then EAGAIN else Wait;
    }
  }
}
