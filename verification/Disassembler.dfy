/**
 The buffering loop of the disassembler (asm/dasm.cpp), proved against `Listing`.

 What `disasm` makes of the bytes and which sync points it adds, how `fread` chunks the file and when `feof` notices the
 end are parameters. Offsets are 32-bit.
 */
module Disassembler {
  import opened Common
  import opened SyncHeap
  import opened Listing
  import opened SyncRanges

  const BUFFER: nat := 64

  /** Any number of bytes from one to `most`, as `fread` may return. */
  function Portion(chunk: nat, most: nat): (n: nat)
    requires most > 0
    ensures 1 <= n <= most
  {
    1 + chunk % most
  }

  lemma JoinSlices(s: seq<Byte>, i: nat, j: nat, k: nat)
    requires i <= j <= k <= |s|
    ensures s[i..j] + s[j..k] == s[i..k]
  {
  }

  /** Bytes held and bytes read after them are the file's bytes up to the new position. */
  lemma Longer(buffer: seq<Byte>, data: seq<Byte>, q: nat, p: nat, fpos: nat, n: nat, held: seq<Byte>)
    requires q <= p && p + n <= |buffer| && p - q <= fpos && fpos + n <= |data|
    requires buffer[q..p] == held && (p > q ==> held == data[fpos - (p - q)..fpos])
    requires buffer[p..p + n] == data[fpos..fpos + n]
    ensures buffer[q..p + n] == data[fpos - (p - q)..fpos + n]
  {
    var from := fpos - (p - q);
    assert p == q ==> held == [] == data[from..fpos];
    JoinSlices(buffer, q, p, p + n);
    JoinSlices(data, from, fpos, fpos + n);
  }

  class Session {
    const data: seq<Byte>
    const origin: Word32
    const disasm: (seq<Byte>, Word32) -> Answer
    const buffer: array<Byte>
    const heap: Heap

    var fpos: nat
    var p: nat
    var q: nat
    var offset: Word32
    var nextsync: Word32
    var synclen: Word32
    var eof: bool
    var log: seq<Event>

    ghost const job: Job
    ghost var steps: seq<Step>

    /** The buffer holds the bytes before the file position. */
    ghost predicate Buffered()
      reads `p, `q, `fpos, `eof, buffer
    {
      && buffer.Length == BUFFER && q <= p <= BUFFER && p - q <= fpos
      && (p > q ==> fpos <= |data| && buffer[q..p] == data[fpos - (p - q)..fpos])
      && (eof ==> fpos >= |data|)
    }

    /** The loop without its buffer. */
    ghost function Now(): View
      requires q <= p && p - q <= fpos
      reads `p, `q, `fpos, `nextsync, `synclen, `log, heap
    {
      View(fpos - (p - q), heap.synx, Sync(nextsync, synclen), log)
    }

    ghost predicate SameJob() {
      job.data == data && job.origin == origin && job.disasm == disasm && Ordered(job.heap)
    }

    /** The loop stands where a lawful list of steps leads, and the buffer does not reach past the sync point. */
    ghost predicate OnCourse()
      reads `p, `q, `fpos, `nextsync, `synclen, `log, `offset, `steps, heap
    {
      && q <= p && p - q <= fpos && SameJob() && heap.Valid()
      && Lawful(job, steps) && Replay(job, steps) == Now() && offset == Offset(job, Now())
      && (HasSync() ==> p - q <= Minus(nextsync, offset))
    }

    predicate HasSync()
      reads `nextsync, `synclen
    {
      nextsync != 0 || synclen != 0
    }

    /** The sync point is reached. */
    predicate Due()
      reads `nextsync, `synclen, `offset
    {
      HasSync() && offset == nextsync
    }

    /** No more bytes can follow in the buffer before the end of the file or the sync point. */
    ghost predicate AllThere()
      reads `p, `q, `fpos, `nextsync, `synclen, `offset
    {
      fpos == |data| || (HasSync() && p - q == Minus(nextsync, offset))
    }

    constructor (data: seq<Byte>, origin: Word32, heap: Heap, disasm: (seq<Byte>, Word32) -> Answer)
      ensures this.data == data && this.origin == origin && this.heap == heap && this.disasm == disasm
      ensures job == Job(data, origin, heap.synx, disasm)
      ensures fresh(buffer) && Buffered() && fpos == p == q == 0 && offset == origin && log == [] && !eof
    {
      this.data, this.origin, this.heap, this.disasm := data, origin, heap, disasm;
      this.buffer := new Byte[BUFFER](i => 0);
      fpos, p, q, offset, nextsync, synclen, eof, log := 0, 0, 0, origin, 0, 0, false, [];
      job, steps := Job(data, origin, heap.synx, disasm), [];
    }

    /** The first call of next_sync. */
    method Begin()
      requires heap.Valid() && SameJob() && job.heap == heap.synx
      requires fpos == p == q == 0 && offset == origin && log == []
      modifies `nextsync, `synclen, `steps, heap
      ensures OnCourse()
    {
      hide Pending, NoneBefore, Straddles, Past, Ordered;
      nextsync, synclen := heap.Next(offset);
      steps := [];
      assert Replay(job, steps) == Beginning(job);
    }

    method Load(n: nat)
      requires buffer.Length == BUFFER && q <= p && p + n <= BUFFER && fpos + n <= |data|
      modifies buffer
      ensures buffer[q..p] == old(buffer[q..p]) && buffer[p..p + n] == data[fpos..fpos + n]
    {
      forall i | 0 <= i < n {
        buffer[p + i] := data[fpos + i];
      }
    }

    /** `fread`: some of the bytes that are left, at least one if there is one. */
    method Fill(toRead: nat, chunk: nat) returns (lenread: nat)
      requires Buffered() && 0 < toRead && p + toRead <= BUFFER
      modifies `p, `fpos, `eof, buffer
      ensures Buffered()
      ensures lenread <= toRead && p == old(p) + lenread && fpos == old(fpos) + lenread
      ensures lenread == 0 <==> old(fpos) >= |data|
      ensures lenread == 0 ==> eof
    {
      hide Portion;
      if fpos >= |data| {
        eof := true;
        return 0;
      }
      var most := if toRead < |data| - fpos then toRead else |data| - fpos;
      lenread := Portion(chunk, most);
      ghost var held := buffer[q..p];
      Load(lenread);
      Longer(buffer[..], data, q, p, fpos, lenread, held);
      p, fpos := p + lenread, fpos + lenread;
    }

    /** How many bytes the buffer may take: not past its end nor past the sync point. */
    method Room() returns (toRead: nat)
      requires OnCourse() && p < BUFFER
      ensures p + toRead <= BUFFER
      ensures HasSync() ==> p - q + toRead <= Minus(nextsync, offset)
      ensures toRead == 0 ==> HasSync() && p - q == Minus(nextsync, offset)
    {
      toRead := BUFFER - p;
      if HasSync() {
        GapCloses(nextsync, offset, p - q);
        if toRead > Minus(nextsync, Plus(offset, p - q)) {
          toRead := Minus(nextsync, Plus(offset, p - q));
        }
      }
    }

    method Read(chunk: nat) returns (lenread: nat)
      requires Buffered() && OnCourse() && p < BUFFER
      modifies `p, `fpos, `eof, buffer
      ensures Buffered() && OnCourse()
      ensures fpos == old(fpos) + lenread && p == old(p) + lenread
      ensures lenread > 0 ==> old(fpos) < |data|
      ensures lenread == 0 ==> eof || (HasSync() && p - q == Minus(nextsync, offset))
    {
      hide Lawful, Replay, Minus, Offset, Ordered;
      var toRead := Room();
      lenread := 0;
      if toRead > 0 {
        lenread := Fill(toRead, chunk);
      }
    }

    /** The sync point is reached: pass over its range and look for the next one. */
    method AtSync()
      requires Buffered() && OnCourse() && Due()
      modifies `p, `q, `offset, `log, `fpos, `nextsync, `synclen, `steps, heap
      ensures Buffered() && OnCourse() && p == q == 0 && fpos >= old(fpos)
      ensures |heap.synx| < |old(heap.synx)| || (heap.synx == old(heap.synx) && !Due())
    {
      hide Lawful, Replay, Pending, Ordered, NoneBefore, Straddles, Past, Plus, Minus;
      Passing();
      PassOver();
      nextsync, synclen := heap.Next(offset);
      steps := steps + [Pass];
    }

    /** Pass over the range of the sync point. */
    method PassOver()
      requires Buffered() && p == q && offset == Plus(origin, fpos)
      modifies `p, `q, `offset, `log, `fpos
      ensures Buffered() && p == q == 0 && fpos == old(fpos) + synclen && offset == Plus(origin, fpos)
      ensures log == old(log) + if synclen > 0 then [Skip(old(offset), synclen)] else []
    {
      if synclen > 0 {
        log := log + [Skip(offset, synclen)];
        PlusPlus(origin, fpos, synclen);
        offset := Plus(offset, synclen);
        fpos := fpos + synclen;
      }
      p, q := 0, 0;
    }

    lemma Passing()
      requires OnCourse() && Due()
      ensures p == q && Lawful(job, steps + [Pass])
      ensures var h := Pending(heap.synx, Plus(origin, fpos + synclen));
        && Replay(job, steps + [Pass])
           == View(fpos + synclen, h, First(h), log + if synclen > 0 then [Skip(offset, synclen)] else [])
        && (|h| < |heap.synx| || (h == heap.synx && Plus(origin, fpos + synclen) != First(h).pos))
    {
      hide Pending;
      RunIsRooted(job, steps);
      OneStep(job, steps, Pass);
      PassGoesOn(job, Now());
    }

    method SyncIfDue()
      requires Buffered() && OnCourse()
      modifies `p, `q, `offset, `log, `fpos, `nextsync, `synclen, `steps, heap
      ensures Buffered() && OnCourse() && fpos >= old(fpos)
      ensures old(Due()) ==> p == q && (|heap.synx| < |old(heap.synx)| || (heap.synx == old(heap.synx) && !Due()))
      ensures !old(Due()) ==> unchanged(this, heap)
    {
      hide Lawful, Replay, Minus, Offset, Ordered;
      if HasSync() && offset == nextsync {
        AtSync();
      }
    }

    /** The sync points that `disasm` adds. */
    method AddPoints(points: seq<Word32>)
      requires heap.Valid()
      modifies heap
      ensures heap.Valid() && heap.synx == InsertedAll(old(heap.synx), points)
    {
      for i := 0 to |points|
        invariant heap.Valid() && heap.synx == InsertedAll(old(heap.synx), points[..i])
      {
        heap.Add(points[i], 0);
        assert points[..i + 1][..i] == points[..i];
      }
      assert points[..|points|] == points;
    }

    /** One instruction, or one byte where none fits. */
    method Print()
      requires Buffered() && OnCourse() && p > q && (p - q >= INSN_MAX || AllThere())
      modifies `q, `offset, `log, `steps, heap
      ensures Buffered() && OnCourse() && old(q) < q <= p && (old(AllThere()) ==> AllThere())
    {
      hide Lawful, Replay, InsertedAll, Ordered, Plus, Minus;
      var window := buffer[q..];
      var answer := disasm(window, offset);
      var lendis := answer.length;
      if lendis == 0 || lendis > p - q || (HasSync() && lendis > Minus(nextsync, offset)) {
        lendis := 1;
      }
      Printing(window, answer, lendis);
      steps := steps + [Item(window, p - q)];
      AddPoints(answer.points);
      Take(window, lendis);
    }

    /** Print the first bytes of the buffer as one item. */
    method Take(window: seq<Byte>, n: nat)
      requires Buffered() && n <= p - q && n <= |window| && offset == Plus(origin, fpos - (p - q))
      modifies `q, `offset, `log
      ensures Buffered() && q == old(q) + n && offset == Plus(old(offset), n) == Plus(origin, fpos - (p - q))
      ensures log == old(log) + [Insn(old(offset), window[..n])]
    {
      log := log + [Insn(offset, window[..n])];
      PlusPlus(origin, fpos - (p - q), n);
      Shorter(buffer[..], n);
      q := q + n;
      offset := Plus(offset, n);
    }

    lemma Shorter(b: seq<Byte>, n: nat)
      requires Buffered() && b == buffer[..] && n <= p - q
      ensures p > q + n ==> buffer[q + n..p] == data[fpos - (p - (q + n))..fpos]
    {
      if p > q {
        var at := fpos - (p - q);
        assert buffer[q + n..p] == buffer[q..p][n..];
        assert data[at..fpos][n..] == data[at + n..fpos];
      }
    }

    lemma Printing(window: seq<Byte>, answer: Answer, n: nat)
      requires Buffered() && OnCourse() && p > q && (p - q >= INSN_MAX || AllThere())
      requires window == buffer[q..] && answer == disasm(window, offset)
      requires n == if answer.length == 0 || answer.length > p - q
        || (HasSync() && answer.length > Minus(nextsync, offset)) then 1
                    else answer.length
      ensures 1 <= n <= p - q && Lawful(job, steps + [Item(window, p - q)])
      ensures Replay(job, steps + [Item(window, p - q)])
        == View(fpos - (p - q) + n, InsertedAll(heap.synx, answer.points), Sync(nextsync, synclen),
                log + [Insn(offset, window[..n])])
      ensures HasSync() ==>
        n <= Minus(nextsync, offset)
        && Minus(nextsync, Plus(offset, n)) == Minus(nextsync, offset) - n
    {
      hide InsertedAll, Ordered, Lawful, Replay, Plus, Minus;
      assert window[..p - q] == buffer[q..p];
      ItemStep(job, steps, Now(), window, p - q, answer, n);
      if HasSync() {
        GapCloses(nextsync, offset, n);
      }
    }

    /** Print items while an instruction surely fits the buffered bytes, or nothing more was read. */
    method PrintItems(lenread: nat)
      requires Buffered() && OnCourse() && (lenread == 0 && p > q ==> AllThere())
      modifies `q, `offset, `log, `steps, heap
      ensures Buffered() && OnCourse()
      ensures old(q) <= q && p - q < INSN_MAX && (lenread == 0 ==> p == q) && (old(p == q) ==> unchanged(this, heap))
    {
      hide Lawful, Replay, Ordered, Minus, Plus;
      while p > q && (p - q >= INSN_MAX || lenread == 0)
        invariant Buffered() && OnCourse() && old(q) <= q && (old(p == q) ==> unchanged(this, heap))
        invariant lenread == 0 && p > q ==> AllThere()
        decreases p - q
      {
        Print();
      }
    }

    /** Copy the buffered bytes to the front. */
    method Move(count: nat)
      requires buffer.Length == BUFFER && q + count <= BUFFER && count <= q
      modifies buffer
      ensures buffer[..count] == old(buffer[q..q + count])
    {
      var i := 0;
      while i < count
        invariant i <= count
        invariant forall k :: 0 <= k < i ==> buffer[k] == old(buffer[q + k])
        invariant forall k :: q <= k < BUFFER ==> buffer[k] == old(buffer[k])
      {
        buffer[i] := buffer[q + i];
        i := i + 1;
      }
    }

    /** Move the buffered bytes to the front when the front half is used up. */
    method Compact()
      requires Buffered() && OnCourse() && p - q < INSN_MAX
      modifies `p, `q, buffer
      ensures Buffered() && OnCourse() && p - q == old(p - q) && p < BUFFER
    {
      hide Lawful, Replay, Minus, Offset, Ordered;
      if q >= INSN_MAX {
        Move(p - q);
        p, q := p - q, 0;
        assert buffer[0..p] == buffer[..p];
      }
    }

    /** One turn of the loop. */
    method Turn(chunk: nat) returns (lenread: nat)
      requires Buffered() && OnCourse() && p < BUFFER
      modifies `p, `q, `offset, `log, `fpos, `eof, `nextsync, `synclen, `steps, buffer, heap
      ensures Buffered() && OnCourse() && p < BUFFER
      ensures fpos >= old(fpos) && (lenread > 0 ==> old(fpos) < |data| && fpos > old(fpos))
      ensures lenread == 0 ==> p == q
      ensures lenread == 0 && old(p == q) ==>
        |heap.synx| < |old(heap.synx)|
          || (heap.synx == old(heap.synx) && ((old(Due()) && !Due()) || (!old(Due()) && !Due() && eof)))
    {
      hide Lawful, Replay, Ordered;
      lenread := Read(chunk);
      SyncIfDue();
      PrintItems(lenread);
      Compact();
    }

    /** The loop ends, and what it printed is a lawful listing of the whole file. So every byte is told at its place,
        and which ranges are kept clear is known from the ranges. */
    method Run(chunks: nat -> nat, ends: nat -> bool)
      requires Buffered() && SameJob() && heap.Valid() && job.heap == heap.synx
      requires fpos == p == q == 0 && offset == origin && log == []
      modifies `p, `q, `offset, `log, `fpos, `eof, `nextsync, `synclen, `steps, buffer, heap
      ensures Lawful(job, steps) && Replay(job, steps).log == log && Replay(job, steps).at >= |data|
      ensures Told(log, data, origin) && Total(log) >= |data|
      ensures Narrow(job) ==> (AllClear(log, job.heap) <==> AllClear(log, Known(job, steps)))
      ensures Narrow(job) ==> (AllClear(log, job.heap) <==> CallsClear(job, steps))
      ensures Narrow(job) && AllClear(log, job.heap) ==> !Crossed(job.heap, origin, origin + |data|)
      ensures Narrow(job) && Distinct(job.heap) ==>
        (AllClear(log, job.heap) <==> !Crossed(job.heap, origin, origin + |data|))
      ensures Narrow(job) && Tidy(job.heap, origin) ==> AllClear(log, job.heap)
      ensures Narrow(job) && Silent(job) ==>
        (AllClear(log, job.heap) <==> CourseClear(job.heap, origin, origin + |data|))
    {
      hide Lawful, Replay, Minus, Offset, Ordered, Told, Narrow, AllClear, Known, CallsClear, Crossed, Distinct, Silent,
        CourseClear, Tidy;
      Begin();
      var turn, more := 0, true;
      while more
        invariant Buffered() && OnCourse() && p < BUFFER
        invariant !more ==> p == q && fpos >= |data|
        decreases if fpos < |data| then |data| - fpos else 0, p - q, |heap.synx|, Due(), more
      {
        var lenread := Turn(chunks(turn));
        var feof := fpos >= |data| && ends(turn);
        more := lenread > 0 || !(eof || feof);
        turn := turn + 1;
      }
      RunIsTold(job, steps);
      if Narrow(job) {
        RangesAreKeptClear(job, steps);
        if Tidy(job.heap, origin) {
          TidyNeverCrosses(job.heap, origin, origin + |data|);
        }
      }
    }
  }

  /** The ranges cross, and there is no third one. */
  lemma TheyCross(h: seq<Sync>)
    requires multiset(h) == multiset{Sync(0, 10), Sync(5, 20)}
    ensures Crossed(h, 0, 30) && Distinct(h) && forall s :: s in h ==> Stop(s) < WRAP
    ensures forall log :: AllClear(log, [Sync(0, 10), Sync(5, 20)]) ==> AllClear(log, h)
  {
    var a, b := Sync(0, 10), Sync(5, 20);
    forall s
      ensures s in h <==> s == a || s == b
    {
      assert s in h <==> s in multiset(h);
    }
    assert Crossing(a, b) && !Enclosed(a, b, h, 30);
    forall log | AllClear(log, [a, b])
      ensures AllClear(log, h)
    {
      assert a in [a, b] && b in [a, b];
    }
  }

  /** Two ranges that cross are run over in every run over thirty bytes, whatever `disasm` says and adds. */
  method CrossingRangesAreRunOver(data: seq<Byte>, chunks: nat -> nat, ends: nat -> bool,
                                  disasm: (seq<Byte>, Word32) -> Answer) returns (log: seq<Event>)
    requires |data| == 30
    ensures Told(log, data, 0) && !AllClear(log, [Sync(0, 10), Sync(5, 20)])
  {
    hide Lawful, Replay, Told, Known, CourseClear, Inserted, Crossed, Distinct, AllClear, Ordered;
    var heap := new Heap();
    heap.Add(0, 10);
    heap.Add(5, 20);
    var session := new Session(data, 0, heap, disasm);
    TheyCross(heap.synx);
    session.Run(chunks, ends);
    log := session.log;
  }
}
