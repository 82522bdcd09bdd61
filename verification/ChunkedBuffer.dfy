/**
 The chunked byte buffer (lib/c/strbuff.c): blocks of one length, a write cursor and a read cursor,
 each kept both as a global position and as a block with a position inside it.

 It refines one flat byte sequence. `bytes` is everything the blocks hold; the buffer's contents are
 its first `totalLen` bytes.
 */
module ChunkedBuffer {
  import opened Common
  import opened Powers

  const BLOCK_LENGTH: nat := 0x1_0000

  /** `s` with `data` written from `pos` on, grown if it reaches past the end. */
  function Overwritten(s: seq<Byte>, pos: nat, data: seq<Byte>): (r: seq<Byte>)
    requires pos <= |s|
  {
    s[..pos] + data + (if pos + |data| <= |s| then s[pos + |data|..] else [])
  }

  /** What is sent: the source's bytes, or zeros when there is no source. */
  function Sent(src: Option<seq<Byte>>, len: nat): (d: seq<Byte>)
    requires src.Some? ==> |src.value| == len
    ensures |d| == len && (src.None? ==> forall i :: 0 <= i < len ==> d[i] == 0)
  {
    if src.Some? then src.value else seq(len, _ => 0)
  }

  function Max(a: nat, b: nat): nat {
    if a < b then b else a
  }

  lemma OverwrittenTwice(s: seq<Byte>, pos: nat, a: seq<Byte>, b: seq<Byte>)
    requires pos <= |s|
    ensures Overwritten(Overwritten(s, pos, a), pos + |a|, b) == Overwritten(s, pos, a + b)
  {
  }

  // ---------- Blocks end to end ----------

  /** Where block `k` starts: k * len, also for the block one before the first. */
  function Start(k: int, len: nat): (r: int)
    requires -1 <= k
    ensures 0 <= k ==> 0 <= r
  {
    if k == -1 then 0 - len else if k == 0 then 0 else Start(k - 1, len) + len
  }

  lemma {:induction false} StartIsProduct(k: nat, len: nat)
    ensures Start(k, len) == k * len
  {
    if k > 0 {
      StartIsProduct(k - 1, len);
      assert k * len == (k - 1) * len + len;
    }
  }

  lemma {:induction false} StartGrows(j: int, k: int, len: nat)
    requires -1 <= j < k && len > 0
    ensures Start(j, len) + len <= Start(k, len)
  {
    if j < k - 1 {
      StartGrows(j, k - 1, len);
    }
  }

  function Joined(vs: seq<seq<Byte>>): seq<Byte> {
    if vs == [] then [] else vs[0] + Joined(vs[1..])
  }

  ghost predicate AllOf(vs: seq<seq<Byte>>, len: nat) {
    forall k :: 0 <= k < |vs| ==> |vs[k]| == len
  }

  lemma {:induction false} JoinedConcat(a: seq<seq<Byte>>, b: seq<seq<Byte>>)
    ensures Joined(a + b) == Joined(a) + Joined(b)
  {
    if a == [] {
      assert a + b == b;
    } else {
      JoinedConcat(a[1..], b);
      assert (a + b)[1..] == a[1..] + b;
      assert a[0] + (Joined(a[1..]) + Joined(b)) == (a[0] + Joined(a[1..])) + Joined(b);
    }
  }

  lemma JoinedAppended(vs: seq<seq<Byte>>, v: seq<Byte>, len: nat, n: nat)
    requires AllOf(vs, len) && |v| == len && n <= Start(|vs|, len)
    ensures AllOf(vs + [v], len) && |Joined(vs)| == Start(|vs|, len) && |Joined(vs + [v])| == Start(|vs| + 1, len)
    ensures Joined(vs + [v])[..n] == Joined(vs)[..n]
  {
    JoinedConcat(vs, [v]);
    JoinedLength(vs, len);
    JoinedLength(vs + [v], len);
  }

  lemma {:induction false} JoinedLength(vs: seq<seq<Byte>>, len: nat)
    requires AllOf(vs, len)
    ensures |Joined(vs)| == Start(|vs|, len)
  {
    if vs != [] {
      JoinedLength(vs[1..], len);
    }
  }

  /** With block `p` replaced by `v`. */
  lemma JoinedReplaced(vs: seq<seq<Byte>>, p: nat, v: seq<Byte>)
    requires p < |vs|
    ensures Joined(vs[p := v]) == Joined(vs[..p]) + v + Joined(vs[p + 1..])
  {
    assert vs[p := v] == vs[..p] + ([v] + vs[p + 1..]);
    JoinedConcat(vs[..p], [v] + vs[p + 1..]);
    assert ([v] + vs[p + 1..])[1..] == vs[p + 1..];
  }

  /** Around block `p`. */
  lemma JoinedAround(vs: seq<seq<Byte>>, p: nat, len: nat)
    requires p < |vs| && AllOf(vs, len)
    ensures Joined(vs) == Joined(vs[..p]) + vs[p] + Joined(vs[p + 1..])
    ensures |Joined(vs[..p])| == Start(p, len)
  {
    assert vs[p := vs[p]] == vs;
    JoinedReplaced(vs, p, vs[p]);
    JoinedLength(vs[..p], len);
  }

  /** Writing inside block `p` is writing at the global position. */
  lemma JoinedWrite(vs: seq<seq<Byte>>, p: nat, inn: nat, data: seq<Byte>, len: nat)
    requires p < |vs| && AllOf(vs, len) && inn + |data| <= len
    ensures Start(p, len) + inn + |data| <= |Joined(vs)|
    ensures Joined(vs[p := Overwritten(vs[p], inn, data)]) == Overwritten(Joined(vs), Start(p, len) + inn, data)
  {
    hide Joined, Overwritten;
    JoinedAround(vs, p, len);
    JoinedReplaced(vs, p, Overwritten(vs[p], inn, data));
    OverwrittenInside(Joined(vs[..p]), vs[p], Joined(vs[p + 1..]), inn, data);
  }

  lemma OverwrittenInside(a: seq<Byte>, b: seq<Byte>, c: seq<Byte>, inn: nat, data: seq<Byte>)
    requires inn + |data| <= |b|
    ensures Overwritten(a + b + c, |a| + inn, data) == a + Overwritten(b, inn, data) + c
  {
  }

  /** Reading inside block `p` is reading at the global position. */
  lemma JoinedRead(vs: seq<seq<Byte>>, p: nat, inn: nat, n: nat, len: nat)
    requires p < |vs| && AllOf(vs, len) && inn + n <= len
    ensures Start(p, len) + inn + n <= |Joined(vs)|
    ensures Joined(vs)[Start(p, len) + inn..Start(p, len) + inn + n] == vs[p][inn..inn + n]
  {
    JoinedAround(vs, p, len);
  }

  lemma Located(pos: nat, len: nat)
    requires len > 0
    ensures pos == Start(pos / len, len) + pos % len && pos % len < len
  {
    StartIsProduct(pos / len, len);
  }

  lemma LocatedUpTo(pos: nat, len: nat, count: nat)
    requires len > 0 && pos <= Start(count, len)
    ensures pos / len <= count && (pos / len == count ==> pos % len == 0)
  {
    Located(pos, len);
    if pos / len > count {
      StartGrows(count, pos / len, len);
    }
  }

  /** Block and inner position of a global position. */
  method Locate(pos: nat, len: nat, ghost count: nat) returns (ix: nat, inn: nat)
    requires len > 0 && pos <= Start(count, len)
    ensures pos == Start(ix, len) + inn && inn < len
    ensures ix <= count && (ix == count ==> inn == 0)
  {
    Located(pos, len);
    LocatedUpTo(pos, len, count);
    ix, inn := pos / len, pos % len;
  }

  class Buffer {
    var elmLen: nat
    var blkLen: nat
    var blkCnt: nat
    var blkCapacity: nat      // slots of the block pointer array
    var allocLen: nat
    var totalLen: nat
    var p: int                // write cursor: block, position in it, global position
    var pInn: nat
    var pGlb: nat
    var q: nat                // read cursor
    var qInn: nat
    var qGlb: nat
    var blks: seq<seq<Byte>>  // the blocks

    /** The blocks have one length and there is room for the contents. */
    ghost predicate Stored()
      reads `blkLen, `blkCnt, `blkCapacity, `allocLen, `totalLen, `blks
    {
      && blkLen > 0 && |blks| == blkCnt && 1 <= blkCnt <= blkCapacity
      && totalLen <= allocLen == Start(blkCnt, blkLen)
      && AllOf(blks, blkLen)
    }

    /** global == block * length + inner, and for writing also one before the first block. */
    ghost predicate Cursors()
      reads `blkLen, `blkCnt, `totalLen, `p, `pInn, `pGlb, `q, `qInn, `qGlb
    {
      && -1 <= p < blkCnt && pGlb == Start(p, blkLen) + pInn && pInn <= blkLen && pGlb <= totalLen
      && q <= blkCnt && qGlb == Start(q, blkLen) + qInn && qInn <= blkLen && qGlb <= totalLen
    }

    ghost predicate Valid()
      reads this
    {
      Stored() && Cursors()
    }

    ghost function Contents(): (c: seq<Byte>)
      requires Stored()
      reads `blkLen, `blkCnt, `blkCapacity, `allocLen, `totalLen, `blks
      ensures |c| == totalLen
    {
      JoinedLength(blks, blkLen);
      Joined(blks)[..totalLen]
    }

    constructor (elmLen: nat)
      requires elmLen > 0
      ensures Valid() && Contents() == [] && pGlb == 0 && qGlb == 0
      ensures blkLen % elmLen == 0
    {
      var len := if elmLen >= BLOCK_LENGTH then elmLen else BLOCK_LENGTH - BLOCK_LENGTH % elmLen;
      this.elmLen, blkLen, allocLen := elmLen, len, len;
      blkCnt, blkCapacity, totalLen := 1, 1, 0;
      blks := [seq(len, _ => 0)];
      p, pInn, pGlb, q, qInn, qGlb := 0, 0, 0, 0, 0, 0;
      new;
      BlockIsMultiple(elmLen);
    }

    /** `StrbuffBalloc`: one more block, holding anything; the pointer array doubles when it is full. */
    method AddBlock(block: seq<Byte>)
      requires Valid() && |block| == blkLen
      modifies `blkCnt, `blkCapacity, `blks, `allocLen
      ensures Valid() && Contents() == old(Contents()) && blkCnt == old(blkCnt) + 1
    {
      JoinedAppended(blks, block, blkLen, totalLen);
      if blkCnt >= blkCapacity {
        blkCapacity := 2 * blkCapacity;
      }
      blkCnt, allocLen, blks := blkCnt + 1, allocLen + blkLen, blks + [block];
    }

    /** Copies a chunk that fits the current block to the write cursor. */
    method WriteChunk(chunk: seq<Byte>)
      requires Valid() && 0 <= p && pInn + |chunk| <= blkLen
      modifies `pInn, `pGlb, `totalLen, `blks
      ensures Valid() && Contents() == Overwritten(old(Contents()), old(pGlb), chunk)
      ensures pInn == old(pInn) + |chunk| && pGlb == old(pGlb) + |chunk|
    {
      JoinedWrite(blks, p, pInn, chunk, blkLen);
      JoinedLength(blks, blkLen);
      OverwrittenPrefix(Joined(blks), totalLen, pGlb, chunk);
      blks := blks[p := Overwritten(blks[p], pInn, chunk)];
      pInn, pGlb := pInn + |chunk|, pGlb + |chunk|;
      totalLen := Max(totalLen, pGlb);
    }

    /** Moves the write cursor from the end of its block to the start of the next, which may be new. */
    method NextBlock()
      requires Valid() && pInn == blkLen
      modifies `p, `pInn, `blkCnt, `blkCapacity, `blks, `allocLen
      ensures Valid() && Contents() == old(Contents()) && pInn == 0 && 0 <= p
    {
      AtBlockEnd(p, blkCnt, blkLen, pGlb, allocLen);
      if pGlb >= allocLen {
        AddBlock(seq(blkLen, _ => 0));
      }
      p := p + 1;
      pInn := 0;
    }

    /** One turn of the loop of `StrbuffSend`: fill the block as far as the data goes, then move on. */
    method SendPiece(src: Option<seq<Byte>>, n: nat, len: nat) returns (n': nat)
      requires Valid() && n < len && (src.Some? ==> |src.value| == len)
      modifies `p, `pInn, `pGlb, `totalLen, `blkCnt, `blkCapacity, `blks, `allocLen
      ensures Valid()
      ensures n <= n' <= len && (n < n' || pInn < old(pInn))
      ensures Contents() == Overwritten(old(Contents()), old(pGlb), Sent(src, len)[n..n'])
        && pGlb == old(pGlb) + (n' - n)
    {
      var l := Min(blkLen - pInn, len - n);
      n' := n + l;
      if l > 0 {
        NotBeforeFirst(p, pInn, blkLen, pGlb);
        var chunk := if src.Some? then src.value[n..n'] else seq(l, _ => 0);
        assert chunk == Sent(src, len)[n..n'];
        WriteChunk(chunk);
      } else {
        assert Overwritten(Contents(), pGlb, Sent(src, len)[n..n]) == Contents();
      }
      if n' < len {
        NextBlock();
      }
    }

    /** `StrbuffSend`: `len` bytes of `src`, or zeros, written at the write cursor, block by block. */
    method Send(src: Option<seq<Byte>>, len: nat)
      requires Valid() && (src.Some? ==> |src.value| == len)
      modifies `p, `pInn, `pGlb, `totalLen, `blkCnt, `blkCapacity, `blks, `allocLen
      ensures Valid()
      ensures Contents() == Overwritten(old(Contents()), old(pGlb), Sent(src, len))
      ensures pGlb == old(pGlb) + len
    {
      var n := 0;
      ghost var before, pos, data := Contents(), pGlb, Sent(src, len);
      assert Overwritten(before, pos, data[..0]) == before;
      hide Overwritten, Sent;
      while n < len
        invariant n <= len && Valid()
        invariant pGlb == pos + n
        invariant Contents() == Overwritten(before, pos, data[..n])
        decreases len - n, pInn
      {
        ghost var m := n;
        n := SendPiece(src, n, len);
        OverwrittenTwice(before, pos, data[..m], data[m..n]);
        assert data[..m] + data[m..n] == data[..n];
      }
      assert data[..len] == data;
    }

    /** `StrbuffSendx`: the same from a given position on; beyond the end nothing happens. */
    method SendAt(pos: nat, src: Option<seq<Byte>>, len: nat)
      requires Valid() && (src.Some? ==> |src.value| == len)
      modifies `p, `pInn, `pGlb, `totalLen, `blkCnt, `blkCapacity, `blks, `allocLen
      ensures Valid()
      ensures Contents() ==
        if pos <= |old(Contents())| then Overwritten(old(Contents()), pos, Sent(src, len)) else old(Contents())
      ensures pGlb == if pos <= |old(Contents())| then pos + len else old(pGlb)
    {
      if pos > totalLen {
        return;
      }
      SeekWrite(pos);
      Send(src, len);
    }

    /** The write cursor goes to the end of a block rather than to the start of the next, so to -1 for position 0. */
    method SeekWrite(pos: nat)
      requires Valid() && pos <= totalLen
      modifies `p, `pInn, `pGlb
      ensures Valid() && Contents() == old(Contents()) && pGlb == pos
    {
      var ix, inn := Locate(pos, blkLen, blkCnt);
      p, pInn, pGlb := ix, inn, pos;
      if pInn == 0 {
        pInn := blkLen;
        p := p - 1;
      }
    }

    /** `StrbuffRewind` */
    method Rewind()
      requires Valid()
      modifies `q, `qInn, `qGlb
      ensures Valid() && Contents() == old(Contents()) && qGlb == 0
    {
      q, qInn, qGlb := 0, 0, 0;
    }

    /** `StrbuffRead`: the bytes at the read cursor, at most `want` and at most to the end of a block. */
    method Read(want: nat) returns (data: Option<seq<Byte>>, len: nat)
      requires Valid()
      modifies `q, `qInn, `qGlb
      ensures Valid() && Contents() == old(Contents())
      ensures data.None? <==> old(qGlb) >= |old(Contents())|
      ensures data.None? ==> len == 0 && qGlb == old(qGlb)
      ensures data.Some? ==> len <= want && (want > 0 ==> len > 0)
      ensures data.Some? ==> qGlb == old(qGlb) + len <= |Contents()| && data.value == Contents()[old(qGlb)..qGlb]
    {
      if qGlb >= totalLen {
        return None, 0;
      }
      EnterBlock();
      len := Min(Min(want, totalLen - qGlb), blkLen - qInn);
      var bytes := TakeHere(len);
      data := Some(bytes);
    }

    /** Moves the read cursor from the end of a block to the start of the next. */
    method EnterBlock()
      requires Valid() && qGlb < totalLen
      modifies `q, `qInn
      ensures Valid() && q < blkCnt && qInn < blkLen
    {
      ReadCursorFits(q, qInn, qGlb, blkCnt, blkLen, totalLen);
      if qInn >= blkLen {
        q, qInn := q + 1, 0;
      }
    }

    method TakeHere(len: nat) returns (data: seq<Byte>)
      requires Valid() && q < blkCnt && qInn + len <= blkLen && qGlb + len <= totalLen
      modifies `qInn, `qGlb
      ensures Valid() && qGlb == old(qGlb) + len && data == Contents()[old(qGlb)..qGlb]
    {
      data := blks[q][qInn..qInn + len];
      JoinedLength(blks, blkLen);
      JoinedRead(blks, q, qInn, len, blkLen);
      SlicePrefix(Joined(blks), totalLen, qGlb, qGlb + len);
      qInn, qGlb := qInn + len, qGlb + len;
    }

    /** `StrbuffPop`: `len` bytes from the read cursor on; if there are not as many, nothing happens. */
    method Pop(len: nat) returns (data: seq<Byte>)
      requires Valid()
      modifies `q, `qInn, `qGlb
      ensures Valid() && Contents() == old(Contents())
      ensures if old(qGlb) + len <= |old(Contents())|
        then data == old(Contents())[old(qGlb)..old(qGlb) + len] && qGlb == old(qGlb) + len
        else data == [] && qGlb == old(qGlb)
    {
      data := [];
      if qGlb + len > totalLen {
        return;
      }
      ghost var all, start := Contents(), qGlb;
      while |data| < len
        invariant Valid() && Contents() == all && |data| <= len
        invariant qGlb == start + |data| && data == all[start..qGlb]
        decreases len - |data|
      {
        var piece, l := Read(len - |data|);
        assert all[start..start + |data|] + all[start + |data|..qGlb] == all[start..qGlb];
        data := data + piece.value;
      }
    }

    /** `StrbuffPopx`: the same from a given position on. */
    method PopAt(pos: nat, len: nat) returns (data: seq<Byte>)
      requires Valid()
      modifies `q, `qInn, `qGlb
      ensures Valid() && Contents() == old(Contents())
      ensures data == if pos + len <= |Contents()| then Contents()[pos..pos + len] else []
    {
      if pos + len > totalLen {
        return [];
      }
      var ix, inn := Locate(pos, blkLen, blkCnt);
      q, qInn, qGlb := ix, inn, pos;
      data := Pop(len);
    }

    /** What is written at a position is read back from it. */
    method WriteThenRead(pos: nat, bytes: seq<Byte>) returns (back: seq<Byte>)
      requires Valid() && pos <= totalLen
      modifies this
      ensures Valid() && back == bytes
    {
      ghost var before := Contents();
      SendAt(pos, Some(bytes), |bytes|);
      assert Overwritten(before, pos, bytes)[pos..pos + |bytes|] == bytes;
      back := PopAt(pos, |bytes|);
    }
  }

  lemma SlicePrefix(s: seq<Byte>, total: nat, a: nat, b: nat)
    requires a <= b <= total <= |s|
    ensures s[..total][a..b] == s[a..b]
  {
  }

  lemma ReadCursorFits(q: nat, inn: nat, glb: nat, count: nat, len: nat, total: nat)
    requires len > 0 && glb == Start(q, len) + inn && inn <= len && glb < total <= Start(count, len)
    ensures q < count && (inn == len ==> q + 1 < count && glb == Start(q + 1, len))
  {
    if count < q {
      StartGrows(count, q, len);
    }
    if count < q + 1 {
      StartGrows(count, q + 1, len);
    }
  }

  lemma NotBeforeFirst(p: int, inn: nat, len: nat, glb: nat)
    requires -1 <= p && inn < len && glb == Start(p, len) + inn
    ensures 0 <= p
  {
  }

  lemma AtBlockEnd(p: int, count: nat, len: nat, glb: int, alloc: int)
    requires len > 0 && -1 <= p < count && glb == Start(p, len) + len && alloc == Start(count, len)
    ensures glb == Start(p + 1, len)
    ensures glb < alloc ==> p + 1 < count
    ensures glb >= alloc ==> p + 1 == count
  {
    if p + 1 < count {
      StartGrows(p + 1, count, len);
    }
  }

  lemma OverwrittenPrefix(s: seq<Byte>, total: nat, pos: nat, data: seq<Byte>)
    requires pos <= total <= |s| && pos + |data| <= |s|
    ensures |Overwritten(s, pos, data)| == |s|
    ensures Overwritten(s, pos, data)[..Max(total, pos + |data|)] == Overwritten(s[..total], pos, data)
  {
  }

  lemma BlockIsMultiple(elmLen: nat)
    requires elmLen > 0
    ensures (if elmLen >= BLOCK_LENGTH then elmLen else BLOCK_LENGTH - BLOCK_LENGTH % elmLen) % elmLen == 0
  {
    var k := if elmLen >= BLOCK_LENGTH then 1 else BLOCK_LENGTH / elmLen;
    var len := if elmLen >= BLOCK_LENGTH then elmLen else BLOCK_LENGTH - BLOCK_LENGTH % elmLen;
    assert len == k * elmLen;
    QuotientIs(len, elmLen, k);
  }
}
