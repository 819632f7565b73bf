/** MemoryPoolAllocator: blocks cut from a linked list of chunks and never freed one by one. */
module Pool {
  import opened Bytes

  /** The largest request that the alignment macro rounds up. */
  const LIMIT: nat := 0xFFFF_FFF8

  const HEADER_SIZE := 24
  const DEFAULT_CAPACITY := 64 * 1024

  /** RAPIDJSON_ALIGN on a 64-bit machine: the mask is a 32-bit constant, so the upper half of
      the size is lost. */
  function Align(x: nat): nat {
    (x + 7) % U32 / 8 * 8
  }

  /** The macro rounds up to the next multiple of eight if and only if the size is at most
      2^32 - 8; every larger size comes out smaller than it went in. */
  lemma AlignCovers(x: nat)
    ensures x <= LIMIT <==> x <= Align(x)
    ensures x <= LIMIT ==> Align(x) < x + 8 && Align(x) % 8 == 0
  {
  }

  class Chunk {
    const data: array<byte>
    var size: nat
    const next: Chunk?

    constructor (capacity: nat, rest: Chunk?)
      ensures fresh(data) && data.Length == capacity && size == 0 && next == rest
    {
      data := new byte[capacity];
      size, next := 0, rest;
    }
  }

  datatype Ptr = Null | Ptr(chunk: Chunk, offset: nat)

  /** A block that was handed out: what was asked for and what was set aside. */
  datatype Block = Block(chunk: Chunk, offset: nat, size: nat, room: nat)

  /** What was set aside for two blocks does not overlap. */
  predicate Apart(a: Block, b: Block) {
    || a.chunk != b.chunk
    || a.room == 0 || b.room == 0
    || a.offset + a.room <= b.offset || b.offset + b.room <= a.offset
  }

  /** What a user of both blocks relies on: their bytes do not overlap. */
  predicate Disjoint(a: Block, b: Block) {
    a.chunk != b.chunk || a.offset + a.size <= b.offset || b.offset + b.size <= a.offset
  }

  ghost predicate AllApart(bs: seq<Block>) {
    forall i, j :: 0 <= i < j < |bs| ==> Apart(bs[i], bs[j])
  }

  ghost predicate AllCovered(bs: seq<Block>) {
    forall i :: 0 <= i < |bs| ==> 0 < bs[i].size && (bs[i].size <= LIMIT ==> bs[i].size <= bs[i].room)
  }

  /** Blocks of sizes within the limit do not overlap. */
  lemma LiveBlocksDisjoint(bs: seq<Block>, i: nat, j: nat)
    requires AllApart(bs) && AllCovered(bs) && i < j < |bs|
    requires bs[i].size <= LIMIT && bs[j].size <= LIMIT
    ensures Disjoint(bs[i], bs[j])
  {
    assert Apart(bs[i], bs[j]);
  }

  lemma ApartAdd(bs: seq<Block>, b: Block)
    requires AllApart(bs) && forall i :: 0 <= i < |bs| ==> Apart(bs[i], b)
    ensures AllApart(bs + [b])
  {
  }

  lemma CoveredAdd(bs: seq<Block>, b: Block)
    requires AllCovered(bs) && 0 < b.size && (b.size <= LIMIT ==> b.size <= b.room)
    ensures AllCovered(bs + [b])
  {
  }

  class MemoryPoolAllocator {
    var head: Chunk?
    const chunkCapacity: nat
    const userBuffer: Chunk?
    ghost var chunks: seq<Chunk>   // the linked list, newest chunk first
    ghost var blocks: seq<Block>

    ghost predicate Linked()
      reads this
    {
      && (head == null <==> chunks == [])
      && (head != null ==> head == chunks[0])
      && (forall i :: 0 <= i < |chunks| - 1 ==> chunks[i].next == chunks[i + 1])
      && (chunks != [] ==> chunks[|chunks| - 1].next == null)
      && (forall i, j :: 0 <= i < j < |chunks| ==> chunks[i] != chunks[j] && chunks[i].data != chunks[j].data)
      && (userBuffer != null ==> chunks != [] && chunks[|chunks| - 1] == userBuffer)
    }

    /** Every block lies in the used part of one of the chunks. */
    ghost predicate Inside()
      reads this, chunks
    {
      && (forall c :: c in chunks ==> c.size <= c.data.Length)
      && (forall i :: 0 <= i < |blocks| ==>
            blocks[i].chunk in chunks && blocks[i].offset + blocks[i].room <= blocks[i].chunk.size)
    }

    ghost predicate Valid()
      reads this, chunks
    {
      Linked() && Inside() && AllApart(blocks) && AllCovered(blocks)
    }

    constructor (chunkSize: nat)
      ensures Valid() && chunks == [] && blocks == [] && userBuffer == null && chunkCapacity == chunkSize
    {
      head, userBuffer, chunkCapacity := null, null, chunkSize;
      chunks, blocks := [], [];
    }

    constructor WithBuffer(size: nat, chunkSize: nat)
      requires size > HEADER_SIZE
      ensures Valid() && blocks == [] && userBuffer != null && chunks == [userBuffer] && chunkCapacity == chunkSize
      ensures fresh(userBuffer) && fresh(userBuffer.data) && userBuffer.data.Length == size - 24
    {
      var c := new Chunk(size - HEADER_SIZE, null);
      head, userBuffer, chunkCapacity := c, c, chunkSize;
      chunks, blocks := [c], [];
    }

    method AddChunk(capacity: nat)
      requires Valid()
      modifies this
      ensures Valid() && blocks == old(blocks)
      ensures head != null && fresh(head) && fresh(head.data) && chunks == [head] + old(chunks)
      ensures head.size == 0 && head.data.Length == capacity
    {
      var c := new Chunk(capacity, head);
      chunks := [c] + chunks;
      head := c;
    }

    /** The head chunk has room for `n` bytes, from its end of used bytes on. */
    ghost predicate Fits(n: nat)
      reads this, head
    {
      head != null && head.size + n <= head.data.Length
    }

    ghost function End(): nat
      reads this, head
    {
      if head == null then 0 else head.size
    }

    /** Cuts a block of `n` bytes from the head chunk for a request of `size` bytes. */
    method Carve(size: nat, n: nat) returns (p: Ptr)
      requires Valid() && head != null && head.size + n <= head.data.Length
      requires 0 < size && (size <= LIMIT ==> size <= n)
      modifies this`blocks, head`size
      ensures Valid()
      ensures p == Ptr(head, old(head.size)) && blocks == old(blocks) + [Block(head, p.offset, size, n)]
      ensures head.size == old(head.size) + n
    {
      hide AllApart, AllCovered;
      var b := Block(head, head.size, size, n);
      assert forall i :: 0 <= i < |blocks| ==> Apart(blocks[i], b);
      ApartAdd(blocks, b);
      CoveredAdd(blocks, b);
      p := Ptr(head, head.size);
      blocks := blocks + [b];
      head.size := head.size + n;
    }

    /** Whatever the size, what is set aside lies inside one chunk and apart from all other
        blocks; it covers the request if and only if the size is within the limit. */
    method Malloc(size: nat) returns (p: Ptr)
      requires Valid()
      modifies this, chunks
      ensures Valid()
      ensures size == 0 ==> p == Null && blocks == old(blocks) && chunks == old(chunks)
      ensures size > 0 ==>
                && p.Ptr? && blocks == old(blocks) + [Block(p.chunk, p.offset, size, Align(size))]
                && (size <= LIMIT <==> size <= Align(size))
                && head != null && p.chunk == head && head.size == p.offset + Align(size)
                && (if old(Fits(Align(size))) then head == old(head) && p.offset == old(End())
                    else fresh(head) && p.offset == 0
                         && head.data.Length == if chunkCapacity > Align(size) then chunkCapacity else Align(size))
      ensures || chunks == old(chunks)
              || (|chunks| > 0 && fresh(chunks[0]) && fresh(chunks[0].data) && chunks[1..] == old(chunks))
      ensures forall c :: c in old(chunks) ==> c.size >= old(c.size)
    {
      hide Align, AllApart, AllCovered;
      AlignCovers(size);
      if size == 0 {
        return Null;
      }
      var n := Align(size);
      if head == null || head.size + n > head.data.Length {
        AddChunk(if chunkCapacity > n then chunkCapacity else n);
      }
      p := Carve(size, n);
    }

    /** The bytes of a block. */
    ghost function BytesOf(b: Block): bytes
      requires b.offset + b.room <= b.chunk.data.Length
      reads b.chunk.data
    {
      b.chunk.data[b.offset..b.offset + b.room]
    }

    method Capacity() returns (n: nat)
      requires Valid()
      ensures n == TotalCapacity(chunks)
    {
      n := 0;
      var c := head;
      ghost var i := 0;
      assert chunks[0..] == chunks;
      while c != null
        invariant i <= |chunks| && (c == null <==> i == |chunks|) && (c != null ==> c == chunks[i])
        invariant n + TotalCapacity(chunks[i..]) == TotalCapacity(chunks)
        decreases |chunks| - i
      {
        assert chunks[i..][1..] == chunks[i + 1..];
        n := n + c.data.Length;
        c := c.next;
        i := i + 1;
      }
    }

    method Size() returns (n: nat)
      requires Valid()
      ensures n == TotalSize(chunks) <= TotalCapacity(chunks)
    {
      n := 0;
      var c := head;
      ghost var i := 0;
      assert chunks[0..] == chunks;
      SizeFits(chunks);
      while c != null
        invariant i <= |chunks| && (c == null <==> i == |chunks|) && (c != null ==> c == chunks[i])
        invariant n + TotalSize(chunks[i..]) == TotalSize(chunks)
        decreases |chunks| - i
      {
        assert chunks[i..][1..] == chunks[i + 1..];
        n := n + c.size;
        c := c.next;
        i := i + 1;
      }
    }

    /** Frees the newest chunk. */
    method DropChunk()
      requires Valid() && blocks == [] && head != null && head != userBuffer
      modifies `head, `chunks
      ensures Valid() && chunks == old(chunks)[1..]
    {
      var next := head.next;
      assert |chunks| > 1 ==> chunks[0].next == chunks[1];
      chunks := chunks[1..];
      head := next;
    }

    /** Gives up all blocks and all chunks but the user's buffer, which becomes empty. */
    method Clear()
      requires Valid()
      modifies this, chunks
      ensures Valid() && blocks == []
      ensures userBuffer == null ==> chunks == []
      ensures userBuffer != null ==> chunks == [userBuffer] && userBuffer.size == 0
    {
      blocks := [];
      while head != null && head != userBuffer
        modifies `head, `chunks
        invariant Valid() && blocks == []
        invariant forall c :: c in chunks ==> c in old(chunks)
        decreases |chunks|
      {
        DropChunk();
      }
      if head != null && head == userBuffer {
        head.size := 0;
      }
    }

    // ---------- resizing ----------

    /** `p` is the k-th live block, of which the caller uses `size` bytes. */
    ghost predicate IsBlock(p: Ptr, k: nat, size: nat)
      reads this
    {
      && p.Ptr? && k < |blocks| && blocks[k].chunk == p.chunk && blocks[k].offset == p.offset
      && size <= blocks[k].room
    }

    /** All blocks that were there, except the one at `skip`, are there unchanged, and so are
        their bytes. */
    twostate predicate Kept(skip: int)
      requires old(Valid()) && Valid()
      reads this, chunks, set c | c in chunks :: c.data
    {
      forall i :: 0 <= i < |old(blocks)| && i != skip ==>
        i < |blocks| && blocks[i] == old(blocks)[i] && BytesOf(blocks[i]) == old(BytesOf(blocks[i]))
    }

    /** Lets the last block of the head chunk grow where it is. */
    method Expand(p: Ptr, ghost k: nat, originalSize: nat, newSize: nat, increment: nat)
      requires Valid() && IsBlock(p, k, originalSize) && head != null
      requires p.chunk == head && p.offset + originalSize == head.size && originalSize < newSize
      requires head.size + increment <= head.data.Length
      requires newSize <= LIMIT ==> newSize <= originalSize + increment
      modifies this`blocks, head`size
      ensures Valid() && blocks == old(blocks)[k := Block(p.chunk, p.offset, newSize, originalSize + increment)]
    {
      hide AllCovered;
      ghost var b := Block(p.chunk, p.offset, newSize, originalSize + increment);
      assert forall i :: 0 <= i < |blocks| && i != k ==> Apart(blocks[i], b) by {
        OthersApart(blocks, k, head.size, b);
      }
      CoveredUpdate(blocks, k, b);
      ApartUpdate(blocks, k, b);
      blocks := blocks[k := b];
      head.size := head.size + increment;
    }

    /** Makes a block larger, where it is if it ends the head chunk and there is room. */
    method Enlarge(p: Ptr, ghost k: nat, originalSize: nat, newSize: nat)
      returns (q: Ptr, ghost j: nat, fits: bool)
      requires Valid() && IsBlock(p, k, originalSize) && originalSize < newSize
      modifies this, chunks, set c | c in chunks :: c.data
      ensures Valid() && q.Ptr? && (newSize <= LIMIT ==> IsBlock(q, j, newSize))
      ensures newSize <= LIMIT || originalSize <= Align(newSize) ==> fits
      ensures fits ==> Kept(k)
      ensures fits ==>
                && q.offset + originalSize <= q.chunk.data.Length
                && q.chunk.data[q.offset..q.offset + originalSize]
                   == old(p.chunk.data[p.offset..p.offset + originalSize])
    {
      hide Align, AllApart, AllCovered;
      if head != null && p.chunk == head && p.offset + originalSize == head.size {
        var increment := Align(newSize - originalSize);
        AlignCovers(newSize - originalSize);
        if head.size + increment <= head.data.Length {
          Expand(p, k, originalSize, newSize, increment);
          q, j, fits := p, k, true;
          return;
        }
      }
      j := |blocks|;
      q, fits := MoveTo(p, k, originalSize, newSize);
    }

    /** Malloc leaves the bytes of every block alone. */
    method MallocBeside(size: nat) returns (p: Ptr)
      requires Valid()
      modifies this, chunks
      ensures Valid() && (p == Null <==> size == 0)
      ensures size == 0 ==> blocks == old(blocks)
      ensures size > 0 ==> blocks == old(blocks) + [Block(p.chunk, p.offset, size, Align(size))]
      ensures Kept(-1)
    {
      hide Align, AllApart, AllCovered;
      p := Malloc(size);
    }

    /** What is not resized stays as it is. */
    method Leave(p: Ptr, ghost k: nat, ghost size: nat) returns (q: Ptr)
      requires Valid() && IsBlock(p, k, size)
      ensures q == p && Kept(k) && p.offset + size <= p.chunk.data.Length
    {
      q := p;
    }

    /** Realloc. If the new size is within the limit, the block covers it. The first
        `originalSize` bytes are kept and every other live block is left as it is, whether the
        block grows in place or moves; `fits` is false where the copy would leave the new block,
        which can only happen beyond the limit. */
    method Realloc(p: Ptr, ghost k: nat, originalSize: nat, newSize: nat)
      returns (q: Ptr, ghost j: nat, fits: bool)
      requires Valid() && (p.Ptr? ==> IsBlock(p, k, originalSize))
      modifies this, chunks, set c | c in chunks :: c.data
      ensures Valid()
      ensures q == Null <==> newSize == 0
      ensures newSize == 0 ==> blocks == old(blocks)
      ensures newSize <= LIMIT || originalSize <= Align(newSize) ==> fits
      ensures fits ==> Kept(if p == Null then -1 else k)
      ensures q.Ptr? && newSize <= LIMIT ==> IsBlock(q, j, newSize)
      ensures fits && p.Ptr? && q.Ptr? ==>
                && q.offset + originalSize <= q.chunk.data.Length
                && q.chunk.data[q.offset..q.offset + originalSize]
                   == old(p.chunk.data[p.offset..p.offset + originalSize])
    {
      hide Align, AllApart, AllCovered, Linked, Inside, Kept;
      j, fits := if p == Null then |blocks| else k, true;
      if p == Null {
        q := MallocBeside(newSize);
        AlignCovers(newSize);
      } else if newSize == 0 {
        q := Leave(p, k, originalSize);
        q := Null;
      } else if originalSize >= newSize {
        q := Leave(p, k, originalSize);
      } else {
        q, j, fits := Enlarge(p, k, originalSize, newSize);
      }
    }

    /** Allocates anew and copies; the old block stays as it is. */
    method MoveTo(p: Ptr, ghost k: nat, originalSize: nat, newSize: nat) returns (q: Ptr, fits: bool)
      requires Valid() && IsBlock(p, k, originalSize) && originalSize < newSize
      modifies this, chunks, set c | c in chunks :: c.data
      ensures Valid() && q.Ptr? && |blocks| == |old(blocks)| + 1
      ensures newSize <= LIMIT ==> IsBlock(q, |old(blocks)|, newSize)
      ensures fits == (originalSize <= Align(newSize)) && (newSize <= LIMIT ==> fits)
      ensures Kept(-1)
      ensures fits ==>
                && q.offset + originalSize <= q.chunk.data.Length
                && q.chunk.data[q.offset..q.offset + originalSize]
                   == old(p.chunk.data[p.offset..p.offset + originalSize])
    {
      hide Align, AllApart, AllCovered, Linked;
      ghost var was := blocks;
      q := Malloc(newSize);
      AlignCovers(newSize);
      assert blocks[|was|] == Block(q.chunk, q.offset, newSize, Align(newSize));
      assert q.chunk in old(chunks) || (q.chunk == chunks[0] && fresh(q.chunk.data)) by {
        if chunks != old(chunks) {
          assert chunks == [chunks[0]] + chunks[1..];
        }
      }
      fits := originalSize <= Align(newSize);
      if fits {
        CopyInto(p, q, originalSize);
      }
    }

    /** Fills the newest block from another one; all older blocks keep their bytes. */
    method CopyInto(p: Ptr, q: Ptr, n: nat)
      requires Valid() && blocks != [] && IsBlock(q, |blocks| - 1, n)
      requires p.Ptr? && p.offset + n <= p.chunk.data.Length
      modifies q.chunk.data
      ensures Valid()
      ensures forall i :: 0 <= i < |blocks| - 1 ==> BytesOf(blocks[i]) == old(BytesOf(blocks[i]))
      ensures q.chunk.data[q.offset..q.offset + n] == old(p.chunk.data[p.offset..p.offset + n])
    {
      hide AllApart, AllCovered, Overwritten;
      ghost var before := q.chunk.data[..];
      Copy(p, q, n);
      forall i | 0 <= i < |blocks| - 1
        ensures BytesOf(blocks[i]) == old(BytesOf(blocks[i]))
      {
        var a := blocks[i];
        LastApart(blocks, i);
        if a.chunk == q.chunk {
          OverwriteApart(before, q.offset, old(p.chunk.data[p.offset..p.offset + n]), a.offset, a.offset + a.room);
          assert a.chunk.data[a.offset..a.offset + a.room] == a.chunk.data[..][a.offset..a.offset + a.room];
        } else {
          DataDistinct(chunks, a.chunk, q.chunk);
        }
      }
    }
  }

  /** Beyond the limit blocks do overlap: two requests of 2^32 bytes get the same address. */
  method SameAddressTwice() returns (p: Ptr, q: Ptr)
    ensures p.Ptr? && p == q
  {
    var pool := new MemoryPoolAllocator(DEFAULT_CAPACITY);
    p := pool.Malloc(U32);
    q := pool.Malloc(U32);
  }

  lemma OthersApart(bs: seq<Block>, k: nat, end: nat, b: Block)
    requires AllApart(bs) && k < |bs| && bs[k].chunk == b.chunk && bs[k].offset == b.offset
    requires bs[k].offset + bs[k].room == end
    requires forall i :: 0 <= i < |bs| && bs[i].chunk == b.chunk ==> bs[i].offset + bs[i].room <= end
    ensures forall i :: 0 <= i < |bs| && i != k ==> Apart(bs[i], b)
  {
    forall i | 0 <= i < |bs| && i != k
      ensures Apart(bs[i], b)
    {
      assert Apart(bs[i], bs[k]) || Apart(bs[k], bs[i]);
    }
  }

  lemma ApartUpdate(bs: seq<Block>, k: nat, b: Block)
    requires AllApart(bs) && k < |bs|
    requires forall i :: 0 <= i < |bs| && i != k ==> Apart(bs[i], b)
    ensures AllApart(bs[k := b])
  {
  }

  lemma CoveredUpdate(bs: seq<Block>, k: nat, b: Block)
    requires AllCovered(bs) && k < |bs| && 0 < b.size && (b.size <= LIMIT ==> b.size <= b.room)
    ensures AllCovered(bs[k := b])
  {
  }

  lemma LastApart(bs: seq<Block>, i: nat)
    requires AllApart(bs) && i < |bs| - 1
    ensures Apart(bs[i], bs[|bs| - 1])
  {
  }

  lemma DataDistinct(cs: seq<Chunk>, a: Chunk, b: Chunk)
    requires forall i, j :: 0 <= i < j < |cs| ==> cs[i] != cs[j] && cs[i].data != cs[j].data
    requires a in cs && b in cs && a != b
    ensures a.data != b.data
  {
  }

  /** A sequence with `d` written over it from `at` on. */
  function Overwritten(s: bytes, at: nat, d: bytes): (r: bytes)
    requires at + |d| <= |s|
    ensures |r| == |s|
  {
    s[..at] + d + s[at + |d|..]
  }

  lemma OverwriteApart(s: bytes, at: nat, d: bytes, lo: nat, hi: nat)
    requires at + |d| <= |s| && lo <= hi <= |s| && (d == [] || lo == hi || hi <= at || at + |d| <= lo)
    ensures Overwritten(s, at, d)[lo..hi] == s[lo..hi]
  {
    var r := Overwritten(s, at, d);
    assert forall i :: 0 <= i < at ==> r[i] == s[i];
    assert forall i :: at + |d| <= i < |s| ==> r[i] == s[i];
    assert forall i :: lo <= i < hi ==> r[i] == s[i];
  }

  /** memcpy between two blocks. */
  method Copy(p: Ptr, q: Ptr, n: nat)
    requires p.Ptr? && q.Ptr? && p.offset + n <= p.chunk.data.Length && q.offset + n <= q.chunk.data.Length
    modifies q.chunk.data
    ensures q.chunk.data[..] == Overwritten(old(q.chunk.data[..]), q.offset, old(p.chunk.data[p.offset..p.offset + n]))
    ensures q.chunk.data[q.offset..q.offset + n] == old(p.chunk.data[p.offset..p.offset + n])
  {
    forall i | 0 <= i < n {
      q.chunk.data[q.offset + i] := p.chunk.data[p.offset + i];
    }
  }

  ghost function TotalCapacity(cs: seq<Chunk>): nat {
    if cs == [] then 0 else cs[0].data.Length + TotalCapacity(cs[1..])
  }

  ghost function TotalSize(cs: seq<Chunk>): nat
    reads cs
  {
    if cs == [] then 0 else cs[0].size + TotalSize(cs[1..])
  }

  lemma {:induction false} SizeFits(cs: seq<Chunk>)
    requires forall c :: c in cs ==> c.size <= c.data.Length
    ensures TotalSize(cs) <= TotalCapacity(cs)
    decreases |cs|
  {
    if cs != [] {
      SizeFits(cs[1..]);
    }
  }
}
