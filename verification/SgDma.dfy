/** Copying a frame through the scatter-gather DMA engine: the block is cut into a chain of descriptors
    (`my_memcpy` in vip_fr.c). */
module SgDma {
  import opened Raster
  import opened Words

  const MAX_BLOCK_SIZE: nat := 32 * 1024

  /** One transfer of the engine; `next` is the index of the descriptor it goes on with. */
  datatype Descriptor = Descriptor(writeAddr: nat, readAddr: nat, bytes: nat, next: Option<nat>) {
    predicate InMemory(size: nat) {
      writeAddr + bytes <= size && readAddr + bytes <= size
    }

    ghost function Transfer(m: Bytes): (m': Bytes)
      ensures |m'| == |m|
    {
      if InMemory(|m|) then Put(m, writeAddr, m[readAddr..readAddr + bytes]) else m
    }
  }

  // What the engine does to memory, starting at descriptor `i` and following the links.
  ghost function Execute(chain: seq<Descriptor>, i: nat, m: Bytes): (m': Bytes)
    ensures |m'| == |m|
    decreases |chain| - i
  {
    if i >= |chain| then m
    else if chain[i].next.Some? && i < chain[i].next.value
    then Execute(chain, chain[i].next.value, chain[i].Transfer(m))
    else chain[i].Transfer(m)
  }

  lemma ExecuteStep(chain: seq<Descriptor>, i: nat, m: Bytes)
    requires i < |chain|
    ensures chain[i].next == None ==> Execute(chain, i, m) == chain[i].Transfer(m)
    ensures chain[i].next.Some? && i < chain[i].next.value ==>
              Execute(chain, i, m) == Execute(chain, chain[i].next.value, chain[i].Transfer(m))
  {
  }

  // The number of descriptors that are allocated.
  function Count(n: nat): nat {
    (n + MAX_BLOCK_SIZE - 1) / MAX_BLOCK_SIZE
  }

  /** Block `i` of a copy of `n` bytes: a whole block, or what remains; only the last has no link. */
  function Block(des: nat, src: nat, n: nat, i: nat): (d: Descriptor)
    requires i < Count(n)
  {
    var done := i * MAX_BLOCK_SIZE;
    Descriptor(des + done, src + done, if n - done < MAX_BLOCK_SIZE then n - done else MAX_BLOCK_SIZE,
               if i + 1 == Count(n) then None else Some(i + 1))
  }

  function Chain(des: nat, src: nat, n: nat): (chain: seq<Descriptor>) {
    seq(Count(n), i requires 0 <= i < Count(n) => Block(des, src, n, i))
  }

  lemma LastBlock(n: nat, i: nat)
    requires i < Count(n)
    ensures i + 1 == Count(n) <==> n - i * MAX_BLOCK_SIZE <= MAX_BLOCK_SIZE
    ensures i * MAX_BLOCK_SIZE < n
  {
  }

  lemma BlockIs(des: nat, src: nat, n: nat, i: nat)
    requires i < Count(n)
    ensures var d, done := Block(des, src, n, i), i * MAX_BLOCK_SIZE;
            && d.writeAddr == des + done && d.readAddr == src + done && done + d.bytes <= n
            && 0 < d.bytes <= MAX_BLOCK_SIZE
            && (if i + 1 == Count(n) then done + d.bytes == n && d.next == None
                else done + d.bytes == (i + 1) * MAX_BLOCK_SIZE && d.next == Some(i + 1))
  {
  }

  lemma Counted(n: nat)
    ensures Count(n) == (n + 32767) / 32768 && (n > 0 <==> Count(n) > 0)
  {
  }

  ghost function TotalBytes(chain: seq<Descriptor>): nat {
    if chain == [] then 0 else TotalBytes(chain[..|chain| - 1]) + chain[|chain| - 1].bytes
  }

  /** The blocks are non-empty, no larger than the engine's limit, contiguous, and together the whole region. */
  lemma {:induction false} ChainTilesTheRegion(des: nat, src: nat, n: nat)
    ensures var chain := Chain(des, src, n);
            && |chain| == (n + 32767) / 32768
            && (n > 0 ==> chain[0].writeAddr == des && chain[0].readAddr == src)
            && (forall i | 0 <= i < |chain| :: 0 < chain[i].bytes <= MAX_BLOCK_SIZE)
            && (forall i | 0 <= i < |chain| - 1 :: chain[i + 1].writeAddr == chain[i].writeAddr + chain[i].bytes)
            && (forall i | 0 <= i < |chain| - 1 :: chain[i + 1].readAddr == chain[i].readAddr + chain[i].bytes)
            && (forall i | 0 <= i < |chain| :: chain[i].next == None <==> i == |chain| - 1)
            && TotalBytes(chain) == n
  {
    Counted(n);
    hide Block, Count;
    var chain := Chain(des, src, n);
    if n > 0 {
      BlockIs(des, src, n, 0);
    }
    forall i: nat | i < |chain|
      ensures 0 < chain[i].bytes <= MAX_BLOCK_SIZE && (chain[i].next == None <==> i == |chain| - 1)
      ensures i + 1 < |chain| ==> chain[i + 1].writeAddr == chain[i].writeAddr + chain[i].bytes
      ensures i + 1 < |chain| ==> chain[i + 1].readAddr == chain[i].readAddr + chain[i].bytes
    {
      BlockIs(des, src, n, i);
      if i + 1 < |chain| {
        BlockIs(des, src, n, i + 1);
      }
    }
    PrefixTotal(des, src, n, |chain|);
    assert chain[..|chain|] == chain;
  }

  lemma {:induction false} PrefixTotal(des: nat, src: nat, n: nat, k: nat)
    requires k <= Count(n)
    ensures TotalBytes(Chain(des, src, n)[..k]) == if k == Count(n) then n else k * MAX_BLOCK_SIZE
  {
    if k == 0 {
    } else {
      PrefixTotal(des, src, n, k - 1);
      var chain := Chain(des, src, n);
      assert chain[..k][..k - 1] == chain[..k - 1];
      LastBlock(n, k - 1);
    }
  }

  ghost predicate NoOverlap(des: nat, src: nat, n: nat) {
    Separate(des, src, n) || des == src
  }

  // Copying the next `k` bytes after the first `done` have been copied.
  lemma CopyMore(m: Bytes, des: nat, src: nat, done: nat, k: nat)
    requires des + done + k <= |m| && src + done + k <= |m| && NoOverlap(des, src, done + k)
    ensures var m' := Put(m, des, m[src..src + done]);
            Put(m', des + done, m'[src + done..src + done + k]) == Put(m, des, m[src..src + done + k])
  {
    var m' := Put(m, des, m[src..src + done]);
    assert m'[src + done..src + done + k] == m[src + done..src + done + k];
    PutPut(m, des, m[src..src + done], m[src + done..src + done + k]);
    assert m[src..src + done] + m[src + done..src + done + k] == m[src..src + done + k];
  }

  lemma TransferMore(m: Bytes, des: nat, src: nat, done: nat, d: Descriptor)
    requires d.writeAddr == des + done && d.readAddr == src + done
    requires des + done + d.bytes <= |m| && src + done + d.bytes <= |m| && NoOverlap(des, src, done + d.bytes)
    ensures d.Transfer(Put(m, des, m[src..src + done])) == Put(m, des, m[src..src + done + d.bytes])
  {
    hide Put;
    var m' := Put(m, des, m[src..src + done]);
    assert d.Transfer(m') == Put(m', des + done, m'[src + done..src + done + d.bytes]);
    CopyMore(m, des, src, done, d.bytes);
  }

  /** Executing the chain from block `i` on completes the copy that its first `i` blocks began. */
  lemma {:induction false} ExecuteCompletes(m: Bytes, des: nat, src: nat, n: nat, i: nat)
    requires des + n <= |m| && src + n <= |m| && NoOverlap(des, src, n) && i < Count(n)
    ensures i * MAX_BLOCK_SIZE < n
    ensures Execute(Chain(des, src, n), i, Put(m, des, m[src..src + i * MAX_BLOCK_SIZE]))
              == Put(m, des, m[src..src + n])
    decreases Count(n) - i
  {
    hide Block, Execute, Descriptor.Transfer, Count, Put;
    BlockIs(des, src, n, i);
    LastBlock(n, i);
    var done, d := i * MAX_BLOCK_SIZE, Block(des, src, n, i);
    TransferMore(m, des, src, done, d);
    ExecuteStep(Chain(des, src, n), i, Put(m, des, m[src..src + done]));
    if i + 1 < Count(n) {
      ExecuteCompletes(m, des, src, n, i + 1);
      assert src + done + d.bytes == src + (i + 1) * MAX_BLOCK_SIZE;
    }
  }

  // Every descriptor can be executed by the engine.
  ghost predicate Executable(chain: seq<Descriptor>, size: nat) {
    forall i: nat | i < |chain| ::
      && chain[i].InMemory(size)
      && NoOverlap(chain[i].writeAddr, chain[i].readAddr, chain[i].bytes)
      && (chain[i].next.Some? ==> i < chain[i].next.value < |chain|)
  }

  lemma ChainExecutable(des: nat, src: nat, n: nat, size: nat)
    requires des + n <= size && src + n <= size && NoOverlap(des, src, n)
    ensures Executable(Chain(des, src, n), size)
  {
  }

  /** The engine: a transfer runs until a descriptor without a link is done. */
  method DoSyncTransfer(m: array<bv8>, desc: seq<Descriptor>)
    requires desc != [] && Executable(desc, m.Length)
    modifies m
    ensures m[..] == Execute(desc, 0, old(m[..]))
  {
    hide Execute;
    var i: nat := 0;
    while true
      invariant i < |desc|
      invariant Execute(desc, i, m[..]) == Execute(desc, 0, old(m[..]))
      decreases |desc| - i
    {
      var d := desc[i];
      ExecuteStep(desc, i, m[..]);
      Memcpy(m, d.writeAddr, m, d.readAddr, d.bytes);
      if d.next == None {
        return;
      }
      i := d.next.value;
    }
  }

  /** Copies `nSize` bytes; nothing happens when the device cannot be opened. */
  method MyMemcpy(m: array<bv8>, pDes: nat, pSrc: nat, nSize: nat, deviceFound: bool) returns (built: seq<Descriptor>)
    requires nSize > 0 && pDes + nSize <= m.Length && pSrc + nSize <= m.Length && NoOverlap(pDes, pSrc, nSize)
    modifies m
    ensures deviceFound ==>
              m[..] == Put(old(m[..]), pDes, old(m[pSrc..pSrc + nSize])) && built == Chain(pDes, pSrc, nSize)
    ensures !deviceFound ==> m[..] == old(m[..]) && built == []
  {
    if !deviceFound {
      return [];
    }
    hide Block, Count, Put, Execute, Executable;
    var nCnt := Count(nSize);
    var desc := BuildChain(pDes, pSrc, nSize, nCnt);
    built := desc[..];
    ghost var was := m[..];
    ChainExecutable(pDes, pSrc, nSize, m.Length);
    Counted(nSize);
    ExecuteCompletes(was, pDes, pSrc, nSize, 0);
    PutNothing(was, pDes, pSrc);
    DoSyncTransfer(m, built);
  }

  lemma PutNothing(m: Bytes, des: nat, src: nat)
    requires des <= |m| && src <= |m|
    ensures Put(m, des, m[src..src]) == m
  {
  }

  method BuildChain(pDes: nat, pSrc: nat, nSize: nat, nCnt: nat) returns (desc: array<Descriptor>)
    requires nCnt == Count(nSize)
    ensures fresh(desc) && desc[..] == Chain(pDes, pSrc, nSize)
  {
    desc := new Descriptor[nCnt];
    var nRemaindSize, pDesBlock, pSrcBlock, nIndex := nSize, pDes, pSrc, 0;
    while nRemaindSize > 0
      invariant 0 <= nIndex <= nCnt
      invariant nRemaindSize == if nIndex == nCnt then 0 else nSize - nIndex * MAX_BLOCK_SIZE
      invariant nIndex < nCnt ==>
                  pDesBlock == pDes + nIndex * MAX_BLOCK_SIZE && pSrcBlock == pSrc + nIndex * MAX_BLOCK_SIZE
      invariant forall i | 0 <= i < nIndex :: desc[i] == Block(pDes, pSrc, nSize, i)
    {
      LastBlock(nSize, nIndex);
      var nBlockSize := MAX_BLOCK_SIZE;
      if nBlockSize > nRemaindSize {
        nBlockSize := nRemaindSize;
      }
      nRemaindSize := nRemaindSize - nBlockSize;
      desc[nIndex] := Descriptor(pDesBlock, pSrcBlock, nBlockSize,
                                 if nRemaindSize == 0 then None else Some(nIndex + 1));
      pDesBlock, pSrcBlock := pDesBlock + nBlockSize, pSrcBlock + nBlockSize;
      nIndex := nIndex + 1;
    }
  }
}
