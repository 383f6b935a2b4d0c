/** `EasyPlayback::play`: filling the audio buffers in turn and handing them to the audio driver. */
module EasyPlayback {
  import opened Multiples
  import opened Common
  import opened AudioExpansion

  /** The sizes fit the buffer. */
  predicate FormatOk(f: Format, size: nat) {
    && size % 4 == 0 && f.read <= size && f.block > 0
    && (f.padding != 0 ==> f.block + f.padding == 4 && f.read == f.block * (size / 4))
  }

  lemma FormatOfOk(spdif: bool, blockSize: nat, size: nat)
    requires size % 4 == 0 && blockSize > 0
    ensures FormatOk(FormatOf(spdif, blockSize, size), size)
  {
    FormatFits(spdif, blockSize, size / 4);
  }

  /** What the driver gets for the data of one read. */
  function Block(f: Format, data: seq<nat>): (b: seq<nat>)
    requires f.block > 0 && |data| <= f.read
  {
    if f.padding != 0 then Expanded(data + Zeros(f.read - |data|), f.block, f.padding) else data
  }

  lemma BlockLength(f: Format, data: seq<nat>, size: nat)
    requires FormatOk(f, size) && |data| <= f.read
    ensures |Block(f, data)| == if f.padding != 0 then size else |data|
  {
    if f.padding != 0 {
      ExpandedLength(data + Zeros(f.read - |data|), f.block, f.padding, size / 4);
    }
  }

  /** What the driver gets over a whole `play`. */
  function Blocks(f: Format, chunks: seq<seq<nat>>): seq<seq<nat>>
    requires f.block > 0 && forall i :: 0 <= i < |chunks| ==> |chunks[i]| <= f.read
  {
    if chunks == [] || chunks[0] == [] then []
    else [Block(f, chunks[0])] + Blocks(f, chunks[1..])
  }

  lemma BlocksNext(f: Format, chunks: seq<seq<nat>>, i: nat)
    requires f.block > 0 && i < |chunks| && chunks[i] != []
    requires forall k :: 0 <= k < |chunks| ==> |chunks[k]| <= f.read
    ensures Blocks(f, chunks[i..]) == [Block(f, chunks[i])] + Blocks(f, chunks[i + 1..])
  {
    assert chunks[i..][1..] == chunks[i + 1..];
  }

  // ----- what the driver gets, for each width of the samples

  /** The samples that are spread out to four bytes. */
  predicate Widened(spdif: bool, blockSize: nat) { blockSize == 20 || blockSize == 24 || (spdif && blockSize == 16) }

  /** Byte `k` of a buffer in which each group of `width` data bytes fills a slot of four. */
  function SlotByte(data: seq<nat>, width: nat, k: nat): nat {
    var i := width * (k / 4) + k % 4;
    if k % 4 < width && i < |data| then data[i] else 0
  }

  /** Samples of 20 and 24 bits, and of 16 on SPDIF, fill the buffer, a slot each; others are handed over as read. */
  ghost predicate IsBlockFor(spdif: bool, blockSize: nat, size: nat, data: seq<nat>, b: seq<nat>) {
    if Widened(spdif, blockSize)
    then |b| == size && forall k :: 0 <= k < size ==> b[k] == SlotByte(data, (blockSize + 7) / 8, k)
    else b == data
  }

  /** As many bytes are read as fill a buffer. */
  lemma ReadFills(spdif: bool, blockSize: nat, size: nat)
    requires size % 4 == 0 && blockSize > 0
    ensures FormatOf(spdif, blockSize, size).read ==
            if Widened(spdif, blockSize) then (blockSize + 7) / 8 * (size / 4) else size
  {
  }

  lemma BlockExactly(spdif: bool, blockSize: nat, size: nat, data: seq<nat>)
    requires size % 4 == 0 && blockSize > 0 && |data| <= FormatOf(spdif, blockSize, size).read
    ensures FormatOf(spdif, blockSize, size).block > 0
    ensures IsBlockFor(spdif, blockSize, size, data, Block(FormatOf(spdif, blockSize, size), data))
  {
    var f := FormatOf(spdif, blockSize, size);
    FormatOfOk(spdif, blockSize, size);
    BlockLength(f, data, size);
    ReadFills(spdif, blockSize, size);
    if Widened(spdif, blockSize) {
      forall k | 0 <= k < size
        ensures Block(f, data)[k] == SlotByte(data, (blockSize + 7) / 8, k)
      {
        SlotHolds(f, data, size, k);
      }
    }
  }

  lemma SlotHolds(f: Format, data: seq<nat>, size: nat, k: nat)
    requires FormatOk(f, size) && f.padding != 0 && |data| <= f.read && k < size
    ensures |Block(f, data)| == size && Block(f, data)[k] == SlotByte(data, f.block, k)
  {
    BlockLength(f, data, size);
    ExpandedAt(data + Zeros(f.read - |data|), f.block, f.padding, size / 4, k / 4, k % 4);
  }

  /** The blocks for the data before the first empty read, in order. */
  ghost predicate Played(spdif: bool, blockSize: nat, size: nat, chunks: seq<seq<nat>>, blocks: seq<seq<nat>>) {
    && |blocks| <= |chunks| && (|blocks| < |chunks| ==> chunks[|blocks|] == [])
    && forall i :: 0 <= i < |blocks| ==> chunks[i] != [] && IsBlockFor(spdif, blockSize, size, chunks[i], blocks[i])
  }

  lemma {:induction false} BlocksExactly(spdif: bool, blockSize: nat, size: nat, chunks: seq<seq<nat>>)
    requires size % 4 == 0 && blockSize > 0
    requires forall i :: 0 <= i < |chunks| ==> |chunks[i]| <= FormatOf(spdif, blockSize, size).read
    ensures FormatOf(spdif, blockSize, size).block > 0
    ensures Played(spdif, blockSize, size, chunks, Blocks(FormatOf(spdif, blockSize, size), chunks))
  {
    FormatOfOk(spdif, blockSize, size);
    if chunks != [] && chunks[0] != [] {
      BlockExactly(spdif, blockSize, size, chunks[0]);
      BlocksExactly(spdif, blockSize, size, chunks[1..]);
    }
  }

  lemma BlocksEnd(f: Format, chunks: seq<seq<nat>>, i: nat)
    requires f.block > 0 && i <= |chunks| && (i == |chunks| || chunks[i] == [])
    requires forall k :: 0 <= k < |chunks| ==> |chunks[k]| <= f.read
    ensures Blocks(f, chunks[i..]) == []
  {
  }

  /** What is still to come, after one block more. */
  lemma OneMore(f: Format, chunks: seq<seq<nat>>, i: nat, before: seq<seq<nat>>, all: seq<seq<nat>>)
    requires f.block > 0 && i < |chunks| && chunks[i] != []
    requires forall k :: 0 <= k < |chunks| ==> |chunks[k]| <= f.read
    requires before + Blocks(f, chunks[i..]) == all
    ensures before + [Block(f, chunks[i])] + Blocks(f, chunks[i + 1..]) == all
  {
    BlocksNext(f, chunks, i);
  }

  predicate Lengths(amounts: seq<nat>, blocks: seq<seq<nat>>) {
    |amounts| == |blocks| && forall i :: 0 <= i < |blocks| ==> amounts[i] == |blocks[i]|
  }

  /** The last `count` blocks handed over still lie in their buffers, where the driver may be reading them. */
  ghost predicate InFlight(buf: seq<nat>, handed: seq<seq<nat>>, size: nat, count: nat)
  {
    && count > 0 && |buf| == size * count
    && forall m :: 0 <= m < |handed| && |handed| - count <= m ==> InSlot(buf, handed[m], size, count, m)
  }

  ghost predicate InSlot(buf: seq<nat>, block: seq<nat>, size: nat, count: nat, m: nat)
    requires count > 0
  {
    var at := size * (m % count);
    0 <= at && at + |block| <= |buf| && |block| <= size && buf[at..at + |block|] == block
  }

  lemma SlotInside(size: nat, i: nat, count: nat)
    requires i < count
    ensures 0 <= size * i && size * i + size <= size * count
  {
    LessTimes(i, count, size);
  }

  lemma SlotsApart(size: nat, i: nat, j: nat)
    requires i != j
    ensures size * i + size <= size * j || size * j + size <= size * i
  {
    if i < j {
      LessTimes(i, j, size);
    } else {
      LessTimes(j, i, size);
    }
  }

  lemma NextIndex(i: nat, count: nat)
    requires count > 0
    ensures (i + 1) % count == if i % count + 1 < count then i % count + 1 else 0
  {
    var q, r := i / count, i % count;
    assert i == q * count + r;
    if r + 1 < count {
      QuotientUnique(i + 1, count, q, r + 1);
    } else {
      assert (q + 1) * count == q * count + count;
      QuotientUnique(i + 1, count, q + 1, 0);
    }
  }

  /** Blocks less than a whole round apart lie in different buffers. */
  lemma DifferentSlots(m: nat, n: nat, count: nat)
    requires count > 0 && m < n < m + count
    ensures m % count != n % count
  {
    if m % count == n % count {
      var p, q, r := m / count, n / count, m % count;
      assert m == p * count + r && n == q * count + r;
      if p < q {
        LessTimes(p, q, count);
      } else if q < p {
        LessTimes(q, p, count);
      }
    }
  }

  /** Filling the next buffer leaves the other blocks in flight alone. */
  lemma StillInFlight(was: seq<nat>, now: seq<nat>, handed: seq<seq<nat>>, size: nat, count: nat, block: seq<nat>)
    requires InFlight(was, handed, size, count) && |now| == |was| && |block| <= size
    requires var at := size * (|handed| % count);
             && 0 <= at && at + size <= |now|
             && now[..at] == was[..at] && now[at + size..] == was[at + size..] && now[at..at + |block|] == block
    ensures InFlight(now, handed + [block], size, count)
  {
    var all := handed + [block];
    forall m | 0 <= m < |all| && |all| - count <= m
      ensures InSlot(now, all[m], size, count, m)
    {
      if m < |handed| {
        assert InSlot(was, handed[m], size, count, m);
        DifferentSlots(m, |handed|, count);
        SlotsApart(size, m % count, |handed| % count);
        OutsideSame(was, now, size * (|handed| % count), size, size * (m % count), |handed[m]|);
      }
    }
  }

  lemma OutsideSame(was: seq<nat>, now: seq<nat>, at: nat, size: nat, from: nat, n: nat)
    requires |was| == |now| && at + size <= |now| && from + n <= |now| && (from + n <= at || at + size <= from)
    requires now[..at] == was[..at] && now[at + size..] == was[at + size..]
    ensures now[from..from + n] == was[from..from + n]
  {
    forall k | from <= k < from + n
      ensures now[k] == was[k]
    {
      if k < at {
        assert now[..at][k] == was[..at][k];
      } else {
        assert now[at + size..][k - at - size] == was[at + size..][k - at - size];
      }
    }
  }

  class Player {
    const size: nat
    const count: nat
    const audioBuf: array<nat>
    var buffIndex: nat
    var handed: seq<seq<nat>>  // what was passed to the driver, in order

    /** Whole slots of four bytes, one buffer after the other, used in turn. */
    ghost predicate Valid()
      reads this
    {
      && size % 4 == 0 && count > 0 && audioBuf.Length == size * count
      && buffIndex < count && buffIndex == |handed| % count
    }

    constructor (size: nat, count: nat)
      requires size % 4 == 0 && count > 0
      ensures Valid() && fresh(audioBuf) && this.size == size && this.count == count && handed == []
    {
      this.size, this.count := size, count;
      audioBuf := new nat[size * count](_ => 0);
      buffIndex, handed := 0, [];
    }

    /** The zeros after one block, written downwards from `w`. */
    method Pad(w: nat, padding: nat)
      requires padding <= w + 1 && w < audioBuf.Length
      modifies audioBuf
      ensures Padded(old(audioBuf[..]), audioBuf[..], w, padding)
    {
      var i := 0;
      while i < padding
        invariant 0 <= i <= padding
        invariant forall k :: 0 <= k < audioBuf.Length ==>
                    audioBuf[k] == if w - i < k <= w then 0 else old(audioBuf[k])
      {
        audioBuf[w - i] := 0;
        i := i + 1;
      }
    }

    /** One block, moved up by `d`, from its last byte down: the bytes up to `w` come from those up to `w - d`. */
    method Move(w: nat, d: nat, block: nat)
      requires block + d <= w + 1 && w < audioBuf.Length
      modifies audioBuf
      ensures Moved(old(audioBuf[..]), audioBuf[..], w, d, block)
    {
      var i, r := 0, w - d;
      ghost var was := audioBuf[..];
      while i < block
        invariant 0 <= i <= block
        invariant forall k :: w - i < k <= w ==> audioBuf[k] == was[k - d]
        invariant forall k :: 0 <= k <= w - i || w < k < audioBuf.Length ==> audioBuf[k] == was[k]
      {
        audioBuf[w - i] := audioBuf[r - i];
        i := i + 1;
      }
    }

    /** One slot: the padding, then the block moved up from where it was read. */
    method PadAndMove(w: nat, r: int, block: nat, padding: nat)
      requires block > 0 && block + padding == 4 && 3 <= w < audioBuf.Length && block <= r + 1 && r <= w - padding
      modifies audioBuf
      ensures Written(old(audioBuf[..]), audioBuf[..], w, r, block, padding)
    {
      ghost var was := audioBuf[..];
      Pad(w, padding);
      ghost var padded := audioBuf[..];
      Move(w - padding, w - padding - r, block);
      GroupMoved(was, padded, audioBuf[..], w, r, block, padding);
    }

    /** One round of the loop, with both indices running down. */
    method ExpandGroup(idxW: int, idxR: int, at: nat, block: nat, padding: nat) returns (w: int, r: int)
      requires block > 0 && block + padding == 4 && 3 <= idxW && at + idxW < audioBuf.Length
      requires block <= idxR + 1 && idxR <= idxW - padding
      modifies audioBuf
      ensures w == idxW - 4 && r == idxR - block
      ensures Written(old(audioBuf[..]), audioBuf[..], at + idxW, at + idxR, block, padding)
    {
      PadAndMove(at + idxW, at + idxR, block, padding);
      w := idxW - padding - block;
      r := idxR - block;
    }

    /** The same round, in terms of what is left to expand. */
    method ExpandRound(idxW: int, idxR: int, at: nat, n: nat, block: nat, padding: nat,
                       ghost was: seq<nat>, ghost src: seq<nat>, ghost j: nat)
      returns (w: int, r: int)
      requires j > 0 && idxW == 4 * j - 1 && idxR == block * j - 1
      requires Halfway(audioBuf[..], was, at, n, src, block, padding, j)
      modifies audioBuf
      ensures w == 4 * (j - 1) - 1 && r == block * (j - 1) - 1
      ensures Halfway(audioBuf[..], was, at, n, src, block, padding, j - 1)
    {
      ghost var now := audioBuf[..];
      Times(block, j);
      BlockBelow(block, j - 1);
      w, r := ExpandGroup(idxW, idxR, at, block, padding);
      GroupDone(now, was, at, n, src, block, padding, j, audioBuf[..]);
    }

    /** The loop that expands a buffer in place, `n` slots of it: it uses up the buffer and the data together. */
    method ExpandLoop(at: nat, n: nat, read: nat, block: nat, padding: nat, ghost was: seq<nat>, ghost src: seq<nat>)
      returns (idxW: int, idxR: int)
      requires read == block * n && Halfway(audioBuf[..], was, at, n, src, block, padding, n)
      modifies audioBuf
      ensures Halfway(audioBuf[..], was, at, n, src, block, padding, 0)
      ensures idxW == -1 && idxR == -1
    {
      idxW, idxR := 4 * n - 1, read - 1;
      ghost var j: nat := n;
      while idxW >= 0
        invariant idxW == 4 * j - 1 && idxR == block * j - 1
        invariant Halfway(audioBuf[..], was, at, n, src, block, padding, j)
      {
        idxW, idxR := ExpandRound(idxW, idxR, at, n, block, padding, was, src, j);
        j := j - 1;
      }
    }

    /** A buffer of `n` slots of which `got` bytes were read: the shortfall is zeros, then all is spread out. */
    method Expand(at: nat, n: nat, got: nat, f: Format) returns (idxW: int, idxR: int)
      requires f.block > 0 && f.block + f.padding == 4 && f.read == f.block * n && f.read <= 4 * n
      requires got <= f.read && at + 4 * n <= audioBuf.Length
      modifies audioBuf
      ensures audioBuf[..at] == old(audioBuf[..at]) && audioBuf[at + 4 * n..] == old(audioBuf[at + 4 * n..])
      ensures audioBuf[at..at + 4 * n] ==
              Expanded(old(audioBuf[at..at + got]) + Zeros(f.read - got), f.block, f.padding)
      ensures idxW == -1 && idxR == -1
    {
      ghost var was := audioBuf[..];
      ghost var src := was[at..at + got] + Zeros(f.read - got);
      FillShortfall(at, got, f.read);
      StartHalfway(audioBuf[..], was, at, n, src, f.block, f.padding);
      idxW, idxR := ExpandLoop(at, n, f.read, f.block, f.padding, was, src);
      EndHalfway(audioBuf[..], was, at, n, src, f.block, f.padding);
    }

    /** Zeros for the bytes that were not read. */
    method FillShortfall(at: nat, got: nat, read: nat)
      requires got <= read && at + read <= audioBuf.Length
      modifies audioBuf
      ensures audioBuf[..at] == old(audioBuf[..at]) && audioBuf[at + read..] == old(audioBuf[at + read..])
      ensures audioBuf[at..at + read] == old(audioBuf[at..at + got]) + Zeros(read - got)
    {
      var i := got;
      ghost var was := audioBuf[..];
      while i < read
        invariant got <= i <= read
        invariant forall k :: 0 <= k < audioBuf.Length ==>
                    audioBuf[k] == if at + got <= k < at + i then 0 else was[k]
      {
        audioBuf[at + i] := 0;
        i := i + 1;
      }
    }

    // ----- the buffers in turn

    /** `GetNextData` into the buffer at `at`. */
    method ReadInto(at: nat, data: seq<nat>)
      requires at + |data| <= audioBuf.Length
      modifies audioBuf
      ensures audioBuf[..at] == old(audioBuf[..at]) && audioBuf[at + |data|..] == old(audioBuf[at + |data|..])
      ensures audioBuf[at..at + |data|] == data
    {
      var i := 0;
      ghost var was := audioBuf[..];
      while i < |data|
        invariant 0 <= i <= |data|
        invariant forall k :: 0 <= k < audioBuf.Length ==>
                    audioBuf[k] == if at <= k < at + i then data[k - at] else was[k]
      {
        audioBuf[at + i] := data[i];
        i := i + 1;
      }
    }

    /** Reads and expands one buffer; what lies outside it is left alone. */
    method FillBuffer(at: nat, data: seq<nat>, f: Format) returns (block: seq<nat>)
      requires FormatOk(f, size) && |data| <= f.read && at + size <= audioBuf.Length
      modifies audioBuf
      ensures audioBuf[..at] == old(audioBuf[..at]) && audioBuf[at + size..] == old(audioBuf[at + size..])
      ensures block == Block(f, data) && |block| <= size && audioBuf[at..at + |block|] == block
    {
      ghost var was := audioBuf[..];
      ReadInto(at, data);
      assert audioBuf[at + |data|..][size - |data|..] == audioBuf[at + size..];
      assert was[at + |data|..][size - |data|..] == was[at + size..];
      if f.padding != 0 {
        ExpandedLength(data + Zeros(f.read - |data|), f.block, f.padding, size / 4);
        var idxW, idxR := Expand(at, size / 4, |data|, f);
        block := audioBuf[at..at + size];
      } else {
        block := audioBuf[at..at + |data|];
      }
    }

    /** One round of `play` for data that is not empty: fill the next buffer, hand it over, go on to the one after. */
    method PlayBuffer(data: seq<nat>, f: Format)
      requires Valid() && InFlight(audioBuf[..], handed, size, count) && FormatOk(f, size) && 0 < |data| <= f.read
      modifies audioBuf, this`buffIndex, this`handed
      ensures Valid() && InFlight(audioBuf[..], handed, size, count)
      ensures handed == old(handed) + [Block(f, data)]
    {
      ghost var was := audioBuf[..];
      SlotInside(size, buffIndex, count);
      var block := FillBuffer(size * buffIndex, data, f);
      StillInFlight(was, audioBuf[..], handed, size, count, block);
      HandOver(block);
    }

    method HandOver(block: seq<nat>)
      requires Valid()
      modifies this`buffIndex, this`handed
      ensures Valid() && handed == old(handed) + [block]
    {
      NextIndex(|handed|, count);
      handed := handed + [block];
      if buffIndex + 1 < count {
        buffIndex := buffIndex + 1;
      } else {
        buffIndex := 0;
      }
    }

    /** The loop of `play`: a buffer for each of `chunks`, up to an empty one or a skip at the head of round `skipAt`. */
    method PlayChunks(chunks: seq<seq<nat>>, skipAt: nat, f: Format)
      requires Valid() && InFlight(audioBuf[..], handed, size, count) && FormatOk(f, size)
      requires forall i :: 0 <= i < |chunks| ==> |chunks[i]| <= f.read
      modifies audioBuf, this`buffIndex, this`handed
      ensures Valid() && InFlight(audioBuf[..], handed, size, count)
      ensures handed == old(handed) + Blocks(f, chunks[..Min(skipAt, |chunks|)])
    {
      var i := 0;
      ghost var heard := chunks[..Min(skipAt, |chunks|)];
      ghost var all := handed + Blocks(f, heard);
      assert heard[0..] == heard;
      while i < |chunks| && i != skipAt && |chunks[i]| > 0
        invariant i <= |heard| && Valid() && InFlight(audioBuf[..], handed, size, count)
        invariant handed + Blocks(f, heard[i..]) == all
      {
        OneMore(f, heard, i, handed, all);
        PlayBuffer(chunks[i], f);
        i := i + 1;
      }
      BlocksEnd(f, heard, i);
    }

    /**
     * `play`, for a decoder that yields `chunks` and then no more; an empty one ends it, and so does a
     * skip that is seen at the head of round `skipAt`.  Pauses only take time.
     */
    method Play(chunks: seq<seq<nat>>, skipAt: nat, spdif: bool, blockSize: nat)
      requires Valid() && InFlight(audioBuf[..], handed, size, count) && blockSize > 0
      requires forall i :: 0 <= i < |chunks| ==> |chunks[i]| <= FormatOf(spdif, blockSize, size).read
      modifies audioBuf, this`buffIndex, this`handed
      ensures Valid() && InFlight(audioBuf[..], handed, size, count)
      ensures old(handed) <= handed
      ensures Played(spdif, blockSize, size, chunks[..Min(skipAt, |chunks|)], handed[|old(handed)|..])
    {
      var f := FormatOf(spdif, blockSize, size);
      FormatOfOk(spdif, blockSize, size);
      PlayChunks(chunks, skipAt, f);
      ghost var heard := chunks[..Min(skipAt, |chunks|)];
      BlocksExactly(spdif, blockSize, size, heard);
      assert handed[|old(handed)|..] == Blocks(f, heard);
    }

    /** `play` on a device without buffers: only the number of bytes is passed on. */
    method PlayUnbuffered(chunks: seq<seq<nat>>, skipAt: nat, spdif: bool, blockSize: nat) returns (amounts: seq<nat>)
      requires size % 4 == 0 && blockSize > 0
      requires forall i :: 0 <= i < |chunks| ==> |chunks[i]| <= FormatOf(spdif, blockSize, size).read
      ensures exists blocks ::
                Played(spdif, blockSize, size, chunks[..Min(skipAt, |chunks|)], blocks) && Lengths(amounts, blocks)
    {
      var f := FormatOf(spdif, blockSize, size);
      FormatOfOk(spdif, blockSize, size);
      amounts := CountChunks(chunks, skipAt, f);
      BlocksExactly(spdif, blockSize, size, chunks[..Min(skipAt, |chunks|)]);
    }

    /** The loop of `play` without buffers. */
    method CountChunks(chunks: seq<seq<nat>>, skipAt: nat, f: Format) returns (amounts: seq<nat>)
      requires FormatOk(f, size)
      requires forall i :: 0 <= i < |chunks| ==> |chunks[i]| <= f.read
      ensures Lengths(amounts, Blocks(f, chunks[..Min(skipAt, |chunks|)]))
    {
      var i := 0;
      amounts := [];
      ghost var heard := chunks[..Min(skipAt, |chunks|)];
      ghost var blocks := [];
      assert heard[0..] == heard;
      while i < |chunks| && i != skipAt && |chunks[i]| > 0
        invariant i <= |heard| && blocks + Blocks(f, heard[i..]) == Blocks(f, heard)
        invariant Lengths(amounts, blocks)
      {
        BlockLength(f, chunks[i], size);
        OneMore(f, heard, i, blocks, Blocks(f, heard));
        amounts := amounts + [if f.padding != 0 then size else |chunks[i]|];
        blocks := blocks + [Block(f, heard[i])];
        i := i + 1;
      }
      BlocksEnd(f, heard, i);
    }
  }
}
