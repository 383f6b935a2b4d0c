/** Sample expansion in `EasyPlayback::play`: blocks of samples spread out in place, each followed by zeros. */
module AudioExpansion {
  import opened Multiples
  import opened Common

  /** Each block of `block` bytes, followed by `padding` zeros. */
  function Expanded(src: seq<nat>, block: nat, padding: nat): seq<nat>
    requires block > 0
    decreases |src|
  {
    if |src| < block then [] else src[..block] + Zeros(padding) + Expanded(src[block..], block, padding)
  }

  /** The way back: the first `block` bytes of every group. */
  function Stripped(s: seq<nat>, block: nat, padding: nat): seq<nat>
    requires block > 0
    decreases |s|
  {
    if |s| < block + padding then [] else s[..block] + Stripped(s[block + padding..], block, padding)
  }

  lemma {:induction false} ExpandedLength(src: seq<nat>, block: nat, padding: nat, n: nat)
    requires block > 0 && |src| == block * n
    ensures |Expanded(src, block, padding)| == (block + padding) * n
    decreases n
  {
    if n > 0 {
      Times(block, n);
      Times(block + padding, n);
      ExpandedLength(src[block..], block, padding, n - 1);
    }
  }

  lemma Times(a: nat, n: nat)
    requires n > 0
    ensures a * n == a * (n - 1) + a
    ensures a * (n - 1) >= 0
  {
  }

  /** Nothing of the samples is lost: leaving out the padding gives them back. */
  lemma {:induction false} StripExpanded(src: seq<nat>, block: nat, padding: nat, n: nat)
    requires block > 0 && |src| == block * n
    ensures Stripped(Expanded(src, block, padding), block, padding) == src
    decreases n
  {
    if n > 0 {
      Times(block, n);
      StripExpanded(src[block..], block, padding, n - 1);
      var e := Expanded(src, block, padding);
      assert e[..block] == src[..block];
      assert e[block + padding..] == Expanded(src[block..], block, padding);
    }
  }

  /** Byte `t` of group `j`. */
  lemma {:induction false} ExpandedAt(src: seq<nat>, block: nat, padding: nat, n: nat, j: nat, t: nat)
    requires block > 0 && |src| == block * n && j < n && t < block + padding
    ensures |Expanded(src, block, padding)| == (block + padding) * n
    ensures 0 <= (block + padding) * j + t < (block + padding) * n
    ensures t < block ==> 0 <= block * j + t < block * n
    ensures Expanded(src, block, padding)[(block + padding) * j + t] == if t < block then src[block * j + t] else 0
    decreases n
  {
    ExpandedLength(src, block, padding, n);
    GroupInside(block + padding, j, n, t);
    if t < block {
      GroupInside(block, j, n, t);
    }
    if j > 0 {
      Times(block, n);
      Times(block, j);
      Times(block + padding, j);
      ExpandedAt(src[block..], block, padding, n - 1, j - 1, t);
    }
  }

  lemma GroupInside(a: nat, j: nat, n: nat, t: nat)
    requires j < n && t < a
    ensures a * j + t < a * n
  {
    LessTimes(j, n, a);
  }

  /** Taking one more block from the front end of what is already expanded. */
  lemma ExpandMore(src: seq<nat>, block: nat, padding: nat, j: nat)
    requires block > 0 && j > 0 && block * j <= |src|
    ensures 0 <= block * (j - 1) <= |src|
    ensures Expanded(src[block * (j - 1)..], block, padding) ==
            src[block * (j - 1)..block * j] + Zeros(padding) + Expanded(src[block * j..], block, padding)
  {
    Times(block, j);
    var a, b := block * (j - 1), block * j;
    var s := src[a..];
    assert s[..block] == src[a..b];
    assert s[block..] == src[b..];
  }

  // ----- one group of the loop, in place

  /**
   * `now` is `was` with the slots from `j` on expanded: `at` is where the buffer begins, `src` what
   * was read into it, and the blocks below `j` are still unmoved and unharmed.
   */
  ghost predicate Halfway(now: seq<nat>, was: seq<nat>, at: nat, n: nat, src: seq<nat>,
                          block: nat, padding: nat, j: nat)
  {
    && block > 0 && block + padding == 4 && j <= n && |now| == |was| && at + 4 * n <= |now| && |src| == block * n
    && block * j <= |src| && block * j <= 4 * j
    && now[..at] == was[..at] && now[at + 4 * n..] == was[at + 4 * n..]
    && now[at..at + block * j] == src[..block * j]
    && now[at + 4 * j..at + 4 * n] == Expanded(src[block * j..], block, padding)
  }

  /** `b` is `a` but for the indices in (w - n, w]. */
  ghost predicate SameBut(a: seq<nat>, b: seq<nat>, w: int, n: nat) {
    |a| == |b| && forall k :: 0 <= k < |a| && !(w - n < k <= w) ==> b[k] == a[k]
  }

  /** `next` differs from `now` in one slot, which holds the block's bytes and then the zeros. */
  lemma GroupDone(now: seq<nat>, was: seq<nat>, at: nat, n: nat, src: seq<nat>,
                  block: nat, padding: nat, j: nat, next: seq<nat>)
    requires Halfway(now, was, at, n, src, block, padding, j) && j > 0
    requires SameBut(now, next, at + 4 * j - 1, 4)
    requires 0 <= block * (j - 1) && block * j == block * (j - 1) + block
    requires next[at + 4 * j - 4..at + 4 * j] == now[at + block * (j - 1)..at + block * j] + Zeros(padding)
    ensures Halfway(next, was, at, n, src, block, padding, j - 1)
  {
    ExpandMore(src, block, padding, j);
    SameParts(now, next, at, n, j);
    var a, b := block * (j - 1), block * j;
    BlockBelow(block, j - 1);
    SlicePart(now, next, src, at, a, b);
    var low, mid, high := at + 4 * j - 4, at + 4 * j, at + 4 * n;
    assert next[low..high] == next[low..mid] + next[mid..high];
  }

  lemma StartHalfway(now: seq<nat>, was: seq<nat>, at: nat, n: nat, src: seq<nat>, block: nat, padding: nat)
    requires block > 0 && block + padding == 4 && at + 4 * n <= |now| && |now| == |was| && |src| == block * n <= 4 * n
    requires now[..at] == was[..at] && now[at + |src|..] == was[at + |src|..] && now[at..at + |src|] == src
    ensures Halfway(now, was, at, n, src, block, padding, n)
  {
    assert now[at + |src|..][4 * n - |src|..] == now[at + 4 * n..];
    assert was[at + |src|..][4 * n - |src|..] == was[at + 4 * n..];
  }

  ghost predicate Padded(a: seq<nat>, b: seq<nat>, w: int, padding: nat) {
    SameBut(a, b, w, padding) && forall k :: 0 <= k < |b| && w - padding < k <= w ==> b[k] == 0
  }

  ghost predicate Moved(a: seq<nat>, b: seq<nat>, w: int, d: nat, block: nat)
  {
    && SameBut(a, b, w, block) && block + d <= w + 1 <= |a|
    && forall k :: w - block < k <= w ==> b[k] == a[k - d]
  }

  /** The slot that ends at `w` holds the block that ended at `r`, and then the padding; the rest is as in `was`. */
  ghost predicate Written(was: seq<nat>, now: seq<nat>, w: int, r: int, block: nat, padding: nat) {
    && SameBut(was, now, w, 4) && 3 <= w < |was| && -1 <= r - block <= r < |was|
    && now[w - 3..w + 1] == was[r + 1 - block..r + 1] + Zeros(padding)
  }

  /** Padding and then moving one block writes its slot and nothing else. */
  lemma GroupMoved(was: seq<nat>, padded: seq<nat>, now: seq<nat>, w: nat, r: int, block: nat, padding: nat)
    requires w < |was| && block > 0 && block + padding == 4 && 3 <= w && block <= r + 1 && r <= w - padding
    requires Padded(was, padded, w, padding) && Moved(padded, now, w - padding, w - padding - r, block)
    ensures Written(was, now, w, r, block, padding)
  {
    SlotAfter(was, padded, now, w, r, block, padding);
    var slot, wanted := now[w - 3..w + 1], was[r + 1 - block..r + 1] + Zeros(padding);
    forall i | 0 <= i < 4
      ensures slot[i] == wanted[i]
    {
      assert slot[i] == now[w - 3 + i];
    }
    assert slot == wanted;
  }

  lemma SlotAfter(was: seq<nat>, padded: seq<nat>, now: seq<nat>, w: nat, r: int, block: nat, padding: nat)
    requires w < |was| && block > 0 && block + padding == 4 && 3 <= w && block <= r + 1 && r <= w - padding
    requires Padded(was, padded, w, padding) && Moved(padded, now, w - padding, w - padding - r, block)
    ensures SameBut(was, now, w, 4)
    ensures forall k :: w - 3 <= k <= w ==> now[k] == if k <= w - padding then was[k - (w - padding - r)] else 0
  {
    var d := w - padding - r;
    forall k | w - 3 <= k <= w
      ensures now[k] == if k <= w - padding then was[k - d] else 0
    {
      if k <= w - padding {
        assert now[k] == padded[k - d] == was[k - d];
      } else {
        assert now[k] == padded[k];
      }
    }
  }

  lemma EndHalfway(now: seq<nat>, was: seq<nat>, at: nat, n: nat, src: seq<nat>, block: nat, padding: nat)
    requires Halfway(now, was, at, n, src, block, padding, 0)
    ensures now[..at] == was[..at] && now[at + 4 * n..] == was[at + 4 * n..]
    ensures now[at..at + 4 * n] == Expanded(src, block, padding)
  {
    assert src[0..] == src;
  }

  lemma BlockBelow(block: nat, j: nat)
    requires block <= 4
    ensures block * j <= 4 * j
  {
  }

  lemma SameParts(now: seq<nat>, next: seq<nat>, at: nat, n: nat, j: nat)
    requires 0 < j <= n && at + 4 * n <= |now| && SameBut(now, next, at + 4 * j - 1, 4)
    ensures next[..at] == now[..at] && next[at + 4 * n..] == now[at + 4 * n..]
    ensures next[at + 4 * j..at + 4 * n] == now[at + 4 * j..at + 4 * n]
    ensures next[at..at + 4 * j - 4] == now[at..at + 4 * j - 4]
  {
  }

  /** A part of an equal part is equal. */
  lemma SlicePart(now: seq<nat>, next: seq<nat>, src: seq<nat>, at: nat, a: nat, b: nat)
    requires a <= b <= |src| && at + b <= |now| && |next| == |now| && now[at..at + b] == src[..b]
    ensures now[at + a..at + b] == src[a..b] && now[at..at + a] == src[..a]
  {
    assert now[at..at + b][..a] == now[at..at + a];
    assert now[at..at + b][a..] == now[at + a..at + b];
  }

  /** How the three sizes are chosen: a group is one four-byte slot, `read` the bytes taken for a buffer. */
  datatype Format = Format(block: nat, padding: nat, read: nat)

  function FormatOf(spdif: bool, blockSize: nat, size: nat): Format {
    if spdif && blockSize == 16 then Format(2, 2, size / 2)
    else if blockSize == 20 || blockSize == 24 then Format(3, 1, size * 3 / 4)
    else Format((blockSize + 7) / 8, 0, size)
  }

  lemma FormatFits(spdif: bool, blockSize: nat, n: nat)
    ensures var f := FormatOf(spdif, blockSize, 4 * n);
            f.padding != 0 ==> f.block + f.padding == 4 && f.block > 0 && f.read == f.block * n && f.read <= 4 * n
  {
  }

  /** The last index written by the loop, which takes whole groups until none of the buffer is left above it. */
  function LowestWritten(idx: int, group: nat): int
    requires group > 0
    decreases idx
  {
    if idx < 0 then idx + 1 else LowestWritten(idx - group, group)
  }

  /** The loop stays inside the buffer, and ends at its very beginning, exactly when the groups fill it. */
  lemma {:induction false} InsideExactly(size: nat, group: nat)
    requires group > 0
    ensures LowestWritten(size - 1, group) >= 0 <==> size % group == 0
    ensures size % group == 0 ==> LowestWritten(size - 1, group) == 0
    decreases size
  {
    if size >= group {
      AddMod(size - group, group, group) by {
        QuotientUnique(group, group, 1, 0);
      }
      InsideExactly(size - group, group);
    } else if size > 0 {
      QuotientUnique(size, group, 0, size);
      assert LowestWritten(size - 1, group) == size - group;
    } else {
      QuotientUnique(0, group, 0, 0);
    }
  }
}
