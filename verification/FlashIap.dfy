/** `FlashIAP::program` and `FlashIAP::erase` over the calls they make to the flash HAL. */
module FlashIap {
  import opened FlashLayout
  import opened Multiples
  import opened Common

  /**
   * A successful `flash_program_page`: `data` is stored from `addr` on. `pointer` is the caller's
   * own memory, unless the data went through the page buffer.
   */
  datatype Write = Write(addr: nat, data: seq<nat>, buffered: bool, pointer: nat)

  // ----- program

  /** The check at the head of `program`, with its 32-bit sums; `base` is the source pointer. */
  predicate AcceptsProgram(g: Layout, base: nat, addr: nat, size: nat)
    requires g.page > 0
  {
    addr % g.page == 0 && base != 0 && (addr + size) % WRAP <= End(g) % WRAP
  }

  /** The check is the intended range check, but for sums that wrap. */
  lemma AcceptsProgramExactly(g: Layout, base: nat, addr: nat, size: nat)
    requires Valid(g) && addr < WRAP && size < WRAP
    ensures AcceptsProgram(g, base, addr, size) <==>
            && addr % g.page == 0 && base != 0
            && (addr + size <= End(g) || WRAP <= addr + size <= WRAP + End(g))
  {
    if addr + size >= WRAP {
      QuotientUnique(addr + size, WRAP, 1, addr + size - WRAP);
    }
  }

  /** The range lies in the flash; `program` itself does not look at the lower end. */
  predicate InFlash(g: Layout, addr: nat, size: nat) { g.start <= addr && addr + size <= End(g) }

  function Filled(n: nat): (s: seq<nat>)
    ensures |s| == n
  {
    seq(n, _ => 0xFF)
  }

  /** The byte at `a` once the calls have been made, when it was `before`: the last call there wins. */
  function ByteAt(before: nat, calls: seq<Write>, a: nat): nat
    decreases |calls|
  {
    if calls == [] then before
    else
      var w := calls[|calls| - 1];
      if w.addr <= a < w.addr + |w.data| then w.data[a - w.addr] else ByteAt(before, calls[..|calls| - 1], a)
  }

  /** The bytes of all calls, one call after the other. */
  function Flat(calls: seq<Write>): seq<nat>
    decreases |calls|
  {
    if calls == [] then [] else Flat(calls[..|calls| - 1]) + calls[|calls| - 1].data
  }

  /** Each call begins where the one before ended: no page is programmed twice and none is left out. */
  predicate InRow(calls: seq<Write>, addr: nat)
    decreases |calls|
  {
    calls == [] ||
    (InRow(calls[..|calls| - 1], addr) && calls[|calls| - 1].addr == addr + |Flat(calls[..|calls| - 1])|)
  }

  /** What the HAL asks for: whole pages, on a page boundary, inside one sector, from an aligned source. */
  ghost predicate Proper(g: Layout, w: Write)
    requires g.page > 0
  {
    && w.addr % g.page == 0 && |w.data| > 0 && |w.data| % g.page == 0
    && (w.buffered || w.pointer % 4 == 0)
    && InOneSector(g, w.addr, |w.data|)
  }

  ghost predicate InOneSector(g: Layout, addr: nat, n: nat) {
    exists i: nat :: InSector(g, addr, i) && addr + n <= StartOf(g, i + 1)
  }

  ghost predicate AllProper(g: Layout, calls: seq<Write>)
    requires g.page > 0
  {
    forall k :: 0 <= k < |calls| ==> Proper(g, calls[k])
  }

  /** The first page boundary at or after `a`. */
  function PageEnd(a: nat, page: nat): (stop: nat)
    requires page > 0
    ensures a <= stop < a + page
  {
    if a % page == 0 then a else a + (page - a % page)
  }

  /** What a finished `program` has passed to the HAL: the data, padded with 0xFF to the end of its last page. */
  predicate Programs(page: nat, addr: nat, data: seq<nat>, calls: seq<Write>)
    requires page > 0
  {
    InRow(calls, addr) && Flat(calls) == data + Filled(PageEnd(addr + |data|, page) - (addr + |data|))
  }

  lemma {:induction false} RowWrites(calls: seq<Write>, addr: nat, before: nat, a: nat)
    requires InRow(calls, addr)
    ensures ByteAt(before, calls, a) == if addr <= a < addr + |Flat(calls)| then Flat(calls)[a - addr] else before
    decreases |calls|
  {
    if calls != [] {
      RowWrites(calls[..|calls| - 1], addr, before, a);
    }
  }

  /** The data is stored, the last page is padded with 0xFF, and nothing else changes. */
  lemma ProgramWrites(page: nat, addr: nat, data: seq<nat>, calls: seq<Write>, before: nat, a: nat)
    requires page > 0 && Programs(page, addr, data, calls)
    ensures ByteAt(before, calls, a) ==
            if addr <= a < addr + |data| then data[a - addr]
            else if addr + |data| <= a < PageEnd(addr + |data|, page) then 0xFF
            else before
  {
    RowWrites(calls, addr, before, a);
  }

  lemma RowGrows(calls: seq<Write>, w: Write, addr: nat)
    requires InRow(calls, addr) && w.addr == addr + |Flat(calls)|
    ensures InRow(calls + [w], addr) && Flat(calls + [w]) == Flat(calls) + w.data
  {
    assert (calls + [w])[..|calls|] == calls;
  }

  // ----- one round of `program`

  /** Up to the end of its sector an address on a page boundary has whole pages. */
  lemma PagesLeft(g: Layout, addr: nat, i: nat)
    requires Valid(g) && addr % g.page == 0 && InSector(g, addr, i)
    ensures (StartOf(g, i + 1) - addr) % g.page == 0 && StartOf(g, i + 1) - addr >= g.page
  {
    BoundariesArePages(g, i);
    SubMod(StartOf(g, i + 1), addr, g.page);
    AtLeastOne(StartOf(g, i + 1) - addr, g.page);
  }

  lemma AtLeastOne(n: nat, p: nat)
    requires p > 0 && n > 0 && n % p == 0
    ensures n >= p
  {
  }

  lemma WholePages(n: nat, page: nat)
    requires page > 0 && n >= page
    ensures 0 < n / page * page <= n && (n / page * page) % page == 0
  {
    var q := n / page;
    assert n == q * page + n % page;
    LessTimes(0, q, page);
    TimesMod(q, page);
  }

  lemma LastPage(addr: nat, n: nat, page: nat)
    requires 0 < n <= page && addr % page == 0
    ensures PageEnd(addr + n, page) == addr + page && page % page == 0
  {
    AddMod(n, addr, page);
    QuotientUnique(page, page, 1, 0);
    if n < page {
      QuotientUnique(n, page, 0, n);
    }
  }

  /** What is left of the sector, as the loop computes it: positive, and in the flash whole pages of one sector. */
  lemma SectorLeft(g: Layout, addr: nat, s: nat)
    requires Valid(g) && s == SectorSize(g, addr)
    ensures s > 0 && s - addr % s > 0
    ensures addr % g.page == 0 && g.start <= addr < End(g) ==>
              s - addr % s >= g.page && (forall n: nat | n <= s - addr % s :: InOneSector(g, addr, n))
  {
    SizeFromPositive(g, addr, 0);
    if addr % g.page == 0 && g.start <= addr < End(g) {
      var i := FindSector(g, addr, |g.sizes|);
      SectorSizeIs(g, addr, i);
      PlaceInSector(g, addr, i);
      PagesLeft(g, addr, i);
      forall n: nat | n <= s - addr % s
        ensures InOneSector(g, addr, n)
      {
        assert InSector(g, addr, i);
      }
    }
  }

  /** One round did its share: the next `chunk` bytes from `done` on, padded only at the very end. */
  ghost predicate RoundOk(g: Layout, data: seq<nat>, done: nat, addr: nat, chunk: nat, w: Write)
    requires g.page > 0 && done + chunk <= |data|
  {
    && Proper(g, w) && w.addr == addr && chunk <= |w.data|
    && w.data == data[done..done + chunk] + Filled(|w.data| - chunk)
    && (done + chunk < |data| ==> |w.data| == chunk && (addr + chunk) % g.page == 0)
    && PageEnd(addr + chunk, g.page) == addr + |w.data|
  }

  lemma BufferedRound(g: Layout, data: seq<nat>, done: nat, addr: nat, chunk: nat, w: Write)
    requires Valid(g) && done + chunk <= |data| && 0 < chunk <= g.page && addr % g.page == 0
    requires done + chunk < |data| ==> chunk == g.page
    requires InOneSector(g, addr, g.page)
    requires w == Write(addr, data[done..done + chunk] + Filled(g.page - chunk), true, 0)
    ensures RoundOk(g, data, done, addr, chunk, w)
  {
    LastPage(addr, chunk, g.page);
    AddMod(chunk, addr, g.page);
  }

  lemma DirectRound(g: Layout, data: seq<nat>, done: nat, addr: nat, chunk: nat, w: Write)
    requires Valid(g) && done + chunk <= |data| && 0 < chunk && addr % g.page == 0
    requires chunk % g.page == 0 && w.pointer % 4 == 0 && InOneSector(g, addr, chunk)
    requires w.addr == addr && w.data == data[done..done + chunk]
    ensures RoundOk(g, data, done, addr, chunk, w)
  {
    AddMod(addr, chunk, g.page);
    assert w.data == data[done..done + chunk] + Filled(0);
  }

  /** The first `done` bytes have been passed on, in proper calls; all of them with their padding. */
  ghost predicate Progress(g: Layout, addr: nat, data: seq<nat>, done: nat, calls: seq<Write>)
    requires g.page > 0 && done <= |data|
  {
    && AllProper(g, calls) && InRow(calls, addr)
    && (done < |data| ==> Flat(calls) == data[..done] && (addr + done) % g.page == 0)
    && (done == |data| ==> Programs(g.page, addr, data, calls))
  }

  /** A round carries on from the one before, with no gap and no page written twice. */
  lemma RoundExtends(g: Layout, data: seq<nat>, done: nat, addr: nat, chunk: nat, w: Write, calls: seq<Write>)
    requires Valid(g) && done + chunk <= |data| && 0 < chunk && RoundOk(g, data, done, addr + done, chunk, w)
    requires Progress(g, addr, data, done, calls)
    ensures Progress(g, addr, data, done + chunk, calls + [w])
  {
    RowGrows(calls, w, addr);
    assert data[..done + chunk] == data[..done] + data[done..done + chunk];
  }

  /** Where the loop stands: on course as long as all its calls are proper, as they are in the flash. */
  ghost predicate Reached(g: Layout, addr: nat, data: seq<nat>, done: nat, calls: seq<Write>, at: nat)
    requires g.page > 0 && done <= |data|
  {
    && (InFlash(g, addr, |data|) ==> AllProper(g, calls))
    && (AllProper(g, calls) ==>
          at == addr + done && Progress(g, addr, data, done, calls) && (done > 0 ==> InFlash(g, addr, done)))
  }

  lemma ProperInFlash(g: Layout, w: Write)
    requires Valid(g) && Proper(g, w)
    ensures g.start <= w.addr && w.addr + |w.data| <= End(g)
  {
    var i: nat :| InSector(g, w.addr, i) && w.addr + |w.data| <= StartOf(g, i + 1);
    StartsGrow(g, 0, i);
    StartsGrow(g, i + 1, |g.sizes|);
  }

  lemma ReachedNext(g: Layout, addr: nat, data: seq<nat>, done: nat, calls: seq<Write>, at: nat, chunk: nat, w: Write)
    requires Valid(g) && done + chunk <= |data| && 0 < chunk && w.addr == at && Reached(g, addr, data, done, calls, at)
    requires at % g.page == 0 && g.start <= at < End(g) ==> RoundOk(g, data, done, at, chunk, w)
    ensures Reached(g, addr, data, done + chunk, calls + [w], (at + chunk) % WRAP)
  {
    if AllProper(g, calls) && g.start <= at < End(g) && at % g.page == 0 {
      OnCourse(g, addr, data, done, calls, chunk, w);
    } else {
      NotAllProper(g, calls, w);
    }
  }

  lemma OnCourse(g: Layout, addr: nat, data: seq<nat>, done: nat, calls: seq<Write>, chunk: nat, w: Write)
    requires Valid(g) && done + chunk <= |data| && 0 < chunk && RoundOk(g, data, done, addr + done, chunk, w)
    requires Progress(g, addr, data, done, calls) && (done > 0 ==> InFlash(g, addr, done))
    ensures Progress(g, addr, data, done + chunk, calls + [w]) && InFlash(g, addr, done + chunk)
  {
    ProperInFlash(g, w);
    RoundExtends(g, data, done, addr, chunk, w, calls);
  }

  lemma NotAllProper(g: Layout, calls: seq<Write>, w: Write)
    requires Valid(g) && !(AllProper(g, calls) && g.start <= w.addr < End(g) && w.addr % g.page == 0)
    ensures !AllProper(g, calls + [w])
  {
    var all := calls + [w];
    assert forall k :: 0 <= k < |calls| ==> all[k] == calls[k];
    assert all[|calls|] == w;
    if Proper(g, w) {
      ProperInFlash(g, w);
    }
  }

  lemma NoProgress(g: Layout, addr: nat, data: seq<nat>)
    requires g.page > 0 && addr % g.page == 0
    ensures Progress(g, addr, data, 0, [])
  {
    assert data == [] ==> data + Filled(0) == [];
  }

  // ----- erase

  datatype Outcome = Finished | Failed | Running

  /** Where a range ends in 32 bits. */
  function Stop(addr: nat, size: nat): nat { (addr + size) % WRAP }

  /** The check at the head of `erase`, with its 32-bit sum. */
  predicate AcceptsErase(g: Layout, addr: nat, size: nat)
    requires Valid(g)
  {
    var stop := Stop(addr, size);
    SizeFromPositive(g, stop, 0);
    stop <= End(g) && (stop < End(g) ==> stop % SectorSize(g, stop) == 0)
  }

  /**
   * The loop of `erase`, for as many HAL calls as there are `answers` (true for success): how it
   * stands after them, and the addresses it passed to `flash_erase_sector`. The subtraction from
   * `size` is the 32-bit one.
   */
  function EraseRun(g: Layout, addr: nat, size: nat, answers: seq<bool>): (r: (Outcome, seq<nat>))
    requires g.page > 0
    decreases |answers|
  {
    if size == 0 then (Finished, [])
    else if answers == [] then (Running, [])
    else if !answers[0] then (Failed, [addr])
    else
      var s := SectorSize(g, addr);
      var rest := EraseRun(g, (addr + s) % WRAP, (size - s) % WRAP, answers[1..]);
      (rest.0, [addr] + rest.1)
  }

  lemma EraseUnfolds(g: Layout, addr: nat, size: nat, answers: seq<bool>, k: nat)
    requires g.page > 0 && size != 0 && k < |answers|
    ensures var run, s := EraseRun(g, addr, size, answers[k..]), SectorSize(g, addr);
            var rest := EraseRun(g, (addr + s) % WRAP, (size - s) % WRAP, answers[k + 1..]);
            run == if answers[k] then (rest.0, [addr] + rest.1) else (Failed, [addr])
  {
    assert answers[k..][1..] == answers[k + 1..];
  }

  /** The sector starts from sector `i` up to sector `j`. */
  function Starts(g: Layout, i: nat, j: nat): (s: seq<nat>)
    requires i <= j <= |g.sizes|
    decreases j - i
  {
    if i == j then [] else [StartOf(g, i)] + Starts(g, i + 1, j)
  }

  /** The prefix of the answers that are successes, at most `n` of them. */
  function Successes(answers: seq<bool>, n: nat): (k: nat)
    ensures k <= n && k <= |answers|
  {
    if n == 0 || answers == [] || !answers[0] then 0 else 1 + Successes(answers[1..], n - 1)
  }

  /** From a sector start to a sector end the loop visits the sectors in between, one after the other. */
  lemma {:induction false} EraseVisits(g: Layout, i: nat, j: nat, answers: seq<bool>)
    requires Valid(g) && i <= j <= |g.sizes| && StartOf(g, i) <= StartOf(g, j)
    ensures var run := EraseRun(g, StartOf(g, i), StartOf(g, j) - StartOf(g, i), answers);
            var k := Successes(answers, j - i);
            && (run.0.Finished? <==> k == j - i)
            && (run.0.Failed? <==> k < j - i && k < |answers|)
            && run.1 == Starts(g, i, i + k) + (if run.0.Failed? then [StartOf(g, i + k)] else [])
    decreases j - i
  {
    if i < j {
      StartsApart(g, i, j);
      if answers != [] && answers[0] {
        EraseStep(g, i, j);
        EraseVisits(g, i + 1, j, answers[1..]);
      }
    }
  }

  /** One round from a sector start: no underflow, and on to the next sector's start. */
  lemma EraseStep(g: Layout, i: nat, j: nat)
    requires Valid(g) && i < j <= |g.sizes|
    ensures StartOf(g, i + 1) <= StartOf(g, j)
    ensures var addr, size := StartOf(g, i), StartOf(g, j) - StartOf(g, i);
            var s := SectorSize(g, addr);
            && s <= size
            && (addr + s) % WRAP == StartOf(g, i + 1)
            && (size - s) % WRAP == StartOf(g, j) - StartOf(g, i + 1)
  {
    assert SectorOk(g, i);
    SectorSizeIs(g, StartOf(g, i), i);
    StartsGrow(g, i + 1, j);
    StartsGrow(g, j, |g.sizes|);
  }

  /** The check accepts exactly the ranges that end at a sector's end, or at 0. */
  lemma AcceptsEraseExactly(g: Layout, addr: nat, size: nat)
    requires Valid(g)
    ensures AcceptsErase(g, addr, size) <==>
            Stop(addr, size) == 0 || exists j :: 0 <= j <= |g.sizes| && StartOf(g, j) == Stop(addr, size)
  {
    var stop := Stop(addr, size);
    if stop < g.start {
      NoSectorBelow(g, stop, 0);
      StartsGrow(g, 0, |g.sizes|);
      QuotientUnique(stop, INVALID_SIZE, 0, stop);
      forall j | 0 <= j <= |g.sizes|
        ensures StartOf(g, j) != stop
      {
        StartsGrow(g, 0, j);
      }
    } else if stop < End(g) {
      EndsSector(g, stop);
    } else {
      assert StartOf(g, |g.sizes|) == End(g);
      forall j | 0 <= j <= |g.sizes|
        ensures StartOf(g, j) <= End(g)
      {
        StartsGrow(g, j, |g.sizes|);
      }
    }
  }

  /** An address of the flash is a multiple of its sector's size exactly when it is a sector's start. */
  lemma EndsSector(g: Layout, stop: nat)
    requires Valid(g) && g.start <= stop < End(g)
    ensures SectorSize(g, stop) > 0
    ensures stop % SectorSize(g, stop) == 0 <==> exists j :: 0 <= j <= |g.sizes| && StartOf(g, j) == stop
  {
    var i := FindSector(g, stop, |g.sizes|);
    SectorSizeIs(g, stop, i);
    PlaceInSector(g, stop, i);
    if StartOf(g, i) < stop {
      forall j | 0 <= j <= |g.sizes|
        ensures StartOf(g, j) != stop
      {
        if j <= i {
          StartsGrow(g, j, i);
        } else {
          StartsGrow(g, i + 1, j);
        }
      }
    }
  }

  /** The byte at `a` is cleared: its sector is the sector of one of the addresses passed. */
  ghost predicate Cleared(g: Layout, calls: seq<nat>, a: nat) {
    exists k, i :: 0 <= k < |calls| && InSector(g, calls[k], i) && InSector(g, a, i)
  }

  lemma {:induction false} StartsAt(g: Layout, i: nat, j: nat, k: nat)
    requires i <= j <= |g.sizes|
    ensures |Starts(g, i, j)| == j - i
    ensures k < j - i ==> Starts(g, i, j)[k] == StartOf(g, i + k)
    decreases j - i
  {
    if i < j {
      StartsAt(g, i + 1, j, if k == 0 then 0 else k - 1);
    }
  }

  lemma ClearedInside(g: Layout, i: nat, j: nat, a: nat, k: nat, m: nat)
    requires Valid(g) && i <= j <= |g.sizes| && k < j - i && InSector(g, StartOf(g, i + k), m) && InSector(g, a, m)
    ensures StartOf(g, i) <= a < StartOf(g, j)
  {
    assert SectorOk(g, i + k);
    OneSector(g, StartOf(g, i + k), m, i + k);
    StartsGrow(g, i, m);
    StartsGrow(g, m + 1, j);
  }

  lemma InsideHasSector(g: Layout, i: nat, j: nat, a: nat) returns (m: nat)
    requires Valid(g) && i <= j <= |g.sizes| && StartOf(g, i) <= a < StartOf(g, j)
    ensures i <= m < j && InSector(g, a, m) && InSector(g, StartOf(g, m), m)
  {
    StartsGrow(g, 0, i);
    m := FindSector(g, a, j);
    if m < i {
      StartsGrow(g, m + 1, i);
    }
    assert SectorOk(g, m);
  }

  /** Erasing the sectors from `i` to `j` clears the bytes between their bounds and no other. */
  lemma StartsClear(g: Layout, i: nat, j: nat, calls: seq<nat>, a: nat)
    requires Valid(g) && i <= j <= |g.sizes| && |calls| == j - i
    requires forall k :: 0 <= k < |calls| ==> calls[k] == StartOf(g, i + k)
    ensures Cleared(g, calls, a) <==> StartOf(g, i) <= a < StartOf(g, j)
  {
    if Cleared(g, calls, a) {
      var k, m :| 0 <= k < |calls| && InSector(g, calls[k], m) && InSector(g, a, m);
      ClearedInside(g, i, j, a, k, m);
    }
    if StartOf(g, i) <= a < StartOf(g, j) {
      var m := InsideHasSector(g, i, j, a);
      assert calls[m - i] == StartOf(g, m);
      assert InSector(g, calls[m - i], m);
    }
  }

  /**
   * A finished `erase` of an accepted range clears exactly that range if and only if the range
   * begins at a sector's start, which `erase` does not check.
   */
  lemma EraseClearsExactly(g: Layout, addr: nat, size: nat, answers: seq<bool>)
    requires Valid(g) && g.start <= addr && 0 < size && addr + size <= End(g)
    requires AcceptsErase(g, addr, size) && EraseRun(g, addr, size, answers).0.Finished?
    ensures IsSectorStart(g, addr) <==>
            forall a: nat :: Cleared(g, EraseRun(g, addr, size, answers).1, a) <==> addr <= a < addr + size
  {
    var calls := EraseRun(g, addr, size, answers).1;
    if IsSectorStart(g, addr) {
      StartClears(g, addr, size, answers);
    } else {
      assert calls[0] == addr;
      var i := FindSector(g, addr, |g.sizes|);
      var first := StartOf(g, i);
      assert InSector(g, calls[0], i) && InSector(g, first, i);
      assert Cleared(g, calls, first) && first < addr;
    }
  }

  /**
   * Whatever the HAL answers, an `erase` of an accepted range touches no byte outside it if and only if
   * the range begins at a sector's start.
   */
  lemma EraseStaysInside(g: Layout, addr: nat, size: nat)
    requires Valid(g) && g.start <= addr && 0 < size && addr + size <= End(g) && AcceptsErase(g, addr, size)
    ensures IsSectorStart(g, addr) <==>
            forall answers, a: nat :: Cleared(g, EraseRun(g, addr, size, answers).1, a) ==> addr <= a < addr + size
  {
    if IsSectorStart(g, addr) {
      AcceptsEraseExactly(g, addr, size);
      var i :| 0 <= i < |g.sizes| && StartOf(g, i) == addr;
      var j :| 0 <= j <= |g.sizes| && StartOf(g, j) == addr + size;
      if j <= i {
        StartsGrow(g, j, i);
      } else {
        forall answers, a: nat | Cleared(g, EraseRun(g, addr, size, answers).1, a)
          ensures addr <= a < addr + size
        {
          RunStaysInside(g, i, j, answers, EraseRun(g, addr, size, answers).1, a);
        }
      }
    } else {
      var i := FindSector(g, addr, |g.sizes|);
      TouchesBefore(g, addr, size, i, EraseRun(g, addr, size, [true]).1);
    }
  }

  /** From the middle of a sector the first call already touches what lies before the range. */
  lemma TouchesBefore(g: Layout, addr: nat, size: nat, i: nat, calls: seq<nat>)
    requires Valid(g) && 0 < size && InSector(g, addr, i) && StartOf(g, i) != addr
    requires calls == EraseRun(g, addr, size, [true]).1
    ensures Cleared(g, calls, StartOf(g, i)) && StartOf(g, i) < addr
  {
    assert calls[0] == addr;
    assert InSector(g, calls[0], i) && InSector(g, StartOf(g, i), i);
  }

  lemma RunStaysInside(g: Layout, i: nat, j: nat, answers: seq<bool>, calls: seq<nat>, a: nat)
    requires Valid(g) && i < j <= |g.sizes| && StartOf(g, i) <= StartOf(g, j)
    requires calls == EraseRun(g, StartOf(g, i), StartOf(g, j) - StartOf(g, i), answers).1 && Cleared(g, calls, a)
    ensures StartOf(g, i) <= a < StartOf(g, j)
  {
    EraseVisits(g, i, j, answers);
    var k, m :| 0 <= k < |calls| && InSector(g, calls[k], m) && InSector(g, a, m);
    VisitedAt(g, i, j, answers, calls, k);
    ClearedInside(g, i, j, a, k, m);
  }

  /** Call `k` of a run goes to the sector `k` places on. */
  lemma VisitedAt(g: Layout, i: nat, j: nat, answers: seq<bool>, calls: seq<nat>, k: nat)
    requires Valid(g) && i < j <= |g.sizes| && StartOf(g, i) <= StartOf(g, j) && k < |calls|
    requires calls == EraseRun(g, StartOf(g, i), StartOf(g, j) - StartOf(g, i), answers).1
    ensures k < j - i && calls[k] == StartOf(g, i + k)
  {
    EraseVisits(g, i, j, answers);
    var n := Successes(answers, j - i);
    StartsAt(g, i, i + n, if k < n then k else 0);
  }

  lemma StartClears(g: Layout, addr: nat, size: nat, answers: seq<bool>)
    requires Valid(g) && g.start <= addr && 0 < size && addr + size <= End(g) && IsSectorStart(g, addr)
    requires AcceptsErase(g, addr, size) && EraseRun(g, addr, size, answers).0.Finished?
    ensures forall a: nat :: Cleared(g, EraseRun(g, addr, size, answers).1, a) <==> addr <= a < addr + size
  {
    AcceptsEraseExactly(g, addr, size);
    var i :| 0 <= i < |g.sizes| && StartOf(g, i) == addr;
    var j :| 0 <= j <= |g.sizes| && StartOf(g, j) == addr + size;
    if j <= i {
      StartsGrow(g, j, i);
    } else {
      SectorsClear(g, i, j, addr, size, answers, EraseRun(g, addr, size, answers).1);
    }
  }

  lemma SectorsClear(g: Layout, i: nat, j: nat, addr: nat, size: nat, answers: seq<bool>, calls: seq<nat>)
    requires Valid(g) && i < j <= |g.sizes| && StartOf(g, i) == addr && StartOf(g, j) == addr + size
    requires EraseRun(g, addr, size, answers) == (Finished, calls)
    ensures forall a: nat :: Cleared(g, calls, a) <==> addr <= a < addr + size
  {
    EraseVisits(g, i, j, answers);
    assert calls == Starts(g, i, j);
    StartsAt(g, i, j, 0);
    forall k | 0 <= k < |calls|
      ensures calls[k] == StartOf(g, i + k)
    {
      StartsAt(g, i, j, k);
    }
    forall a: nat
      ensures Cleared(g, calls, a) <==> addr <= a < addr + size
    {
      StartsClear(g, i, j, calls, a);
    }
  }

  lemma ToSectorEnd(g: Layout, addr: nat, i: nat)
    requires Valid(g) && InSector(g, addr, i)
    ensures AcceptsErase(g, addr, StartOf(g, i + 1) - addr)
    ensures StartOf(g, i + 1) <= End(g) && SectorSize(g, addr) == StartOf(g, i + 1) - StartOf(g, i)
  {
    StartsGrow(g, i + 1, |g.sizes|);
    StartsGrow(g, 0, i);
    AcceptsEraseExactly(g, addr, StartOf(g, i + 1) - addr);
    SectorSizeIs(g, addr, i);
  }

  /** From the middle of a sector to its end the first subtraction from the size underflows. */
  lemma UnderflowsFromMiddle(g: Layout, addr: nat, i: nat)
    requires Valid(g) && InSector(g, addr, i) && addr != StartOf(g, i)
    ensures var size := StartOf(g, i + 1) - addr;
            && AcceptsErase(g, addr, size)
            && SectorSize(g, addr) > size
            && (size - SectorSize(g, addr)) % WRAP == WRAP + size - SectorSize(g, addr)
            && (size - SectorSize(g, addr)) % WRAP > End(g) - StartOf(g, i + 1)
            && EraseRun(g, addr, size, [true]) == (Running, [addr])
  {
    ToSectorEnd(g, addr, i);
    Underflow(StartOf(g, i + 1) - addr, SectorSize(g, addr));
    OneAnswer(g, addr, StartOf(g, i + 1) - addr);
  }

  lemma OneAnswer(g: Layout, addr: nat, size: nat)
    requires g.page > 0 && size != 0 && (size - SectorSize(g, addr)) % WRAP != 0
    ensures EraseRun(g, addr, size, [true]) == (Running, [addr])
  {
    var answers := [true];
    assert answers[0..] == answers && answers[1..] == [];
    EraseUnfolds(g, addr, size, answers, 0);
    var s := SectorSize(g, addr);
    NoAnswer(g, (addr + s) % WRAP, (size - s) % WRAP);
    assert [addr] + [] == [addr];
  }

  lemma NoAnswer(g: Layout, addr: nat, size: nat)
    requires g.page > 0 && size != 0
    ensures EraseRun(g, addr, size, []) == (Running, [])
  {
  }

  /** The bytes that one round writes without the page buffer are as many whole pages as the range and the sector hold. */
  ghost predicate Longest(g: Layout, addr: nat, size: nat, chunk: nat)
    requires g.page > 0
  {
    forall n: nat | chunk < n <= size && n % g.page == 0 :: !InOneSector(g, addr, n)
  }

  lemma PagesAreLongest(g: Layout, addr: nat, size: nat, s: nat, chunk: nat)
    requires Valid(g) && addr % g.page == 0 && g.start <= addr < End(g) && s == SectorSize(g, addr) && s > 0
    requires chunk == Min(s - addr % s, size) / g.page * g.page
    ensures Longest(g, addr, size, chunk)
  {
    var i := FindSector(g, addr, |g.sizes|);
    SectorSizeIs(g, addr, i);
    PlaceInSector(g, addr, i);
    forall n: nat | chunk < n <= size && n % g.page == 0
      ensures !InOneSector(g, addr, n)
    {
      var left := s - addr % s;
      if n <= left {
        NextMultiple(Min(left, size), n, g.page);
        assert false;
      }
      forall k: nat | InSector(g, addr, k)
        ensures addr + n > StartOf(g, k + 1)
      {
        OneSector(g, addr, i, k);
      }
    }
  }

  lemma NextMultiple(limit: nat, n: nat, page: nat)
    requires page > 0 && n % page == 0 && n > limit / page * page
    ensures n > limit
  {
    var a, b := n / page, limit / page;
    assert n == a * page && limit == b * page + limit % page;
    NotMore(a, b, page);
    if b < a {
      LessTimes(b, a, page);
    }
  }

  lemma NotMore(a: nat, b: nat, page: nat)
    ensures a <= b ==> a * page <= b * page
  {
    if a < b {
      LessTimes(a, b, page);
    }
  }

  lemma Underflow(size: nat, s: nat)
    requires size < s <= WRAP
    ensures (size - s) % WRAP == WRAP + size - s
  {
  }
}
