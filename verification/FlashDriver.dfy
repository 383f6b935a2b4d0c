/** `FlashIAP` itself: its page buffer, its loops, and the log of what it has the HAL do. */
module FlashDriver {
  import opened FlashLayout
  import opened Common
  import opened FlashIap

  class FlashIAP {
    const layout: Layout
    const pageBuf: array<nat>
    var programmed: seq<Write>
    var refused: nat  // how many calls to program the HAL has failed
    var erased: seq<nat>

    ghost predicate Ready()
    {
      Valid(layout) && pageBuf.Length == layout.page
    }

    constructor (layout: Layout)
      requires Valid(layout)
      ensures this.layout == layout && Ready() && fresh(pageBuf)
      ensures programmed == [] && erased == [] && refused == 0
    {
      this.layout := layout;
      pageBuf := new nat[layout.page];
      programmed, erased, refused := [], [], 0;
    }

    /** The HAL call, which may fail for reasons of its own. */
    method FlashProgramPage(w: Write) returns (failed: bool)
      modifies this`programmed, this`refused
      ensures programmed == if failed then old(programmed) else old(programmed) + [w]
      ensures refused == old(refused) + if failed then 1 else 0
    {
      failed := *;
      if failed {
        refused := refused + 1;
      } else {
        programmed := programmed + [w];
      }
    }

    /** Copies a chunk to the page buffer and fills the rest of the page. */
    method FillPageBuffer(data: seq<nat>, done: nat, chunk: nat)
      requires Ready() && done + chunk <= |data| && chunk <= layout.page
      modifies pageBuf
      ensures pageBuf[..] == data[done..done + chunk] + Filled(layout.page - chunk)
    {
      var i := 0;
      while i < pageBuf.Length
        invariant 0 <= i <= pageBuf.Length
        invariant forall j :: 0 <= j < i ==> pageBuf[j] == if j < chunk then data[done + j] else 0xFF
      {
        pageBuf[i] := if i < chunk then data[done + i] else 0xFF;
        i := i + 1;
      }
    }

    /** How far one round goes, and whether it uses the page buffer. */
    method ChooseChunk(base: nat, size: nat, addr: nat) returns (chunk: nat, buffered: bool)
      requires Ready() && size > 0
      ensures 0 < chunk <= size && (buffered ==> chunk <= layout.page) && (buffered || base % 4 == 0)
      ensures !buffered ==> chunk % layout.page == 0
      ensures addr % layout.page == 0 && layout.start <= addr < End(layout) ==>
                && (buffered <==> base % 4 != 0 || size < layout.page)
                && (if buffered then chunk == Min(layout.page, size) else Longest(layout, addr, size, chunk))
                && InOneSector(layout, addr, if buffered then layout.page else chunk)
    {
      var page := layout.page;
      var s := SectorSize(layout, addr);
      SectorLeft(layout, addr, s);
      var unaligned := base / 4 * 4 != base;
      chunk := Min(s - addr % s, size);
      buffered := unaligned || chunk < page;
      if buffered {
        chunk := Min(chunk, page);
      } else {
        WholePages(chunk, page);
        chunk := chunk / page * page;
        if addr % page == 0 && layout.start <= addr < End(layout) {
          PagesAreLongest(layout, addr, size, s, chunk);
        }
      }
    }

    /** One round of the loop. */
    method ProgramRound(base: nat, data: seq<nat>, done: nat, addr: nat)
      returns (chunk: nat, failed: bool, ghost w: Write)
      requires Ready() && done < |data|
      modifies this`programmed, this`refused, pageBuf
      ensures 0 < chunk <= |data| - done && w.addr == addr && (!w.buffered ==> w.pointer == base + done)
      ensures programmed == if failed then old(programmed) else old(programmed) + [w]
      ensures refused == old(refused) + if failed then 1 else 0
      ensures addr % layout.page == 0 && layout.start <= addr < End(layout) ==>
                RoundOk(layout, data, done, addr, chunk, w)
    {
      var buffered;
      chunk, buffered := ChooseChunk(base + done, |data| - done, addr);
      if buffered {
        FillPageBuffer(data, done, chunk);
        w := Write(addr, pageBuf[..], true, 0);
        failed := FlashProgramPage(Write(addr, pageBuf[..], true, 0));
        if addr % layout.page == 0 && layout.start <= addr < End(layout) {
          BufferedRound(layout, data, done, addr, chunk, w);
        }
      } else {
        w := Write(addr, data[done..done + chunk], false, base + done);
        failed := FlashProgramPage(Write(addr, data[done..done + chunk], false, base + done));
        if addr % layout.page == 0 && layout.start <= addr < End(layout) {
          DirectRound(layout, data, done, addr, chunk, w);
        }
      }
    }

    /**
     * `program`. An accepted range gets -1 only for a call that the HAL fails. When all calls are proper, 0
     * means that they program the range, and -1 after the check that they store a proper prefix of the
     * data and nothing else. They are all proper exactly for a range in the flash, which the check does
     * not make sure of.
     */
    method Program(base: nat, data: seq<nat>, addr: nat)
      returns (ret: int, ghost calls: seq<Write>, ghost done: nat)
      requires Ready() && addr < WRAP && |data| < WRAP
      modifies this`programmed, this`refused, pageBuf
      ensures ret == 0 || ret == -1
      ensures programmed == old(programmed) + calls
      ensures !AcceptsProgram(layout, base, addr, |data|) ==> ret == -1 && calls == [] && refused == old(refused)
      ensures AcceptsProgram(layout, base, addr, |data|) ==>
                refused == old(refused) + (if ret == 0 then 0 else 1)
      ensures AcceptsProgram(layout, base, addr, |data|) ==>
                && (InFlash(layout, addr, |data|) ==> AllProper(layout, calls))
                && (ret == 0 && data != [] && AllProper(layout, calls) ==> InFlash(layout, addr, |data|))
      ensures AcceptsProgram(layout, base, addr, |data|) && AllProper(layout, calls) ==>
                && InRow(calls, addr)
                && (ret == 0 ==> Programs(layout.page, addr, data, calls))
                && (ret == -1 ==> done < |data| && Flat(calls) == data[..done])
    {
      if addr % layout.page != 0 || base == 0 || (addr + |data|) % WRAP > End(layout) % WRAP {
        return -1, [], 0;
      }
      ret, calls, done := ProgramLoop(base, data, addr);
    }

    method ProgramLoop(base: nat, data: seq<nat>, addr: nat)
      returns (ret: int, ghost calls: seq<Write>, ghost done: nat)
      requires Ready() && addr % layout.page == 0
      modifies this`programmed, this`refused, pageBuf
      ensures ret == 0 || ret == -1
      ensures programmed == old(programmed) + calls
      ensures done <= |data| && (ret == 0 <==> done == |data|)
      ensures refused == old(refused) + (if ret == 0 then 0 else 1)
      ensures InFlash(layout, addr, |data|) ==> AllProper(layout, calls)
      ensures AllProper(layout, calls) ==>
                Progress(layout, addr, data, done, calls) && (done > 0 ==> InFlash(layout, addr, done))
    {
      calls := [];
      ret := 0;
      var written: nat, at: nat := 0, addr;
      done := 0;
      NoProgress(layout, addr, data);
      while written < |data|
        invariant written == done <= |data| && ret == 0
        invariant programmed == old(programmed) + calls && refused == old(refused)
        invariant Reached(layout, addr, data, done, calls, at)
      {
        var chunk, failed; ghost var w;
        chunk, failed, w := ProgramRound(base, data, written, at);
        if failed {
          return -1, calls, done;
        }
        ReachedNext(layout, addr, data, done, calls, at, chunk, w);
        calls := calls + [w];
        written := written + chunk;
        done := written;
        at := (at + chunk) % WRAP;
      }
    }

    /** `erase`, for as many HAL calls as there are answers (true for success). */
    method Erase(addr: nat, size: nat, answers: seq<bool>) returns (ret: Outcome)
      requires Ready() && addr < WRAP && size < WRAP
      modifies this`erased
      ensures !AcceptsErase(layout, addr, size) ==> ret == Failed && erased == old(erased)
      ensures AcceptsErase(layout, addr, size) ==>
                && ret == EraseRun(layout, addr, size, answers).0
                && erased == old(erased) + EraseRun(layout, addr, size, answers).1
    {
      var stop := (addr + size) % WRAP;
      if stop > End(layout) {
        return Failed;
      } else if stop < End(layout) {
        var following := SectorSize(layout, stop);
        SizeFromPositive(layout, stop, 0);
        if stop % following != 0 {
          return Failed;
        }
      }
      var at: nat, left: nat, k: nat := addr, size, 0;
      ghost var rest := EraseRun(layout, at, left, answers);
      assert answers[0..] == answers;
      while left != 0 && k < |answers|
        invariant k <= |answers|
        invariant rest == EraseRun(layout, at, left, answers[k..])
        invariant rest.0 == EraseRun(layout, addr, size, answers).0
        invariant old(erased) + EraseRun(layout, addr, size, answers).1 == erased + rest.1
        decreases |answers| - k
      {
        EraseUnfolds(layout, at, left, answers, k);
        erased := erased + [at];
        if !answers[k] {
          return Failed;
        }
        var s := SectorSize(layout, at);
        rest := EraseRun(layout, (at + s) % WRAP, (left - s) % WRAP, answers[k + 1..]);
        left := (left - s) % WRAP;
        at := (at + s) % WRAP;
        k := k + 1;
      }
      ret := if left == 0 then Finished else Running;
    }
  }
}
