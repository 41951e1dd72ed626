/** main.c: the device. Its methods update the ring, the pending line, the heap and the
    file position in place; each is proved against DeviceSpec. */
module AesdDevice {
  import opened Bytes
  import opened LineLog
  import opened Positions
  import opened Ring
  import opened DeviceSpec
  import opened Kernel
  import opened CircularBuffers

  // ---- entries and the blocks they own ----

  ghost function BlocksOf(es: seq<Entry>): set<array<byte>> {
    set i | 0 <= i < |es| && es[i].buffptr != null :: es[i].buffptr
  }

  /** No block is held twice. */
  ghost predicate Distinct(es: seq<Entry>) {
    forall i, j :: 0 <= i < j < |es| && es[i].buffptr != null ==> es[i].buffptr != es[j].buffptr
  }

  /** Each entry owns a block that holds exactly its text, and no text is empty. */
  ghost predicate Spells(es: seq<Entry>, texts: seq<seq<byte>>)
    reads BlocksOf(es)
  {
    && |es| == |texts|
    && forall i :: 0 <= i < |es| ==>
                     es[i].buffptr != null && es[i].buffptr[..] == texts[i] && es[i].size == |texts[i]| > 0
  }

  /** The non-empty texts a device with this log has to hold: its lines, then the pending bytes. */
  function Texts(d: Log): seq<seq<byte>> {
    d.lines + if d.partial == [] then [] else [d.partial]
  }

  lemma BlocksOfSnoc(es: seq<Entry>, e: Entry)
    requires e.buffptr != null
    ensures BlocksOf(es + [e]) == BlocksOf(es) + {e.buffptr}
    ensures Distinct(es + [e]) <==> Distinct(es) && e.buffptr !in BlocksOf(es)
  {
    var all := es + [e];
    assert all[|es|] == e;
    assert forall i :: 0 <= i < |es| ==> all[i] == es[i];
  }

  lemma BlocksOfTail(es: seq<Entry>)
    requires es != [] && Distinct(es) && es[0].buffptr != null
    ensures BlocksOf(es[1..]) == BlocksOf(es) - {es[0].buffptr}
    ensures Distinct(es[1..])
  {
  }

  /** Clearing one slot gives up exactly its block. */
  lemma ClearSlot(es: seq<Entry>, i: nat)
    requires i < |es| && Distinct(es) && es[i].buffptr != null
    ensures Distinct(es[i := NO_ENTRY])
    ensures BlocksOf(es[i := NO_ENTRY]) == BlocksOf(es) - {es[i].buffptr}
    ensures es[i].buffptr in BlocksOf(es)
  {
    assert forall j :: 0 <= j < |es| && j != i ==> es[i := NO_ENTRY][j] == es[j];
  }

  lemma AllEmptyHoldNothing(empty: seq<Entry>, pending: seq<Entry>)
    requires forall k :: 0 <= k < |empty| ==> empty[k] == NO_ENTRY
    requires Distinct(empty + pending)
    ensures BlocksOf(empty + pending) == BlocksOf(pending) && Distinct(pending)
  {
    assert forall k :: 0 <= k < |pending| ==> (empty + pending)[|empty| + k] == pending[k];
  }

  /** Where slot `i` stands in logical order, when it is in use. */
  ghost function Rank(r: Ring<Entry>, i: nat): nat
    requires r.inOffs < CAPACITY
  {
    if !r.full then i else if i < r.inOffs then i + CAPACITY - r.inOffs else i - r.inOffs
  }

  lemma SlotIsRanked(r: Ring<Entry>, i: nat)
    requires Inv(r, NO_ENTRY) && i < CAPACITY
    ensures if Rank(r, i) < |Logical(r)| then r.slots[i] == Logical(r)[Rank(r, i)] else r.slots[i] == NO_ENTRY
  {
  }

  lemma EntryIsInASlot(r: Ring<Entry>, k: nat)
    requires Inv(r, NO_ENTRY) && k < |Logical(r)|
    ensures Logical(r)[k] in r.slots
  {
  }

  /** Slot order and logical order hold the same blocks, each once. */
  lemma SlotsHoldTheSame(r: Ring<Entry>, p: seq<Entry>)
    requires Inv(r, NO_ENTRY) && Distinct(Logical(r) + p) && |p| <= 1
    ensures BlocksOf(r.slots + p) == BlocksOf(Logical(r) + p)
    ensures Distinct(r.slots + p)
  {
    var slots, held := r.slots + p, Logical(r) + p;
    forall i | 0 <= i < |slots| && slots[i].buffptr != null
      ensures slots[i] in held
      ensures forall j :: i < j < |slots| ==> slots[i].buffptr != slots[j].buffptr
    {
      if i < CAPACITY {
        SlotIsRanked(r, i);
        assert slots[i] == held[Rank(r, i)];
        forall j | i < j < |slots|
          ensures slots[i].buffptr != slots[j].buffptr
        {
          if j < CAPACITY {
            SlotIsRanked(r, j);
            assert slots[j] == NO_ENTRY || slots[j] == held[Rank(r, j)];
          } else {
            assert slots[j] == held[|Logical(r)|];
          }
        }
      } else {
        assert slots[i] == held[|Logical(r)|];
      }
    }
    forall k | 0 <= k < |held|
      ensures held[k] in slots
    {
      if k < |Logical(r)| {
        EntryIsInASlot(r, k);
      } else {
        assert held[k] == slots[CAPACITY];
      }
    }
  }

  /** Lines 184-194 and 236-245: a block that holds all of `old` and a piece of `copied`. */
  method JoinInNewBlock(heap: Heap, oldData: array<byte>, copied: array<byte>, start: nat, n: nat)
    returns (newData: array?<byte>)
    requires oldData in heap.live && copied in heap.live && start + n <= copied.Length
    modifies heap
    ensures heap.faults == old(heap.faults)
    ensures newData == null ==> heap.live == old(heap.live)
    ensures heap.refused == old(heap.refused) + if newData == null then 1 else 0
    ensures newData != null ==> fresh(newData) && newData !in old(heap.live)
    ensures newData != null ==> heap.live == old(heap.live) + {newData}
    ensures newData != null ==> newData[..] == oldData[..] + copied[start..start + n]
  {
    var oldSize := oldData.Length;
    var newSize := oldSize + n;
    newData := heap.Kmalloc(newSize);
    if newData != null {
      heap.Memcpy(newData, 0, oldData, 0, oldSize);
      assert newData[..oldSize] == oldData[..];
      heap.Memcpy(newData, oldSize, copied, start, n);
    }
  }

  /** Dropping all but the last ten entries drops at most the first block of eleven. */
  lemma KeepLast(es: seq<Entry>, texts: seq<seq<byte>>)
    requires |es| <= CAPACITY + 1 && Spells(es, texts) && Distinct(es)
    ensures Spells(LastN(es, CAPACITY), LastN(texts, CAPACITY)) && Distinct(LastN(es, CAPACITY))
    ensures BlocksOf(LastN(es, CAPACITY)) ==
            if |es| <= CAPACITY then BlocksOf(es) else BlocksOf(es) - {es[0].buffptr}
  {
  }

  class AesdDev {
    const heap: Heap
    const cBuffer: CircularBuffer
    const lock: Mutex
    /** partial_buffer: the line not yet finished. */
    var partial: Entry
    /** What the ring and the pending line spell out. */
    ghost var log: Log
    /** Every byte the device has taken in since it was set up. */
    ghost var accepted: seq<byte>

    /** The entries that own blocks, oldest line first and the pending line last. */
    ghost function Held(): seq<Entry>
      requires cBuffer.Valid()
      reads `partial, cBuffer`inOffs, cBuffer`outOffs, cBuffer`full, cBuffer.entry
    {
      cBuffer.Entries() + if partial.size == 0 then [] else [partial]
    }

    /** Ring and pending line spell `log`, and the live heap blocks are exactly the distinct
        ones they hold, plus the transient ones in `extra`. */
    ghost predicate Owns(extra: set<array<byte>>)
      requires cBuffer.Valid()
      reads `partial, `log, cBuffer`inOffs, cBuffer`outOffs, cBuffer`full, cBuffer.entry
      reads heap`live, BlocksOf(Held())
    {
      && |cBuffer.Entries()| == |log.lines|
      && partial.size == |log.partial|
      && (partial.size == 0 ==> partial == NO_ENTRY)
      && Spells(Held(), Texts(log))
      && Distinct(Held())
      && heap.live == BlocksOf(Held()) + extra
      && BlocksOf(Held()) !! extra
    }

    /** Between calls: nothing else is live, the lock is free, and the content is what the
        bytes taken in so far determine. */
    ghost predicate Valid()
      reads this, cBuffer`inOffs, cBuffer`outOffs, cBuffer`full, cBuffer.entry
      reads heap`live, lock`held, if cBuffer.Valid() then BlocksOf(Held()) else {}
    {
      && cBuffer.Valid()
      && Owns({})
      && !lock.held
      && log == Feed(EMPTY_LOG, accepted)
    }

    /** The device part of aesd_init_module: memset, mutex_init, aesd_circular_buffer_init. */
    constructor ()
      ensures Valid() && fresh(heap) && fresh(cBuffer) && fresh(cBuffer.entry) && fresh(lock)
      ensures log == EMPTY_LOG && accepted == []
      ensures heap.refused == 0 && heap.faults == 0 && lock.interrupted == 0
    {
      heap := new Heap();
      cBuffer := new CircularBuffer();
      lock := new Mutex();
      partial := NO_ENTRY;
      log := EMPTY_LOG;
      accepted := [];
    }

    /** What `Owns` says about the ring alone and about the pending line alone. */
    lemma OwnsParts(extra: set<array<byte>>)
      requires cBuffer.Valid() && Owns(extra)
      ensures Spells(cBuffer.Entries(), log.lines) && Distinct(cBuffer.Entries())
      ensures partial.size == 0 ==> heap.live == BlocksOf(cBuffer.Entries()) + extra
      ensures partial.size == 0 ==> BlocksOf(cBuffer.Entries()) !! extra && log.partial == []
      ensures partial.size > 0 ==> Spells([partial], [log.partial])
      ensures partial.size > 0 ==> partial.buffptr !in BlocksOf(cBuffer.Entries()) + extra
      ensures partial.size > 0 ==> heap.live == BlocksOf(cBuffer.Entries()) + {partial.buffptr} + extra
      ensures partial.size > 0 ==> BlocksOf(cBuffer.Entries()) !! extra
    {
      var ring := cBuffer.Entries();
      if partial.size == 0 {
        assert Held() == ring && Texts(log) == log.lines;
      } else {
        assert Held() == ring + [partial] && Texts(log) == log.lines + [log.partial];
        assert Held()[|ring|] == partial && Texts(log)[|ring|] == log.partial;
        BlocksOfSnoc(ring, partial);
        forall i | 0 <= i < |ring|
          ensures Held()[i] == ring[i] && Texts(log)[i] == log.lines[i]
        {
        }
      }
    }

    /** The converse, for a pending line that is not empty. */
    lemma OwnsPending(extra: set<array<byte>>)
      requires cBuffer.Valid()
      requires Spells(cBuffer.Entries(), log.lines) && Distinct(cBuffer.Entries())
      requires partial.size > 0 && Spells([partial], [log.partial])
      requires partial.buffptr !in BlocksOf(cBuffer.Entries()) + extra && BlocksOf(cBuffer.Entries()) !! extra
      requires heap.live == BlocksOf(cBuffer.Entries()) + {partial.buffptr} + extra
      ensures Owns(extra)
    {
      assert [partial][0] == partial && [log.partial][0] == log.partial;
      assert Held() == cBuffer.Entries() + [partial];
      assert Texts(log) == log.lines + [log.partial];
      BlocksOfSnoc(cBuffer.Entries(), partial);
    }

    /** Lines 171-179 and 221-229: the first piece of a line goes into a new block. */
    method StartPartial(copied: array<byte>, start: nat, n: nat) returns (ok: bool)
      requires cBuffer.Valid() && Owns({copied}) && lock.held
      requires 0 < n && start + n <= copied.Length
      requires partial.size == 0
      modifies this`partial, this`log, heap
      ensures cBuffer.Valid() && Owns({copied}) && heap.faults == old(heap.faults)
      ensures ok ==> log == Log(old(log.lines), copied[start..start + n])
      ensures !ok ==> log == old(log)
      ensures heap.refused == old(heap.refused) + if ok then 0 else 1
    {
      ghost var ring := cBuffer.Entries();
      OwnsParts({copied});
      var b := heap.Kmalloc(n);
      if b == null {
        partial := Entry(null, 0);
        return false;
      }
      heap.Memcpy(b, 0, copied, start, n);
      partial := Entry(b, n);
      log := Log(log.lines, copied[start..start + n]);
      assert b[..] == log.partial;
      assert Spells(ring, log.lines);
      OwnsPending({copied});
      return true;
    }

    /** Lines 184-197 and 236-248: a later piece; old and new bytes move to a bigger block. */
    method GrowPartial(copied: array<byte>, start: nat, n: nat) returns (ok: bool)
      requires cBuffer.Valid() && Owns({copied}) && lock.held
      requires 0 < n && start + n <= copied.Length
      requires partial.size > 0
      modifies this`partial, this`log, heap
      ensures cBuffer.Valid() && Owns({copied}) && heap.faults == old(heap.faults)
      ensures ok ==> log == Log(old(log.lines), old(log.partial) + copied[start..start + n])
      ensures !ok ==> log == old(log)
      ensures heap.refused == old(heap.refused) + if ok then 0 else 1
    {
      ghost var ring := cBuffer.Entries();
      OwnsParts({copied});
      assert [partial][0] == partial && [log.partial][0] == log.partial;
      var newData := JoinInNewBlock(heap, partial.buffptr, copied, start, n);
      if newData == null {
        return false;
      }
      heap.Kfree(partial.buffptr);
      partial := Entry(newData, partial.size + n);
      log := Log(log.lines, log.partial + copied[start..start + n]);
      assert newData[..] == log.partial;
      assert Spells(ring, log.lines);
      OwnsPending({copied});
      return true;
    }

    /** Lines 203-206: the overwritten entry is freed and cleared. */
    method FreeOverwritten()
      requires cBuffer.evictedEntry.buffptr != null && cBuffer.evictedEntry.buffptr in heap.live
      modifies heap`live, cBuffer`evictedEntry
      ensures heap.live == old(heap.live) - {old(cBuffer.evictedEntry.buffptr)}
      ensures cBuffer.evictedEntry == NO_ENTRY
    {
      heap.Kfree(cBuffer.evictedEntry.buffptr);
      cBuffer.evictedEntry := NO_ENTRY;
    }

    /** Lines 199-207: the pending entry goes into the ring, and the block of an overwritten
        one is freed. */
    method EnterRing(ghost extra: set<array<byte>>)
      requires cBuffer.Valid() && Owns(extra) && partial.size > 0
      modifies cBuffer, cBuffer.entry, heap`live
      ensures cBuffer.Valid() && cBuffer.Entries() == LastN(old(cBuffer.Entries()) + [partial], CAPACITY)
      ensures var kept := cBuffer.Entries();
              && Spells(kept, PushLine(log.lines, log.partial)) && Distinct(kept)
              && heap.live == BlocksOf(kept) + extra && BlocksOf(kept) !! extra
    {
      PendingEnters(extra);
      var overwritten := cBuffer.AddEntry(partial);
      if overwritten {
        FreeOverwritten();
      }
    }

    /** Lines 199-210: hand the finished line to the ring, free the entry it pushed out, and
        start a new pending line. */
    method PushPartial(ghost extra: set<array<byte>>)
      requires cBuffer.Valid() && Owns(extra) && lock.held
      requires partial.size > 0
      modifies this`partial, this`log, cBuffer, cBuffer.entry, heap`live
      ensures cBuffer.Valid() && Owns(extra)
      ensures log == Log(PushLine(old(log.lines), old(log.partial)), [])
      ensures heap.refused == old(heap.refused) && heap.faults == old(heap.faults)
    {
      EnterRing(extra);
      partial := NO_ENTRY;
      log := Log(PushLine(log.lines, log.partial), []);
      OwnsLines(extra);
    }

    /** What will be owned once the pending line is in the ring and the entry that falls out is freed. */
    lemma PendingEnters(extra: set<array<byte>>)
      requires cBuffer.Valid() && Owns(extra) && partial.size > 0
      ensures var (es, kept) := (cBuffer.Entries(), LastN(cBuffer.Entries() + [partial], CAPACITY));
              && Spells(kept, PushLine(log.lines, log.partial)) && Distinct(kept) && BlocksOf(kept) !! extra
              && (|es| < CAPACITY ==> heap.live == BlocksOf(kept) + extra)
              && (|es| == CAPACITY ==>
                    && es[0].buffptr != null && es[0].buffptr in heap.live
                    && heap.live - {es[0].buffptr} == BlocksOf(kept) + extra)
    {
      assert Held() == cBuffer.Entries() + [partial] && Texts(log) == log.lines + [log.partial];
      KeepLast(Held(), Texts(log));
      assert Held()[0].buffptr in BlocksOf(Held());
    }

    /** With nothing pending, owning is owning the stored lines. */
    lemma OwnsLines(extra: set<array<byte>>)
      requires cBuffer.Valid() && partial == NO_ENTRY && log.partial == []
      requires Spells(cBuffer.Entries(), log.lines) && Distinct(cBuffer.Entries())
      requires heap.live == BlocksOf(cBuffer.Entries()) + extra && BlocksOf(cBuffer.Entries()) !! extra
      ensures Owns(extra)
    {
      assert Held() == cBuffer.Entries() && Texts(log) == log.lines;
    }

    /** Lines 168-198, and with the same code lines 219-249. */
    method ExtendPartial(copied: array<byte>, start: nat, n: nat) returns (ok: bool)
      requires cBuffer.Valid() && Owns({copied}) && lock.held
      requires 0 < n && start + n <= copied.Length
      modifies this`partial, this`log, heap
      ensures cBuffer.Valid() && Owns({copied}) && heap.faults == old(heap.faults)
      ensures ok ==> log == Log(old(log.lines), old(log.partial) + copied[start..start + n])
      ensures !ok ==> log == old(log)
      ensures heap.refused == old(heap.refused) + if ok then 0 else 1
    {
      if partial.size == 0 {
        assert [] + copied[start..start + n] == copied[start..start + n];
        ok := StartPartial(copied, start, n);
      } else {
        ok := GrowPartial(copied, start, n);
      }
    }

    /** Lines 168-210: the piece up to a newline finishes the pending line, which enters the ring. */
    method StoreLine(copied: array<byte>, start: nat, end: nat) returns (ok: bool)
      requires cBuffer.Valid() && Owns({copied}) && lock.held
      requires start <= end < copied.Length
      modifies this`partial, this`log, cBuffer, cBuffer.entry, heap
      ensures cBuffer.Valid() && Owns({copied}) && heap.faults == old(heap.faults)
      ensures ok ==> log == Log(PushLine(old(log.lines), old(log.partial) + copied[start..end + 1]), [])
      ensures !ok ==> log == old(log)
      ensures heap.refused == old(heap.refused) + if ok then 0 else 1
    {
      ok := ExtendPartial(copied, start, end - start + 1);
      if ok {
        PushPartial({copied});
      }
    }

    /** The loop of lines 163-213. On an allocation failure it stops with everything before
        the unfinished line stored. */
    method StoreLines(copied: array<byte>, ghost buf: seq<byte>) returns (ok: bool, start: nat)
      requires cBuffer.Valid() && Owns({copied}) && lock.held
      requires copied[..] == buf
      modifies this`partial, this`log, cBuffer, cBuffer.entry, heap
      ensures cBuffer.Valid() && Owns({copied}) && heap.faults == old(heap.faults)
      ensures AtLineStart(buf, start) && log == Feed(old(log), buf[..start])
      ensures if ok then NoNewline(buf[start..]) else start < |buf|
      ensures heap.refused == old(heap.refused) + if ok then 0 else 1
    {
      start := 0;
      for j := 0 to copied.Length
        invariant 0 <= start <= j <= |buf|
        invariant AtLineStart(buf, start)
        invariant NoNewline(buf[start..j])
        invariant cBuffer.Valid() && Owns({copied})
        invariant log == Feed(old(log), buf[..start])
        invariant heap.refused == old(heap.refused) && heap.faults == old(heap.faults)
      {
        if copied[j] == END_CHARACTER {
          var end := j;
          ok := StoreLine(copied, start, end);
          if !ok {
            return false, start;
          }
          FeedNextLine(old(log), buf, start, end);
          start := end + 1;
        } else {
          assert buf[start..j + 1] == buf[start..j] + [buf[j]];
        }
      }
      assert buf[start..|buf|] == buf[start..];
      return true, start;
    }

    /** Lines 161-250: cut the copied buffer into lines and keep what follows the last newline. */
    method StoreBuffer(copied: array<byte>, ghost buf: seq<byte>) returns (ok: bool, ghost took: nat)
      requires cBuffer.Valid() && Owns({copied}) && lock.held
      requires copied[..] == buf
      modifies this`partial, this`log, cBuffer, cBuffer.entry, heap
      ensures cBuffer.Valid() && Owns({copied}) && heap.faults == old(heap.faults)
      ensures AtLineStart(buf, took) || took == |buf|
      ensures log == Feed(old(log), buf[..took])
      ensures if ok then took == |buf| else took < |buf|
      ensures heap.refused == old(heap.refused) + if ok then 0 else 1
    {
      var stored, start := StoreLines(copied, buf);
      if !stored {
        return false, start;
      }
      assert buf[start..|buf|] == buf[start..];
      FeedUnfinished(old(log), buf, start, |buf|);
      if start < copied.Length {
        var remaining := copied.Length - start;
        ok := ExtendPartial(copied, start, remaining);
        return ok, if ok then |buf| else start;
      }
      return true, |buf|;
    }

    /** Line 143: the transient block the user's bytes are copied to. */
    method AllocateCopy(count: nat) returns (copied: array?<byte>)
      requires cBuffer.Valid() && Owns({}) && lock.held
      modifies heap
      ensures heap.faults == old(heap.faults)
      ensures cBuffer.Valid() && Owns(if copied == null then {} else {copied})
      ensures heap.refused == old(heap.refused) + if copied == null then 1 else 0
      ensures copied != null ==> fresh(copied) && copied.Length == count
      ensures copied != null ==> copied in heap.live
    {
      copied := heap.Kmalloc(count);
    }

    /** The kfree of that block, on every way out of aesd_write. */
    method FreeCopy(copied: array<byte>)
      requires cBuffer.Valid() && Owns({copied}) && lock.held
      modifies heap
      ensures cBuffer.Valid() && Owns({})
      ensures heap.refused == old(heap.refused) && heap.faults == old(heap.faults)
    {
      heap.Kfree(copied);
    }

    /** Lines 143-252 of aesd_write, inside the lock. */
    method WriteLocked(buf: seq<byte>) returns (res: Result, ghost took: nat)
      requires cBuffer.Valid() && Owns({}) && lock.held && buf != []
      modifies this`partial, this`log, cBuffer, cBuffer.entry, heap
      ensures cBuffer.Valid() && Owns({})
      ensures WriteAnswers(buf, res, took) && res != Err(ERESTARTSYS)
      ensures log == Feed(old(log), buf[..took])
      ensures heap.refused == old(heap.refused) + if res == Err(ENOMEM) then 1 else 0
      ensures heap.faults == old(heap.faults) + if res == Err(EFAULT) then 1 else 0
    {
      took := 0;
      var count := |buf|;
      var copied := AllocateCopy(count);
      if copied == null {
        return Err(ENOMEM), 0;
      }
      var notCopied := heap.CopyFromUser(copied, buf);
      if notCopied != 0 {
        FreeCopy(copied);
        return Err(EFAULT), 0;
      }
      var stored;
      stored, took := StoreBuffer(copied, buf);
      FreeCopy(copied);
      res := if stored then Ok(count) else Err(ENOMEM);
    }

    /** The same, with what was taken in put on record. */
    method WriteRecorded(buf: seq<byte>) returns (res: Result, ghost took: nat)
      requires cBuffer.Valid() && Owns({}) && lock.held && buf != [] && log == Feed(EMPTY_LOG, accepted)
      modifies this`partial, this`log, this`accepted, cBuffer, cBuffer.entry, heap
      ensures cBuffer.Valid() && Owns({}) && log == Feed(EMPTY_LOG, accepted)
      ensures WriteAnswers(buf, res, took) && res != Err(ERESTARTSYS)
      ensures log == Feed(old(log), buf[..took]) && accepted == old(accepted) + buf[..took]
      ensures heap.refused == old(heap.refused) + if res == Err(ENOMEM) then 1 else 0
      ensures heap.faults == old(heap.faults) + if res == Err(EFAULT) then 1 else 0
    {
      res, took := WriteLocked(buf);
      FeedAppend(EMPTY_LOG, accepted, buf[..took]);
      accepted := accepted + buf[..took];
    }

    /** aesd_write. `took` is how many bytes of `buf` the device took in: all of them, or on
        an allocation failure those before a line start. ENOMEM, EFAULT and ERESTARTSYS are
        returned exactly when an allocation, the user copy or the lock failed. */
    method Write(buf: seq<byte>) returns (res: Result, ghost took: nat)
      requires Valid()
      modifies this`partial, this`log, this`accepted, cBuffer, cBuffer.entry, heap, lock
      ensures Valid()
      ensures WriteAnswers(buf, res, took)
      ensures log == Feed(old(log), buf[..took])
      ensures accepted == old(accepted) + buf[..took]
      ensures heap.refused == old(heap.refused) + if res == Err(ENOMEM) then 1 else 0
      ensures heap.faults == old(heap.faults) + if res == Err(EFAULT) then 1 else 0
      ensures lock.interrupted == old(lock.interrupted) + if res == Err(ERESTARTSYS) then 1 else 0
    {
      assert accepted + buf[..0] == accepted;
      if |buf| == 0 {
        return Ok(0), 0;
      }
      var rc := lock.LockInterruptible();
      if rc {
        return Err(ERESTARTSYS), 0;
      }
      res, took := WriteRecorded(buf);
      lock.Unlock();
    }

    /** The sizes the walks add up are the lengths of the stored lines. */
    lemma SizesAgree()
      requires cBuffer.Valid() && Owns({})
      ensures EntrySizes(cBuffer.Entries()) == Sizes(log.lines)
    {
      OwnsParts({});
    }

    /** The slot a search means owns the line it means. */
    lemma SlotHoldsLine(cmd: nat)
      requires cBuffer.Valid() && Owns({}) && cmd < |log.lines|
      ensures var e := cBuffer.entry[Slot(cBuffer.outOffs + cmd)];
              e.buffptr != null && e.buffptr in heap.live && e.buffptr[..] == log.lines[cmd] && e.size == |log.lines[cmd]|
    {
      OwnsParts({});
      LogicalSlot(cBuffer.View(), NO_ENTRY, cmd);
    }

    /** The slot a search at a stored position finds holds the bytes a read there returns. */
    lemma SoughtSlot(pos: nat, count: nat)
      requires cBuffer.Valid() && Owns({}) && pos < Total(Sizes(log.lines))
      ensures var place := SlotAt(EntrySizes(cBuffer.Entries()), cBuffer.outOffs, pos);
              place.Some? &&
              var e, off := cBuffer.entry[place.value.0], place.value.1;
              var n := if count + off >= e.size then e.size - off else count;
              && e.buffptr != null && e.buffptr in heap.live && 0 <= n && off + n <= e.buffptr.Length
              && e.buffptr[off..off + n] == ReadBytes(log.lines, pos, count)
    {
      SizesAgree();
      LocateSound(Sizes(log.lines), pos);
      ReadAtLocated(log.lines, pos, count);
      SlotHoldsLine(Locate(Sizes(log.lines), pos).value.0);
    }

    /** Lines 90-102 of aesd_read: the entry to read from, where in it, and how much. None
        when the position is at or past the end. */
    method FindForRead(pos: nat, count: nat) returns (found: Option<(Entry, nat, nat)>)
      requires cBuffer.Valid() && Owns({}) && lock.held
      ensures found == None <==> pos >= Total(Sizes(log.lines))
      ensures found == None ==> ReadBytes(log.lines, pos, count) == []
      ensures found.Some? ==> var (e, off, n) := found.value;
                              && e.buffptr != null && e.buffptr in heap.live && off + n <= e.buffptr.Length
                              && e.buffptr[off..off + n] == ReadBytes(log.lines, pos, count)
    {
      SizesAgree();
      var place := cBuffer.FindEntryOffsetForFpos(pos);
      if place == None {
        LocateSound(Sizes(log.lines), pos);
        return None;
      }
      SoughtSlot(pos, count);
      var (slot, entryOffset) := place.value;
      var foundEntry := cBuffer.entry[slot];
      var n := count;
      if count + entryOffset >= foundEntry.size {
        n := foundEntry.size - entryOffset;
      }
      return Some((foundEntry, entryOffset, n));
    }

    /** Lines 90-112 of aesd_read, inside the lock. */
    method ReadLocked(filp: File, count: nat) returns (res: Result, bytes: seq<byte>)
      requires cBuffer.Valid() && Owns({}) && lock.held
      modifies filp, heap`faults
      ensures ReadAnswers(log.lines, old(filp.fPos), count, res, bytes) && res != Err(ERESTARTSYS)
      ensures filp.fPos == old(filp.fPos) + |bytes|
      ensures heap.faults == old(heap.faults) + if res == Err(EFAULT) then 1 else 0
    {
      var found := FindForRead(filp.fPos, count);
      if found == None {
        return Ok(0), [];
      }
      var (foundEntry, entryOffset, n) := found.value;
      var remaining;
      remaining, bytes := heap.CopyToUser(foundEntry.buffptr, entryOffset, n);
      if remaining != 0 {
        return Err(EFAULT), [];
      }
      filp.fPos := filp.fPos + n;
      return Ok(n), bytes;
    }

    /** aesd_read: at most the rest of one entry, from the file position, which advances by
        what was read. */
    method Read(filp: File, count: nat) returns (res: Result, bytes: seq<byte>)
      requires Valid()
      modifies filp, lock, heap`faults
      ensures Valid()
      ensures ReadAnswers(log.lines, old(filp.fPos), count, res, bytes)
      ensures filp.fPos == old(filp.fPos) + |bytes|
      ensures heap.faults == old(heap.faults) + if res == Err(EFAULT) then 1 else 0
      ensures lock.interrupted == old(lock.interrupted) + if res == Err(ERESTARTSYS) then 1 else 0
    {
      var rc := lock.LockInterruptible();
      if rc {
        return Err(ERESTARTSYS), [];
      }
      res, bytes := ReadLocked(filp, count);
      lock.Unlock();
    }

    /** Slot (cmd + out_offs) mod 10 is command `cmd` when that is stored, and empty otherwise. */
    lemma SlotOfCommand(cmd: nat)
      requires cBuffer.Valid() && Owns({}) && cmd < CAPACITY
      ensures var e := cBuffer.entry[Slot(cmd + cBuffer.outOffs)];
              if cmd < |log.lines| then e.buffptr != null && e.size == Sizes(log.lines)[cmd] > 0
              else e == NO_ENTRY
    {
      OwnsParts({});
      if cmd < |log.lines| {
        LogicalSlot(cBuffer.View(), NO_ENTRY, cmd);
      } else {
        BeyondLogicalIsZero(cBuffer.View(), NO_ENTRY, cmd);
      }
    }

    /** Lines 295-309: the position where command `writeCmd` starts, walking from out_offs;
        None when the lines end before it. */
    method StartOfCommand(writeCmd: nat) returns (newPos: Option<nat>)
      requires cBuffer.Valid() && Owns({}) && writeCmd < CAPACITY
      ensures newPos == if writeCmd <= |log.lines| then Some(Position(Sizes(log.lines), writeCmd, 0)) else None
    {
      ghost var sizes := Sizes(log.lines);
      var sum := 0;
      for i := 0 to writeCmd
        invariant i <= |sizes| && sum == Total(sizes[..i])
      {
        var index := Slot(i + cBuffer.outOffs);
        SlotOfCommand(i);
        if cBuffer.entry[index].buffptr == null && cBuffer.entry[index].size == 0 {
          return None;
        }
        TotalSnoc(sizes, i);
        sum := sum + cBuffer.entry[index].size;
      }
      return Some(sum);
    }

    /** Lines 288-321 of adjust_aesd_file_offset, inside the lock: the position of byte
        `writeCmdOffset` of line `writeCmd`. */
    method SeekTarget(writeCmd: nat, writeCmdOffset: nat) returns (res: Result)
      requires cBuffer.Valid() && Owns({}) && lock.held
      ensures SeekAnswers(log.lines, writeCmd, writeCmdOffset, res)
      ensures res != Err(ERESTARTSYS)
    {
      if writeCmd >= CAPACITY {
        return Err(EINVAL);
      }
      var targetIndex := Slot(writeCmd + cBuffer.outOffs);
      var newPos := StartOfCommand(writeCmd);
      if newPos == None {
        return Err(EINVAL);
      }
      SlotOfCommand(writeCmd);
      if cBuffer.entry[targetIndex].buffptr == null || writeCmdOffset >= cBuffer.entry[targetIndex].size {
        return Err(EINVAL);
      }
      return Ok(newPos.value + writeCmdOffset);
    }

    /** Lines 288-322, inside the lock. */
    method AdjustLocked(filp: File, writeCmd: nat, writeCmdOffset: nat) returns (res: Result)
      requires cBuffer.Valid() && Owns({}) && lock.held
      modifies filp
      ensures SeekAnswers(log.lines, writeCmd, writeCmdOffset, res) && res != Err(ERESTARTSYS)
      ensures filp.fPos == if res.Ok? then res.n else old(filp.fPos)
    {
      res := SeekTarget(writeCmd, writeCmdOffset);
      if res.Ok? {
        filp.fPos := res.n;
      }
    }

    /** adjust_aesd_file_offset: succeeds exactly when (writeCmd, writeCmdOffset) names a
        stored byte, and then moves the file position to it. */
    method AdjustFileOffset(filp: File, writeCmd: nat, writeCmdOffset: nat) returns (res: Result)
      requires Valid()
      modifies filp, lock
      ensures Valid()
      ensures SeekAnswers(log.lines, writeCmd, writeCmdOffset, res)
      ensures filp.fPos == if res.Ok? then res.n else old(filp.fPos)
      ensures lock.interrupted == old(lock.interrupted) + if res == Err(ERESTARTSYS) then 1 else 0
    {
      var rc := lock.LockInterruptible();
      if rc {
        return Err(ERESTARTSYS);
      }
      res := AdjustLocked(filp, writeCmd, writeCmdOffset);
      lock.Unlock();
    }

    /** The part of aesd_lseek that reads the device: the size the seek is bounded by is the
        length of the flat contents. */
    method SizeForLseek() returns (res: Result)
      requires Valid()
      modifies lock
      ensures Valid()
      ensures res == Ok(|Flatten(log.lines)|) || res == Err(ERESTARTSYS)
      ensures lock.interrupted == old(lock.interrupted) + if res == Err(ERESTARTSYS) then 1 else 0
    {
      var rc := lock.LockInterruptible();
      if rc {
        return Err(ERESTARTSYS);
      }
      SizesAgree();
      FlattenLength(log.lines);
      var totalSize := cBuffer.GetTotalSize();
      lock.Unlock();
      return Ok(totalSize);
    }

    /** The loop of aesd_trim, lines 39-48: free every slot in use, in slot order. */
    method FreeSlots(ghost pending: seq<Entry>)
      requires cBuffer.entry.Length == CAPACITY && Distinct(cBuffer.entry[..] + pending)
      requires heap.live == BlocksOf(cBuffer.entry[..] + pending)
      requires forall k :: 0 <= k < CAPACITY && cBuffer.entry[k].buffptr == null ==> cBuffer.entry[k] == NO_ENTRY
      modifies cBuffer.entry, heap`live
      ensures heap.live == BlocksOf(pending) && Distinct(pending)
      ensures forall k :: 0 <= k < CAPACITY ==> cBuffer.entry[k] == NO_ENTRY
    {
      for i := 0 to CAPACITY
        invariant heap.live == BlocksOf(cBuffer.entry[..] + pending)
        invariant Distinct(cBuffer.entry[..] + pending)
        invariant forall k :: 0 <= k < i ==> cBuffer.entry[k] == NO_ENTRY
        invariant forall k :: 0 <= k < CAPACITY && cBuffer.entry[k].buffptr == null ==> cBuffer.entry[k] == NO_ENTRY
      {
        if cBuffer.entry[i].buffptr != null {
          ghost var all := cBuffer.entry[..] + pending;
          ClearSlot(all, i);
          heap.Kfree(cBuffer.entry[i].buffptr);
          cBuffer.entry[i] := NO_ENTRY;
          assert cBuffer.entry[..] + pending == all[i := NO_ENTRY];
        }
      }
      AllEmptyHoldNothing(cBuffer.entry[..], pending);
    }

    /** aesd_trim: free every stored line and reset the ring; the pending line stays. */
    method Trim()
      requires cBuffer.Valid() && Owns({}) && lock.held
      modifies this`log, cBuffer, cBuffer.entry, heap`live
      ensures cBuffer.Valid() && Owns({})
      ensures cBuffer.View() == Init(NO_ENTRY) && log == Log([], old(log.partial))
    {
      ghost var pending := if partial.size == 0 then [] else [partial];
      OwnsParts({});
      SlotsHoldTheSame(cBuffer.View(), pending);
      NullSlotsAreEmpty();
      FreeSlots(pending);
      cBuffer.full := false;
      cBuffer.inOffs := 0;
      cBuffer.outOffs := 0;
      log := Log([], log.partial);
      assert cBuffer.entry[..] == Init(NO_ENTRY).slots;
      OwnsPendingOnly();
    }

    /** A device whose ring is empty owns what its pending line needs, and no more. */
    lemma OwnsPendingOnly()
      requires cBuffer.Valid() && cBuffer.Entries() == [] && log.lines == []
      requires partial.size == |log.partial| && (partial.size == 0 ==> partial == NO_ENTRY)
      requires partial.size > 0 ==> Spells([partial], [log.partial])
      requires heap.live == BlocksOf(if partial.size == 0 then [] else [partial])
      ensures Owns({})
    {
      if partial.size > 0 {
        assert Held() == [partial] && Texts(log) == [log.partial];
      }
    }

    lemma NullSlotsAreEmpty()
      requires cBuffer.Valid() && Owns({})
      ensures forall k :: 0 <= k < CAPACITY && cBuffer.entry[k].buffptr == null ==> cBuffer.entry[k] == NO_ENTRY
    {
      OwnsParts({});
      forall k | 0 <= k < CAPACITY && cBuffer.entry[k].buffptr == null
        ensures cBuffer.entry[k] == NO_ENTRY
      {
        SlotIsRanked(cBuffer.View(), k);
      }
    }

    /** The device part of aesd_cleanup_module. Nothing stays live; the pending pointer is
        freed but not cleared. */
    method Cleanup()
      requires Valid()
      modifies this`log, cBuffer, cBuffer.entry, heap`live, lock
      ensures heap.live == {} && !lock.held && lock.interrupted == old(lock.interrupted)
      ensures cBuffer.Valid() && cBuffer.View() == Init(NO_ENTRY)
    {
      lock.Lock();
      Trim();
      OwnsParts({});
      heap.Kfree(partial.buffptr);
      lock.Unlock();
      assert cBuffer.Entries() == [];
    }
  }
}
