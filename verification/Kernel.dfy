/** The kernel services the driver calls, as far as it can tell them apart: allocation that
    may refuse, copies to and from user space that may fault, a mutex whose
    acquisition may be interrupted. The ghost counters record what went wrong, so that a
    contract can say that an error is returned exactly when something did. */
module Kernel {
  import opened Bytes

  /** The kmalloc heap. A block is an array; `live` are the blocks not yet freed. */
  class Heap {
    ghost var live: set<array<byte>>
    ghost var refused: nat  // kmalloc calls that returned NULL
    ghost var faults: nat   // user copies that did not complete

    constructor ()
      ensures live == {} && refused == 0 && faults == 0
    {
      live, refused, faults := {}, 0, 0;
    }

    method Kmalloc(size: nat) returns (b: array?<byte>)
      modifies this
      ensures faults == old(faults)
      ensures b == null ==> live == old(live) && refused == old(refused) + 1
      ensures b != null ==> fresh(b) && b !in old(live) && b.Length == size
      ensures b != null ==> live == old(live) + {b} && refused == old(refused)
    {
      if * {
        b := null;
        refused := refused + 1;
      } else {
        b := new byte[size];
        live := live + {b};
      }
    }

    /** Freeing NULL does nothing; freeing anything else needs it live, so a second free
        of the same block is a contract violation. */
    method Kfree(b: array?<byte>)
      requires b != null ==> b in live
      modifies this`live
      ensures faults == old(faults) && refused == old(refused)
      ensures live == if b == null then old(live) else old(live) - {b}
    {
      if b != null {
        live := live - {b};
      }
    }

    method Memcpy(dst: array<byte>, dstOff: nat, src: array<byte>, srcOff: nat, n: nat)
      requires dst in live && src in live && dst != src
      requires dstOff + n <= dst.Length && srcOff + n <= src.Length
      modifies dst
      ensures dst[..] == old(dst[..dstOff]) + src[srcOff..srcOff + n] + old(dst[dstOff + n..])
    {
      forall i | 0 <= i < n {
        dst[dstOff + i] := src[srcOff + i];
      }
    }

    /** Returns the number of bytes not copied. */
    method CopyFromUser(dst: array<byte>, buf: seq<byte>) returns (notCopied: nat)
      requires dst in live && dst.Length == |buf|
      modifies dst, this`faults
      ensures notCopied == 0 ==> dst[..] == buf && faults == old(faults)
      ensures notCopied != 0 ==> faults == old(faults) + 1
    {
      notCopied :| 0 <= notCopied <= |buf|;
      forall i | 0 <= i < |buf| - notCopied {
        dst[i] := buf[i];
      }
      if notCopied != 0 {
        faults := faults + 1;
      }
    }

    /** Returns the number of bytes not copied, and the bytes that reached the user when all did. */
    method CopyToUser(src: array<byte>, off: nat, n: nat) returns (notCopied: nat, bytes: seq<byte>)
      requires src in live && off + n <= src.Length
      modifies this`faults
      ensures notCopied == 0 ==> bytes == src[off..off + n] && faults == old(faults)
      ensures notCopied != 0 ==> bytes == [] && faults == old(faults) + 1
    {
      notCopied :| 0 <= notCopied <= n;
      bytes := if notCopied == 0 then src[off..off + n] else [];
      if notCopied != 0 {
        faults := faults + 1;
      }
    }
  }

  class Mutex {
    var held: bool
    ghost var interrupted: nat  // acquisitions given up because of a signal

    constructor ()
      ensures !held && interrupted == 0
    {
      held, interrupted := false, 0;
    }

    /** True (non-zero in the source) when a signal arrived first and the lock was not taken. */
    method LockInterruptible() returns (rc: bool)
      requires !held
      modifies this
      ensures held == !rc
      ensures interrupted == old(interrupted) + if rc then 1 else 0
    {
      rc := *;
      held := !rc;
      if rc {
        interrupted := interrupted + 1;
      }
    }

    method Lock()
      requires !held
      modifies this
      ensures held && interrupted == old(interrupted)
    {
      held := true;
    }

    method Unlock()
      requires held
      modifies this
      ensures !held && interrupted == old(interrupted)
    {
      held := false;
    }
  }

  /** An open file: the part of `struct file` the driver updates. */
  class File {
    var fPos: nat

    constructor ()
      ensures fPos == 0
    {
      fPos := 0;
    }
  }
}
