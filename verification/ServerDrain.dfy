/** The server's seek-and-forward critical section (socket_core.c:115-135), run on the device class. */
module ServerDrain {
  import opened Bytes
  import opened Positions
  import opened DeviceSpec
  import opened Kernel
  import opened AesdDevice

  /** The read loop of lines 129-133: forward until a read returns nothing or fails. */
  method ForwardRest(dev: AesdDev, filp: File) returns (sent: seq<byte>)
    requires dev.Valid() && filp.fPos <= |Flatten(dev.log.lines)|
    modifies filp, dev.lock, dev.heap`faults
    ensures dev.Valid()
    ensures old(filp.fPos) + |sent| == filp.fPos <= |Flatten(dev.log.lines)|
    ensures sent == Flatten(dev.log.lines)[old(filp.fPos)..filp.fPos]
    ensures dev.lock.interrupted == old(dev.lock.interrupted) && dev.heap.faults == old(dev.heap.faults)
            ==> filp.fPos == |Flatten(dev.log.lines)|
  {
    ghost var lines, p := dev.log.lines, filp.fPos;
    sent := [];
    var more := true;
    while more
      invariant dev.Valid()
      invariant p + |sent| == filp.fPos <= |Flatten(lines)| && sent == Flatten(lines)[p..filp.fPos]
      invariant dev.lock.interrupted >= old(dev.lock.interrupted) && dev.heap.faults >= old(dev.heap.faults)
      invariant !more && filp.fPos < |Flatten(lines)| ==>
                  dev.lock.interrupted > old(dev.lock.interrupted) || dev.heap.faults > old(dev.heap.faults)
      decreases |Flatten(lines)| - filp.fPos, more
    {
      ReadTakesNextPiece(lines, filp.fPos, BUFFER_SIZE);
      var n, buffer := dev.Read(filp, BUFFER_SIZE);
      sent := sent + buffer;
      more := n.Ok? && n.n > 0;
    }
  }

  /** The critical section of lines 118-134: one ioctl, and the read loop when it succeeds. */
  method SeekThenForward(dev: AesdDev, filp: File, cmd: nat, off: nat) returns (ioctl: Result, sent: seq<byte>)
    requires dev.Valid()
    modifies filp, dev.lock, dev.heap`faults
    ensures dev.Valid()
    ensures SeekAnswers(dev.log.lines, cmd, off, ioctl)
    ensures ioctl.Err? ==> sent == [] && filp.fPos == old(filp.fPos)
    ensures ioctl.Ok? ==> ioctl.n + |sent| == filp.fPos <= |Flatten(dev.log.lines)|
    ensures ioctl.Ok? ==> sent == Flatten(dev.log.lines)[ioctl.n..filp.fPos]
    ensures ioctl.Ok? && dev.lock.interrupted == old(dev.lock.interrupted) && dev.heap.faults == old(dev.heap.faults)
            ==> sent == Flatten(dev.log.lines)[ioctl.n..] != []
  {
    sent := [];
    ioctl := dev.AdjustFileOffset(filp, cmd, off);
    if ioctl.Ok? {
      SoughtIsInside(dev.log.lines, cmd, off, ioctl);
      sent := ForwardRest(dev, filp);
    }
  }

  /** One seek command served under file_mutex. What is sent is always the contents from the
      sought position up to the file position; it is all of the rest unless a read was
      interrupted or faulted. */
  method SeekAndForward(dev: AesdDev, fileMutex: Mutex, filp: File, cmd: nat, off: nat)
    returns (ioctl: Result, sent: seq<byte>)
    requires dev.Valid() && !fileMutex.held && fileMutex != dev.lock
    modifies fileMutex, filp, dev.lock, dev.heap`faults
    ensures dev.Valid() && !fileMutex.held
    ensures SeekAnswers(dev.log.lines, cmd, off, ioctl)
    ensures ioctl.Err? ==> sent == [] && filp.fPos == old(filp.fPos)
    ensures ioctl.Ok? ==> ioctl.n + |sent| == filp.fPos <= |Flatten(dev.log.lines)|
    ensures ioctl.Ok? ==> sent == Flatten(dev.log.lines)[ioctl.n..filp.fPos]
    ensures ioctl.Ok? && dev.lock.interrupted == old(dev.lock.interrupted) && dev.heap.faults == old(dev.heap.faults)
            ==> sent == Flatten(dev.log.lines)[ioctl.n..] != []
  {
    fileMutex.Lock();
    ioctl, sent := SeekThenForward(dev, filp, cmd, off);
    fileMutex.Unlock();
  }

  /** A seek that answered well stands at a stored byte, so something is left to send. */
  lemma SoughtIsInside(lines: seq<seq<byte>>, cmd: nat, off: nat, ioctl: Result)
    requires SeekAnswers(lines, cmd, off, ioctl) && ioctl.Ok?
    ensures ioctl.n < |Flatten(lines)|
    ensures Flatten(lines)[ioctl.n..|Flatten(lines)|] == Flatten(lines)[ioctl.n..] != []
  {
    LocateInvertsPosition(Sizes(lines), cmd, off);
    LocateSound(Sizes(lines), ioctl.n);
    FlattenLength(lines);
  }
}
