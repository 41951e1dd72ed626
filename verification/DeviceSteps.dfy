/** What one thread does between taking dev->lock and giving it back, one store to the shared
    device at a time (main.c, aesd-circular-buffer.c), and what is true after each store. */
module DeviceSteps {
  import opened Bytes
  import opened LineLog
  import opened Positions
  import opened Ring
  import opened DeviceSpec

  /** A pointer is told apart by what it points at: memory not yet filled, a block, or one
      that kfree has taken. */
  datatype Ptr = Null | Uninit(len: nat) | Block(bytes: seq<byte>) | Freed

  /** struct aesd_buffer_entry. */
  datatype Cell = Cell(ptr: Ptr, size: nat)

  const ZERO := Cell(Null, 0)

  /** The device fields the threads share, and the static evicted_entry of
      aesd_circular_buffer_add_entry. */
  datatype Shared = Shared(ring: Ring<Cell>, partial: Cell, evicted: Cell)

  /** The piece of a write's buffer from `start` up to `end`: the rest of a line with its
      newline, or (`tail`) the bytes after the last newline. */
  datatype Piece = Piece(start: nat, end: nat, tail: bool)

  /** Inside lines 168-198 or 219-249: the pending line takes in a piece. */
  datatype ExtendAt =
    | Test
    | Fill
    | SetSize
    | Join
    | FreeOld(data: seq<byte>)
    | SetPtr(data: seq<byte>)
    | GrowSize(data: seq<byte>)

  /** Inside aesd_circular_buffer_add_entry and lines 201-210 after it; `over` is whether an
      entry is overwritten. */
  datatype AddAt =
    | Save
    | MoveOut
    | Store(over: bool)
    | MoveIn(over: bool)
    | SetFull(over: bool)
    | FreeEvicted
    | ClearSize
    | ClearPtr
    | ResetPtr
    | ResetSize

  datatype WriteAt =
    | Allocate
    | CopyIn
    | Scan(j: nat, start: nat)
    | Extending(p: Piece, e: ExtendAt)
    | Adding(p: Piece, a: AddAt)

  datatype ReadAt = Find(i: nat, accumulation: nat) | CopyOut(slot: nat, off: nat)

  datatype SeekAt = Range | Walk(i: nat, newPos: nat)

  /** Where a thread stands inside the section; `took` in Leaving is what its write put into
      the device. */
  datatype Place =
    | Writing(buf: seq<byte>, w: WriteAt)
    | Reading(pos: nat, count: nat, r: ReadAt)
    | Seeking(cmd: nat, off: nat, k: SeekAt)
    | Summing(i: nat, size: nat)
    | Leaving(call: Call, res: Result, bytes: seq<byte>, took: nat)

  function FirstStep(call: Call): Place {
    match call
    case Write(buf) => Writing(buf, Allocate)
    case Read(pos, count) => Reading(pos, count, Find(0, 0))
    case Seek(cmd, off) => Seeking(cmd, off, Range)
    case Size => Summing(0, 0)
  }

  /** The call a thread inside the section is serving. */
  function Serving(pc: Place): Call {
    match pc
    case Writing(buf, _) => Write(buf)
    case Reading(pos, count, _) => Read(pos, count)
    case Seeking(cmd, off, _) => Seek(cmd, off)
    case Summing(_, _) => Size
    case Leaving(call, _, _, _) => call
  }

  // ---- the steps ----

  predicate RingShaped(sh: Shared) {
    sh.ring.inOffs < |sh.ring.slots| == CAPACITY
  }

  /** What a step needs not to go wrong: kfree and memcpy are given whole blocks, and no
      access is out of bounds. */
  predicate Shaped(sh: Shared, pc: Place) {
    && RingShaped(sh)
    && match pc
       case Writing(buf, Scan(j, start)) => start <= j
       case Writing(buf, Extending(p, e)) =>
         && p.start < p.end <= |buf|
         && (e.Join? ==> sh.partial.ptr.Block? && sh.partial.size == |sh.partial.ptr.bytes|)
         && (e.FreeOld? ==> sh.partial.ptr.Block?)
       case Writing(_, Adding(_, FreeEvicted)) => sh.evicted.ptr.Block?
       case Reading(pos, _, Find(_, accumulation)) => accumulation <= pos
       case Reading(_, _, CopyOut(slot, off)) =>
         && slot < CAPACITY
         && var c := sh.ring.slots[slot];
            c.ptr.Block? && c.size == |c.ptr.bytes| && off <= c.size
       case Summing(i, _) => i <= CAPACITY
       case _ => true
  }

  /** One store of the extension, and where the thread stands next; None when it is done. */
  function Extend(c: Cell, piece: seq<byte>, tail: bool, e: ExtendAt): (Cell, Option<ExtendAt>)
    requires e.Join? ==> c.ptr.Block?
  {
    match e
    case Test =>
      if c.size == 0 then (c.(ptr := Uninit(|piece|)), Some(if tail then Fill else SetSize)) else (c, Some(Join))
    case Fill => (c.(ptr := Block(piece)), if tail then Some(SetSize) else None)
    case SetSize => (c.(size := |piece|), if tail then None else Some(Fill))
    case Join => (c, Some(FreeOld(c.ptr.bytes + piece)))
    case FreeOld(data) => (c.(ptr := Freed), Some(SetPtr(data)))
    case SetPtr(data) => (c.(ptr := Block(data)), Some(GrowSize(data)))
    case GrowSize(data) => (c.(size := |data|), None)
  }

  /** One store of the addition and the reset after it. */
  function AddStep(sh: Shared, a: AddAt): (Shared, Option<AddAt>)
    requires RingShaped(sh)
  {
    var r := sh.ring;
    match a
    case Save =>
      if r.full then (sh.(evicted := r.slots[r.inOffs]), Some(MoveOut)) else (sh, Some(Store(false)))
    case MoveOut => (sh.(ring := r.(outOffs := Slot(r.outOffs + 1))), Some(Store(true)))
    case Store(over) => (sh.(ring := r.(slots := r.slots[r.inOffs := sh.partial])), Some(MoveIn(over)))
    case MoveIn(over) => (sh.(ring := r.(inOffs := Slot(r.inOffs + 1))), Some(SetFull(over)))
    case SetFull(over) =>
      (sh.(ring := r.(full := r.full || r.inOffs == r.outOffs)), Some(if over then FreeEvicted else ResetPtr))
    case FreeEvicted => (sh.(evicted := sh.evicted.(ptr := Freed)), Some(ClearSize))
    case ClearSize => (sh.(evicted := sh.evicted.(size := 0)), Some(ClearPtr))
    case ClearPtr => (sh.(evicted := sh.evicted.(ptr := Null)), Some(ResetPtr))
    case ResetPtr => (sh.(partial := sh.partial.(ptr := Null)), Some(ResetSize))
    case ResetSize => (sh.(partial := sh.partial.(size := 0)), None)
  }

  function WriteStep(sh: Shared, buf: seq<byte>, w: WriteAt): (Shared, Place)
    requires Shaped(sh, Writing(buf, w))
  {
    match w
    case Allocate => (sh, Writing(buf, CopyIn))
    case CopyIn => (sh, Writing(buf, Scan(0, 0)))
    case Scan(j, start) =>
      (sh,
       if j < |buf| then
         Writing(buf, if buf[j] == END_CHARACTER then Extending(Piece(start, j + 1, false), Test) else Scan(j + 1, start))
       else if start < |buf| then Writing(buf, Extending(Piece(start, |buf|, true), Test))
       else Leaving(Write(buf), Ok(|buf|), [], |buf|))
    case Extending(p, e) =>
      var (c, next) := Extend(sh.partial, buf[p.start..p.end], p.tail, e);
      (sh.(partial := c),
       if next.Some? then Writing(buf, Extending(p, next.value))
       else if p.tail then Leaving(Write(buf), Ok(|buf|), [], |buf|)
       else Writing(buf, Adding(p, Save)))
    case Adding(p, a) =>
      var (sh', next) := AddStep(sh, a);
      (sh', Writing(buf, if next.Some? then Adding(p, next.value) else Scan(p.end, p.end)))
  }

  function ReadStep(sh: Shared, pos: nat, count: nat, r: ReadAt): Place
    requires Shaped(sh, Reading(pos, count, r))
  {
    match r
    case Find(i, accumulation) =>
      var current := Slot(i + sh.ring.inOffs);
      if i >= CAPACITY || (sh.ring.inOffs < sh.ring.outOffs && sh.ring.inOffs > current)
      then Leaving(Read(pos, count), Ok(0), [], 0)
      else
        var size := sh.ring.slots[current].size;
        Reading(pos, count,
                if accumulation + size > pos then CopyOut(current, pos - accumulation)
                else Find(i + 1, accumulation + size))
    case CopyOut(slot, off) =>
      var entry := sh.ring.slots[slot];
      var n := if count + off >= entry.size then entry.size - off else count;
      Leaving(Read(pos, count), Ok(n), entry.ptr.bytes[off..off + n], 0)
  }

  function SeekStep(sh: Shared, cmd: nat, off: nat, k: SeekAt): Place
    requires RingShaped(sh)
  {
    match k
    case Range => if cmd >= CAPACITY then Leaving(Seek(cmd, off), Err(EINVAL), [], 0) else Seeking(cmd, off, Walk(0, 0))
    case Walk(i, newPos) =>
      var c := sh.ring.slots[Slot(i + sh.ring.outOffs)];
      if i < cmd then
        if c.ptr == Null && c.size == 0 then Leaving(Seek(cmd, off), Err(EINVAL), [], 0)
        else Seeking(cmd, off, Walk(i + 1, newPos + c.size))
      else if c.ptr == Null || off >= c.size then Leaving(Seek(cmd, off), Err(EINVAL), [], 0)
      else Leaving(Seek(cmd, off), Ok(newPos + off), [], 0)
  }

  /** The next step inside the section when nothing fails. */
  function Advance(sh: Shared, pc: Place): (Shared, Place)
    requires Shaped(sh, pc)
  {
    match pc
    case Writing(buf, w) => WriteStep(sh, buf, w)
    case Reading(pos, count, r) => (sh, ReadStep(sh, pos, count, r))
    case Seeking(cmd, off, k) => (sh, SeekStep(sh, cmd, off, k))
    case Summing(i, size) =>
      (sh, if i < CAPACITY then Summing(i + 1, size + sh.ring.slots[i].size) else Leaving(Size, Ok(size), [], 0))
    case Leaving(_, _, _, _) => (sh, pc)
  }

  /** What a step meets: nothing, an allocation that is refused, a user copy that faults. */
  datatype Luck = Fine | Refused | Faulted

  /** The steps that allocate or copy to or from the user may fail instead. The NULL of a
      failed first allocation is stored in the pending line (lines 171 and 221). */
  predicate Fails(sh: Shared, pc: Place, luck: Luck, sh': Shared, pc': Place) {
    match luck
    case Fine => false
    case Refused =>
      (match pc
       case Writing(buf, Allocate) => sh' == sh && pc' == Leaving(Write(buf), Err(ENOMEM), [], 0)
       case Writing(buf, Extending(p, Test)) =>
         && sh' == (if sh.partial.size == 0 then sh.(partial := sh.partial.(ptr := Null)) else sh)
         && pc' == Leaving(Write(buf), Err(ENOMEM), [], p.start)
       case _ => false)
    case Faulted =>
      (match pc
       case Writing(buf, CopyIn) => sh' == sh && pc' == Leaving(Write(buf), Err(EFAULT), [], 0)
       case Reading(pos, count, CopyOut(_, _)) => sh' == sh && pc' == Leaving(Read(pos, count), Err(EFAULT), [], 0)
       case _ => false)
  }

  predicate Step(sh: Shared, pc: Place, luck: Luck, sh': Shared, pc': Place) {
    && !pc.Leaving? && Shaped(sh, pc)
    && if luck == Fine then (sh', pc') == Advance(sh, pc) else Fails(sh, pc, luck, sh', pc')
  }

  /** One field of one entry, one whole entry, one offset or the full flag has changed, or nothing. */
  predicate OneStore(sh: Shared, sh': Shared) {
    var (r, r', c, c') := (sh.ring, sh'.ring, sh.partial, sh'.partial);
    || sh' == sh.(partial := c.(ptr := c'.ptr))
    || sh' == sh.(partial := c.(size := c'.size))
    || sh' == sh.(evicted := sh'.evicted)
    || sh' == sh.(ring := r.(outOffs := r'.outOffs))
    || sh' == sh.(ring := r.(inOffs := r'.inOffs))
    || sh' == sh.(ring := r.(full := r'.full))
    || (r.inOffs < |r.slots| == |r'.slots|
        && sh' == sh.(ring := r.(slots := r.slots[r.inOffs := r'.slots[r.inOffs]])))
  }

  /** The grain of the steps. */
  lemma EachStepStoresOnce(sh: Shared, pc: Place, luck: Luck, sh': Shared, pc': Place)
    requires Step(sh, pc, luck, sh', pc')
    ensures OneStore(sh, sh')
  {
  }

  // ---- what is true after each store ----

  /** The entry that holds a text; the empty text has none. */
  function CellOf(text: seq<byte>): Cell {
    if text == [] then ZERO else Cell(Block(text), |text|)
  }

  function CellsOf(lines: seq<seq<byte>>): (r: seq<Cell>)
    ensures |r| == |lines|
  {
    seq(|lines|, i requires 0 <= i < |lines| => CellOf(lines[i]))
  }

  ghost predicate Holds(r: Ring<Cell>, lines: seq<seq<byte>>) {
    Inv(r, ZERO) && Logical(r) == CellsOf(lines)
  }

  /** Ring and pending line are those of the log, and no freed pointer is left in
      evicted_entry: what holds whenever the lock is free. */
  ghost predicate Shows(sh: Shared, d: Log) {
    Holds(sh.ring, d.lines) && sh.partial == CellOf(d.partial) && sh.evicted == ZERO
  }

  ghost predicate GoodPiece(buf: seq<byte>, p: Piece) {
    && p.start < p.end <= |buf| && AtLineStart(buf, p.start)
    && if p.tail then p.end == |buf| && NoNewline(buf[p.start..p.end])
       else buf[p.end - 1] == END_CHARACTER && NoNewline(buf[p.start..p.end - 1])
  }

  /** The pending line while it takes in `piece`: the old bytes are there until the new block is. */
  ghost predicate Extended(c: Cell, before: seq<byte>, piece: seq<byte>, tail: bool, e: ExtendAt) {
    match e
    case Test => c == CellOf(before)
    case Fill => before == [] && c == Cell(Uninit(|piece|), if tail then 0 else |piece|)
    case SetSize => before == [] && c == Cell(if tail then Block(piece) else Uninit(|piece|), 0)
    case Join => before != [] && c == CellOf(before)
    case FreeOld(data) => before != [] && c == CellOf(before) && data == before + piece
    case SetPtr(data) => c == Cell(Freed, |before|) && data == before + piece
    case GrowSize(data) => c == Cell(Block(data), |before|) && data == before + piece
  }

  /** The ring once the stores of the addition that are still to come have been made. */
  function Completed(sh: Shared, a: AddAt): Ring<Cell>
    requires RingShaped(sh)
  {
    var r := sh.ring;
    match a
    case Save => Add(r, sh.partial)
    case MoveOut => Add(r, sh.partial)
    case Store(_) =>
      var inOffs := Slot(r.inOffs + 1);
      Ring(r.slots[r.inOffs := sh.partial], inOffs, r.outOffs, r.full || inOffs == r.outOffs)
    case MoveIn(_) =>
      var inOffs := Slot(r.inOffs + 1);
      Ring(r.slots, inOffs, r.outOffs, r.full || inOffs == r.outOffs)
    case SetFull(_) => r.(full := r.full || r.inOffs == r.outOffs)
    case _ => r
  }

  /** evicted_entry holds the overwritten entry until its block is freed, and is cleared then. */
  ghost predicate Evicted(c: Cell, a: AddAt) {
    match a
    case Save => c == ZERO
    case MoveOut => c.ptr.Block?
    case Store(over) => if over then c.ptr.Block? else c == ZERO
    case MoveIn(over) => if over then c.ptr.Block? else c == ZERO
    case SetFull(over) => if over then c.ptr.Block? else c == ZERO
    case FreeEvicted => c.ptr.Block?
    case ClearSize => c.ptr.Freed?
    case ClearPtr => c == Cell(Freed, 0)
    case ResetPtr => c == ZERO
    case ResetSize => c == ZERO
  }

  /** During the addition of `text` the ring is one that completes to the lines with `text`,
      the block to be freed is still there, and the pending line stays until it is reset. */
  ghost predicate Added(sh: Shared, lines: seq<seq<byte>>, text: seq<byte>, a: AddAt)
    requires RingShaped(sh)
  {
    && Holds(Completed(sh, a), PushLine(lines, text))
    && (a.Save? ==> Holds(sh.ring, lines))
    && (a.MoveOut? ==> sh.ring.full)
    && Evicted(sh.evicted, a)
    && (if a.ResetSize? then sh.partial.ptr == Null else sh.partial == CellOf(text))
  }

  ghost predicate WriteProgress(d: Log, sh: Shared, buf: seq<byte>, w: WriteAt) {
    match w
    case Allocate => Shows(sh, d) && buf != []
    case CopyIn => Shows(sh, d) && buf != []
    case Scan(j, start) =>
      && start <= j <= |buf| && 0 < |buf| && AtLineStart(buf, start) && NoNewline(buf[start..j])
      && Shows(sh, Feed(d, buf[..start]))
    case Extending(p, e) =>
      && GoodPiece(buf, p)
      && var d0 := Feed(d, buf[..p.start]);
         && Holds(sh.ring, d0.lines) && sh.evicted == ZERO
         && Extended(sh.partial, d0.partial, buf[p.start..p.end], p.tail, e)
    case Adding(p, a) =>
      && GoodPiece(buf, p) && !p.tail && RingShaped(sh)
      && var d0 := Feed(d, buf[..p.start]);
         Added(sh, d0.lines, d0.partial + buf[p.start..p.end], a)
  }

  ghost predicate ReadProgress(d: Log, sh: Shared, pos: nat, r: ReadAt) {
    && Shows(sh, d)
    && match r
       case Find(i, accumulation) => i <= CAPACITY && accumulation == Walked(Lengths(sh.ring), i) <= pos
       case CopyOut(slot, off) =>
         pos < Total(Sizes(d.lines)) && SlotAt(Sizes(d.lines), sh.ring.outOffs, pos) == Some((slot, off))
  }

  /** How far the lock holder has taken the device away from `d`, the log it found, and what
      it has met; what it meets ends its call. */
  ghost predicate Progress(d: Log, sh: Shared, pc: Place, luck: Luck) {
    if pc.Leaving? then Answered(d, sh, Event(pc.call, pc.res, pc.bytes, pc.took), luck)
    else luck == Fine && Underway(d, sh, pc)
  }

  ghost predicate Underway(d: Log, sh: Shared, pc: Place)
    requires !pc.Leaving?
  {
    match pc
    case Writing(buf, w) => WriteProgress(d, sh, buf, w)
    case Reading(pos, _, r) => ReadProgress(d, sh, pos, r)
    case Seeking(cmd, _, k) => SeekProgress(d, sh, cmd, k)
    case Summing(i, size) => Shows(sh, d) && i <= CAPACITY && size == Total(Lengths(sh.ring).slots[..i])
  }

  ghost predicate SeekProgress(d: Log, sh: Shared, cmd: nat, k: SeekAt) {
    && Shows(sh, d)
    && match k
       case Range => true
       case Walk(i, newPos) => i <= cmd < CAPACITY && i <= |d.lines| && newPos == Position(Sizes(d.lines), i, 0)
  }

  /** The one result a call can have by what it met inside the section: ENOMEM for a refused
      allocation, EFAULT for a faulting copy; otherwise success, except of a seek to a byte
      that is not stored. */
  ghost predicate Deserved(d: Log, e: Event, luck: Luck) {
    match luck
    case Fine =>
      if e.call.Seek? && !Inside(Sizes(d.lines), e.call.cmd, e.call.off) then e.res == Err(EINVAL) else e.res.Ok?
    case Refused => e.call.Write? && e.res == Err(ENOMEM)
    case Faulted => (e.call.Write? || e.call.Read?) && e.res == Err(EFAULT)
  }

  ghost predicate Answered(d: Log, sh: Shared, e: Event, luck: Luck) {
    Answers(d, e) && Deserved(d, e, luck) && Shows(sh, Feed(d, TakenBy(e)))
  }

  /** The ring of the stored sizes. */
  function Lengths(r: Ring<Cell>): Ring<nat> {
    Ring(seq(|r.slots|, i requires 0 <= i < |r.slots| => r.slots[i].size), r.inOffs, r.outOffs, r.full)
  }

  lemma LengthsAgree(r: Ring<Cell>, lines: seq<seq<byte>>)
    requires Holds(r, lines)
    ensures Inv(Lengths(r), 0) && Logical(Lengths(r)) == Sizes(lines)
    ensures forall j :: 0 <= j < CAPACITY ==> Lengths(r).slots[j] == r.slots[j].size
  {
    forall i | 0 <= i < |lines|
      ensures Logical(Lengths(r))[i] == Sizes(lines)[i]
    {
      assert Logical(Lengths(r))[i] == Logical(r)[i].size == CellsOf(lines)[i].size;
    }
  }

  /** The slot of command `i` holds its line, and is zero when there is no such command. */
  lemma SlotOfCommand(r: Ring<Cell>, lines: seq<seq<byte>>, i: nat)
    requires Holds(r, lines) && i < CAPACITY
    ensures r.slots[Slot(r.outOffs + i)] == if i < |lines| then CellOf(lines[i]) else ZERO
  {
    if i < |lines| {
      LogicalSlot(r, ZERO, i);
    } else {
      BeyondLogicalIsZero(r, ZERO, i);
    }
  }

  // ---- every step keeps it: the write ----

  lemma ScanStep(d: Log, sh: Shared, buf: seq<byte>, j: nat, start: nat)
    requires WriteProgress(d, sh, buf, Scan(j, start)) && Shaped(sh, Writing(buf, Scan(j, start)))
    ensures Progress(d, sh, WriteStep(sh, buf, Scan(j, start)).1, Fine)
  {
    if j < |buf| {
      assert buf[start..j + 1] == buf[start..j] + [buf[j]];
    } else if start == |buf| {
      assert buf[..|buf|] == buf;
    }
  }

  lemma ExtendKeeps(c: Cell, before: seq<byte>, piece: seq<byte>, tail: bool, e: ExtendAt)
    requires Extended(c, before, piece, tail, e) && piece != []
    ensures e.Join? ==> c.ptr.Block? && c.size == |c.ptr.bytes|
    ensures e.FreeOld? ==> c.ptr.Block?
    ensures var (c', next) := Extend(c, piece, tail, e);
            if next.Some? then Extended(c', before, piece, tail, next.value) else c' == CellOf(before + piece)
  {
    if before == [] {
      assert before + piece == piece;
    }
  }

  lemma ExtendingStep(d: Log, sh: Shared, buf: seq<byte>, p: Piece, e: ExtendAt)
    requires WriteProgress(d, sh, buf, Extending(p, e))
    ensures Shaped(sh, Writing(buf, Extending(p, e)))
    ensures var (sh', pc') := WriteStep(sh, buf, Extending(p, e)); Progress(d, sh', pc', Fine)
  {
    var d0, piece := Feed(d, buf[..p.start]), buf[p.start..p.end];
    ExtendKeeps(sh.partial, d0.partial, piece, p.tail, e);
    var (c, next) := Extend(sh.partial, piece, p.tail, e);
    var sh' := sh.(partial := c);
    if next.Some? {
      assert WriteStep(sh, buf, Extending(p, e)) == (sh', Writing(buf, Extending(p, next.value)));
    } else if p.tail {
      TailIsIn(d, sh', buf, p);
      assert WriteStep(sh, buf, Extending(p, e)) == (sh', Leaving(Write(buf), Ok(|buf|), [], |buf|));
    } else {
      AdditionStarts(sh', d0.lines, d0.partial + piece);
      assert WriteStep(sh, buf, Extending(p, e)) == (sh', Writing(buf, Adding(p, Save)));
    }
  }

  lemma TailIsIn(d: Log, sh: Shared, buf: seq<byte>, p: Piece)
    requires GoodPiece(buf, p) && p.tail
    requires var d0 := Feed(d, buf[..p.start]);
             Holds(sh.ring, d0.lines) && sh.partial == CellOf(d0.partial + buf[p.start..p.end]) && sh.evicted == ZERO
    ensures Answered(d, sh, Event(Write(buf), Ok(|buf|), [], |buf|), Fine)
  {
    FeedUnfinished(d, buf, p.start, |buf|);
    assert buf[..|buf|] == buf;
  }

  lemma AdditionStarts(sh: Shared, lines: seq<seq<byte>>, text: seq<byte>)
    requires Holds(sh.ring, lines) && sh.partial == CellOf(text) && sh.evicted == ZERO
    ensures RingShaped(sh) && Added(sh, lines, text, Save)
  {
    AddAppends(sh.ring, sh.partial, ZERO);
    assert CellsOf(PushLine(lines, text)) == LastN(CellsOf(lines) + [CellOf(text)], CAPACITY);
  }

  /** No store of the addition changes what the addition completes to. */
  lemma AddStepCompletes(sh: Shared, a: AddAt)
    requires RingShaped(sh) && (a.MoveOut? ==> sh.ring.full)
    ensures var (sh', next) := AddStep(sh, a);
            RingShaped(sh') && Completed(sh', if next.Some? then next.value else a) == Completed(sh, a)
  {
  }

  lemma AddKeeps(sh: Shared, lines: seq<seq<byte>>, text: seq<byte>, a: AddAt)
    requires RingShaped(sh) && Added(sh, lines, text, a)
    requires forall i :: 0 <= i < |lines| ==> lines[i] != []
    ensures a.FreeEvicted? ==> sh.evicted.ptr.Block?
    ensures var (sh', next) := AddStep(sh, a);
            && RingShaped(sh')
            && if next.Some? then Added(sh', lines, text, next.value)
               else Shows(sh', Log(PushLine(lines, text), []))
  {
    AddStepCompletes(sh, a);
    if a.Save? && sh.ring.full {
      AddAppends(sh.ring, sh.partial, ZERO);
    }
  }

  lemma AddingStep(d: Log, sh: Shared, buf: seq<byte>, p: Piece, a: AddAt)
    requires WriteProgress(d, sh, buf, Adding(p, a)) && WellFormed(d)
    ensures Shaped(sh, Writing(buf, Adding(p, a)))
    ensures var (sh', pc') := WriteStep(sh, buf, Adding(p, a)); Progress(d, sh', pc', Fine)
  {
    var d0 := Feed(d, buf[..p.start]);
    FeedKeepsLines(d, buf[..p.start]);
    AddKeeps(sh, d0.lines, d0.partial + buf[p.start..p.end], a);
    var (sh', next) := AddStep(sh, a);
    if next.Some? {
      assert WriteStep(sh, buf, Adding(p, a)) == (sh', Writing(buf, Adding(p, next.value)));
    } else {
      LineIsIn(d, sh', buf, p);
      assert WriteStep(sh, buf, Adding(p, a)) == (sh', Writing(buf, Scan(p.end, p.end)));
    }
  }

  lemma LineIsIn(d: Log, sh: Shared, buf: seq<byte>, p: Piece)
    requires GoodPiece(buf, p) && !p.tail && sh.partial == ZERO && sh.evicted == ZERO
    requires var d0 := Feed(d, buf[..p.start]);
             Holds(sh.ring, PushLine(d0.lines, d0.partial + buf[p.start..p.end]))
    ensures WriteProgress(d, sh, buf, Scan(p.end, p.end))
  {
    FeedNextLine(d, buf, p.start, p.end - 1);
    assert buf[p.end..p.end] == [];
  }

  lemma WriteKeepsProgress(d: Log, sh: Shared, buf: seq<byte>, w: WriteAt)
    requires WriteProgress(d, sh, buf, w) && WellFormed(d)
    ensures Shaped(sh, Writing(buf, w))
    ensures var (sh', pc') := WriteStep(sh, buf, w); Progress(d, sh', pc', Fine)
  {
    match w
    case Allocate =>
    case CopyIn => assert buf[..0] == [] && buf[0..0] == [];
    case Scan(j, start) => ScanStep(d, sh, buf, j, start);
    case Extending(p, e) => ExtendingStep(d, sh, buf, p, e);
    case Adding(p, a) => AddingStep(d, sh, buf, p, a);
  }

  // ---- every step keeps it: reads and seeks ----

  /** One turn of the search loop: it adds one size, or stops at the slot and offset the
      position has. */
  lemma SearchTurn(ring: Ring<Cell>, lines: seq<seq<byte>>, pos: nat, i: nat)
    requires Holds(ring, lines) && i < CAPACITY && Walked(Lengths(ring), i) <= pos
    ensures var current := Slot(i + ring.inOffs);
            Walked(Lengths(ring), i + 1) == Walked(Lengths(ring), i) + ring.slots[current].size
    ensures var current := Slot(i + ring.inOffs);
            Walked(Lengths(ring), i + 1) > pos ==>
              && pos < Total(Sizes(lines))
              && SlotAt(Sizes(lines), ring.outOffs, pos) == Some((current, pos - Walked(Lengths(ring), i)))
  {
    var r := Lengths(ring);
    LengthsAgree(ring, lines);
    assert Walked(r, i + 1) == Walked(r, i) + r.slots[Slot(i + r.inOffs)];
    if Walked(r, i + 1) > pos {
      WalkStops(r, i, pos);
    }
  }

  lemma SearchRunsOut(ring: Ring<Cell>, lines: seq<seq<byte>>, pos: nat)
    requires Holds(ring, lines) && Walked(Lengths(ring), CAPACITY) <= pos
    ensures pos >= Total(Sizes(lines))
  {
    LengthsAgree(ring, lines);
    WalkRunsOut(Lengths(ring), pos);
  }

  lemma NothingToRead(d: Log, sh: Shared, pos: nat, count: nat)
    requires Shows(sh, d) && pos >= Total(Sizes(d.lines))
    ensures Answered(d, sh, Event(Read(pos, count), Ok(0), [], 0), Fine)
  {
    FlattenLength(d.lines);
    ReadIsEmptyOnlyAtTheEnd(d.lines, pos, count);
  }

  lemma FindStep(sh: Shared, pos: nat, count: nat, i: nat, accumulation: nat)
    requires RingShaped(sh) && accumulation <= pos && !(sh.ring.inOffs < sh.ring.outOffs)
    ensures ReadStep(sh, pos, count, Find(i, accumulation)) ==
            if i >= CAPACITY then Leaving(Read(pos, count), Ok(0), [], 0)
            else
              var current := Slot(i + sh.ring.inOffs);
              var reached := accumulation + sh.ring.slots[current].size;
              Reading(pos, count, if reached > pos then CopyOut(current, pos - accumulation) else Find(i + 1, reached))
  {
  }

  lemma FindMoves(d: Log, sh: Shared, pos: nat, i: nat, accumulation: nat)
    requires ReadProgress(d, sh, pos, Find(i, accumulation)) && i < CAPACITY
    ensures var current := Slot(i + sh.ring.inOffs);
            var reached := accumulation + sh.ring.slots[current].size;
            ReadProgress(d, sh, pos, if reached > pos then CopyOut(current, pos - accumulation) else Find(i + 1, reached))
  {
    SearchTurn(sh.ring, d.lines, pos, i);
  }

  lemma FindKeepsProgress(d: Log, sh: Shared, pos: nat, count: nat, i: nat, accumulation: nat)
    requires ReadProgress(d, sh, pos, Find(i, accumulation))
    ensures Shaped(sh, Reading(pos, count, Find(i, accumulation)))
    ensures Progress(d, sh, ReadStep(sh, pos, count, Find(i, accumulation)), Fine)
  {
    InOffsIsNeverBelowOutOffs(sh.ring, ZERO);
    FindStep(sh, pos, count, i, accumulation);
    if i == CAPACITY {
      SearchRunsOut(sh.ring, d.lines, pos);
      NothingToRead(d, sh, pos, count);
    } else {
      FindMoves(d, sh, pos, i, accumulation);
    }
  }

  /** The bytes copied out of the slot a search found are those of the abstract read. */
  lemma CopiedBytes(ring: Ring<Cell>, lines: seq<seq<byte>>, pos: nat, count: nat)
    requires Holds(ring, lines) && pos < Total(Sizes(lines))
    ensures SlotAt(Sizes(lines), ring.outOffs, pos).Some?
    ensures var (slot, off) := SlotAt(Sizes(lines), ring.outOffs, pos).value;
            var c := ring.slots[slot];
            && c.ptr.Block? && c.size == |c.ptr.bytes| && off <= c.size
            && var n := if count + off >= c.size then c.size - off else count;
            c.ptr.bytes[off..off + n] == ReadBytes(lines, pos, count)
  {
    ReadAtLocated(lines, pos, count);
    SlotOfCommand(ring, lines, Locate(Sizes(lines), pos).value.0);
  }

  lemma CopyKeepsProgress(d: Log, sh: Shared, pos: nat, count: nat, slot: nat, off: nat)
    requires ReadProgress(d, sh, pos, CopyOut(slot, off))
    ensures Shaped(sh, Reading(pos, count, CopyOut(slot, off)))
    ensures Progress(d, sh, ReadStep(sh, pos, count, CopyOut(slot, off)), Fine)
  {
    CopiedBytes(sh.ring, d.lines, pos, count);
  }

  lemma WalkGoesOn(d: Log, sh: Shared, cmd: nat, i: nat, newPos: nat)
    requires SeekProgress(d, sh, cmd, Walk(i, newPos)) && WellFormed(d)
    ensures sh.ring.slots[Slot(i + sh.ring.outOffs)] == if i < |d.lines| then CellOf(d.lines[i]) else ZERO
    ensures i < |d.lines| ==> d.lines[i] != []
    ensures i < |d.lines| && i < cmd ==> SeekProgress(d, sh, cmd, Walk(i + 1, newPos + |d.lines[i]|))
  {
    SlotOfCommand(sh.ring, d.lines, i);
    if i < |d.lines| {
      TotalSnoc(Sizes(d.lines), i);
    }
  }

  lemma SeekIsAnswered(d: Log, sh: Shared, cmd: nat, off: nat)
    requires Shows(sh, d)
    ensures var res := if Inside(Sizes(d.lines), cmd, off) then Ok(Position(Sizes(d.lines), cmd, off)) else Err(EINVAL);
            Answered(d, sh, Event(Seek(cmd, off), res, [], 0), Fine)
  {
  }

  lemma WalkStep(sh: Shared, cmd: nat, off: nat, i: nat, newPos: nat, text: seq<byte>)
    requires RingShaped(sh) && sh.ring.slots[Slot(i + sh.ring.outOffs)] == CellOf(text)
    ensures SeekStep(sh, cmd, off, Walk(i, newPos)) ==
            if i < cmd && text != [] then Seeking(cmd, off, Walk(i + 1, newPos + |text|))
            else if i < cmd || off >= |text| then Leaving(Seek(cmd, off), Err(EINVAL), [], 0)
            else Leaving(Seek(cmd, off), Ok(newPos + off), [], 0)
  {
  }

  lemma SeekKeepsProgress(d: Log, sh: Shared, cmd: nat, off: nat, k: SeekAt)
    requires SeekProgress(d, sh, cmd, k) && WellFormed(d)
    ensures Progress(d, sh, SeekStep(sh, cmd, off, k), Fine)
  {
    SeekIsAnswered(d, sh, cmd, off);
    if k.Walk? {
      WalkGoesOn(d, sh, cmd, k.i, k.newPos);
      WalkStep(sh, cmd, off, k.i, k.newPos, if k.i < |d.lines| then d.lines[k.i] else []);
    }
  }

  lemma SumKeepsProgress(d: Log, sh: Shared, i: nat, size: nat)
    requires Progress(d, sh, Summing(i, size), Fine)
    ensures var (sh', pc') := Advance(sh, Summing(i, size)); Progress(d, sh', pc', Fine)
  {
    LengthsAgree(sh.ring, d.lines);
    var sizes := Lengths(sh.ring).slots;
    if i < CAPACITY {
      TotalSnoc(sizes, i);
    } else {
      assert sizes[..i] == sizes;
      WalkAgreesWithLogicalOrder(Lengths(sh.ring), 0);
      FlattenLength(d.lines);
    }
  }

  /** Every step inside the section is in bounds and takes the device one store further along
      its one call. */
  lemma AdvanceKeepsProgress(d: Log, sh: Shared, pc: Place)
    requires !pc.Leaving? && Progress(d, sh, pc, Fine) && WellFormed(d)
    ensures Shaped(sh, pc)
    ensures var (sh', pc') := Advance(sh, pc); Progress(d, sh', pc', Fine) && Serving(pc') == Serving(pc)
  {
    match pc
    case Writing(buf, w) => WriteKeepsProgress(d, sh, buf, w);
    case Reading(pos, count, Find(i, accumulation)) => FindKeepsProgress(d, sh, pos, count, i, accumulation);
    case Reading(pos, count, CopyOut(slot, off)) => CopyKeepsProgress(d, sh, pos, count, slot, off);
    case Seeking(cmd, off, k) => SeekKeepsProgress(d, sh, cmd, off, k);
    case Summing(i, size) => SumKeepsProgress(d, sh, i, size);
  }

  /** A failing step ends the call with the error it deserves, and leaves the device showing
      the log of what the call took in. */
  lemma FailureKeepsProgress(d: Log, sh: Shared, pc: Place, luck: Luck, sh': Shared, pc': Place)
    requires Progress(d, sh, pc, Fine) && Fails(sh, pc, luck, sh', pc')
    ensures pc'.Leaving? && Progress(d, sh', pc', luck) && Serving(pc') == Serving(pc)
  {
  }

  lemma StepKeepsProgress(d: Log, sh: Shared, pc: Place, luck: Luck, sh': Shared, pc': Place)
    requires Progress(d, sh, pc, Fine) && WellFormed(d) && Step(sh, pc, luck, sh', pc')
    ensures Progress(d, sh', pc', luck) && Serving(pc') == Serving(pc)
  {
    if luck == Fine {
      AdvanceKeepsProgress(d, sh, pc);
    } else {
      FailureKeepsProgress(d, sh, pc, luck, sh', pc');
    }
  }

  // ---- the section ends ----

  function ExtendRank(e: ExtendAt, tail: bool): nat {
    match e
    case Test => 5
    case Join => 4
    case FreeOld(_) => 3
    case SetPtr(_) => 2
    case GrowSize(_) => 1
    case Fill => if tail then 2 else 1
    case SetSize => if tail then 1 else 2
  }

  function AddRank(a: AddAt): nat {
    match a
    case Save => 10
    case MoveOut => 9
    case Store(_) => 8
    case MoveIn(_) => 7
    case SetFull(_) => 6
    case FreeEvicted => 5
    case ClearSize => 4
    case ClearPtr => 3
    case ResetPtr => 2
    case ResetSize => 1
  }

  /** An upper bound on the steps a thread still takes inside the section: sixteen for each
      byte not scanned yet, and those of the piece at hand. */
  function StepsLeft(pc: Place): nat {
    match pc
    case Writing(buf, Allocate) => 16 * |buf| + 9
    case Writing(buf, CopyIn) => 16 * |buf| + 8
    case Writing(buf, Scan(j, _)) => 16 * Left(buf, j) + 7
    case Writing(buf, Extending(p, e)) =>
      (if p.tail then 0 else 16 * Left(buf, p.end) + 17) + ExtendRank(e, p.tail)
    case Writing(buf, Adding(p, a)) => 16 * Left(buf, p.end) + 7 + AddRank(a)
    case Reading(_, _, Find(i, _)) => 2 + if i < CAPACITY then CAPACITY - i else 0
    case Reading(_, _, CopyOut(_, _)) => 1
    case Seeking(cmd, _, Range) => cmd + 2
    case Seeking(cmd, _, Walk(i, _)) => 1 + if i < cmd then cmd - i else 0
    case Summing(i, _) => 1 + if i < CAPACITY then CAPACITY - i else 0
    case Leaving(_, _, _, _) => 0
  }

  function Left(buf: seq<byte>, j: nat): nat {
    if j < |buf| then |buf| - j else 0
  }

  lemma WriteStepCounts(sh: Shared, buf: seq<byte>, w: WriteAt)
    requires Shaped(sh, Writing(buf, w))
    ensures StepsLeft(WriteStep(sh, buf, w).1) < StepsLeft(Writing(buf, w))
  {
  }

  lemma OtherStepCounts(sh: Shared, pc: Place)
    requires Shaped(sh, pc) && !pc.Writing? && !pc.Leaving?
    ensures StepsLeft(Advance(sh, pc).1) < StepsLeft(pc)
  {
  }

  lemma EveryStepCounts(sh: Shared, pc: Place, luck: Luck, sh': Shared, pc': Place)
    requires Step(sh, pc, luck, sh', pc')
    ensures StepsLeft(pc') < StepsLeft(pc)
  {
    if luck != Fine {
    } else if pc.Writing? {
      WriteStepCounts(sh, pc.buf, pc.w);
    } else {
      OtherStepCounts(sh, pc);
    }
  }
}
