/** The flat address space the driver gives its lines: command/offset pairs, byte
    positions, and what a read returns at a position. */
module Positions {
  import opened Bytes

  type Positive = n: int | 0 < n witness 1

  /** The flat position of byte `off` of line `cmd`. */
  function Position(sizes: seq<nat>, cmd: nat, off: nat): nat
    requires cmd <= |sizes|
  {
    Total(sizes[..cmd]) + off
  }

  /** (cmd, off) names a stored byte. */
  predicate Inside(sizes: seq<nat>, cmd: nat, off: nat) {
    cmd < |sizes| && off < sizes[cmd]
  }

  /** Linear search in logical order: the first line that reaches past `pos`. */
  function Locate(sizes: seq<nat>, pos: nat): Option<(nat, nat)> {
    if sizes == [] then None
    else if pos < sizes[0] then Some((0, pos))
    else match Locate(sizes[1..], pos - sizes[0])
      case None => None
      case Some((cmd, off)) => Some((cmd + 1, off))
  }

  lemma {:induction false} LocateSound(sizes: seq<nat>, pos: nat)
    ensures Locate(sizes, pos) == None <==> pos >= Total(sizes)
    ensures forall cmd: nat, off: nat :: Locate(sizes, pos) == Some((cmd, off)) ==>
                                 Inside(sizes, cmd, off) && Position(sizes, cmd, off) == pos
  {
    if sizes == [] || pos < sizes[0] {
    } else {
      LocateSound(sizes[1..], pos - sizes[0]);
      match Locate(sizes[1..], pos - sizes[0])
      case None =>
      case Some((cmd, off)) =>
        assert sizes[..cmd + 1] == [sizes[0]] + sizes[1..][..cmd];
    }
  }

  /** Finding the position a seek produced gives the seek's own command and offset back. */
  lemma {:induction false} LocateInvertsPosition(sizes: seq<nat>, cmd: nat, off: nat)
    requires Inside(sizes, cmd, off)
    ensures Locate(sizes, Position(sizes, cmd, off)) == Some((cmd, off))
  {
    if cmd == 0 {
    } else {
      assert sizes[..cmd] == [sizes[0]] + sizes[1..][..cmd - 1];
      assert Position(sizes, cmd, off) == sizes[0] + Position(sizes[1..], cmd - 1, off);
      LocateInvertsPosition(sizes[1..], cmd - 1, off);
    }
  }

  /** Positions below the total and stored (cmd, off) pairs correspond one to one. */
  lemma EveryPositionHasOneCommand(sizes: seq<nat>, pos: nat)
    ensures pos < Total(sizes) <==> exists cmd: nat, off: nat :: Inside(sizes, cmd, off) && Position(sizes, cmd, off) == pos
    ensures forall c: nat, o: nat, c': nat, o': nat |
              Inside(sizes, c, o) && Inside(sizes, c', o') && Position(sizes, c, o) == pos == Position(sizes, c', o') ::
              c == c' && o == o'
  {
    LocateSound(sizes, pos);
    if pos < Total(sizes) {
      var p := Locate(sizes, pos).value;
      assert Inside(sizes, p.0, p.1) && Position(sizes, p.0, p.1) == pos;
    }
    forall c: nat, o: nat | Inside(sizes, c, o) && Position(sizes, c, o) == pos
      ensures Locate(sizes, pos) == Some((c, o))
    {
      LocateInvertsPosition(sizes, c, o);
    }
  }

  /** Empty slots in front of the lines shift the slot index and nothing else. */
  lemma {:induction false} LocateSkipsEmpty(empty: seq<nat>, sizes: seq<nat>, pos: nat)
    requires forall i :: 0 <= i < |empty| ==> empty[i] == 0
    ensures Locate(empty + sizes, pos) ==
            match Locate(sizes, pos) case None => None case Some((cmd, off)) => Some((|empty| + cmd, off))
  {
    if empty == [] {
      assert empty + sizes == sizes;
    } else {
      assert (empty + sizes)[1..] == empty[1..] + sizes;
      LocateSkipsEmpty(empty[1..], sizes, pos);
    }
  }

  /** When the oldest line falls out, a surviving byte moves down by that line's size
      and its command index by one. */
  lemma EvictionShifts(sizes: seq<nat>, added: nat, cmd: nat, off: nat)
    requires Inside(sizes, cmd, off) && 0 < cmd
    ensures var now := sizes[1..] + [added];
            && Position(sizes, cmd, off) >= sizes[0]
            && Inside(now, cmd - 1, off)
            && Position(now, cmd - 1, off) == Position(sizes, cmd, off) - sizes[0]
            && Locate(now, Position(sizes, cmd, off) - sizes[0]) == Some((cmd - 1, off))
  {
    var now := sizes[1..] + [added];
    assert sizes[..cmd] == [sizes[0]] + sizes[1..][..cmd - 1];
    assert now[..cmd - 1] == sizes[1..][..cmd - 1];
    LocateInvertsPosition(now, cmd - 1, off);
  }

  // ---- reads ----

  /** The end of the line that holds `pos`. */
  function LineEnd(sizes: seq<nat>, pos: nat): nat
    requires pos < Total(sizes)
  {
    LocateSound(sizes, pos);
    var (cmd, off) := Locate(sizes, pos).value;
    Position(sizes, cmd + 1, 0)
  }

  /** What one read of up to `count` bytes returns: the rest of the line `pos` is in, cut to `count`. */
  function ReadBytes(lines: seq<seq<byte>>, pos: nat, count: nat): seq<byte> {
    LocateSound(Sizes(lines), pos);
    match Locate(Sizes(lines), pos)
    case None => []
    case Some((cmd, off)) =>
      if off + count >= |lines[cmd]| then lines[cmd][off..] else lines[cmd][off..off + count]
  }

  lemma {:induction false} FlattenAround(lines: seq<seq<byte>>, cmd: nat)
    requires cmd < |lines|
    ensures Flatten(lines) == Flatten(lines[..cmd]) + lines[cmd] + Flatten(lines[cmd + 1..])
    ensures |Flatten(lines[..cmd])| == Position(Sizes(lines), cmd, 0)
  {
    assert lines == lines[..cmd] + ([lines[cmd]] + lines[cmd + 1..]);
    FlattenAppend(lines[..cmd], [lines[cmd]] + lines[cmd + 1..]);
    FlattenLength(lines[..cmd]);
    assert Sizes(lines[..cmd]) == Sizes(lines)[..cmd];
  }

  /** What a read returns, once its position is located. */
  lemma ReadAtLocated(lines: seq<seq<byte>>, pos: nat, count: nat)
    requires pos < Total(Sizes(lines))
    ensures Locate(Sizes(lines), pos).Some?
    ensures var (cmd, off) := Locate(Sizes(lines), pos).value;
            && Inside(Sizes(lines), cmd, off)
            && var n := if count + off >= |lines[cmd]| then |lines[cmd]| - off else count;
            ReadBytes(lines, pos, count) == lines[cmd][off..off + n]
  {
    LocateSound(Sizes(lines), pos);
  }

  /** Byte `off` of line `cmd` is byte `Position(cmd, off)` of the flat contents, for whole stretches. */
  lemma LineInFlat(lines: seq<seq<byte>>, cmd: nat, off: nat, n: nat)
    requires cmd < |lines| && off + n <= |lines[cmd]|
    ensures var p := Position(Sizes(lines), cmd, off);
            p + n <= |Flatten(lines)| && Flatten(lines)[p..p + n] == lines[cmd][off..off + n]
  {
    FlattenAround(lines, cmd);
    var p := Position(Sizes(lines), cmd, off);
    var before, after := Flatten(lines[..cmd]), Flatten(lines[cmd + 1..]);
    assert (before + lines[cmd] + after)[p..p + n] == lines[cmd][off..off + n];
  }

  /** A read returns nothing exactly at or past the end of the contents, or when asked for nothing. */
  lemma ReadIsEmptyOnlyAtTheEnd(lines: seq<seq<byte>>, pos: nat, count: nat)
    ensures ReadBytes(lines, pos, count) == [] <==> pos >= |Flatten(lines)| || count == 0
  {
    FlattenLength(lines);
    LocateSound(Sizes(lines), pos);
  }

  lemma LineEndIsInside(lines: seq<seq<byte>>, pos: nat)
    requires pos < Total(Sizes(lines))
    ensures Locate(Sizes(lines), pos).Some?
    ensures var (cmd, off) := Locate(Sizes(lines), pos).value;
            && Inside(Sizes(lines), cmd, off)
            && LineEnd(Sizes(lines), pos) == pos + (|lines[cmd]| - off)
            && LineEnd(Sizes(lines), pos) <= |Flatten(lines)|
  {
    var sizes := Sizes(lines);
    LocateSound(sizes, pos);
    var (cmd, off) := Locate(sizes, pos).value;
    TotalSnoc(sizes, cmd);
    LineInFlat(lines, cmd, off, |lines[cmd]| - off);
  }

  /** A read returns the flat contents at its position: all it was asked for, unless the
      line ends first; it never crosses the end of a line. */
  lemma ReadIsSlice(lines: seq<seq<byte>>, pos: nat, count: nat)
    requires pos < Total(Sizes(lines))
    ensures var bs := ReadBytes(lines, pos, count);
            var end := LineEnd(Sizes(lines), pos);
            && pos < end <= |Flatten(lines)|
            && |bs| == (if pos + count < end then count else end - pos)
            && bs == Flatten(lines)[pos..pos + |bs|]
  {
    ReadAtLocated(lines, pos, count);
    LineEndIsInside(lines, pos);
    LocateSound(Sizes(lines), pos);
    var (cmd, off) := Locate(Sizes(lines), pos).value;
    LineInFlat(lines, cmd, off, |ReadBytes(lines, pos, count)|);
  }

  /** One read of a positive count takes the next non-empty piece, or there is none left. */
  lemma ReadTakesNextPiece(lines: seq<seq<byte>>, pos: nat, count: nat)
    requires count > 0 && pos <= |Flatten(lines)|
    ensures var bs := ReadBytes(lines, pos, count);
            && (bs == [] <==> pos == |Flatten(lines)|)
            && pos + |bs| <= |Flatten(lines)|
            && bs == Flatten(lines)[pos..pos + |bs|]
  {
    ReadIsEmptyOnlyAtTheEnd(lines, pos, count);
    FlattenLength(lines);
    if pos < |Flatten(lines)| {
      ReadIsSlice(lines, pos, count);
    }
  }

  /** `pieces` is what reads asking for `counts` bytes, one after the other, return from `pos` on. */
  ghost predicate Reads(lines: seq<seq<byte>>, pos: nat, counts: seq<Positive>, pieces: seq<seq<byte>>)
    decreases |counts|
  {
    && |counts| == |pieces|
    && (counts != [] ==>
          && pieces[0] == ReadBytes(lines, pos, counts[0])
          && Reads(lines, pos + |pieces[0]|, counts[1..], pieces[1..]))
  }

  /** Reads can be asked for anything anywhere. */
  lemma {:induction false} ReadsHappen(lines: seq<seq<byte>>, pos: nat, counts: seq<Positive>) returns (pieces: seq<seq<byte>>)
    ensures Reads(lines, pos, counts, pieces)
    decreases |counts|
  {
    pieces := [];
    if counts != [] {
      var first := ReadBytes(lines, pos, counts[0]);
      var rest := ReadsHappen(lines, pos + |first|, counts[1..]);
      pieces := [first] + rest;
    }
  }

  /** Whatever the counts, the reads together return a stretch of the contents from `pos`
      on; it reaches the end as soon as one read returns nothing, and that has happened after
      at most one read more than there are bytes left. */
  lemma {:induction false} DrainReturnsTheRest(
      lines: seq<seq<byte>>, pos: nat, counts: seq<Positive>, pieces: seq<seq<byte>>)
    requires Reads(lines, pos, counts, pieces) && pos <= |Flatten(lines)|
    ensures var flat, end := Flatten(lines), pos + |Flatten(pieces)|;
            && end <= |flat| && Flatten(pieces) == flat[pos..end]
            && ([] in pieces ==> end == |flat|)
            && (|counts| > |flat| - pos ==> [] in pieces)
    decreases |counts|
  {
    if counts == [] {
      assert pieces == [];
    } else {
      var next := pos + |pieces[0]|;
      ReadTakesNextPiece(lines, pos, counts[0]);
      DrainReturnsTheRest(lines, next, counts[1..], pieces[1..]);
      assert pieces == [pieces[0]] + pieces[1..];
    }
  }
}
