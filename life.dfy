/** The kernel program of bpf_life.c as imperative code: the `board` map value
    (`struct cellmap`) is a class whose arrays the operations update in place,
    and the program's globals (`game_round`, `started`) together with the ring
    buffer's submitted samples form a second class. Each method is proved
    against the value-level definitions of module CellMap. */
module Life {
  import opened Wire
  import opened Torus
  import opened CellMap

  /** Number of draws `random_init` makes (`percent`). */
  const Draws: nat := 400

  /** `struct cellmap`: the board, the snapshot the sweep reads, and the
      dimensions the sample reports. */
  class Board {
    var cells: array<Byte>
    var temp: array<Byte>
    var width: U32
    var height: U32
    var lengthInBytes: U32

    predicate Valid()
      reads this
    {
      cells.Length == CellMapSize && temp.Length == CellMapSize && cells != temp
    }

    /** A fresh array-map value is all zeros. */
    constructor ()
      ensures Valid() && fresh(cells) && fresh(temp)
      ensures cells[..] == Zeros() && temp[..] == Zeros()
      ensures width == 0 && height == 0 && lengthInBytes == 0
    {
      cells := new Byte[CellMapSize](_ => 0);
      temp := new Byte[CellMapSize](_ => 0);
      width, height, lengthInBytes := 0, 0, 0;
    }

    /** The first `k` of the eight neighbour updates at the indices `idx` have
        been made, after the alive bit was written to give `m`. */
    ghost predicate Pending(m: seq<Byte>, idx: seq<nat>, add: int, k: nat)
      reads this, cells
    {
      cells.Length == CellMapSize && IsBoard(m) && |idx| == 8 && k <= 8 &&
      (forall j :: 0 <= j < 8 ==> idx[j] < CellMapSize) &&
      cells[..] == AddNeighbours(m, idx, add, k)
    }

    /** `cell_ptr[i] += add` for the k-th of the eight neighbour updates. */
    method AddAt(ghost m: seq<Byte>, ghost idx: seq<nat>, ghost k: nat, i: nat, add: int)
      requires Pending(m, idx, add, k) && k < 8 && i == idx[k]
      modifies cells
      ensures Pending(m, idx, add, k + 1)
    {
      cells[i] := AddByte(cells[i], add);
    }

    /** `cell_math(offset, add)`: set or clear the alive bit of `offset & MASK`,
        then add `add` to its eight neighbours, in the source's order. Only
        `cells` changes. */
    method CellMath(offset: U32, add: int)
      requires Valid()
      modifies cells
      ensures cells[..] == CellMap.CellMath(old(cells[..]), offset, add)
    {
      var xleft, xright, yup, ydown := XLeft(offset), XRight(offset), YUp(offset), YDown(offset);
      var c := Masked(offset);
      if add > 0 {
        cells[c] := SetAlive(cells[c]);
      } else {
        cells[c] := ClearAlive(cells[c]);
      }
      ghost var m := cells[..];
      ghost var idx := CellMathIndices(offset);
      RowAboveAsWritten(offset, yup, xleft, xright);
      SameRowAsWritten(offset, xleft, xright);
      RowBelowAsWritten(offset, ydown, xleft, xright);
      assert m == MarkCell(old(cells[..]), offset, add);
      assert Pending(m, idx, add, 0);
      ghost var k := 0;
      AddAt(m, idx, k, Masked(Wrap32(Wrap32(offset + yup) + xleft)), add);
      k := k + 1;
      AddAt(m, idx, k, Masked(Wrap32(offset + yup)), add);
      k := k + 1;
      AddAt(m, idx, k, Masked(Wrap32(Wrap32(offset + yup) + xright)), add);
      k := k + 1;
      AddAt(m, idx, k, Masked(Wrap32(offset + xleft)), add);
      k := k + 1;
      AddAt(m, idx, k, Masked(Wrap32(offset + xright)), add);
      k := k + 1;
      AddAt(m, idx, k, Masked(Wrap32(Wrap32(offset + ydown) + xleft)), add);
      k := k + 1;
      AddAt(m, idx, k, Masked(Wrap32(offset + ydown)), add);
      k := k + 1;
      AddAt(m, idx, k, Masked(Wrap32(Wrap32(offset + ydown) + xright)), add);
    }

    /** `set_cell(offset)`: on an encoded board where the cell is dead, the board
        stays encoded and exactly that cell becomes alive. */
    method SetCell(offset: U32)
      requires Valid()
      modifies cells
      ensures cells[..] == CellMap.CellMath(old(cells[..]), offset, 2)
      ensures Encoded(old(cells[..])) && Bit(old(cells[Masked(offset)])) == 0 ==>
        Encoded(cells[..]) &&
        forall i :: 0 <= i < CellMapSize ==>
          Bit(cells[i]) == if i == Masked(offset) then 1 else Bit(old(cells[i]))
    {
      ghost var s := cells[..];
      CellMath(offset, 2);
      if Encoded(s) && Bit(s[Masked(offset)]) == 0 {
        CellMathKeepsEncoding(s, offset, 2);
      }
    }

    /** `clear_cell(offset)`: on an encoded board where the cell is alive, the
        board stays encoded and exactly that cell dies. */
    method ClearCell(offset: U32)
      requires Valid()
      modifies cells
      ensures cells[..] == CellMap.CellMath(old(cells[..]), offset, -2)
      ensures Encoded(old(cells[..])) && Bit(old(cells[Masked(offset)])) == 1 ==>
        Encoded(cells[..]) &&
        forall i :: 0 <= i < CellMapSize ==>
          Bit(cells[i]) == if i == Masked(offset) then 0 else Bit(old(cells[i]))
    {
      ghost var s := cells[..];
      CellMath(offset, -2);
      if Encoded(s) && Bit(s[Masked(offset)]) == 1 {
        CellMathKeepsEncoding(s, offset, -2);
      }
    }

    /** `random_init` as written: `set_cell(rand % 4096)` for each of the 400
        draws, whether or not the drawn cell is already alive. The live cells
        are the old ones and the drawn ones; the board stays encoded when every
        draw hits a distinct dead cell, and a repeated draw breaks the encoding
        (see SeedRepeatMiscounts). */
    method RandomInit(rands: seq<U32>)
      requires Valid() && |rands| == Draws
      modifies cells
      ensures cells[..] == Seed(old(cells[..]), rands)
      ensures forall i :: 0 <= i < CellMapSize ==>
        (Bit(cells[i]) == 1 <==> Bit(old(cells[i])) == 1 || Drawn(rands, i))
      ensures Encoded(old(cells[..])) && FreshDraws(old(cells[..]), rands) ==> Encoded(cells[..])
    {
      ghost var s := cells[..];
      for i := 0 to |rands|
        invariant cells[..] == Seed(s, rands[..i])
      {
        assert rands[..i + 1][..i] == rands[..i];
        SetCell(rands[i] % CellMapSize);
      }
      assert rands[..|rands|] == rands;
      SeedBits(s, rands);
      if Encoded(s) && FreshDraws(s, rands) {
        SeedFreshIsChecked(s, rands);
        SeedCheckedEncoded(s, rands);
      }
    }

    /** `random_init` with the draws that hit a live cell skipped: from an encoded
        board the result is encoded, and the live cells are the old ones and the
        drawn ones. */
    method RandomInitChecked(rands: seq<U32>)
      requires Valid() && |rands| == Draws
      modifies cells
      ensures cells[..] == SeedChecked(old(cells[..]), rands)
      ensures Encoded(old(cells[..])) ==>
        Encoded(cells[..]) &&
        forall i :: 0 <= i < CellMapSize ==>
          (Bit(cells[i]) == 1 <==> Bit(old(cells[i])) == 1 || Drawn(rands, i))
    {
      ghost var s := cells[..];
      for i := 0 to |rands|
        invariant cells[..] == SeedChecked(s, rands[..i])
      {
        assert rands[..i + 1][..i] == rands[..i];
        var o := rands[i] % CellMapSize;
        if cells[o] % 2 == 0 {
          SetCell(o);
        }
      }
      assert rands[..|rands|] == rands;
      if Encoded(s) {
        SeedCheckedEncoded(s, rands);
      }
    }

    /** `init_cellmap`: record the 64x64 geometry and seed the board with
        `random_init` as written. */
    method InitCellmap(rands: seq<U32>)
      requires Valid() && |rands| == Draws
      modifies this, cells
      ensures Valid() && cells == old(cells) && temp == old(temp)
      ensures width == Width && height == Height && lengthInBytes == CellMapSize
      ensures cells[..] == Seed(old(cells[..]), rands)
      ensures temp[..] == old(temp[..])
      ensures forall i :: 0 <= i < CellMapSize ==>
        (Bit(cells[i]) == 1 <==> Bit(old(cells[i])) == 1 || Drawn(rands, i))
      ensures Encoded(old(cells[..])) && FreshDraws(old(cells[..]), rands) ==> Encoded(cells[..])
    {
      var w, h := 64, 64;
      width := w;
      height := h;
      lengthInBytes := w * h;
      RandomInit(rands);
    }

    /** `copy_cellmap`: `temp[i] = cells[i]` for `i < length_in_bytes && i < 4096`. */
    method CopyCellmap()
      requires Valid()
      modifies temp
      ensures temp[..] == CopyPrefix(cells[..], old(temp[..]), lengthInBytes)
      ensures lengthInBytes >= CellMapSize ==> temp[..] == cells[..]
    {
      var i := 0;
      while i < lengthInBytes && i < CellMapSize
        invariant 0 <= i <= CopyCount(lengthInBytes)
        invariant forall k :: 0 <= k < i ==> temp[k] == cells[k]
        invariant forall k :: i <= k < CellMapSize ==> temp[k] == old(temp[k])
      {
        temp[i] := cells[i];
        i := i + 1;
      }
      assert temp[..] == CopyPrefix(cells[..], old(temp[..]), lengthInBytes);
      if lengthInBytes >= CellMapSize {
        FullCopy(cells[..], old(temp[..]), lengthInBytes);
      }
    }

    /** `next_generation_x(cell_off)`, with the guard written `cell_off >= 4096`
        (the source has `>`; see ScanReadsAsWritten): visit the 64 cells from
        `cell_off` on, each as the sweep's `Apply` does, reading only `temp`. */
    method NextGenerationX(cellOff: U32) returns (next: U32)
      requires Valid()
      modifies cells
      ensures next == RowEnd(cellOff)
      ensures cells[..] ==
        if cellOff >= CellMapSize then old(cells[..])
        else Sweep(old(cells[..]), temp[..], cellOff, next)
    {
      var off := cellOff;
      for x := 0 to Width
        invariant off == if cellOff >= CellMapSize then cellOff
                         else if cellOff + x < CellMapSize then cellOff + x else CellMapSize
        invariant cells[..] ==
          if cellOff >= CellMapSize then old(cells[..])
          else Sweep(old(cells[..]), temp[..], cellOff, off)
      {
        if off >= CellMapSize {
          continue;
        }
        var b := temp[off];
        if b == 0 {
          off := off + 1;
          continue;
        }
        var count := b / 2;
        if b % 2 == 1 {
          if count != 2 && count != 3 {
            ClearCell(off);
          }
        } else {
          if count == 3 {
            SetCell(off);
          }
        }
        off := off + 1;
      }
      next := off;
    }

    /** `next_generation`: 64 rows of 64 cells, threading `cell_off` from 0; the
        board becomes the sweep of the whole snapshot in increasing order. */
    method NextGeneration()
      requires Valid()
      modifies cells
      ensures cells[..] == Sweep(old(cells[..]), temp[..], 0, CellMapSize)
    {
      var cellOff: U32 := 0;
      for y := 0 to Height
        invariant cellOff == 64 * y
        invariant cells[..] == Sweep(old(cells[..]), temp[..], 0, cellOff)
      {
        cellOff := NextGenerationX(cellOff);
        SweepSplit(old(cells[..]), temp[..], 0, cellOff - 64, cellOff);
      }
    }
  }

  /** The offset `next_generation_x` returns: 64 further on, stopping at the end
      of the board, or unchanged when it starts past the end. */
  function RowEnd(off: U32): (next: U32)
    ensures off < CellMapSize ==> off < next <= CellMapSize
    ensures off <= CellMapSize - 64 ==> next == off + 64
    ensures off >= CellMapSize ==> next == off
  {
    if off >= CellMapSize then off
    else if off + 64 < CellMapSize then off + 64 else CellMapSize
  }

  // ---------------------------------------------------------------------------
  // The guard of next_generation_x

  /** The `temp` indices the x-loop of `next_generation_x` reads in `steps`
      iterations from `off`, with the guard as written, `cell_off > 4096`: a zero
      or non-zero byte alike moves the offset on, a guarded one does not. */
  function ScanReadsAsWritten(off: nat, steps: nat): (idx: seq<nat>)
    ensures |idx| <= steps
    decreases steps
  {
    if steps == 0 then []
    else if off > CellMapSize then ScanReadsAsWritten(off, steps - 1)
    else [off] + ScanReadsAsWritten(off + 1, steps - 1)
  }

  /** The same with the guard `cell_off >= 4096`, as NextGenerationX has it. */
  function ScanReads(off: nat, steps: nat): (idx: seq<nat>)
    ensures |idx| <= steps
    decreases steps
  {
    if steps == 0 then []
    else if off >= CellMapSize then ScanReads(off, steps - 1)
    else [off] + ScanReads(off + 1, steps - 1)
  }

  /** As written, a row scan that starts fewer than 64 cells before the end of
      the board reads `temp[4096]`, one past the end of the array (for instance
      `next_generation_x(4033)`). */
  lemma {:induction false} ScanReadsPastEnd(off: nat, steps: nat)
    requires off <= CellMapSize < off + steps
    ensures CellMapSize in ScanReadsAsWritten(off, steps)
    decreases steps
  {
    if off < CellMapSize {
      ScanReadsPastEnd(off + 1, steps - 1);
    }
  }

  /** With the corrected guard every read is inside the snapshot. */
  lemma {:induction false} ScanReadsInBounds(off: nat, steps: nat)
    ensures forall i :: i in ScanReads(off, steps) ==> i < CellMapSize
    decreases steps
  {
    if steps > 0 {
      if off >= CellMapSize {
        ScanReadsInBounds(off, steps - 1);
      } else {
        ScanReadsInBounds(off + 1, steps - 1);
      }
    }
  }

  /** The two guards behave alike on every scan that ends inside the board, such as
      the 64 scans of `next_generation`, which start at multiples of 64. The
      corrected scan reads exactly the cells `off, off + 1, ..., off + steps - 1`. */
  lemma {:induction false} ScanReadsAgree(off: nat, steps: nat)
    requires off + steps <= CellMapSize
    ensures ScanReadsAsWritten(off, steps) == ScanReads(off, steps)
    ensures |ScanReads(off, steps)| == steps
    ensures forall k :: 0 <= k < steps ==> ScanReads(off, steps)[k] == off + k
    decreases steps
  {
    if steps > 0 {
      ScanReadsAgree(off + 1, steps - 1);
    }
  }

  // ---------------------------------------------------------------------------
  // The program's globals, the ring buffer and the trigger

  /** `struct cell_sample`, as submitted to the ring buffer. */
  datatype Sample = Sample(cells: seq<Byte>, generation: U32, width: U32, height: U32, lengthInBytes: U32)

  /** `(ihl & 0x0f) * 4`: the TCP header offset from the first IP header byte,
      whose low nibble is `ihl` (little-endian bit-field order). */
  function TcpOffset(b0: Byte): (off: nat)
    ensures off <= 60 && off % 4 == 0
  {
    (b0 % 16) * 4
  }

  /** `tcp.source`, a big-endian field loaded into a little-endian `__u16`. */
  function TcpSource(pkt: seq<Byte>, tcpOff: nat): (src: U16)
    requires tcpOff + 2 <= |pkt|
    ensures src % 0x100 == pkt[tcpOff] && src / 0x100 == pkt[tcpOff + 1]
  {
    pkt[tcpOff] as int + pkt[tcpOff + 1] as int * 0x100
  }

  /** The packet tests of `bpf_life`: both 20-byte loads succeed, the IP version
      is non-zero, the protocol is TCP (6), and the TCP source port reads 0x71fe. */
  predicate Kickoff(pkt: seq<Byte>) {
    |pkt| >= 20 && pkt[0] / 16 != 0 && pkt[9] == 6 &&
    TcpOffset(pkt[0]) + 20 <= |pkt| && TcpSource(pkt, TcpOffset(pkt[0])) == 0x71fe
  }

  /** What `bpf_life` returns for a packet: 0 when it starts the game, 1 otherwise. */
  function Verdict(started: bool, pkt: seq<Byte>): (ret: int)
    ensures ret == 0 <==> !started && Kickoff(pkt)
    ensures ret == 0 || ret == 1
  {
    if started || !Kickoff(pkt) then 1 else 0
  }

  /** The verdicts for a stream of packets, `started` being updated after each. */
  function Verdicts(started: bool, pkts: seq<seq<Byte>>): (vs: seq<int>)
    ensures |vs| == |pkts|
    decreases |pkts|
  {
    if pkts == [] then []
    else
      var v := Verdict(started, pkts[0]);
      [v] + Verdicts(started || v == 0, pkts[1..])
  }

  /** Over any stream of packets handled in order, one at a time, the game
      starts at most once, never once it has started, and it starts on the
      first kick-off packet. */
  lemma {:induction false} StartsAtMostOnce(started: bool, pkts: seq<seq<Byte>>)
    ensures started ==> forall i :: 0 <= i < |pkts| ==> Verdicts(started, pkts)[i] == 1
    ensures forall i, j :: 0 <= i < j < |pkts| ==>
      Verdicts(started, pkts)[i] == 1 || Verdicts(started, pkts)[j] == 1
    ensures forall i :: 0 <= i < |pkts| ==>
      (Verdicts(started, pkts)[i] == 0 <==>
        !started && Kickoff(pkts[i]) && forall j :: 0 <= j < i ==> !Kickoff(pkts[j]))
    decreases |pkts|
  {
    if pkts != [] {
      var v := Verdict(started, pkts[0]);
      var vs := Verdicts(started, pkts);
      var rest := pkts[1..];
      StartsAtMostOnce(started || v == 0, rest);
      forall i | 1 <= i < |pkts|
        ensures vs[i] == Verdicts(started || v == 0, rest)[i - 1] && pkts[i] == rest[i - 1]
      {
      }
    }
  }

  /** The packet tests of `bpf_life` in the source's order, each failing one
      returning early. */
  method ParseKickoff(pkt: seq<Byte>) returns (kickoff: bool)
    ensures kickoff == Kickoff(pkt)
  {
    if |pkt| < 20 {
      return false;
    }
    if pkt[0] / 16 == 0 {
      return false;
    }
    if pkt[9] != 6 {
      return false;
    }
    var tcpOff := pkt[0] % 16;
    tcpOff := tcpOff * 4;
    if tcpOff + 20 > |pkt| {
      return false;
    }
    var source := pkt[tcpOff] as int + pkt[tcpOff + 1] as int * 0x100;
    return source == 0x71fe;
  }

  /** The kernel program's state: the board map, the globals `game_round` and
      `started`, and the samples submitted to `life_ringbuf`, oldest first. */
  class Kernel {
    var board: Board
    var gameRound: U32
    var started: bool
    var ring: seq<Sample>

    predicate Valid()
      reads this, board
    {
      board.Valid()
    }

    /** The state the program is loaded in. */
    constructor ()
      ensures Valid() && fresh(board) && fresh(board.cells) && fresh(board.temp)
      ensures board.cells[..] == Zeros() && board.temp[..] == Zeros()
      ensures board.width == 0 && board.height == 0 && board.lengthInBytes == 0
      ensures gameRound == 0 && !started && ring == []
    {
      board := new Board();
      gameRound := 0;
      started := false;
      ring := [];
    }

    /** `send_update`: when the reservation succeeds (`reserveOk`), the reserved
        record, whose cells start out as `reserved`, receives the first
        `min(length_in_bytes, 4096)` board cells, the round and the board's
        dimensions, and is submitted; when it fails nothing is submitted. */
    method SendUpdate(reserveOk: bool, reserved: seq<Byte>)
      requires Valid() && |reserved| == SampleCells
      modifies this
      ensures board == old(board) && gameRound == old(gameRound) && started == old(started)
      ensures ring == old(ring) + if reserveOk then
        [Sample(CopyPrefix(board.cells[..], reserved, board.lengthInBytes), gameRound,
                board.width, board.height, board.lengthInBytes)]
        else []
    {
      if !reserveOk {
        return;
      }
      var sample := new Byte[SampleCells](i requires 0 <= i < SampleCells => reserved[i]);
      var i := 0;
      while i < board.lengthInBytes && i < SampleCells
        invariant unchanged(this) && Valid()
        invariant 0 <= i <= CopyCount(board.lengthInBytes)
        invariant forall k :: 0 <= k < i ==> sample[k] == board.cells[k]
        invariant forall k :: i <= k < SampleCells ==> sample[k] == reserved[k]
      {
        sample[i] := board.cells[i];
        i := i + 1;
      }
      assert sample[..] == CopyPrefix(board.cells[..], reserved, board.lengthInBytes);
      ring := ring + [Sample(sample[..], gameRound, board.width, board.height, board.lengthInBytes)];
    }

    /** `do_game`, one timer tick: the round goes up by one (wrapping at 2^32),
        the snapshot is taken, the next generation computed, and the result
        sent. On an encoded, full-length board the new board is exactly the next
        Game of Life generation. */
    method DoGame(reserveOk: bool, reserved: seq<Byte>)
      requires Valid() && |reserved| == SampleCells
      modifies this, board.cells, board.temp
      ensures Valid() && board == old(board) && started == old(started)
      ensures gameRound == Wrap32(old(gameRound) + 1)
      ensures board.temp[..] == CopyPrefix(old(board.cells[..]), old(board.temp[..]), board.lengthInBytes)
      ensures board.cells[..] == Sweep(old(board.cells[..]), board.temp[..], 0, CellMapSize)
      ensures old(board.lengthInBytes) >= CellMapSize && Encoded(old(board.cells[..])) ==>
        board.cells[..] == NextBoard(old(board.cells[..]))
      ensures ring == old(ring) + if reserveOk then
        [Sample(CopyPrefix(board.cells[..], reserved, board.lengthInBytes), gameRound,
                board.width, board.height, board.lengthInBytes)]
        else []
    {
      gameRound := Wrap32(gameRound + 1);
      board.CopyCellmap();
      board.NextGeneration();
      if old(board.lengthInBytes) >= CellMapSize && Encoded(old(board.cells[..])) {
        NextGenerationIsLife(old(board.cells[..]));
      }
      SendUpdate(reserveOk, reserved);
    }

    /** `bpf_life` on one egress packet: once, for the first kick-off packet, mark
        the game started, initialise and seed the board (`rands` are the 400
        draws) and send the first update, returning 0; in every other case return
        1 and change nothing. */
    method BpfLife(pkt: seq<Byte>, rands: seq<U32>, reserveOk: bool, reserved: seq<Byte>)
      returns (ret: int)
      requires Valid() && |rands| == Draws && |reserved| == SampleCells
      modifies this, board, board.cells
      ensures Valid() && board == old(board)
      ensures board.temp == old(board.temp)
      ensures ret == Verdict(old(started), pkt)
      ensures started == (old(started) || ret == 0)
      ensures ret == 1 ==>
        gameRound == old(gameRound) && ring == old(ring) &&
        unchanged(board) && unchanged(board.cells) && unchanged(board.temp)
      ensures ret == 0 ==>
        gameRound == old(gameRound) && unchanged(board.temp) &&
        board.width == Width && board.height == Height && board.lengthInBytes == CellMapSize &&
        board.cells[..] == Seed(old(board.cells[..]), rands) &&
        (Encoded(old(board.cells[..])) && FreshDraws(old(board.cells[..]), rands) ==>
          Encoded(board.cells[..])) &&
        ring == old(ring) + if reserveOk then
          [Sample(board.cells[..], gameRound, Width, Height, CellMapSize)]
          else []
    {
      if started {
        return 1;
      }
      var kickoff := ParseKickoff(pkt);
      if !kickoff {
        return 1;
      }
      started := true;
      board.InitCellmap(rands);
      SendUpdate(reserveOk, reserved);
      FullCopy(board.cells[..], reserved, board.lengthInBytes);
      ret := 0;
    }
  }
}
