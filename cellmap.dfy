/** What the kernel program does to the board of bpf_life.c, stated on values.
    Each board byte packs the cell's state: bit 0 is "alive", the bits above it
    count the live neighbours, so an encoded byte is `alive + 2 * neighbours`.
    `cell_math` flips a cell and adjusts its eight neighbours' counts in place;
    `next_generation` sweeps a snapshot (`temp`) of the board and calls it for
    every cell whose state the B3/S23 rule changes. */
module CellMap {
  import opened Wire
  import opened Torus

  /** A board or its snapshot: `char cells[MAX_CELL_MAP_SIZE]`. */
  predicate IsBoard(s: seq<Byte>) {
    |s| == CellMapSize
  }

  /** The all-zero board of a freshly created array map. */
  function Zeros(): (s: seq<Byte>)
    ensures IsBoard(s)
  {
    seq(CellMapSize, _ => 0)
  }

  /** Bit 0 of a cell byte: 1 for alive. */
  function Bit(b: Byte): nat {
    b % 2
  }

  /** `b |= 0x01` */
  function SetAlive(b: Byte): (r: Byte)
    ensures Bit(r) == 1 && r / 2 == b / 2
  {
    if b % 2 == 0 then b + 1 else b
  }

  /** `b &= ~0x01` */
  function ClearAlive(b: Byte): (r: Byte)
    ensures Bit(r) == 0 && r / 2 == b / 2
  {
    b - b % 2
  }

  /** `b += add` on a `char`: the sum is stored back modulo 256. */
  function AddByte(b: Byte, add: int): (r: Byte)
    ensures (r - b - add) % 0x100 == 0
  {
    (b + add) % 0x100
  }

  /** Without overflow or underflow the byte sum is exact. */
  lemma AddByteExact(b: Byte, add: int)
    requires 0 <= b + add < 0x100
    ensures AddByte(b, add) == b + add
  {
  }

  /** Adding 2 or -2 changes the byte. */
  lemma AddByteMoves(b: Byte, add: int)
    requires add == 2 || add == -2
    ensures AddByte(b, add) != b
  {
  }

  /** Adding 2 or -2 keeps the alive bit. */
  lemma AddByteBit(b: Byte, add: int)
    requires add == 2 || add == -2
    ensures Bit(AddByte(b, add)) == Bit(b)
  {
    var q := (b + add) / 0x100;
    assert b + add == 0x100 * q + AddByte(b, add);
  }

  /** First half of `cell_math`: set (`add > 0`) or clear bit 0 of `cells[offset & MASK]`. */
  function MarkCell(s: seq<Byte>, offset: U32, add: int): (r: seq<Byte>)
    requires IsBoard(s)
    ensures IsBoard(r)
  {
    var t := Masked(offset);
    s[t := if add > 0 then SetAlive(s[t]) else ClearAlive(s[t])]
  }

  /** The first `n` of the eight neighbour updates `cells[...] += add` of
      `cell_math`, at the indices `idx` in turn. */
  function AddNeighbours(s: seq<Byte>, idx: seq<nat>, add: int, n: nat): (r: seq<Byte>)
    requires IsBoard(s) && |idx| == 8 && n <= 8
    requires forall k :: 0 <= k < 8 ==> idx[k] < CellMapSize
    ensures IsBoard(r)
  {
    if n == 0 then s
    else
      var p := AddNeighbours(s, idx, add, n - 1);
      p[idx[n - 1] := AddByte(p[idx[n - 1]], add)]
  }

  /** The board after `cell_math(offset, add)`, in the order the source writes it. */
  function CellMath(s: seq<Byte>, offset: U32, add: int): (r: seq<Byte>)
    requires IsBoard(s)
    ensures IsBoard(r)
  {
    var idx := CellMathIndices(offset);
    AddNeighbours(MarkCell(s, offset, add), idx, add, |idx|)
  }

  /** With distinct indices, the first `n` updates add once to each of the first
      `n` indices and leave the other bytes alone. */
  lemma {:induction false} AddNeighboursAt(s: seq<Byte>, idx: seq<nat>, add: int, n: nat, i: nat)
    requires IsBoard(s) && |idx| == 8 && n <= 8 && i < CellMapSize
    requires forall k :: 0 <= k < 8 ==> idx[k] < CellMapSize
    requires forall j, k :: 0 <= j < k < 8 ==> idx[j] != idx[k]
    ensures AddNeighbours(s, idx, add, n)[i] == if i in idx[..n] then AddByte(s[i], add) else s[i]
  {
    if n > 0 {
      AddNeighboursAt(s, idx, add, n - 1, i);
      assert idx[..n] == idx[..n - 1] + [idx[n - 1]];
    }
  }

  /** `cell_math(offset, add)` changes exactly the cell `offset & MASK` (its bit 0)
      and the bytes of its eight toroidal neighbours (by `add`, modulo 256);
      every other byte of the board is left as it was. */
  lemma {:induction false} CellMathAt(s: seq<Byte>, offset: U32, add: int, i: nat)
    requires IsBoard(s) && i < CellMapSize
    ensures CellMath(s, offset, add)[i] ==
      if i == Masked(offset) then (if add > 0 then SetAlive(s[i]) else ClearAlive(s[i]))
      else if IsNeighbour(Masked(offset), i) then AddByte(s[i], add)
      else s[i]
  {
    var cell := Masked(offset);
    var ns := Neighbours(cell);
    CellMathIndicesToroidal(offset);
    NeighboursDistinct(cell);
    AddNeighboursAt(MarkCell(s, offset, add), ns, add, 8, i);
    assert ns[..8] == ns;
  }

  // ---------------------------------------------------------------------------
  // The neighbour-count encoding

  /** Number of live cells among the eight board indices `ns`. */
  function CountBits(s: seq<Byte>, ns: seq<nat>): (n: nat)
    requires IsBoard(s) && |ns| == 8 && forall k :: 0 <= k < 8 ==> ns[k] < CellMapSize
    ensures n <= 8
  {
    Bit(s[ns[0]]) + Bit(s[ns[1]]) + Bit(s[ns[2]]) + Bit(s[ns[3]]) +
    Bit(s[ns[4]]) + Bit(s[ns[5]]) + Bit(s[ns[6]]) + Bit(s[ns[7]])
  }

  /** Number of live neighbours of cell `i` according to the alive bits of `s`. */
  function LiveCount(s: seq<Byte>, i: nat): (n: nat)
    requires IsBoard(s) && i < CellMapSize
    ensures n <= 8
  {
    CountBits(s, Neighbours(i))
  }

  /** Byte `i` is its alive bit plus twice its number of live neighbours. */
  predicate EncodedAt(s: seq<Byte>, i: nat)
    requires IsBoard(s) && i < CellMapSize
  {
    s[i] == Bit(s[i]) + 2 * LiveCount(s, i)
  }

  /** Every byte of the board is encoded. */
  predicate Encoded(s: seq<Byte>) {
    IsBoard(s) && forall i :: 0 <= i < CellMapSize ==> EncodedAt(s, i)
  }

  lemma {:induction false} ZerosEncoded()
    ensures Encoded(Zeros())
  {
    var z := Zeros();
    forall i | 0 <= i < CellMapSize ensures EncodedAt(z, i) {
      assert forall k :: 0 <= k < 8 ==> z[Toroidal(i, k)] == 0;
    }
  }

  /** A count over `ns` after the alive bit of `t` goes from 0 to 1, every other
      alive bit being unchanged, grows by the number of entries of `ns` that are `t`. */
  lemma CountRaise(s: seq<Byte>, r: seq<Byte>, t: nat, ns: seq<nat>)
    requires IsBoard(s) && IsBoard(r) && t < CellMapSize
    requires |ns| == 8 && forall k :: 0 <= k < 8 ==> ns[k] < CellMapSize
    requires forall j :: 0 <= j < CellMapSize ==> Bit(r[j]) == Bit(s[j]) + Ind(j == t)
    ensures CountBits(r, ns) == CountBits(s, ns) + Occurrences(ns, t)
  {
  }

  /** When only the alive bit of cell `t` may change, a count over `ns` moves by
      that change once for each entry of `ns` that is `t`. */
  lemma CountShift(s: seq<Byte>, r: seq<Byte>, t: nat, ns: seq<nat>)
    requires IsBoard(s) && IsBoard(r) && t < CellMapSize
    requires |ns| == 8 && forall k :: 0 <= k < 8 ==> ns[k] < CellMapSize
    requires forall j :: 0 <= j < CellMapSize && j != t ==> Bit(r[j]) == Bit(s[j])
    ensures Bit(r[t]) == Bit(s[t]) ==> CountBits(r, ns) == CountBits(s, ns)
    ensures Bit(r[t]) == Bit(s[t]) + 1 ==> CountBits(r, ns) == CountBits(s, ns) + Occurrences(ns, t)
    ensures Bit(r[t]) + 1 == Bit(s[t]) ==> CountBits(r, ns) + Occurrences(ns, t) == CountBits(s, ns)
  {
    if Bit(r[t]) == Bit(s[t]) {
      assert forall k :: 0 <= k < 8 ==> Bit(r[ns[k]]) == Bit(s[ns[k]]);
    } else if Bit(r[t]) == Bit(s[t]) + 1 {
      CountRaise(s, r, t, ns);
    } else if Bit(r[t]) + 1 == Bit(s[t]) {
      CountRaise(r, s, t, ns);
    }
  }

  /** When only the alive bit of cell `t` may change, the live count of `i` moves
      by that change when `t` is a neighbour of `i`. */
  lemma LiveCountShift(s: seq<Byte>, r: seq<Byte>, t: nat, i: nat)
    requires IsBoard(s) && IsBoard(r) && t < CellMapSize && i < CellMapSize
    requires forall j :: 0 <= j < CellMapSize && j != t ==> Bit(r[j]) == Bit(s[j])
    ensures Bit(r[t]) == Bit(s[t]) ==> LiveCount(r, i) == LiveCount(s, i)
    ensures Bit(r[t]) == Bit(s[t]) + 1 ==> LiveCount(r, i) == LiveCount(s, i) + Hits(i, t)
    ensures Bit(r[t]) + 1 == Bit(s[t]) ==> LiveCount(r, i) + Hits(i, t) == LiveCount(s, i)
  {
    CountShift(s, r, t, Neighbours(i));
  }

  /** `cell_math` with `add == 2` or `add == -2` changes no alive bit but that of `offset & MASK`,
      which it sets for a positive `add` and clears otherwise. */
  lemma {:induction false} CellMathBits(s: seq<Byte>, offset: U32, add: int)
    requires IsBoard(s) && (add == 2 || add == -2)
    ensures forall j :: 0 <= j < CellMapSize ==>
      Bit(CellMath(s, offset, add)[j]) ==
        if j == Masked(offset) then Ind(add > 0) else Bit(s[j])
  {
    forall j | 0 <= j < CellMapSize
      ensures Bit(CellMath(s, offset, add)[j]) == if j == Masked(offset) then Ind(add > 0) else Bit(s[j])
    {
      CellMathAt(s, offset, add, j);
      AddByteBit(s[j], add);
    }
  }

  /** The flipped cell keeps its count: it is not its own neighbour. */
  lemma {:induction false} CellMathKeepsFlipped(s: seq<Byte>, offset: U32, add: int)
    requires IsBoard(s) && EncodedAt(s, Masked(offset))
    requires (add == 2 && Bit(s[Masked(offset)]) == 0) || (add == -2 && Bit(s[Masked(offset)]) == 1)
    requires forall j :: 0 <= j < CellMapSize ==>
      Bit(CellMath(s, offset, add)[j]) == if j == Masked(offset) then Ind(add > 0) else Bit(s[j])
    ensures EncodedAt(CellMath(s, offset, add), Masked(offset))
  {
    var t := Masked(offset);
    var r := CellMath(s, offset, add);
    CellMathAt(s, offset, add, t);
    LiveCountShift(s, r, t, t);
    HitsFacts(t, t);
    assert r[t] / 2 == s[t] / 2;
  }

  /** A neighbour of the flipped cell moves by `add`: one live neighbour more or less. */
  lemma {:induction false} CellMathKeepsNeighbour(s: seq<Byte>, offset: U32, add: int, i: nat)
    requires IsBoard(s) && i < CellMapSize && EncodedAt(s, i) && IsNeighbour(Masked(offset), i)
    requires (add == 2 && Bit(s[Masked(offset)]) == 0) || (add == -2 && Bit(s[Masked(offset)]) == 1)
    requires forall j :: 0 <= j < CellMapSize ==>
      Bit(CellMath(s, offset, add)[j]) == if j == Masked(offset) then Ind(add > 0) else Bit(s[j])
    ensures EncodedAt(CellMath(s, offset, add), i)
  {
    var t := Masked(offset);
    var r := CellMath(s, offset, add);
    NeighboursDistinct(t);
    CellMathAt(s, offset, add, i);
    LiveCountShift(s, r, t, i);
    HitsFacts(i, t);
    AddByteExact(s[i], add);
  }

  /** Any other cell keeps its byte and its count. */
  lemma {:induction false} CellMathKeepsOther(s: seq<Byte>, offset: U32, add: int, i: nat)
    requires IsBoard(s) && i < CellMapSize && EncodedAt(s, i)
    requires i != Masked(offset) && !IsNeighbour(Masked(offset), i)
    requires forall j :: 0 <= j < CellMapSize ==>
      Bit(CellMath(s, offset, add)[j]) == if j == Masked(offset) then Ind(add > 0) else Bit(s[j])
    ensures EncodedAt(CellMath(s, offset, add), i)
  {
    var t := Masked(offset);
    CellMathAt(s, offset, add, i);
    HitsFacts(i, t);
    UntouchedCell(s, CellMath(s, offset, add), t, i);
  }

  /** A byte that is left alone and has no neighbour at the only cell whose alive
      bit changes stays encoded. */
  lemma UntouchedCell(s: seq<Byte>, r: seq<Byte>, t: nat, i: nat)
    requires IsBoard(s) && IsBoard(r) && t < CellMapSize && i < CellMapSize && EncodedAt(s, i)
    requires forall j :: 0 <= j < CellMapSize && j != t ==> Bit(r[j]) == Bit(s[j])
    requires i != t && r[i] == s[i] && Hits(i, t) == 0
    ensures EncodedAt(r, i)
  {
    LiveCountShift(s, r, t, i);
  }

  /** `set_cell` on a dead cell and `clear_cell` on a live cell keep the encoding. */
  lemma {:induction false} CellMathKeepsEncoding(s: seq<Byte>, offset: U32, add: int)
    requires Encoded(s)
    requires (add == 2 && Bit(s[Masked(offset)]) == 0) || (add == -2 && Bit(s[Masked(offset)]) == 1)
    ensures Encoded(CellMath(s, offset, add))
    ensures forall i :: 0 <= i < CellMapSize ==>
      Bit(CellMath(s, offset, add)[i]) == if i == Masked(offset) then 1 - Bit(s[i]) else Bit(s[i])
  {
    CellMathBits(s, offset, add);
    forall i | 0 <= i < CellMapSize ensures EncodedAt(CellMath(s, offset, add), i) {
      if i == Masked(offset) {
        CellMathKeepsFlipped(s, offset, add);
      } else if IsNeighbour(Masked(offset), i) {
        CellMathKeepsNeighbour(s, offset, add, i);
      } else {
        CellMathKeepsOther(s, offset, add, i);
      }
    }
  }

  /** The first neighbour of a cell that `cell_math` does not flip gets a new byte
      but keeps its alive bit and live count, so it is no longer encoded. */
  lemma {:induction false} CellMathWithoutFlipBreaksCell(s: seq<Byte>, offset: U32, add: int)
    requires IsBoard(s) && (add == 2 || add == -2)
    requires Bit(s[Masked(offset)]) == Ind(add > 0)
    requires EncodedAt(s, Neighbours(Masked(offset))[0])
    ensures !EncodedAt(CellMath(s, offset, add), Neighbours(Masked(offset))[0])
  {
    var t := Masked(offset);
    var r := CellMath(s, offset, add);
    var i := Neighbours(t)[0];
    CellMathBits(s, offset, add);
    NeighboursDistinct(t);
    CellMathAt(s, offset, add, i);
    MovedByteBreaksCell(s, r, add, i);
  }

  /** A byte that moves by 2 or -2 while no alive bit changes is no longer encoded. */
  lemma MovedByteBreaksCell(s: seq<Byte>, r: seq<Byte>, add: int, i: nat)
    requires IsBoard(s) && IsBoard(r) && i < CellMapSize && EncodedAt(s, i)
    requires add == 2 || add == -2
    requires forall j :: 0 <= j < CellMapSize ==> Bit(r[j]) == Bit(s[j])
    requires r[i] == AddByte(s[i], add)
    ensures !EncodedAt(r, i)
  {
    CountSameBits(s, r, Neighbours(i));
    AddByteMoves(s[i], add);
  }

  /** `set_cell` on a cell that is already alive, or `clear_cell` on a dead one,
      breaks the encoding: the neighbours' counts move although no alive bit
      does. Together with CellMathKeepsEncoding this is an equivalence. */
  lemma {:induction false} CellMathWithoutFlipBreaksEncoding(s: seq<Byte>, offset: U32, add: int)
    requires Encoded(s)
    requires (add == 2 && Bit(s[Masked(offset)]) == 1) || (add == -2 && Bit(s[Masked(offset)]) == 0)
    ensures !Encoded(CellMath(s, offset, add))
  {
    assert EncodedAt(s, Neighbours(Masked(offset))[0]);
    CellMathWithoutFlipBreaksCell(s, offset, add);
  }

  // ---------------------------------------------------------------------------
  // next_generation

  /** Conway's B3/S23 rule: a live cell survives with 2 or 3 live neighbours, a dead
      cell is born with exactly 3. */
  predicate LifeRule(alive: bool, n: nat) {
    if alive then n == 2 || n == 3 else n == 3
  }

  /** The call `next_generation_x` makes for a snapshot byte: `2` for `set_cell`,
      `-2` for `clear_cell`, `0` for none. A zero byte is skipped; otherwise the
      count is `b >> 1` and the state is `b & 0x01`. */
  function Decide(b: Byte): (add: int)
    ensures add == 0 || add == 2 || add == -2
  {
    if b == 0 then 0
    else if b % 2 == 1 then (if b / 2 != 2 && b / 2 != 3 then -2 else 0)
    else if b / 2 == 3 then 2
    else 0
  }

  /** Whether cell `i` is alive in the generation after the one `t` encodes. */
  predicate NextAlive(t: seq<Byte>, i: nat)
    requires IsBoard(t) && i < CellMapSize
  {
    LifeRule(Bit(t[i]) == 1, LiveCount(t, i))
  }

  /** On an encoded snapshot the call made for cell `i` is exactly the change the
      B3/S23 rule asks for: `set_cell` for a birth, `clear_cell` for a death,
      nothing otherwise. */
  lemma DecideFollowsRule(t: seq<Byte>, i: nat)
    requires Encoded(t) && i < CellMapSize
    ensures Decide(t[i]) == if Ind(NextAlive(t, i)) == Bit(t[i]) then 0
                            else if NextAlive(t, i) then 2 else -2
  {
    assert EncodedAt(t, i);
  }

  /** One cell of the sweep: the call `next_generation_x` makes for cell `i`. */
  function Apply(c: seq<Byte>, t: seq<Byte>, i: nat): (r: seq<Byte>)
    requires IsBoard(c) && IsBoard(t) && i < CellMapSize
    ensures IsBoard(r)
  {
    var add := Decide(t[i]);
    if add == 0 then c else CellMath(c, i, add)
  }

  /** The board after the sweep has visited cells `lo, lo + 1, ..., hi - 1` in
      increasing order, deciding from the snapshot `t` and updating `c`. */
  function Sweep(c: seq<Byte>, t: seq<Byte>, lo: nat, hi: nat): (r: seq<Byte>)
    requires IsBoard(c) && IsBoard(t) && lo <= hi <= CellMapSize
    ensures IsBoard(r)
    decreases hi - lo
  {
    if hi == lo then c else Apply(Sweep(c, t, lo, hi - 1), t, hi - 1)
  }

  /** Sweeping two adjacent ranges is sweeping their union. */
  lemma {:induction false} SweepSplit(c: seq<Byte>, t: seq<Byte>, lo: nat, mid: nat, hi: nat)
    requires IsBoard(c) && IsBoard(t) && lo <= mid <= hi <= CellMapSize
    ensures Sweep(Sweep(c, t, lo, mid), t, mid, hi) == Sweep(c, t, lo, hi)
    decreases hi - mid
  {
    if hi > mid {
      SweepSplit(c, t, lo, mid, hi - 1);
    }
  }

  /** The sweep's state after the cells below `j`: still encoded, the visited cells
      carry their next-generation state and the others their snapshot state. */
  predicate SweptUpTo(c: seq<Byte>, t: seq<Byte>, j: nat)
    requires IsBoard(t)
  {
    Encoded(c) &&
    forall i :: 0 <= i < CellMapSize ==>
      Bit(c[i]) == if i < j then Ind(NextAlive(t, i)) else Bit(t[i])
  }

  /** One step of the sweep keeps the encoding and gives cell `j` its next state,
      provided cell `j` still has its snapshot state. */
  lemma {:induction false} ApplyCell(c: seq<Byte>, t: seq<Byte>, j: nat)
    requires Encoded(t) && Encoded(c) && j < CellMapSize && Bit(c[j]) == Bit(t[j])
    ensures Encoded(Apply(c, t, j))
    ensures forall i :: 0 <= i < CellMapSize ==>
      Bit(Apply(c, t, j)[i]) == if i == j then Ind(NextAlive(t, j)) else Bit(c[i])
  {
    DecideFollowsRule(t, j);
    var add := Decide(t[j]);
    if add != 0 {
      MaskedIndex(j);
      CellMathKeepsEncoding(c, j, add);
    }
  }

  lemma {:induction false} ApplyStep(c: seq<Byte>, t: seq<Byte>, j: nat)
    requires Encoded(t) && j < CellMapSize && SweptUpTo(c, t, j)
    ensures SweptUpTo(Apply(c, t, j), t, j + 1)
  {
    ApplyCell(c, t, j);
  }

  lemma {:induction false} SweepInvariant(t: seq<Byte>, j: nat)
    requires Encoded(t) && j <= CellMapSize
    ensures SweptUpTo(Sweep(t, t, 0, j), t, j)
  {
    if j > 0 {
      SweepInvariant(t, j - 1);
      ApplyStep(Sweep(t, t, 0, j - 1), t, j - 1);
    }
  }

  /** The alive bits of the next generation. */
  function NextBits(t: seq<Byte>): (b: seq<Byte>)
    requires IsBoard(t)
    ensures IsBoard(b)
  {
    seq(CellMapSize, i requires 0 <= i < CellMapSize => Ind(NextAlive(t, i)))
  }

  /** Reference definition of the next board: every cell takes its B3/S23 state and
      twice the number of its neighbours that are alive in the next generation. */
  function NextBoard(t: seq<Byte>): (r: seq<Byte>)
    requires IsBoard(t)
    ensures IsBoard(r)
  {
    var b := NextBits(t);
    seq(CellMapSize, i requires 0 <= i < CellMapSize => b[i] + 2 * CountBits(b, Neighbours(i)))
  }

  /** Counts over the same indices agree on boards with the same alive bits. */
  lemma CountSameBits(s: seq<Byte>, r: seq<Byte>, ns: seq<nat>)
    requires IsBoard(s) && IsBoard(r)
    requires |ns| == 8 && forall k :: 0 <= k < 8 ==> ns[k] < CellMapSize
    requires forall j :: 0 <= j < CellMapSize ==> Bit(r[j]) == Bit(s[j])
    ensures CountBits(r, ns) == CountBits(s, ns)
  {
  }

  /** An encoded board is determined by its alive bits. */
  lemma {:induction false} EncodedByBits(a: seq<Byte>, b: seq<Byte>)
    requires Encoded(a) && Encoded(b)
    requires forall i :: 0 <= i < CellMapSize ==> Bit(a[i]) == Bit(b[i])
    ensures a == b
  {
    forall i | 0 <= i < CellMapSize ensures a[i] == b[i] {
      assert EncodedAt(a, i) && EncodedAt(b, i);
      CountSameBits(a, b, Neighbours(i));
    }
  }

  /** A byte made of a bit and twice a count has that bit as its alive bit. */
  lemma BitOfPacked(a: nat, n: nat)
    requires a < 2 && a + 2 * n < 0x100
    ensures Bit(a + 2 * n) == a
  {
  }

  /** Cell `i` of the reference board: its next state and its packed byte. */
  lemma {:induction false} NextBoardAt(t: seq<Byte>, i: nat)
    requires IsBoard(t) && i < CellMapSize
    ensures NextBits(t)[i] == Ind(NextAlive(t, i)) == Bit(NextBits(t)[i])
    ensures NextBoard(t)[i] == NextBits(t)[i] + 2 * CountBits(NextBits(t), Neighbours(i))
    ensures Bit(NextBoard(t)[i]) == NextBits(t)[i]
  {
    var b := NextBits(t);
    var n := CountBits(b, Neighbours(i));
    BitOfPacked(b[i], n);
    BitOfPacked(b[i], 0);
  }

  /** The reference board is encoded, and its alive bits are the next generation. */
  lemma {:induction false} NextBoardEncoded(t: seq<Byte>)
    requires IsBoard(t)
    ensures Encoded(NextBoard(t))
    ensures forall i :: 0 <= i < CellMapSize ==> Bit(NextBoard(t)[i]) == Ind(NextAlive(t, i))
  {
    var b := NextBits(t);
    var r := NextBoard(t);
    forall i | 0 <= i < CellMapSize
      ensures Bit(r[i]) == Bit(b[i]) == Ind(NextAlive(t, i))
    {
      NextBoardAt(t, i);
    }
    forall i | 0 <= i < CellMapSize ensures EncodedAt(r, i) {
      NextBoardAt(t, i);
      CountSameBits(b, r, Neighbours(i));
    }
  }

  /** The in-place sweep of `next_generation`, run on a board whose snapshot was
      just taken (`temp == cells`), computes exactly the next Game of Life
      generation, with every neighbour count correct. */
  lemma {:induction false} NextGenerationIsLife(t: seq<Byte>)
    requires Encoded(t)
    ensures Sweep(t, t, 0, CellMapSize) == NextBoard(t)
  {
    SweepInvariant(t, CellMapSize);
    NextBoardEncoded(t);
    EncodedByBits(Sweep(t, t, 0, CellMapSize), NextBoard(t));
  }

  // ---------------------------------------------------------------------------
  // random_init

  /** `random_init` as written: `set_cell(rand % 4096)` for each draw in turn. */
  function Seed(s: seq<Byte>, rands: seq<U32>): (r: seq<Byte>)
    requires IsBoard(s)
    ensures IsBoard(r)
  {
    if rands == [] then s
    else CellMath(Seed(s, rands[..|rands| - 1]), rands[|rands| - 1] % CellMapSize, 2)
  }

  /** A repeated draw sets a live cell a second time, and the board's neighbour
      counts no longer match its live cells: from an encoded board on which the
      drawn cell is dead (the empty board, say), the first draw keeps the
      encoding and the same draw again breaks it. */
  lemma {:induction false} SeedRepeatMiscounts(s: seq<Byte>, x: U32)
    requires Encoded(s) && Bit(s[x % CellMapSize]) == 0
    ensures Encoded(Seed(s, [x]))
    ensures !Encoded(Seed(s, [x, x]))
  {
    var o := x % CellMapSize;
    var once := CellMath(s, o, 2);
    assert Seed(s, [x]) == once by {
      assert [x][..0] == [];
    }
    assert Seed(s, [x, x]) == CellMath(once, o, 2) by {
      assert [x, x][..1] == [x];
    }
    MaskedIndex(o);
    CellMathKeepsEncoding(s, o, 2);
    CellMathWithoutFlipBreaksEncoding(once, o, 2);
  }

  /** `random_init` with the draws that hit a live cell skipped. */
  function SeedChecked(s: seq<Byte>, rands: seq<U32>): (r: seq<Byte>)
    requires IsBoard(s)
    ensures IsBoard(r)
  {
    if rands == [] then s
    else
      var p := SeedChecked(s, rands[..|rands| - 1]);
      var o := rands[|rands| - 1] % CellMapSize;
      if Bit(p[o]) == 1 then p else CellMath(p, o, 2)
  }

  /** Cell `i` is one of the cells drawn by `rands`. */
  predicate Drawn(rands: seq<U32>, i: nat) {
    exists j :: 0 <= j < |rands| && rands[j] % CellMapSize == i
  }

  /** The cells drawn by a sequence are those drawn by all but its last draw,
      and the last one. */
  lemma DrawnSnoc(rands: seq<U32>, i: nat)
    requires rands != []
    ensures Drawn(rands, i) <==>
      Drawn(rands[..|rands| - 1], i) || i == rands[|rands| - 1] % CellMapSize
  {
    var init := rands[..|rands| - 1];
    if Drawn(rands, i) {
      var j :| 0 <= j < |rands| && rands[j] % CellMapSize == i;
      if j < |init| { assert init[j] == rands[j]; }
    }
    if Drawn(init, i) {
      var j :| 0 <= j < |init| && init[j] % CellMapSize == i;
      assert rands[j] == init[j];
    }
  }

  /** `random_init` as written still makes alive exactly the cells that were
      alive or drawn: a repeated draw miscounts neighbours, never alive bits. */
  lemma {:induction false} SeedBits(s: seq<Byte>, rands: seq<U32>)
    requires IsBoard(s)
    ensures forall i :: 0 <= i < CellMapSize ==>
      (Bit(Seed(s, rands)[i]) == 1 <==> Bit(s[i]) == 1 || Drawn(rands, i))
  {
    if rands != [] {
      var init := rands[..|rands| - 1];
      SeedBits(s, init);
      var o := rands[|rands| - 1] % CellMapSize;
      MaskedIndex(o);
      CellMathBits(Seed(s, init), o, 2);
      forall i | 0 <= i < CellMapSize
        ensures Drawn(rands, i) <==> Drawn(init, i) || i == o
      {
        DrawnSnoc(rands, i);
      }
    }
  }

  /** Every draw hits a cell that is dead on `s` and drawn by no other draw. */
  predicate FreshDraws(s: seq<Byte>, rands: seq<U32>) {
    IsBoard(s) &&
    (forall j :: 0 <= j < |rands| ==> Bit(s[rands[j] % CellMapSize]) == 0) &&
    (forall j, k :: 0 <= j < k < |rands| ==> rands[j] % CellMapSize != rands[k] % CellMapSize)
  }

  /** When the draws are fresh, `random_init` as written and the corrected
      seeding agree, so the program's board then stays encoded. */
  lemma {:induction false} SeedFreshIsChecked(s: seq<Byte>, rands: seq<U32>)
    requires FreshDraws(s, rands)
    ensures Seed(s, rands) == SeedChecked(s, rands)
  {
    if rands != [] {
      var last := |rands| - 1;
      var init := rands[..last];
      assert FreshDraws(s, init) by {
        forall j | 0 <= j < |init| ensures init[j] == rands[j] { }
      }
      SeedFreshIsChecked(s, init);
      SeedBits(s, init);
      var o := rands[last] % CellMapSize;
      forall j | 0 <= j < |init| ensures init[j] % CellMapSize != o {
        assert init[j] == rands[j];
      }
      assert Bit(s[o]) == 0;
    }
  }

  /** Drawing `rands` with live cells skipped keeps the encoding and makes alive
      exactly the cells that were alive or drawn. */
  lemma {:induction false} SeedCheckedEncoded(s: seq<Byte>, rands: seq<U32>)
    requires Encoded(s)
    ensures Encoded(SeedChecked(s, rands))
    ensures forall i :: 0 <= i < CellMapSize ==>
      (Bit(SeedChecked(s, rands)[i]) == 1 <==> Bit(s[i]) == 1 || Drawn(rands, i))
  {
    if rands != [] {
      var init := rands[..|rands| - 1];
      SeedCheckedEncoded(s, init);
      var p := SeedChecked(s, init);
      var o := rands[|rands| - 1] % CellMapSize;
      MaskedIndex(o);
      if Bit(p[o]) == 0 {
        CellMathKeepsEncoding(p, o, 2);
      }
      forall i | 0 <= i < CellMapSize
        ensures Drawn(rands, i) <==> Drawn(init, i) || i == o
      {
        DrawnSnoc(rands, i);
      }
    }
  }

  // ---------------------------------------------------------------------------
  // copy_cellmap and send_update

  /** The number of cells the copy loops move: `i < length_in_bytes && i < 4096`. */
  function CopyCount(lengthInBytes: U32): (n: nat)
    ensures n <= CellMapSize && n <= lengthInBytes
    ensures n == lengthInBytes || n == CellMapSize
  {
    if lengthInBytes < CellMapSize then lengthInBytes else CellMapSize
  }

  /** `dst` after `dst[i] = src[i]` for the first `CopyCount(lengthInBytes)` cells. */
  function CopyPrefix(src: seq<Byte>, dst: seq<Byte>, lengthInBytes: U32): (r: seq<Byte>)
    requires IsBoard(src) && IsBoard(dst)
    ensures IsBoard(r)
  {
    var n := CopyCount(lengthInBytes);
    src[..n] + dst[n..]
  }

  /** With a full-size length, the copy is the whole source. */
  lemma FullCopy(src: seq<Byte>, dst: seq<Byte>, lengthInBytes: U32)
    requires IsBoard(src) && IsBoard(dst) && lengthInBytes >= CellMapSize
    ensures CopyPrefix(src, dst, lengthInBytes) == src
  {
  }
}
