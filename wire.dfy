/** Machine-level values shared by the kernel program and the user-space reader:
    bytes, fixed-width unsigned integers, the native layout of a 32-bit field
    (little-endian, the byte order of the hosts modelled), and the byte image
    of one ring-buffer sample record. */
module Wire {

  /** A C `char` / Go `uint8` cell, as its unsigned bit pattern. */
  type Byte = x: int | 0 <= x < 0x100
  /** Go `uint16`. */
  type U16 = x: int | 0 <= x < 0x1_0000
  /** C `unsigned int` / Go `uint32`. */
  type U32 = x: int | 0 <= x < 0x1_0000_0000

  datatype Option<T> = None | Some(value: T)
  datatype Result<T, E> = Ok(value: T) | Err(error: E)

  /** Number of cells carried by one sample (`SAMPLE_CELL_SIZE`, `[4096]uint8`). */
  const SampleCells: nat := 4096
  /** Size of one sample record: the cells followed by four 32-bit fields. */
  const RecordSize: nat := SampleCells + 16

  /** Concatenation is associative. */
  lemma AppendAssoc<T>(a: seq<T>, b: seq<T>, c: seq<T>)
    ensures (a + b) + c == a + (b + c)
  {
  }

  /** A slice inside the left operand of a concatenation. */
  lemma SliceOfLeft<T>(a: seq<T>, b: seq<T>, i: nat, j: nat)
    requires i <= j <= |a|
    ensures (a + b)[i..j] == a[i..j]
  {
  }

  /** The right operand of a concatenation, sliced back out. */
  lemma SliceOfRight<T>(a: seq<T>, b: seq<T>)
    ensures (a + b)[|a|..|a| + |b|] == b
  {
  }

  /** Unsigned 32-bit wrap-around of an exact integer result. */
  function Wrap32(x: int): (r: U32)
    ensures 0 <= x < 0x1_0000_0000 ==> r == x
    ensures (r - x) % 0x1_0000_0000 == 0
  {
    x % 0x1_0000_0000
  }

  /** The four bytes of a 32-bit field in little-endian order. */
  function Le32(v: U32): (b: seq<Byte>)
    ensures |b| == 4
  {
    [v % 0x100, (v / 0x100) % 0x100, (v / 0x1_0000) % 0x100, v / 0x100_0000]
  }

  /** Reads the little-endian 32-bit field that starts at byte `at`. */
  function ReadLe32(b: seq<Byte>, at: nat): U32
    requires at + 4 <= |b|
  {
    b[at] as int + b[at + 1] as int * 0x100 + b[at + 2] as int * 0x1_0000 + b[at + 3] as int * 0x100_0000
  }

  /** Division by 256 undoes `q * 256 + a` for a digit `a`. */
  lemma DigitSplit(v: int, q: int, a: int)
    requires 0 <= a < 0x100 && v == q * 0x100 + a
    ensures v / 0x100 == q && v % 0x100 == a
  {
  }

  lemma {:induction false} ReadLe32OfLe32(v: U32)
    ensures ReadLe32(Le32(v), 0) == v
  {
    var b := Le32(v);
    var q1 := v / 0x100;
    var q2 := q1 / 0x100;
    var q3 := q2 / 0x100;
    DigitSplit(v, q1, v % 0x100);
    DigitSplit(q1, q2, q1 % 0x100);
    DigitSplit(q2, q3, q2 % 0x100);
    assert q2 == v / 0x1_0000 && q3 == v / 0x100_0000;
    assert v == ((q3 * 0x100 + b[2]) * 0x100 + b[1]) * 0x100 + b[0];
  }

  lemma {:induction false} Le32OfReadLe32(raw: seq<Byte>, at: nat)
    requires at + 4 <= |raw|
    ensures Le32(ReadLe32(raw, at)) == raw[at..at + 4]
  {
    var b := raw[at..at + 4];
    var v := ReadLe32(raw, at);
    var q2: int := b[3] as int * 0x100 + b[2];
    var q1: int := q2 * 0x100 + b[1];
    assert v == q1 * 0x100 + b[0];
    DigitSplit(v, q1, b[0]);
    DigitSplit(q1, q2, b[1]);
    DigitSplit(q2, b[3], b[2]);
    assert v / 0x1_0000 == q2;
    assert v / 0x100_0000 == b[3];
  }

  /** The byte image of a sample record: `cells` followed by four native-endian
      32-bit fields, in declaration order, with no padding. */
  function Record(cells: seq<Byte>, f0: U32, f1: U32, f2: U32, f3: U32): (r: seq<Byte>)
    requires |cells| == SampleCells
    ensures |r| == RecordSize
    ensures r[..SampleCells] == cells
    ensures ReadLe32(r, 4096) == f0 && ReadLe32(r, 4100) == f1
    ensures ReadLe32(r, 4104) == f2 && ReadLe32(r, 4108) == f3
  {
    ReadLe32OfLe32(f0);
    ReadLe32OfLe32(f1);
    ReadLe32OfLe32(f2);
    ReadLe32OfLe32(f3);
    var r := cells + Le32(f0) + Le32(f1) + Le32(f2) + Le32(f3);
    assert r[4096..4100] == Le32(f0);
    assert r[4100..4104] == Le32(f1);
    assert r[4104..4108] == Le32(f2);
    assert r[4108..4112] == Le32(f3);
    r
  }
}
