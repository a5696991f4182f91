/** The record the user-space reader decodes (main.go's `MsgLifeEvent`): 4096 cell
    bytes followed by the generation, width, height and length, each a native
    (little-endian) `uint32`, read with `binary.Read` from the raw ring-buffer
    sample. */
module Event {
  import opened Wire
  import Life

  datatype MsgLifeEvent = MsgLifeEvent(cells: seq<Byte>, generation: U32, width: U32, height: U32, lengthInBytes: U32)

  /** What `binary.Read` reports when the sample is too short for the struct:
      `io.EOF` when it is empty, `io.ErrUnexpectedEOF` when it is cut short. */
  datatype DecodeError = EndOfInput | UnexpectedEnd

  /** Decodes a raw sample; bytes after the first 4112 are ignored. */
  function Decode(raw: seq<Byte>): (r: Result<MsgLifeEvent, DecodeError>)
    ensures r.Ok? <==> |raw| >= RecordSize
    ensures r.Err? ==> (r.error == EndOfInput <==> |raw| == 0)
    ensures r.Ok? ==> r.value.cells == raw[..SampleCells]
  {
    if |raw| == 0 then Err(EndOfInput)
    else if |raw| < RecordSize then Err(UnexpectedEnd)
    else Ok(MsgLifeEvent(raw[..SampleCells], ReadLe32(raw, 4096), ReadLe32(raw, 4100),
                         ReadLe32(raw, 4104), ReadLe32(raw, 4108)))
  }

  /** The byte image of an event, in field order. */
  function Encode(e: MsgLifeEvent): (raw: seq<Byte>)
    requires |e.cells| == SampleCells
    ensures |raw| == RecordSize
  {
    Record(e.cells, e.generation, e.width, e.height, e.lengthInBytes)
  }

  /** Encoding and then decoding gives the event back, whatever follows it. */
  lemma {:induction false} DecodeEncode(e: MsgLifeEvent, trailing: seq<Byte>)
    requires |e.cells| == SampleCells
    ensures Decode(Encode(e) + trailing) == Ok(e)
  {
    var raw := Encode(e) + trailing;
    assert raw[..RecordSize] == Encode(e);
    assert raw[..SampleCells] == Encode(e)[..SampleCells];
  }

  /** A decoded event encodes back to the bytes it was read from. */
  lemma {:induction false} EncodeDecode(raw: seq<Byte>)
    requires Decode(raw).Ok?
    ensures Encode(Decode(raw).value) == raw[..RecordSize]
  {
    var e := Decode(raw).value;
    Le32OfReadLe32(raw, 4096);
    Le32OfReadLe32(raw, 4100);
    Le32OfReadLe32(raw, 4104);
    Le32OfReadLe32(raw, 4108);
    assert raw[..RecordSize] == raw[..4096] + raw[4096..4100] + raw[4100..4104] + raw[4104..4108] + raw[4108..4112];
  }

  /** The bytes the kernel program submits for a sample: `struct cell_sample`
      has the same layout as `MsgLifeEvent`, so they are the encoding of the
      event with the sample's fields. */
  function SampleBytes(s: Life.Sample): (raw: seq<Byte>)
    requires |s.cells| == SampleCells
    ensures |raw| == RecordSize
  {
    Encode(MsgLifeEvent(s.cells, s.generation, s.width, s.height, s.lengthInBytes))
  }

  /** Every sample the kernel submits decodes to the event with the same cells,
      generation, width, height and length. */
  lemma {:induction false} DecodeSample(s: Life.Sample)
    requires |s.cells| == SampleCells
    ensures Decode(SampleBytes(s)) ==
      Ok(MsgLifeEvent(s.cells, s.generation, s.width, s.height, s.lengthInBytes))
  {
    var e := MsgLifeEvent(s.cells, s.generation, s.width, s.height, s.lengthInBytes);
    DecodeEncode(e, []);
    assert Encode(e) + [] == SampleBytes(s);
  }
}
