/** The user-space consumer loop (main.go's `readLoop`): it reads records from
    the ring buffer until the reader is closed, decodes each one into a
    `MsgLifeEvent` and renders it. The reader is replaced by the sequence of
    results its `Read` calls return, and the terminal and the log by a
    transcript of outputs. */
module Consumer {
  import opened Wire
  import opened Event
  import opened Screen

  /** One result of `rd.Read()`: a record's raw sample, the reader having been
      closed (`ringbuf.ErrClosed`), or any other read error. */
  datatype ReadResult = Record(rawSample: seq<Byte>) | Closed | ReadError(reason: string)

  /** One entry of the transcript: a log line, or a frame `printCells` drew
      for an event (the text it writes is `Screen.Render` of that event). */
  datatype Output =
    | ExitNotice                      // "received signal, exiting..."
    | ReadErrorNotice(reason: string) // "reading from reader: <reason>"
    | DecodeErrorNotice               // "reading life event error"
    | Frame(event: MsgLifeEvent)      // what printCells draws

  /** How the loop ends: it returns on `ErrClosed`, the process panics inside
      `printCells`, or the results run out while the loop is still waiting on
      `Read`. */
  datatype Outcome = Exited | Panicked | Waiting

  /** The index of the first `Closed` result, or the length if there is none. */
  function FirstClosed(rs: seq<ReadResult>): (k: nat)
    ensures k <= |rs|
    ensures forall i :: 0 <= i < k ==> !rs[i].Closed?
    ensures k < |rs| ==> rs[k].Closed?
    decreases |rs|
  {
    if |rs| == 0 then 0 else if rs[0].Closed? then 0 else 1 + FirstClosed(rs[1..])
  }

  /** The event a result carries: one if it is a record that decodes, none
      otherwise. */
  function Events(r: ReadResult): (evs: seq<MsgLifeEvent>)
    ensures |evs| <= 1
  {
    if r.Record? && Decode(r.rawSample).Ok? then [Decode(r.rawSample).value] else []
  }

  /** The events carried by the first `n` results, in arrival order. */
  function Delivered(rs: seq<ReadResult>, n: nat): (evs: seq<MsgLifeEvent>)
    requires n <= |rs|
    ensures |evs| <= n
  {
    if n == 0 then [] else Delivered(rs, n - 1) + Events(rs[n - 1])
  }

  /** Every event fits the 4096-cell array, so rendering it does not panic. */
  predicate AllFit(evs: seq<MsgLifeEvent>) {
    forall i :: 0 <= i < |evs| ==> Fits(evs[i])
  }

  /** The output for one result, assuming its event renders. */
  function Echo(r: ReadResult): Output {
    match r
    case Record(raw) => if Decode(raw).Ok? then Frame(Decode(raw).value) else DecodeErrorNotice
    case ReadError(reason) => ReadErrorNotice(reason)
    case Closed => ExitNotice
  }

  /** The transcript of the first `n` results: one output per result. */
  function Transcript(rs: seq<ReadResult>, n: nat): (out: seq<Output>)
    requires n <= |rs|
    ensures |out| == n
  {
    if n == 0 then [] else Transcript(rs, n - 1) + [Echo(rs[n - 1])]
  }

  /** The event an output draws, if it is a frame. */
  function Draws(o: Output): seq<MsgLifeEvent> {
    if o.Frame? then [o.event] else []
  }

  /** The events a transcript draws, in order. */
  function Drawn(out: seq<Output>): seq<MsgLifeEvent>
    decreases |out|
  {
    if |out| == 0 then [] else Drawn(out[..|out| - 1]) + Draws(out[|out| - 1])
  }

  /** A result draws a frame exactly when it carries an event, and the frame
      is of that event. */
  lemma EchoDraws(r: ReadResult)
    ensures Draws(Echo(r)) == Events(r)
  {
  }

  /** The frames drawn are exactly the delivered events, in arrival order:
      failed reads and records that do not decode draw nothing. */
  lemma {:induction false} DrawnDelivered(rs: seq<ReadResult>, n: nat)
    requires n <= |rs|
    ensures Drawn(Transcript(rs, n)) == Delivered(rs, n)
  {
    if n > 0 {
      DrawnDelivered(rs, n - 1);
      EchoDraws(rs[n - 1]);
      var out := Transcript(rs, n);
      assert out[..n - 1] == Transcript(rs, n - 1);
    }
  }

  /** Later prefixes deliver more events, and the earlier ones first. */
  lemma {:induction false} DeliveredPrefix(rs: seq<ReadResult>, i: nat, j: nat)
    requires i <= j <= |rs|
    ensures Delivered(rs, i) <= Delivered(rs, j)
    decreases j - i
  {
    if i < j {
      DeliveredPrefix(rs, i, j - 1);
      assert Delivered(rs, j) == Delivered(rs, j - 1) + Events(rs[j - 1]);
    }
  }

  /** The part of `readLoop` that handles one record: decode it, then render
      it or log the decoding error. */
  method ShowRecord(raw: seq<Byte>) returns (shown: Output, panicked: bool)
    ensures panicked <==> Decode(raw).Ok? && !Fits(Decode(raw).value)
    ensures !panicked ==> shown == Echo(Record(raw))
  {
    var decoded := Decode(raw);
    if decoded.Err? {
      return DecodeErrorNotice, false;
    }
    var text;
    text, panicked := PrintCells(decoded.value);
    shown := Frame(decoded.value);
  }

  /** `readLoop`. Results after the first `Closed` are never read. */
  method ReadLoop(results: seq<ReadResult>) returns (out: seq<Output>, outcome: Outcome, consumed: nat)
    ensures consumed <= FirstClosed(results)
    ensures outcome == Exited ==>
      consumed == FirstClosed(results) < |results| && out == Transcript(results, consumed) + [ExitNotice]
    ensures outcome == Waiting ==>
      consumed == FirstClosed(results) == |results| && out == Transcript(results, |results|)
    ensures outcome == Panicked ==>
      consumed < FirstClosed(results) && results[consumed].Record? &&
      Decode(results[consumed].rawSample).Ok? &&
      !Fits(Decode(results[consumed].rawSample).value) &&
      out == Transcript(results, consumed)
    ensures AllFit(Delivered(results, consumed))
  {
    ghost var k := FirstClosed(results);
    out := [];
    consumed := 0;
    while consumed < |results|
      invariant consumed <= k
      invariant out == Transcript(results, consumed)
      invariant AllFit(Delivered(results, consumed))
    {
      match results[consumed] {
        case Closed =>
          out := out + [ExitNotice];
          outcome := Exited;
          return;
        case ReadError(reason) =>
          assert consumed != k;
          out := out + [ReadErrorNotice(reason)];
        case Record(raw) =>
          assert consumed != k;
          var shown, panicked := ShowRecord(raw);
          if panicked {
            outcome := Panicked;
            return;
          }
          out := out + [shown];
      }
      consumed := consumed + 1;
    }
    outcome := Waiting;
  }

  /** The loop returns exactly when a `Closed` result arrives before any event
      that cannot be rendered; it panics exactly when such an event is
      delivered before the first `Closed`. */
  lemma {:induction false} ReadLoopEnds(results: seq<ReadResult>, outcome: Outcome, consumed: nat)
    requires consumed <= FirstClosed(results)
    requires outcome == Exited ==> consumed == FirstClosed(results) < |results|
    requires outcome == Waiting ==> consumed == FirstClosed(results) == |results|
    requires outcome == Panicked ==>
      consumed < FirstClosed(results) && results[consumed].Record? &&
      Decode(results[consumed].rawSample).Ok? &&
      !Fits(Decode(results[consumed].rawSample).value)
    requires AllFit(Delivered(results, consumed))
    ensures outcome == Panicked <==> !AllFit(Delivered(results, FirstClosed(results)))
    ensures outcome == Exited <==>
      FirstClosed(results) < |results| && AllFit(Delivered(results, FirstClosed(results)))
  {
    var k := FirstClosed(results);
    if outcome == Panicked {
      DeliveredPrefix(results, consumed + 1, k);
      var evs := Delivered(results, consumed + 1);
      assert !AllFit(Delivered(results, k)) by {
        assert Delivered(results, k)[|evs| - 1] == evs[|evs| - 1];
      }
    }
  }
}
