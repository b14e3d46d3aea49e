/** `ingest_file`: splits a file's content into chunks and hands them, one by
    one and in order, to the memory store, logging progress; the first store
    failure is logged once and ends the ingestion. The logger and the store
    are observed through the trace a call leaves: the info events it emits
    and the records the store accepted. */
module Ingestion {
  import opened Text
  import opened Chunker

  /** What the memory store does with the records it is given: accept all of
      them, or reject the record of chunk `position` (counted from 1) with
      the error text `error`. */
  datatype StoreOutcome = NeverFails | FailsAt(position: nat, error: string)

  /** What one ingestion leaves behind: the info events in emission order and
      the records the store accepted, in order. */
  datatype Trace = Trace(events: seq<string>, stored: seq<string>)

  function WorkingMessage(filename: string): string
  {
    "Working with file " + filename
  }

  function LengthMessage(length: nat): string
  {
    "File length: " + NatToString(length) + " characters"
  }

  function ProgressMessage(position: nat, total: nat): string
  {
    "Ingesting chunk " + NatToString(position) + " / " + NatToString(total) + " into memory"
  }

  function DoneMessage(total: nat, filename: string): string
  {
    "Done ingesting " + NatToString(total) + " chunks from " + filename + "."
  }

  function ErrorMessage(filename: string, error: string): string
  {
    "Error while ingesting file '" + filename + "': " + error
  }

  /** The text handed to the store for chunk `position` of `total`. */
  function RecordMessage(filename: string, position: nat, total: nat, chunk: string): string
  {
    "Filename: " + filename + "\nContent part#" + NatToString(position) + "/" + NatToString(total) + ": " + chunk
  }

  /** True when the store rejects the record of chunk `position`. */
  predicate RejectsAt(outcome: StoreOutcome, position: nat)
  {
    outcome.FailsAt? && outcome.position == position
  }

  /** True when the store rejects one of the `total` chunks. */
  predicate Halts(outcome: StoreOutcome, total: nat)
  {
    outcome.FailsAt? && 1 <= outcome.position <= total
  }

  /** How many chunks the store accepts before ingestion stops. */
  function AcceptedCount(outcome: StoreOutcome, total: nat): nat
  {
    if Halts(outcome, total) then outcome.position - 1 else total
  }

  /** The progress events of the first `count` chunks of `total`, in order. */
  function ProgressEvents(count: nat, total: nat): (events: seq<string>)
    ensures |events| == count
  {
    if count == 0 then [] else ProgressEvents(count - 1, total) + [ProgressMessage(count, total)]
  }

  /** The records of the first `count` chunks, in order. */
  function Records(filename: string, chunks: seq<string>, count: nat): (records: seq<string>)
    requires count <= |chunks|
    ensures |records| == count
  {
    if count == 0 then []
    else Records(filename, chunks, count - 1) + [RecordMessage(filename, count, |chunks|, chunks[count - 1])]
  }

  /** Progress event `k` numbers chunk `k + 1`. */
  lemma {:induction false} ProgressEventAt(count: nat, total: nat, k: nat)
    requires k < count
    ensures ProgressEvents(count, total)[k] == ProgressMessage(k + 1, total)
  {
    if k < count - 1 {
      ProgressEventAt(count - 1, total, k);
    }
  }

  /** Record `k` carries chunk `k`, numbered `k + 1`. */
  lemma {:induction false} RecordAt(filename: string, chunks: seq<string>, count: nat, k: nat)
    requires k < count <= |chunks|
    ensures Records(filename, chunks, count)[k] == RecordMessage(filename, k + 1, |chunks|, chunks[k])
  {
    if k < count - 1 {
      RecordAt(filename, chunks, count - 1, k);
    }
  }

  /** The trace of one ingestion, stated as a whole: the two opening events,
      one progress event per chunk attempted, then either one error event
      (the store rejected a chunk) or one completion event; the store holds
      the records of the chunks before the rejected one, or of all chunks. */
  function IngestTrace(filename: string, content: string, maxLength: nat, overlap: nat, outcome: StoreOutcome): Trace
    requires overlap < maxLength
  {
    var chunks := Split(content, maxLength, overlap);
    var total := |chunks|;
    var accepted := AcceptedCount(outcome, total);
    var attempted := if Halts(outcome, total) then accepted + 1 else accepted;
    Trace(
      [WorkingMessage(filename), LengthMessage(|content|)]
        + ProgressEvents(attempted, total)
        + (if Halts(outcome, total) then [ErrorMessage(filename, outcome.error)] else [DoneMessage(total, filename)]),
      Records(filename, chunks, accepted))
  }

  /** `ingest_file` as the loop over the chunks that stops at the first
      rejected record; its trace is exactly `IngestTrace`. */
  method IngestFile(filename: string, content: string, maxLength: nat, overlap: nat, outcome: StoreOutcome)
    returns (trace: Trace)
    requires overlap < maxLength
    ensures trace == IngestTrace(filename, content, maxLength, overlap, outcome)
  {
    var events := [WorkingMessage(filename), LengthMessage(|content|)];
    var chunks := SplitFile(content, maxLength, overlap);
    var total := |chunks|;
    var stored: seq<string> := [];
    var i := 0;
    while i < total
      invariant 0 <= i <= total
      invariant i <= AcceptedCount(outcome, total)
      invariant events == [WorkingMessage(filename), LengthMessage(|content|)] + ProgressEvents(i, total)
      invariant stored == Records(filename, chunks, i)
    {
      events := events + [ProgressMessage(i + 1, total)];
      assert events == [WorkingMessage(filename), LengthMessage(|content|)] + ProgressEvents(i + 1, total);
      if RejectsAt(outcome, i + 1) {
        assert Halts(outcome, total) && AcceptedCount(outcome, total) == i;
        events := events + [ErrorMessage(filename, outcome.error)];
        return Trace(events, stored);
      }
      stored := stored + [RecordMessage(filename, i + 1, total, chunks[i])];
      i := i + 1;
    }
    assert !Halts(outcome, total);
    events := events + [DoneMessage(total, filename)];
    trace := Trace(events, stored);
  }

  /** Whatever the store does, the trace opens with the two file events and
      closes with exactly one of the completion and error events; progress
      events number the attempted chunks 1, 2, ... in order, and the store
      holds the records of a prefix of the chunks, in order: all of them when
      no record is rejected, those before the rejected one otherwise. */
  lemma IngestTraceShape(filename: string, content: string, maxLength: nat, overlap: nat, outcome: StoreOutcome)
    requires overlap < maxLength
    ensures var trace := IngestTrace(filename, content, maxLength, overlap, outcome);
      var chunks := Split(content, maxLength, overlap);
      && 3 <= |trace.events|
      && trace.events[0] == WorkingMessage(filename)
      && trace.events[1] == LengthMessage(|content|)
      && (forall k :: 2 <= k < |trace.events| - 1 ==> trace.events[k] == ProgressMessage(k - 1, |chunks|))
      && |trace.stored| <= |chunks|
      && (forall k :: 0 <= k < |trace.stored| ==> trace.stored[k] == RecordMessage(filename, k + 1, |chunks|, chunks[k]))
      && (!Halts(outcome, |chunks|) ==>
            && trace.events[|trace.events| - 1] == DoneMessage(|chunks|, filename)
            && |trace.events| == |chunks| + 3
            && |trace.stored| == |chunks|)
      && (Halts(outcome, |chunks|) ==>
            && trace.events[|trace.events| - 1] == ErrorMessage(filename, outcome.error)
            && trace.events[|trace.events| - 1] != DoneMessage(|chunks|, filename)
            && |trace.events| == outcome.position + 3
            && |trace.stored| == outcome.position - 1)
  {
    var trace := IngestTrace(filename, content, maxLength, overlap, outcome);
    var chunks := Split(content, maxLength, overlap);
    var total := |chunks|;
    var accepted := AcceptedCount(outcome, total);
    var attempted := if Halts(outcome, total) then accepted + 1 else accepted;
    var progress := ProgressEvents(attempted, total);
    var last := if Halts(outcome, total) then [ErrorMessage(filename, outcome.error)] else [DoneMessage(total, filename)];
    assert trace.events == [WorkingMessage(filename), LengthMessage(|content|)] + progress + last;
    forall k | 2 <= k < |trace.events| - 1
      ensures trace.events[k] == ProgressMessage(k - 1, total)
    {
      assert trace.events[k] == progress[k - 2];
      ProgressEventAt(attempted, total, k - 2);
    }
    forall k | 0 <= k < |trace.stored|
      ensures trace.stored[k] == RecordMessage(filename, k + 1, total, chunks[k])
    {
      RecordAt(filename, chunks, accepted, k);
    }
    if Halts(outcome, total) {
      assert ErrorMessage(filename, outcome.error)[0] != DoneMessage(total, filename)[0];
    }
  }

  /** A store that accepts everything, fed content of `count * maxLength`
      characters with no overlap, receives exactly `count` records, record
      `k` carrying the `k`-th block of `maxLength` characters; the log shows
      the two opening events, `count` progress events and the completion
      event. */
  lemma IngestEvenBlocks(filename: string, content: string, maxLength: nat, count: nat)
    requires 0 < maxLength
    requires |content| == count * maxLength
    ensures |IngestTrace(filename, content, maxLength, 0, NeverFails).events| == count + 3
    ensures |IngestTrace(filename, content, maxLength, 0, NeverFails).stored| == count
    ensures forall k :: 0 <= k < count ==> 0 <= k * maxLength && k * maxLength + maxLength <= |content|
    ensures var trace := IngestTrace(filename, content, maxLength, 0, NeverFails);
      && trace.events[0] == WorkingMessage(filename)
      && trace.events[1] == LengthMessage(count * maxLength)
      && (forall k :: 2 <= k < count + 2 ==> trace.events[k] == ProgressMessage(k - 1, count))
      && trace.events[count + 2] == DoneMessage(count, filename)
    ensures forall k :: 0 <= k < count ==>
      IngestTrace(filename, content, maxLength, 0, NeverFails).stored[k]
        == RecordMessage(filename, k + 1, count, content[k * maxLength..k * maxLength + maxLength])
  {
    EvenTiling(content, maxLength, count);
    IngestTraceShape(filename, content, maxLength, 0, NeverFails);
  }

  /** A store that rejects the first record: the log shows the two opening
      events, the progress event of chunk 1 and the error event, and the
      store holds nothing. */
  lemma IngestFailsAtFirstChunk(filename: string, content: string, maxLength: nat, overlap: nat, error: string)
    requires overlap < maxLength
    requires |content| > 0
    ensures var trace := IngestTrace(filename, content, maxLength, overlap, FailsAt(1, error));
      && trace.events == [WorkingMessage(filename), LengthMessage(|content|),
                          ProgressMessage(1, |Split(content, maxLength, overlap)|), ErrorMessage(filename, error)]
      && trace.stored == []
  {
  }

  /** The numbers in the messages are the decimal renderings the log shows,
      here for the five-chunk file of fifty characters. */
  lemma ProgressMessageExample()
    ensures ProgressMessage(1, 5) == "Ingesting chunk 1 / 5 into memory"
  {
    assert NatToString(1) == "1" && NatToString(5) == "5";
  }

  lemma LengthMessageExample()
    ensures LengthMessage(50) == "File length: 50 characters"
  {
    assert NatToString(50) == "50" by {
      assert NatToString(5) == "5";
      assert NatToString(0) == "0";
    }
  }

  lemma DoneMessageExample(filename: string)
    ensures DoneMessage(5, filename) == "Done ingesting 5 chunks from " + filename + "."
  {
    assert NatToString(5) == "5";
  }
}
