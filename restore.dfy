/**
 * The restore loop: characters are read one at a time, records are cut out
 * by brace depth and each is parsed, stored and reported by name; a progress
 * message goes out every 100 characters and a final one after the last
 * character. The first JSON exception ends the whole restore.
 */
module Restore {
  import opened Wrappers
  import opened Json
  import ContactColumns
  import opened Events
  import opened BraceSplitter
  import opened StoreContact

  /** The loop state of the restore: scanner, character count, messages and store log so far. */
  datatype Run = Run(scan: ScanResult, count: nat, events: seq<Event>, ops: seq<StoreOp>, failed: bool)

  const Initial := Run(ScanResult(Start, []), 0, [], [], false)

  /** The current revision posts an error message; the older one only prints the stack trace. */
  function ErrorEvents(e: JsonError, rev: Revision): seq<Event>
  {
    if rev == Current then [Error(e)] else []
  }

  /** Parsing, storing and reporting one cut-out record. */
  datatype Handled = Handled(ops: seq<StoreOp>, result: Result<string, JsonError>)

  function HandleRecord(text: string, env: Env, rev: Revision): Handled
  {
    match env.parse(text)
    case Err(e) => Handled([], Err(e))
    case Ok(fields) =>
      var stored := StoreSpec(fields, env, rev);
      if stored.outcome.Fail? then Handled(stored.ops, Err(stored.outcome.error))
      else Handled(stored.ops, GetString(fields, ContactColumns.Name))
  }

  /** How the loop handles a cut-out record; the restore uses `Handle`. */
  type Handler = string -> Handled

  function Handle(env: Env, rev: Revision): Handler
  {
    text => HandleRecord(text, env, rev)
  }

  /** A record the handler gets through without an exception. */
  predicate Accepted(handle: Handler, text: string)
  {
    handle(text).result.Ok?
  }

  /** The character count goes up after each character; every hundredth posts progress. */
  function Tick(r: Run, total: int): Run
  {
    r.(count := r.count + 1, events := r.events + TickEvents(r.count + 1, total))
  }

  function TickEvents(count: int, total: int): seq<Event>
  {
    if count % 100 == 0 then [Progress(count, total)] else []
  }

  function Step(r: Run, c: char, total: int, handle: Handler, rev: Revision): Run
  {
    if r.failed then r
    else
      var st := Feed(r.scan.state, c);
      if !Completes(st) then Tick(r.(scan := ScanResult(st, r.scan.spans)), total)
      else
        var h := handle(st.buffer);
        match h.result
        case Err(e) => Run(r.scan, r.count, r.events + ErrorEvents(e, rev), r.ops + h.ops, true)
        case Ok(name) =>
          Tick(Run(ScanResult(st.(open := false), r.scan.spans + [st.buffer]), r.count,
                   r.events + [Named(name)], r.ops + h.ops, false), total)
  }

  /** The state after the first k characters. */
  function RunOn(text: string, k: nat, total: int, handle: Handler, rev: Revision): Run
    requires k <= |text|
    decreases k
  {
    if k == 0 then Initial else Step(RunOn(text, k - 1, total, handle, rev), text[k - 1], total, handle, rev)
  }

  /** What a restore posts and stores. */
  datatype Restored = Restored(events: seq<Event>, ops: seq<StoreOp>)

  /** The whole restore; the final progress message is only reached when no exception escaped. */
  function RestoreWith(text: string, total: int, handle: Handler, rev: Revision): Restored
  {
    var r := RunOn(text, |text|, total, handle, rev);
    Restored(r.events + (if r.failed then [] else [Progress(total, total)]), r.ops)
  }

  /** The restore loop over the characters of the backup file; `total` is the file length. */
  method ReadStream(text: string, total: int, env: Env, rev: Revision) returns (events: seq<Event>, ops: seq<StoreOp>)
    ensures Restored(events, ops) == RestoreWith(text, total, Handle(env, rev), rev)
  {
    var data: string := [];
    var braceDepth := 0;
    var contactOpen := false;
    var count: nat := 0;
    ghost var spans: seq<string> := [];
    events, ops := [], [];
    var i := 0;
    while i < |text|
      invariant 0 <= i <= |text|
      invariant RunOn(text, i, total, Handle(env, rev), rev)
        == Run(ScanResult(Scanner(braceDepth, contactOpen, data), spans), count, events, ops, false)
    {
      var failed;
      braceDepth, contactOpen, data, count, events, ops, spans, failed :=
        ReadChar(braceDepth, contactOpen, data, count, events, ops, spans, text[i], total, env, rev);
      if failed {
        FailedRestore(text, i + 1, total, Handle(env, rev), rev);
        return;
      }
      i := i + 1;
    }
    events := events + [Progress(total, total)];
  }

  /** The body of the restore loop for one character; `failed` when a JSON exception escaped. */
  method ReadChar(braceDepth: int, contactOpen: bool, data: string, count: nat, events: seq<Event>, ops: seq<StoreOp>,
                  ghost spans: seq<string>, theChar: char, total: int, env: Env, rev: Revision)
    returns (depth: int, open: bool, buffer: string, count': nat, events': seq<Event>, ops': seq<StoreOp>,
             ghost spans': seq<string>, failed: bool)
    ensures Step(Run(ScanResult(Scanner(braceDepth, contactOpen, data), spans), count, events, ops, false), theChar, total, Handle(env, rev), rev)
      == Run(ScanResult(Scanner(depth, open, buffer), spans'), count', events', ops', failed)
  {
    ghost var before := Run(ScanResult(Scanner(braceDepth, contactOpen, data), spans), count, events, ops, false);
    depth, open, buffer := FeedChar(braceDepth, contactOpen, data, theChar);
    events', ops', spans', failed := events, ops, spans, false;
    if depth == 0 && open {
      var stored, name := RestoreRecord(buffer, env, rev);
      ops' := ops' + stored;
      if name.Err? {
        events' := events' + ErrorEvents(name.error, rev);
        StepFails(before, theChar, total, Handle(env, rev), rev);
        return braceDepth, contactOpen, data, count, events', ops', spans, true;
      }
      open := false;
      events' := events' + [Named(name.value)];
      spans' := spans' + [buffer];
    }
    StepDone(before, theChar, total, Handle(env, rev), rev);
    count', events' := CountChar(count, events', total);
  }

  /** The brace counting for one character: a `{` at depth 0 opens a record and restarts the buffer. */
  method FeedChar(braceDepth: int, contactOpen: bool, data: string, theChar: char) returns (depth: int, open: bool, buffer: string)
    ensures Scanner(depth, open, buffer) == Feed(Scanner(braceDepth, contactOpen, data), theChar)
  {
    depth, open, buffer := braceDepth, contactOpen, data;
    if theChar == '{' {
      if depth == 0 {
        open := true;
        buffer := [];
      }
      depth := depth + 1;
    } else if theChar == '}' {
      depth := depth - 1;
    }
    buffer := buffer + [theChar];
  }

  /** The character count goes up by one; every hundredth character posts progress. */
  method CountChar(count: nat, events: seq<Event>, total: int) returns (count': nat, events': seq<Event>)
    ensures count' == count + 1 && events' == events + TickEvents(count', total)
  {
    count', events' := count + 1, events;
    if count' % 100 == 0 {
      events' := events' + [Progress(count', total)];
    } else {
      assert events' + [] == events';
    }
  }

  /** One cut-out record: parse it, store it, and read the name for the message; any getter may throw. */
  method RestoreRecord(data: string, env: Env, rev: Revision) returns (stored: seq<StoreOp>, name: Result<string, JsonError>)
    ensures Handled(stored, name) == HandleRecord(data, env, rev)
  {
    var contact := env.parse(data);
    if contact.Err? {
      return [], Err(contact.error);
    }
    var outcome;
    stored, outcome := Store(contact.value, env, rev);
    if outcome.Fail? {
      return stored, Err(outcome.error);
    }
    name := GetString(contact.value, ContactColumns.Name);
  }

  lemma FailedRestore(text: string, k: nat, total: int, handle: Handler, rev: Revision)
    requires k <= |text| && RunOn(text, k, total, handle, rev).failed
    ensures RestoreWith(text, total, handle, rev) == Restored(RunOn(text, k, total, handle, rev).events, RunOn(text, k, total, handle, rev).ops)
  {
    FailureStays(text, k, |text|, total, handle, rev);
    assert RunOn(text, k, total, handle, rev).events + [] == RunOn(text, k, total, handle, rev).events;
  }

  /** A step whose record throws: the error message, the operations done before the exception, and the run ends. */
  lemma StepFails(r: Run, c: char, total: int, handle: Handler, rev: Revision)
    requires !r.failed && Completes(Feed(r.scan.state, c)) && !Accepted(handle, Feed(r.scan.state, c).buffer)
    ensures var h := handle(Feed(r.scan.state, c).buffer);
      Step(r, c, total, handle, rev) == Run(r.scan, r.count, r.events + ErrorEvents(h.result.error, rev), r.ops + h.ops, true)
  {
  }

  /** A step that does not fail. */
  lemma StepDone(r: Run, c: char, total: int, handle: Handler, rev: Revision)
    requires !r.failed
    requires Completes(Feed(r.scan.state, c)) ==> Accepted(handle, Feed(r.scan.state, c).buffer)
    ensures var st := Feed(r.scan.state, c);
      var h := handle(st.buffer);
      Step(r, c, total, handle, rev) ==
        if Completes(st) then
          Tick(Run(ScanResult(st.(open := false), r.scan.spans + [st.buffer]), r.count,
                   r.events + [Named(h.result.value)], r.ops + h.ops, false), total)
        else Tick(r.(scan := ScanResult(st, r.scan.spans)), total)
  {
  }

  lemma {:induction false} FailureStays(text: string, i: nat, k: nat, total: int, handle: Handler, rev: Revision)
    requires i <= k <= |text| && RunOn(text, i, total, handle, rev).failed
    ensures RunOn(text, k, total, handle, rev) == RunOn(text, i, total, handle, rev)
    decreases k - i
  {
    if i < k {
      FailureStays(text, i, k - 1, total, handle, rev);
    }
  }

  lemma {:induction false} SuccessBefore(text: string, i: nat, k: nat, total: int, handle: Handler, rev: Revision)
    requires i <= k <= |text| && !RunOn(text, k, total, handle, rev).failed
    ensures !RunOn(text, i, total, handle, rev).failed
  {
    if RunOn(text, i, total, handle, rev).failed {
      FailureStays(text, i, k, total, handle, rev);
    }
  }

  /** The name message of a step that completed a restorable record. */
  function Reported(st: Scanner, handle: Handler): seq<Event>
  {
    if Completes(st) && Accepted(handle, st.buffer) then [Named(handle(st.buffer).result.value)] else []
  }

  /** A step without an exception, piece by piece. */
  lemma StepSucceeded(r: Run, c: char, total: int, handle: Handler, rev: Revision)
    requires !r.failed && !Step(r, c, total, handle, rev).failed
    ensures var st := Feed(r.scan.state, c);
      var s := Step(r, c, total, handle, rev);
      && s.scan == Advance(r.scan, c)
      && s.count == r.count + 1
      && s.events == r.events + Reported(st, handle) + TickEvents(r.count + 1, total)
      && s.ops == r.ops + (if Completes(st) then handle(st.buffer).ops else [])
      && (Completes(st) ==> Accepted(handle, st.buffer))
  {
    var st := Feed(r.scan.state, c);
    if !Completes(st) {
      assert r.events + [] == r.events;
      assert r.ops + [] == r.ops;
    }
  }

  // ---------------------------------------------------------------------
  // The scanner inside the run.

  /** A step without an exception keeps every record cut out so far accepted. */
  lemma StepKeepsAccepted(r: Run, c: char, total: int, handle: Handler, rev: Revision)
    requires !r.failed && !Step(r, c, total, handle, rev).failed
    requires forall t :: t in r.scan.spans ==> Accepted(handle, t)
    ensures forall t :: t in Step(r, c, total, handle, rev).scan.spans ==> Accepted(handle, t)
  {
    StepSucceeded(r, c, total, handle, rev);
  }

  /** Without an exception the character count is the number of characters read. */
  lemma {:induction false} RunCount(text: string, k: nat, total: int, handle: Handler, rev: Revision)
    requires k <= |text| && !RunOn(text, k, total, handle, rev).failed
    ensures RunOn(text, k, total, handle, rev).count == k
    decreases k
  {
    if k > 0 {
      SuccessBefore(text, k - 1, k, total, handle, rev);
      RunCount(text, k - 1, total, handle, rev);
      StepSucceeded(RunOn(text, k - 1, total, handle, rev), text[k - 1], total, handle, rev);
    }
  }

  lemma {:induction false} RunScan(text: string, k: nat, total: int, handle: Handler, rev: Revision)
    requires k <= |text| && !RunOn(text, k, total, handle, rev).failed
    ensures RunOn(text, k, total, handle, rev).scan == Scan(text[..k])
    decreases k
  {
    if k == 0 {
      assert text[..0] == [];
    } else {
      SuccessBefore(text, k - 1, k, total, handle, rev);
      RunScan(text, k - 1, total, handle, rev);
      StepSucceeded(RunOn(text, k - 1, total, handle, rev), text[k - 1], total, handle, rev);
      ScanPrefixStep(text, k);
    }
  }

  lemma {:induction false} RunAccepted(text: string, k: nat, total: int, handle: Handler, rev: Revision)
    requires k <= |text| && !RunOn(text, k, total, handle, rev).failed
    ensures forall t :: t in RunOn(text, k, total, handle, rev).scan.spans ==> Accepted(handle, t)
    decreases k
  {
    if k > 0 {
      SuccessBefore(text, k - 1, k, total, handle, rev);
      RunAccepted(text, k - 1, total, handle, rev);
      StepKeepsAccepted(RunOn(text, k - 1, total, handle, rev), text[k - 1], total, handle, rev);
    }
  }

  /** Without an exception the run's scanner is the scanner of the characters read, and the count is their number. */
  lemma RunTracksScan(text: string, k: nat, total: int, handle: Handler, rev: Revision)
    requires k <= |text| && !RunOn(text, k, total, handle, rev).failed
    ensures RunOn(text, k, total, handle, rev).scan == Scan(text[..k])
    ensures RunOn(text, k, total, handle, rev).count == k
    ensures forall t :: t in RunOn(text, k, total, handle, rev).scan.spans ==> Accepted(handle, t)
  {
    RunScan(text, k, total, handle, rev);
    RunCount(text, k, total, handle, rev);
    RunAccepted(text, k, total, handle, rev);
  }

  /** Every record handed to the parser is a top-level object of the text read so far. */
  lemma HandedRecordIsTopSpan(text: string, k: nat, total: int, handle: Handler, rev: Revision)
    requires 0 < k <= |text| && !RunOn(text, k - 1, total, handle, rev).failed
    requires Completes(Feed(RunOn(text, k - 1, total, handle, rev).scan.state, text[k - 1]))
    ensures Feed(RunOn(text, k - 1, total, handle, rev).scan.state, text[k - 1]).buffer in TopSpans(text[..k])
  {
    var st := Feed(RunOn(text, k - 1, total, handle, rev).scan.state, text[k - 1]);
    RunScan(text, k - 1, total, handle, rev);
    ScanPrefixStep(text, k);
    assert Scan(text[..k]).spans == Scan(text[..k - 1]).spans + [st.buffer];
    ScanMatchesTopSpans(text[..k]);
  }

  lemma {:induction false} TopSpansOfPrefix(s: string, k: nat)
    requires k <= |s|
    ensures forall t :: t in TopSpans(s[..k]) ==> t in TopSpans(s)
    decreases |s| - k
  {
    if k < |s| {
      TopSpansOfPrefix(s, k + 1);
      assert s[..k + 1][..k] == s[..k];
    } else {
      assert s[..k] == s;
    }
  }

  /** The restore gets through the whole text exactly when every top-level object is restorable. */
  lemma RestoreSucceedsIff(text: string, total: int, handle: Handler, rev: Revision)
    ensures !RunOn(text, |text|, total, handle, rev).failed
      <==> forall t :: t in TopSpans(text) ==> Accepted(handle, t)
  {
    if !RunOn(text, |text|, total, handle, rev).failed {
      RunTracksScan(text, |text|, total, handle, rev);
      assert text[..|text|] == text;
      ScanMatchesTopSpans(text);
    } else {
      var k := FirstFailure(text, |text|, total, handle, rev);
      FailsAt(text, k, total, handle, rev);
      HandedRecordIsTopSpan(text, k, total, handle, rev);
      TopSpansOfPrefix(text, k);
    }
  }

  /** The step at which the run failed. */
  lemma {:induction false} FirstFailure(text: string, k: nat, total: int, handle: Handler, rev: Revision) returns (j: nat)
    requires k <= |text| && RunOn(text, k, total, handle, rev).failed
    ensures 0 < j <= k && !RunOn(text, j - 1, total, handle, rev).failed && RunOn(text, j, total, handle, rev).failed
    decreases k
  {
    if RunOn(text, k - 1, total, handle, rev).failed {
      j := FirstFailure(text, k - 1, total, handle, rev);
    } else {
      j := k;
    }
  }

  /** The character at which a run fails completes a record the handler does not accept. */
  lemma FailsAt(text: string, k: nat, total: int, handle: Handler, rev: Revision)
    requires 0 < k <= |text| && !RunOn(text, k - 1, total, handle, rev).failed && RunOn(text, k, total, handle, rev).failed
    ensures Completes(Feed(RunOn(text, k - 1, total, handle, rev).scan.state, text[k - 1]))
    ensures !Accepted(handle, Feed(RunOn(text, k - 1, total, handle, rev).scan.state, text[k - 1]).buffer)
  {
    var r := RunOn(text, k - 1, total, handle, rev);
    assert RunOn(text, k, total, handle, rev) == Step(r, text[k - 1], total, handle, rev);
    StepFailed(r, text[k - 1], total, handle, rev);
  }

  /** A step fails only at a completed record the handler does not accept, and then adds only the error message. */
  lemma StepFailed(r: Run, c: char, total: int, handle: Handler, rev: Revision)
    requires !r.failed && Step(r, c, total, handle, rev).failed
    ensures Completes(Feed(r.scan.state, c)) && !Accepted(handle, Feed(r.scan.state, c).buffer)
    ensures Step(r, c, total, handle, rev).events
      == r.events + ErrorEvents(handle(Feed(r.scan.state, c).buffer).result.error, rev)
  {
  }

  // ---------------------------------------------------------------------
  // What a successful restore stores and reports.

  /** The store operations of restoring the given records in order. */
  function StoredAll(records: seq<string>, handle: Handler): seq<StoreOp>
    decreases |records|
  {
    if records == [] then []
    else StoredAll(records[..|records| - 1], handle) + handle(records[|records| - 1]).ops
  }

  /** Without an exception: every handed record was stored in order and reported once by name, and no error message was posted. */
  lemma {:induction false} RunRecords(text: string, k: nat, total: int, handle: Handler, rev: Revision)
    requires k <= |text| && !RunOn(text, k, total, handle, rev).failed
    ensures RunOn(text, k, total, handle, rev).ops == StoredAll(RunOn(text, k, total, handle, rev).scan.spans, handle)
    ensures NamedCount(RunOn(text, k, total, handle, rev).events) == |RunOn(text, k, total, handle, rev).scan.spans|
    ensures ErrorCount(RunOn(text, k, total, handle, rev).events) == 0
    decreases k
  {
    if k > 0 {
      SuccessBefore(text, k - 1, k, total, handle, rev);
      RunRecords(text, k - 1, total, handle, rev);
      var r := RunOn(text, k - 1, total, handle, rev);
      var st := Feed(r.scan.state, text[k - 1]);
      StepSucceeded(r, text[k - 1], total, handle, rev);
      var rep := Reported(st, handle);
      var tick := TickEvents(r.count + 1, total);
      NamedCountAppend(r.events, rep);
      NamedCountAppend(r.events + rep, tick);
      ErrorCountAppend(r.events, rep);
      ErrorCountAppend(r.events + rep, tick);
      if rep != [] {
        assert rep[..0] == [];
      }
      if tick != [] {
        assert tick[..0] == [];
      }
      if Completes(st) {
        var spans := r.scan.spans + [st.buffer];
        assert spans[..|spans| - 1] == r.scan.spans;
      } else {
        assert r.ops + [] == r.ops;
      }
    }
  }

  /** A restore without an exception stores exactly the top-level objects of the text, in order, and names each once. */
  lemma RestoredRecords(text: string, total: int, handle: Handler, rev: Revision)
    requires forall t :: t in TopSpans(text) ==> Accepted(handle, t)
    ensures RestoreWith(text, total, handle, rev).ops == StoredAll(TopSpans(text), handle)
    ensures NamedCount(RestoreWith(text, total, handle, rev).events) == |TopSpans(text)|
    ensures ErrorCount(RestoreWith(text, total, handle, rev).events) == 0
  {
    RestoreSucceedsIff(text, total, handle, rev);
    RunTracksScan(text, |text|, total, handle, rev);
    RunRecords(text, |text|, total, handle, rev);
    assert text[..|text|] == text;
    ScanMatchesTopSpans(text);
    var events := RunOn(text, |text|, total, handle, rev).events;
    assert (events + [Progress(total, total)])[..|events|] == events;
  }

  /** A dump of objects between brace-free separators restores exactly those objects, in order. */
  lemma RestoredFramedRecords(seps: seq<string>, objs: seq<string>, total: int, handle: Handler, rev: Revision)
    requires |seps| == |objs| + 1
    requires forall i :: 0 <= i < |seps| ==> NoBraces(seps[i])
    requires forall i :: 0 <= i < |objs| ==> IsObjectSpan(objs[i]) && Accepted(handle, objs[i])
    ensures RestoreWith(Frame(seps, objs), total, handle, rev).ops == StoredAll(objs, handle)
    ensures NamedCount(RestoreWith(Frame(seps, objs), total, handle, rev).events) == |objs|
  {
    SplitFramed(seps, objs);
    RestoredRecords(Frame(seps, objs), total, handle, rev);
  }

  // ---------------------------------------------------------------------
  // Progress messages.

  /** The counts at which progress is posted while reading k characters: the multiples of 100 up to k. */
  function Hundreds(k: nat): (ps: seq<int>)
    decreases k
  {
    if k == 0 then [] else Hundreds(k - 1) + (if k % 100 == 0 then [k] else [])
  }

  lemma {:induction false} HundredsClosedForm(k: nat)
    ensures |Hundreds(k)| == k / 100
    ensures forall i :: 0 <= i < |Hundreds(k)| ==> Hundreds(k)[i] == 100 * (i + 1)
    decreases k
  {
    if k > 0 {
      HundredsClosedForm(k - 1);
    }
  }

  lemma {:induction false} HundredsBounded(k: nat)
    ensures forall i :: 0 <= i < |Hundreds(k)| ==> 0 < Hundreds(k)[i] <= k
    decreases k
  {
    if k > 0 {
      HundredsBounded(k - 1);
    }
  }

  lemma HundredsIncreasing(k: nat)
    ensures StrictlyIncreasing(Hundreds(k))
  {
    HundredsClosedForm(k);
  }

  /** The progress positions after one step without an exception: one more exactly at a multiple of 100. */
  lemma StepProgress(r: Run, c: char, total: int, handle: Handler, rev: Revision)
    requires !r.failed && !Step(r, c, total, handle, rev).failed
    ensures Positions(Step(r, c, total, handle, rev).events)
      == Positions(r.events) + (if (r.count + 1) % 100 == 0 then [r.count + 1] else [])
  {
    StepSucceeded(r, c, total, handle, rev);
    var rep := Reported(Feed(r.scan.state, c), handle);
    var tick := TickEvents(r.count + 1, total);
    PositionsAppend(r.events, rep);
    PositionsAppend(r.events + rep, tick);
    if rep != [] {
      assert rep[..0] == [];
    }
    if tick != [] {
      assert tick[..0] == [];
    }
  }

  /** Without an exception, progress went out at the multiples of 100 read so far. */
  lemma {:induction false} RunProgress(text: string, k: nat, total: int, handle: Handler, rev: Revision)
    requires k <= |text| && !RunOn(text, k, total, handle, rev).failed
    ensures Positions(RunOn(text, k, total, handle, rev).events) == Hundreds(k)
    decreases k
  {
    if k > 0 {
      SuccessBefore(text, k - 1, k, total, handle, rev);
      RunProgress(text, k - 1, total, handle, rev);
      RunCount(text, k - 1, total, handle, rev);
      var r := RunOn(text, k - 1, total, handle, rev);
      assert RunOn(text, k, total, handle, rev) == Step(r, text[k - 1], total, handle, rev);
      StepProgress(r, text[k - 1], total, handle, rev);
      assert Hundreds(k) == Positions(r.events) + (if (r.count + 1) % 100 == 0 then [r.count + 1] else []);
    }
  }

  /** Every progress message of a run carries the file length as total. */
  lemma {:induction false} RunTotals(text: string, k: nat, total: int, handle: Handler, rev: Revision)
    requires k <= |text|
    ensures SameTotal(RunOn(text, k, total, handle, rev).events, total)
    decreases k
  {
    if k > 0 {
      RunTotals(text, k - 1, total, handle, rev);
      var r := RunOn(text, k - 1, total, handle, rev);
      if !r.failed {
        var st := Feed(r.scan.state, text[k - 1]);
        var more := RunOn(text, k, total, handle, rev).events;
        assert |r.events| <= |more| && more[..|r.events|] == r.events by {
          if Completes(st) && !Accepted(handle, st.buffer) {
            assert more == r.events + ErrorEvents(handle(st.buffer).result.error, rev);
          } else {
            StepSucceeded(r, text[k - 1], total, handle, rev);
          }
        }
        forall i | |r.events| <= i < |more| && more[i].Progress?
          ensures more[i].total == total
        {
        }
        forall i | 0 <= i < |r.events| && more[i].Progress?
          ensures more[i].total == total
        {
          assert more[i] == r.events[i];
        }
      }
    }
  }

  /** A restore without an exception posts progress at every multiple of 100 characters and then once with the file length. */
  lemma RestoreProgress(text: string, total: int, handle: Handler, rev: Revision)
    requires forall t :: t in TopSpans(text) ==> Accepted(handle, t)
    ensures Positions(RestoreWith(text, total, handle, rev).events) == Hundreds(|text|) + [total]
    ensures StrictlyIncreasing(Hundreds(|text|))
    ensures SameTotal(RestoreWith(text, total, handle, rev).events, total)
  {
    RestoreSucceedsIff(text, total, handle, rev);
    RunProgress(text, |text|, total, handle, rev);
    RunTotals(text, |text|, total, handle, rev);
    HundredsIncreasing(|text|);
    var events := RunOn(text, |text|, total, handle, rev).events;
    PositionsAppend(events, [Progress(total, total)]);
    assert [Progress(total, total)][..0] == [];
  }

  lemma {:induction false} HundredsReachingTotal(k: nat, total: int)
    requires k <= total
    ensures AtLeast(Hundreds(k), total) == if k == total && k > 0 && k % 100 == 0 then 1 else 0
    decreases k
  {
    if k > 0 {
      HundredsReachingTotal(k - 1, total);
      assert AtLeast(Hundreds(k - 1), total) == 0;
      var last: seq<int> := if k % 100 == 0 then [k] else [];
      assert Hundreds(k) == Hundreds(k - 1) + last;
      AtLeastAppend(Hundreds(k - 1), last, total);
      if k % 100 == 0 {
        assert last[..0] == [];
        assert AtLeast(last, total) == if k == total then 1 else 0;
      } else {
        assert AtLeast(last, total) == 0;
      }
    }
  }

  /**
   * With the file length as total, a successful restore reports completion
   * once, and twice when the length is a positive multiple of 100: the
   * periodic message at the last character already reaches the total.
   */
  lemma CompletionCount(text: string, handle: Handler, rev: Revision)
    requires forall t :: t in TopSpans(text) ==> Accepted(handle, t)
    ensures TerminalCount(RestoreWith(text, |text|, handle, rev).events)
      == if |text| > 0 && |text| % 100 == 0 then 2 else 1
  {
    var total := |text|;
    RestoreProgress(text, total, handle, rev);
    TerminalCountByPositions(RestoreWith(text, total, handle, rev).events, total);
    AtLeastAppend(Hundreds(total), [total], total);
    HundredsReachingTotal(total, total);
    assert [total][..0] == [];
  }

  // ---------------------------------------------------------------------
  // What a failed restore posts.

  /** After an exception: the error message (current revision only) is the last message, and no progress reached the position of the failing character. */
  lemma {:induction false} FailedRun(text: string, k: nat, total: int, handle: Handler, rev: Revision) returns (j: nat)
    requires k <= |text| && RunOn(text, k, total, handle, rev).failed
    ensures 0 < j <= k
    ensures Positions(RunOn(text, k, total, handle, rev).events) == Hundreds(j - 1)
    ensures SameTotal(RunOn(text, k, total, handle, rev).events, total)
    ensures ErrorCount(RunOn(text, k, total, handle, rev).events) == if rev == Current then 1 else 0
    ensures rev == Current ==> RunOn(text, k, total, handle, rev).events[|RunOn(text, k, total, handle, rev).events| - 1].Error?
  {
    j := FirstFailure(text, k, total, handle, rev);
    FailureStays(text, j, k, total, handle, rev);
    RunProgress(text, j - 1, total, handle, rev);
    RunTotals(text, k, total, handle, rev);
    RunRecords(text, j - 1, total, handle, rev);
    var r := RunOn(text, j - 1, total, handle, rev);
    var st := Feed(r.scan.state, text[j - 1]);
    var errs := ErrorEvents(handle(st.buffer).result.error, rev);
    assert RunOn(text, j, total, handle, rev) == Step(r, text[j - 1], total, handle, rev);
    StepFailed(r, text[j - 1], total, handle, rev);
    PositionsAppend(r.events, errs);
    ErrorCountAppend(r.events, errs);
    if rev == Current {
      assert errs[..0] == [];
    }
  }

  /** A failed restore never reports completion when the total is at least the text length: the dialog stays open. */
  lemma FailedRestoreNeverCompletes(text: string, total: int, handle: Handler, rev: Revision)
    requires exists t :: t in TopSpans(text) && !Accepted(handle, t)
    requires total >= |text|
    ensures TerminalCount(RestoreWith(text, total, handle, rev).events) == 0
    ensures ErrorCount(RestoreWith(text, total, handle, rev).events) == if rev == Current then 1 else 0
  {
    RestoreSucceedsIff(text, total, handle, rev);
    FailedRunNeverCompletes(text, total, handle, rev);
  }

  lemma FailedRunNeverCompletes(text: string, total: int, handle: Handler, rev: Revision)
    requires RunOn(text, |text|, total, handle, rev).failed && total >= |text|
    ensures TerminalCount(RestoreWith(text, total, handle, rev).events) == 0
    ensures ErrorCount(RestoreWith(text, total, handle, rev).events) == if rev == Current then 1 else 0
  {
    var events := RunOn(text, |text|, total, handle, rev).events;
    assert RestoreWith(text, total, handle, rev).events == events by {
      assert events + [] == events;
    }
    var j := FailedRun(text, |text|, total, handle, rev);
    TerminalCountByPositions(events, total);
    HundredsBounded(j - 1);
  }
}
