/**
 * The messages the background tasks post to the activity's handlers, and the
 * handlers' completion rule.
 */
module Events {
  import opened Json

  /** Which copy of the thread code runs: the current thread classes or the older inner classes. */
  datatype Revision = Current | Legacy

  datatype Event =
    | Progress(position: int, total: int)   // "position"/"total" progress message
    | Named(name: string)                   // "Restored <name>" info message
    | Error(error: JsonError)               // RESTORE_SHOW_ERROR message posted to the handler

  /** Both handlers dismiss the progress dialog and report completion exactly when position >= total. */
  predicate IsTerminal(e: Event)
  {
    e.Progress? && e.position >= e.total
  }

  /** How many times a handler reports completion for a sequence of messages. */
  function TerminalCount(events: seq<Event>): (n: nat)
    ensures n <= |events|
    ensures n == 0 <==> forall i :: 0 <= i < |events| ==> !IsTerminal(events[i])
    decreases |events|
  {
    if events == [] then 0
    else TerminalCount(events[..|events| - 1]) + (if IsTerminal(events[|events| - 1]) then 1 else 0)
  }

  lemma {:induction false} TerminalCountAppend(a: seq<Event>, b: seq<Event>)
    ensures TerminalCount(a + b) == TerminalCount(a) + TerminalCount(b)
    decreases |b|
  {
    if b == [] {
      assert a + b == a;
    } else {
      assert (a + b)[..|a + b| - 1] == a + b[..|b| - 1];
      TerminalCountAppend(a, b[..|b| - 1]);
    }
  }

  /** The positions of the progress messages, in posting order. */
  function Positions(events: seq<Event>): (ps: seq<int>)
    ensures |ps| <= |events|
    decreases |events|
  {
    if events == [] then []
    else
      var last := events[|events| - 1];
      Positions(events[..|events| - 1]) + (if last.Progress? then [last.position] else [])
  }

  lemma {:induction false} PositionsAppend(a: seq<Event>, b: seq<Event>)
    ensures Positions(a + b) == Positions(a) + Positions(b)
    decreases |b|
  {
    if b == [] {
      assert a + b == a;
    } else {
      assert (a + b)[..|a + b| - 1] == a + b[..|b| - 1];
      PositionsAppend(a, b[..|b| - 1]);
    }
  }

  predicate StrictlyIncreasing(ps: seq<int>)
  {
    forall i, j :: 0 <= i < j < |ps| ==> ps[i] < ps[j]
  }

  /** How many error messages were posted. */
  function ErrorCount(events: seq<Event>): (n: nat)
    ensures n <= |events|
    decreases |events|
  {
    if events == [] then 0
    else ErrorCount(events[..|events| - 1]) + (if events[|events| - 1].Error? then 1 else 0)
  }

  lemma {:induction false} ErrorCountAppend(a: seq<Event>, b: seq<Event>)
    ensures ErrorCount(a + b) == ErrorCount(a) + ErrorCount(b)
    decreases |b|
  {
    if b == [] {
      assert a + b == a;
    } else {
      assert (a + b)[..|a + b| - 1] == a + b[..|b| - 1];
      ErrorCountAppend(a, b[..|b| - 1]);
    }
  }

  /** How many records were reported restored. */
  function NamedCount(events: seq<Event>): (n: nat)
    ensures n <= |events|
    decreases |events|
  {
    if events == [] then 0
    else NamedCount(events[..|events| - 1]) + (if events[|events| - 1].Named? then 1 else 0)
  }

  lemma {:induction false} NamedCountAppend(a: seq<Event>, b: seq<Event>)
    ensures NamedCount(a + b) == NamedCount(a) + NamedCount(b)
    decreases |b|
  {
    if b == [] {
      assert a + b == a;
    } else {
      assert (a + b)[..|a + b| - 1] == a + b[..|b| - 1];
      NamedCountAppend(a, b[..|b| - 1]);
    }
  }

  /** How many of the positions reach the total. */
  function AtLeast(ps: seq<int>, total: int): (n: nat)
    ensures n <= |ps|
    ensures n == 0 <==> forall i :: 0 <= i < |ps| ==> ps[i] < total
    decreases |ps|
  {
    if ps == [] then 0
    else AtLeast(ps[..|ps| - 1], total) + (if ps[|ps| - 1] >= total then 1 else 0)
  }

  lemma {:induction false} AtLeastAppend(a: seq<int>, b: seq<int>, total: int)
    ensures AtLeast(a + b, total) == AtLeast(a, total) + AtLeast(b, total)
    decreases |b|
  {
    if b == [] {
      assert a + b == a;
    } else {
      assert (a + b)[..|a + b| - 1] == a + b[..|b| - 1];
      AtLeastAppend(a, b[..|b| - 1], total);
    }
  }

  /** Every progress message of the sequence carries the given total. */
  predicate SameTotal(events: seq<Event>, total: int)
  {
    forall i :: 0 <= i < |events| && events[i].Progress? ==> events[i].total == total
  }

  /** With a common total, completion is reported once per position that reaches it. */
  lemma {:induction false} TerminalCountByPositions(events: seq<Event>, total: int)
    requires SameTotal(events, total)
    ensures TerminalCount(events) == AtLeast(Positions(events), total)
    decreases |events|
  {
    if events != [] {
      var init := events[..|events| - 1];
      var last := events[|events| - 1];
      assert SameTotal(init, total) by {
        forall i | 0 <= i < |init| && init[i].Progress?
          ensures init[i].total == total
        {
          assert init[i] == events[i];
        }
      }
      TerminalCountByPositions(init, total);
      AtLeastAppend(Positions(init), if last.Progress? then [last.position] else [], total);
      if last.Progress? {
        assert [last.position][..0] == [];
      }
    }
  }
}
