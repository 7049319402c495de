/**
 * The record splitter of the restore side: a scan over the characters of the
 * dump that finds the top-level `{...}` objects by counting braces only.
 *
 * `Scan` is the scanner as the restore loop runs it (depth, open flag and
 * buffer, one character at a time). `TopSpans` is an independent reference:
 * the spans that end at a `}` taking the net brace count from 1 to 0, each
 * starting just after the last earlier point where the net count was 0.
 * `ScanMatchesTopSpans` proves the two agree, `TopSpansAreObjects` that every
 * span is a balanced object, and `SplitFramed` that objects separated by
 * brace-free text (array brackets, commas, whitespace) are found exactly,
 * in order.
 */
module BraceSplitter {

  /** The change in brace depth caused by one character. */
  function Delta(c: char): int
  {
    if c == '{' then 1 else if c == '}' then -1 else 0
  }

  /** Net brace count of a text: opening braces minus closing braces. */
  function Net(s: string): int
    decreases |s|
  {
    if s == [] then 0 else Net(s[..|s| - 1]) + Delta(s[|s| - 1])
  }

  lemma {:induction false} NetAppend(a: string, b: string)
    ensures Net(a + b) == Net(a) + Net(b)
    decreases |b|
  {
    if b == [] {
      assert a + b == a;
    } else {
      assert (a + b)[..|a + b| - 1] == a + b[..|b| - 1];
      NetAppend(a, b[..|b| - 1]);
    }
  }

  // ---------------------------------------------------------------------
  // The scanner.

  /** The loop variables braceDepth, contactOpen and data. */
  datatype Scanner = Scanner(depth: int, open: bool, buffer: string)

  const Start := Scanner(0, false, [])

  /**
   * One character, before the completion test: a `{` at depth 0 opens a
   * record and empties the buffer; every `{` raises the depth, every `}`
   * lowers it (below zero too); then the character is appended.
   */
  function Feed(st: Scanner, c: char): Scanner
  {
    var reset := c == '{' && st.depth == 0;
    var buffer := if reset then [] else st.buffer;
    Scanner(st.depth + Delta(c), st.open || reset, buffer + [c])
  }

  /** The completion test: depth back at 0 while a record is open. */
  predicate Completes(st: Scanner)
  {
    st.depth == 0 && st.open
  }

  /** The scanner state and the spans handed over so far. */
  datatype ScanResult = ScanResult(state: Scanner, spans: seq<string>)

  function Advance(r: ScanResult, c: char): ScanResult
  {
    var st := Feed(r.state, c);
    if Completes(st) then ScanResult(st.(open := false), r.spans + [st.buffer])
    else ScanResult(st, r.spans)
  }

  function ScanFrom(r: ScanResult, s: string): ScanResult
    decreases |s|
  {
    if s == [] then r else Advance(ScanFrom(r, s[..|s| - 1]), s[|s| - 1])
  }

  function Scan(s: string): ScanResult
  {
    ScanFrom(ScanResult(Start, []), s)
  }

  lemma {:induction false} ScanFromAppend(r: ScanResult, a: string, b: string)
    ensures ScanFrom(r, a + b) == ScanFrom(ScanFrom(r, a), b)
    decreases |b|
  {
    if b == [] {
      assert a + b == a;
    } else {
      assert (a + b)[..|a + b| - 1] == a + b[..|b| - 1];
      ScanFromAppend(r, a, b[..|b| - 1]);
    }
  }

  // ---------------------------------------------------------------------
  // The reference definition.

  /** The last position at or before j where the net brace count is 0. */
  function LastZero(s: string, j: nat): (i: nat)
    requires j <= |s|
    ensures i <= j && Net(s[..i]) == 0
    decreases j
  {
    if j == 0 then (assert s[..0] == []; 0)
    else if Net(s[..j]) == 0 then j
    else LastZero(s, j - 1)
  }

  /** The top-level objects of a text, as spans ending where the net count returns from 1 to 0. */
  function TopSpans(s: string): seq<string>
    decreases |s|
  {
    if s == [] then []
    else
      var j := |s| - 1;
      TopSpans(s[..j]) + (if s[j] == '}' && Net(s[..j]) == 1 then [s[LastZero(s, j)..]] else [])
  }

  /** A balanced object: starts with `{`, ends with `}`, net count 0, and positive on every proper prefix. */
  ghost predicate IsObjectSpan(t: string)
  {
    && |t| >= 2 && t[0] == '{' && t[|t| - 1] == '}'
    && Net(t) == 0
    && forall k :: 0 < k < |t| ==> Net(t[..k]) >= 1
  }

  predicate NoBraces(s: string)
  {
    forall i :: 0 <= i < |s| ==> s[i] != '{' && s[i] != '}'
  }

  lemma {:induction false} LastZeroOfPrefix(s: string, p: string, j: nat)
    requires |p| <= |s| && p == s[..|p|] && j <= |p|
    ensures LastZero(s, j) == LastZero(p, j)
    decreases j
  {
    assert s[..j] == p[..j];
    if j > 0 && Net(s[..j]) != 0 {
      LastZeroOfPrefix(s, p, j - 1);
    }
  }

  lemma {:induction false} LastZeroIsLast(s: string, j: nat, k: nat)
    requires j <= |s| && LastZero(s, j) < k <= j
    ensures Net(s[..k]) != 0
    decreases j
  {
    if k < j {
      LastZeroIsLast(s, j - 1, k);
    }
  }

  lemma {:induction false} PositiveAfterLastZero(s: string, j: nat, k: nat)
    requires j <= |s| && Net(s[..j]) >= 1 && LastZero(s, j) < k <= j
    ensures Net(s[..k]) >= 1
    decreases j - k
  {
    if k < j {
      PositiveAfterLastZero(s, j, k + 1);
      assert s[..k + 1][..k] == s[..k];
      LastZeroIsLast(s, j, k);
    }
  }

  /** The scanner state after a prefix, described by the net count alone. */
  ghost predicate Tracks(s: string, st: Scanner)
  {
    && st.depth == Net(s)
    && (st.open <==> Net(s) >= 1)
    && (st.open ==> st.buffer == s[LastZero(s, |s|)..])
  }

  /**
   * The scanner's depth is the net brace count of what it has read, a record
   * is open exactly while that count is positive, the open buffer holds the
   * text since the record's opening brace, and the spans it hands over are
   * exactly the reference spans.
   */
  lemma {:induction false} ScanMatchesTopSpans(s: string)
    ensures Tracks(s, Scan(s).state)
    ensures Scan(s).spans == TopSpans(s)
    decreases |s|
  {
    if s != [] {
      var j := |s| - 1;
      var p, c := s[..j], s[j];
      assert p[..|p|] == p;
      ScanMatchesTopSpans(p);
      assert Scan(s) == Advance(Scan(p), c);
      assert s == p + [c];
      AdvanceTracks(p, c, Scan(p));
    }
  }

  /** One more character keeps the scanner in step with the reference definition. */
  lemma AdvanceTracks(p: string, c: char, r: ScanResult)
    requires Tracks(p, r.state) && r.spans == TopSpans(p)
    ensures Tracks(p + [c], Advance(r, c).state)
    ensures Advance(r, c).spans == TopSpans(p + [c])
  {
    var s := p + [c];
    var j := |p|;
    assert s[..j] == p;
    LastZeroOfPrefix(s, p, j);
    var L := LastZero(p, |p|);
    assert s[..|s|] == s;
    assert s[L..] == p[L..] + [c];
    if c == '{' && Net(p) == 0 {
      assert L == |p|;
      assert Net(s) == 1;
      assert LastZero(s, |s|) == LastZero(s, j);
      assert s[j..] == [c];
    } else if Net(p) >= 1 && Net(s) != 0 {
      assert LastZero(s, |s|) == LastZero(s, j);
    }
  }

  /** The net count of a slice is the difference of the net counts of two prefixes. */
  lemma NetOfSlice(s: string, L: nat, k: nat)
    requires L <= k <= |s|
    ensures Net(s[L..][..k - L]) == Net(s[..k]) - Net(s[..L])
  {
    assert s[..k] == s[..L] + s[L..][..k - L];
    NetAppend(s[..L], s[L..][..k - L]);
  }

  lemma SpanPrefixesPositive(s: string, j: nat)
    requires |s| == j + 1 && Net(s[..j]) == 1
    ensures LastZero(s, j) < j
    ensures forall k :: 0 < k < |s[LastZero(s, j)..]| ==> Net(s[LastZero(s, j)..][..k]) >= 1
  {
    var L := LastZero(s, j);
    assert s[..0] == [];
    var t := s[L..];
    forall k | 0 < k < |t|
      ensures Net(t[..k]) >= 1
    {
      PositiveAfterLastZero(s, j, L + k);
      NetOfSlice(s, L, L + k);
    }
  }

  lemma SpanFirstIsOpen(s: string, j: nat)
    requires |s| == j + 1 && Net(s[..j]) == 1
    ensures LastZero(s, j) < j && s[LastZero(s, j)] == '{'
  {
    var L := LastZero(s, j);
    assert s[..0] == [];
    PositiveAfterLastZero(s, j, L + 1);
    assert s[..L + 1][..L] == s[..L];
  }

  lemma SpanNetZero(s: string, j: nat)
    requires |s| == j + 1 && s[j] == '}' && Net(s[..j]) == 1
    ensures Net(s[LastZero(s, j)..]) == 0
  {
    var L := LastZero(s, j);
    assert s[..|s|] == s;
    assert Net(s) == Net(s[..j]) + Delta(s[j]) == 0;
    NetOfSlice(s, L, |s|);
    assert s[L..][..|s| - L] == s[L..];
  }

  /** The span taken at a closing brace that brings the net count from 1 to 0 is a balanced object. */
  lemma SpanAtCloseIsObject(s: string, j: nat)
    requires |s| == j + 1 && s[j] == '}' && Net(s[..j]) == 1
    ensures IsObjectSpan(s[LastZero(s, j)..])
  {
    SpanPrefixesPositive(s, j);
    SpanFirstIsOpen(s, j);
    SpanNetZero(s, j);
  }

  /** Whatever the text, every span the splitter finds is a balanced object. */
  lemma {:induction false} TopSpansAreObjects(s: string)
    ensures forall t :: t in TopSpans(s) ==> IsObjectSpan(t)
    decreases |s|
  {
    if s != [] {
      var j := |s| - 1;
      TopSpansAreObjects(s[..j]);
      if s[j] == '}' && Net(s[..j]) == 1 {
        SpanAtCloseIsObject(s, j);
      }
    }
  }

  // ---------------------------------------------------------------------
  // Framing: objects between brace-free separators.

  /** Between records: depth 0 and no record open. */
  predicate AtTop(r: ScanResult)
  {
    r.state.depth == 0 && !r.state.open
  }

  lemma {:induction false} ScanSeparator(r: ScanResult, sep: string)
    requires AtTop(r) && NoBraces(sep)
    ensures AtTop(ScanFrom(r, sep)) && ScanFrom(r, sep).spans == r.spans
    decreases |sep|
  {
    if sep != [] {
      ScanSeparator(r, sep[..|sep| - 1]);
    }
  }

  lemma ScanFromSnoc(r: ScanResult, s: string, c: char)
    ensures ScanFrom(r, s + [c]) == Advance(ScanFrom(r, s), c)
  {
    assert (s + [c])[..|s|] == s;
  }

  /** Scanning one more character of a text advances the scan of the shorter prefix. */
  lemma ScanPrefixStep(s: string, k: nat)
    requires 0 < k <= |s|
    ensures Scan(s[..k]) == Advance(Scan(s[..k - 1]), s[k - 1])
  {
    assert s[..k][..k - 1] == s[..k - 1];
  }

  /** A `{` between records opens one. */
  lemma AdvanceOpens(r: ScanResult)
    requires AtTop(r)
    ensures Advance(r, '{') == ScanResult(Scanner(1, true, ['{']), r.spans)
  {
  }

  /** Inside a record, a character that leaves the count positive only extends the buffer. */
  lemma AdvanceInside(r: ScanResult, c: char)
    requires r.state.open && r.state.depth >= 1 && r.state.depth + Delta(c) >= 1
    ensures Advance(r, c) == ScanResult(Scanner(r.state.depth + Delta(c), true, r.state.buffer + [c]), r.spans)
  {
  }

  lemma {:induction false} ScanInsideObject(r: ScanResult, obj: string, k: nat)
    requires AtTop(r) && IsObjectSpan(obj) && 1 <= k < |obj|
    ensures ScanFrom(r, obj[..k]) == ScanResult(Scanner(Net(obj[..k]), true, obj[..k]), r.spans)
    decreases k
  {
    var prefix, c := obj[..k - 1], obj[k - 1];
    assert obj[..k] == prefix + [c];
    ScanFromSnoc(r, prefix, c);
    assert Net(obj[..k]) == Net(prefix) + Delta(c);
    if k == 1 {
      assert prefix == [];
      AdvanceOpens(r);
    } else {
      ScanInsideObject(r, obj, k - 1);
      assert Net(prefix) >= 1 && Net(obj[..k]) >= 1;
      AdvanceInside(ScanFrom(r, prefix), c);
    }
  }

  lemma ScanObject(r: ScanResult, obj: string)
    requires AtTop(r) && IsObjectSpan(obj)
    ensures AtTop(ScanFrom(r, obj)) && ScanFrom(r, obj).spans == r.spans + [obj]
  {
    var n := |obj|;
    ScanInsideObject(r, obj, n - 1);
    assert obj[..n] == obj;
    assert obj == obj[..n - 1] + [obj[n - 1]];
  }

  /** The text sep0 obj0 sep1 obj1 ... obj(n-1) sepn. */
  function Frame(seps: seq<string>, objs: seq<string>): string
    requires |seps| == |objs| + 1
    decreases |objs|
  {
    if objs == [] then seps[0]
    else Frame(seps[..|objs|], objs[..|objs| - 1]) + objs[|objs| - 1] + seps[|objs|]
  }

  lemma {:induction false} ScanFrame(seps: seq<string>, objs: seq<string>)
    requires |seps| == |objs| + 1
    requires forall i :: 0 <= i < |seps| ==> NoBraces(seps[i])
    requires forall i :: 0 <= i < |objs| ==> IsObjectSpan(objs[i])
    ensures AtTop(Scan(Frame(seps, objs))) && Scan(Frame(seps, objs)).spans == objs
    decreases |objs|
  {
    var init := ScanResult(Start, []);
    if objs == [] {
      ScanSeparator(init, seps[0]);
    } else {
      var n := |objs|;
      var prefix := Frame(seps[..n], objs[..n - 1]);
      ScanFrame(seps[..n], objs[..n - 1]);
      ScanFromAppend(init, prefix, objs[n - 1]);
      ScanObject(Scan(prefix), objs[n - 1]);
      ScanFromAppend(init, prefix + objs[n - 1], seps[n]);
      ScanSeparator(ScanFrom(init, prefix + objs[n - 1]), seps[n]);
      assert objs[..n - 1] + [objs[n - 1]] == objs;
    }
  }

  /**
   * Balanced objects separated by any brace-free text are handed over
   * exactly, once each and in order; the separators never reach the parser.
   */
  lemma SplitFramed(seps: seq<string>, objs: seq<string>)
    requires |seps| == |objs| + 1
    requires forall i :: 0 <= i < |seps| ==> NoBraces(seps[i])
    requires forall i :: 0 <= i < |objs| ==> IsObjectSpan(objs[i])
    ensures TopSpans(Frame(seps, objs)) == objs
  {
    ScanFrame(seps, objs);
    ScanMatchesTopSpans(Frame(seps, objs));
  }

  // ---------------------------------------------------------------------
  // Braces inside string values, as written.

  /**
   * Braces are counted inside string values too. The record `{"n":"}"}`
   * is cut after its quoted brace, and the scan ends one below depth 0
   * with no record open, so no later `{` starts a record either.
   */
  lemma BraceInStringCutsRecord()
    ensures var record := "{\"n\":\"}\"}";
      Scan(record).spans == ["{\"n\":\"}"] && Scan(record).state.depth == -1 && !Scan(record).state.open
  {
    var p, q := "\"n\":\"", "\"";
    BracedIsObject(p);
    BraceAfterRecord("{" + p + "}", q);
    assert "{" + p + "}" == "{\"n\":\"}";
    assert "{" + p + "}" + q + "}" == "{\"n\":\"}\"}";
  }

  /** A closing brace after an object and brace-free text takes the count below 0 without cutting anything. */
  lemma BraceAfterRecord(obj: string, q: string)
    requires IsObjectSpan(obj) && NoBraces(q)
    ensures var r := Scan(obj + q + "}");
      r.spans == [obj] && r.state.depth == -1 && !r.state.open
  {
    var r0 := ScanResult(Start, []);
    ScanObject(r0, obj);
    ScanFromAppend(r0, obj, q);
    ScanSeparator(ScanFrom(r0, obj), q);
    ScanFromSnoc(r0, obj + q, '}');
  }

  lemma {:induction false} NoBracesNet(p: string)
    requires NoBraces(p)
    ensures Net(p) == 0
    decreases |p|
  {
    if p != [] {
      NoBracesNet(p[..|p| - 1]);
    }
  }

  /** Brace-free text between one pair of braces is a balanced object. */
  lemma BracedIsObject(p: string)
    requires NoBraces(p)
    ensures IsObjectSpan("{" + p + "}")
  {
    var t := "{" + p + "}";
    forall k | 0 < k < |t|
      ensures Net(t[..k]) >= 1
    {
      assert t[..k] == "{" + p[..k - 1];
      NetAppend("{", p[..k - 1]);
      NoBracesNet(p[..k - 1]);
    }
    assert t[..|t| - 1] == "{" + p;
    NetAppend("{", p);
    NoBracesNet(p);
  }
}
