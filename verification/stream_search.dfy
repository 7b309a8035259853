/**
 `search_in_file` of main.py (main.py:102-146): the scan that pulls its
 context lines out of the same file iterator it is looping over.

 The file is a sequence of raw lines read one position at a time; a read
 either yields the line, reports the end of the file (`next(file, None)`
 returning `None`) or raises. Because the context lines are taken from the
 iterator, the loop never tests them: testing resumes after the last line
 a snippet consumed.
 */
module StreamSearch {
  import opened Wrappers
  import opened Ints
  import opened Text
  import opened Corpus

  /** What one read of the file iterator gives. */
  datatype Read = Line(text: string) | EndOfFile | Raised(message: string)

  /** The read at position `pos`. Positions at or past the end are the end-of-file read. */
  function ReadAt(lines: seq<string>, failure: Option<ReadFailure>, pos: nat): (r: Read)
    ensures r.Line? <==> pos < |lines| && (failure.None? || failure.value.at != pos)
    ensures r.Line? ==> r.text == lines[pos]
    ensures r.Raised? <==> failure.Some? && failure.value.at == pos
  {
    if failure.Some? && failure.value.at == pos then Raised(failure.value.message)
    else if pos < |lines| then Line(lines[pos])
    else EndOfFile
  }

  /** The position whose read raises, or `|lines| + 1` when no read of the scan can raise. */
  function FailPos(lines: seq<string>, failure: Option<ReadFailure>): (r: nat) {
    if failure.Some? && failure.value.at <= |lines| then failure.value.at else |lines| + 1
  }

  function FailMessage(failure: Option<ReadFailure>): (r: string) {
    if failure.Some? then failure.value.message else ""
  }

  datatype ContextRead = ContextFailed(message: string) | ContextRead(text: string, next: nat)

  /** The inner `for _ in range(n)` loop: `n` calls of `next(file, None)` from `pos`,
      each line read appended as "\n" + its stripped text when it is truthy. */
  function ReadContext(lines: seq<string>, failure: Option<ReadFailure>, pos: nat, n: nat): (r: ContextRead)
    requires pos <= |lines|
    ensures r.ContextRead? ==> pos <= r.next <= |lines|
    ensures r.ContextFailed? ==> failure.Some? && failure.value.at <= |lines| && r.message == failure.value.message
    decreases n
  {
    if n == 0 then ContextRead("", pos)
    else
      match ReadAt(lines, failure, pos)
      case Raised(message) => ContextFailed(message)
      case EndOfFile => ReadContext(lines, failure, pos, n - 1)
      case Line(t) =>
        match ReadContext(lines, failure, pos + 1, n - 1)
        case ContextFailed(message) => ContextFailed(message)
        case ContextRead(rest, next) =>
          ContextRead((if t != "" then ContextEntry(t) else "") + rest, next)
  }

  datatype ScanEnd = Finished(found: seq<string>) | Aborted(found: seq<string>, message: string)

  /** The outer `for line in file` loop from position `pos`, with `found` already collected. */
  function Scan(keyword: string, lines: seq<string>, failure: Option<ReadFailure>,
                pos: nat, found: seq<string>): (r: ScanEnd)
    requires pos <= |lines|
    requires |found| < MaxResults
    ensures found <= r.found && |r.found| <= MaxResults
    ensures r.Aborted? ==> failure.Some? && failure.value.at <= |lines| && r.message == failure.value.message
    ensures r.Aborted? ==> |r.found| < MaxResults
    decreases |lines| - pos
  {
    match ReadAt(lines, failure, pos)
    case Raised(message) => Aborted(found, message)
    case EndOfFile => Finished(found)
    case Line(t) =>
      if !Matches(keyword, t) then
        Scan(keyword, lines, failure, pos + 1, found)
      else
        match ReadContext(lines, failure, pos + 1, ContextLines)
        case ContextFailed(message) => Aborted(found, message)
        case ContextRead(context, next) =>
          var found' := found + [Strip(t) + context];
          if |found'| >= MaxResults then Finished(found')
          else Scan(keyword, lines, failure, next, found')
  }

  /** The result of main.py's `search_in_file`, and what it does to the
      `is_running` flag and to the root window. */
  datatype StreamOutcome = StreamOutcome(entries: seq<string>, running: bool, rootAlive: bool)

  function Search(keyword: string, file: CorpusFile, running: bool, rootAlive: bool): (r: StreamOutcome)
    ensures file.Missing? ==> r == StreamOutcome([FileNotFound()], false, false)
    ensures file.Present? ==> r.running == running && r.rootAlive == rootAlive
    ensures 1 <= |r.entries| <= MaxResults
  {
    match file
    case Missing => StreamOutcome([FileNotFound()], false, false)
    case Present(lines, failure) =>
      match Scan(keyword, lines, failure, 0, [])
      case Finished(found) =>
        StreamOutcome(if found == [] then [NoMatch(keyword)] else found, running, rootAlive)
      case Aborted(found, message) =>
        StreamOutcome(found + [ReadError(message)], running, rootAlive)
  }

  // ---------------------------------------------------------------------------
  // Which lines start a snippet
  // ---------------------------------------------------------------------------

  /** The lines the iterator-consuming scan turns into snippets, from `pos` on and
      without the cap: a tested line that matches starts a snippet, and its
      `ContextLines` successors are consumed without being tested. */
  function StreamStarts(keyword: string, lines: seq<string>, pos: nat): (ps: seq<nat>)
    ensures forall k :: 0 <= k < |ps| ==> pos <= ps[k] < |lines|
    decreases |lines| - pos
  {
    if pos >= |lines| then []
    else if Matches(keyword, lines[pos]) then [pos] + StreamStarts(keyword, lines, pos + ContextLines + 1)
    else StreamStarts(keyword, lines, pos + 1)
  }

  /** Line `i` lies in the context window of a snippet started in `ps`. */
  ghost predicate InWindow(ps: seq<nat>, i: nat) {
    exists k :: 0 <= k < |ps| && ps[k] < i <= ps[k] + ContextLines
  }

  /** Consecutive snippet starts are more than a window apart. */
  predicate Spaced(ps: seq<nat>) {
    forall k :: 0 <= k < |ps| - 1 ==> ps[k] + ContextLines < ps[k + 1]
  }

  lemma SpacedIncreasing(ps: seq<nat>)
    requires Spaced(ps)
    ensures Increasing(ps)
  {
    forall k, l | 0 <= k < l < |ps|
      ensures ps[k] < ps[l]
    {
      SpacedIncreasingFrom(ps, k, l);
    }
  }

  lemma {:induction false} SpacedIncreasingFrom(ps: seq<nat>, k: nat, l: nat)
    requires Spaced(ps) && k < l < |ps|
    ensures ps[k] + ContextLines < ps[l]
    decreases l - k
  {
    if k + 1 < l {
      SpacedIncreasingFrom(ps, k + 1, l);
    }
  }

  /** The shape of the stream scan's snippet starts: windows never overlap, and a
      line from `pos` on starts a snippet exactly when it matches and is not a
      context line of an earlier snippet. */
  lemma {:induction false} StreamStartsShape(keyword: string, lines: seq<string>, pos: nat)
    ensures Spaced(StreamStarts(keyword, lines, pos))
    ensures forall i: nat :: pos <= i < |lines| ==>
              (i in StreamStarts(keyword, lines, pos) <==>
               Matches(keyword, lines[i]) && !InWindow(StreamStarts(keyword, lines, pos), i))
    decreases |lines| - pos
  {
    var ps := StreamStarts(keyword, lines, pos);
    if pos >= |lines| {
    } else if !Matches(keyword, lines[pos]) {
      StreamStartsShape(keyword, lines, pos + 1);
    } else {
      var next := pos + ContextLines + 1;
      var rest := StreamStarts(keyword, lines, next);
      StreamStartsShape(keyword, lines, next);
      assert ps == [pos] + rest;
      forall i: nat | pos <= i < |lines|
        ensures i in ps <==> Matches(keyword, lines[i]) && !InWindow(ps, i)
      {
        if i == pos {
          assert ps[0] == pos;
        } else if i < next {
          assert InWindow(ps, i) by {
            assert ps[0] < i <= ps[0] + ContextLines;
          }
          assert i !in rest;
        } else {
          assert InWindow(ps, i) <==> InWindow(rest, i) by {
            if InWindow(ps, i) {
              var k :| 0 <= k < |ps| && ps[k] < i <= ps[k] + ContextLines;
              assert k != 0;
              assert rest[k - 1] == ps[k];
            }
            if InWindow(rest, i) {
              var k :| 0 <= k < |rest| && rest[k] < i <= rest[k] + ContextLines;
              assert ps[k + 1] == rest[k];
            }
          }
        }
      }
    }
  }

  /** The snippet starts are pinned down by their shape: any spaced sequence of
      line indices in which a line starts a snippet exactly when it matches and
      lies in no earlier window is the stream scan's. */
  lemma StreamStartsUnique(keyword: string, lines: seq<string>, ps: seq<nat>)
    requires InRange(lines, ps)
    requires Spaced(ps)
    requires forall i: nat :: i < |lines| ==>
               (i in ps <==> Matches(keyword, lines[i]) && !InWindow(ps, i))
    ensures ps == StreamStarts(keyword, lines, 0)
  {
    var qs := StreamStarts(keyword, lines, 0);
    StreamStartsShape(keyword, lines, 0);
    forall i: nat
      ensures i in ps <==> i in qs
    {
      SameStartsBelow(keyword, lines, ps, qs, i + 1);
    }
    SpacedIncreasing(ps);
    SpacedIncreasing(qs);
    IncreasingUnique(ps, qs);
  }

  /** Two sequences with the starts' shape agree on every index below `bound`. */
  lemma {:induction false} SameStartsBelow(keyword: string, lines: seq<string>, ps: seq<nat>, qs: seq<nat>, bound: nat)
    requires InRange(lines, ps) && InRange(lines, qs)
    requires forall i: nat :: i < |lines| ==>
               (i in ps <==> Matches(keyword, lines[i]) && !InWindow(ps, i))
    requires forall i: nat :: i < |lines| ==>
               (i in qs <==> Matches(keyword, lines[i]) && !InWindow(qs, i))
    ensures forall i: nat :: i < bound ==> (i in ps <==> i in qs)
    decreases bound
  {
    if bound > 0 {
      var i := bound - 1;
      SameStartsBelow(keyword, lines, ps, qs, i);
      if i < |lines| {
        assert InWindow(ps, i) <==> InWindow(qs, i) by {
          if InWindow(ps, i) {
            var k :| 0 <= k < |ps| && ps[k] < i <= ps[k] + ContextLines;
            assert ps[k] in qs;
            var l :| 0 <= l < |qs| && qs[l] == ps[k];
          }
          if InWindow(qs, i) {
            var k :| 0 <= k < |qs| && qs[k] < i <= qs[k] + ContextLines;
            assert qs[k] in ps;
            var l :| 0 <= l < |ps| && ps[l] == qs[k];
          }
        }
      } else {
        assert i !in ps && i !in qs;
      }
    }
  }

  // ---------------------------------------------------------------------------
  // What the scan returns
  // ---------------------------------------------------------------------------

  /** How many of the snippets started at `ps` were read completely before the read of `f`. */
  function KeptCount(lines: seq<string>, ps: seq<nat>, f: nat): (n: nat)
    ensures n <= |ps|
  {
    if ps == [] || WindowEnd(lines, ps[0]) >= f then 0
    else 1 + KeptCount(lines, ps[1..], f)
  }

  /** What the context loop from `pos` promises: it raises exactly when the failing
      position is among the `n` positions read, and otherwise yields the context
      text of the lines it passed and stops after the last of them. */
  predicate ReadContextMeets(lines: seq<string>, failure: Option<ReadFailure>, pos: nat, n: nat)
    requires pos <= |lines|
  {
    var r := ReadContext(lines, failure, pos, n);
    && (r.ContextFailed? <==> n > 0 && pos <= FailPos(lines, failure) <= Min(pos + n - 1, |lines|))
    && (r.ContextRead? ==> r.text == ContextText(lines, pos, n) && r.next == Min(pos + n, |lines|))
  }

  lemma {:induction false} ReadContextSpec(lines: seq<string>, failure: Option<ReadFailure>, pos: nat, n: nat)
    requires pos <= |lines|
    requires ReaderLines(lines)
    ensures ReadContextMeets(lines, failure, pos, n)
    decreases n
  {
    if n == 0 {
    } else {
      match ReadAt(lines, failure, pos)
      case Raised(message) =>
        ReadContextRaised(lines, failure, pos, n);
      case EndOfFile =>
        ReadContextSpec(lines, failure, pos, n - 1);
        ReadContextEnd(lines, failure, pos, n);
      case Line(t) =>
        ReadContextSpec(lines, failure, pos + 1, n - 1);
        ReadContextLine(lines, failure, pos, n);
    }
  }

  lemma ReadContextRaised(lines: seq<string>, failure: Option<ReadFailure>, pos: nat, n: nat)
    requires pos <= |lines| && n > 0
    requires ReadAt(lines, failure, pos).Raised?
    ensures ReadContextMeets(lines, failure, pos, n)
  {
    assert FailPos(lines, failure) == pos;
  }

  lemma ReadContextEnd(lines: seq<string>, failure: Option<ReadFailure>, pos: nat, n: nat)
    requires pos <= |lines| && n > 0
    requires ReadAt(lines, failure, pos).EndOfFile?
    requires ReadContextMeets(lines, failure, pos, n - 1)
    ensures ReadContextMeets(lines, failure, pos, n)
  {
    assert pos == |lines| && FailPos(lines, failure) != pos;
    assert ReadContext(lines, failure, pos, n) == ReadContext(lines, failure, pos, n - 1);
  }

  /** One line of context read: its entry goes in front of what the remaining reads give. */
  lemma ReadContextLine(lines: seq<string>, failure: Option<ReadFailure>, pos: nat, n: nat)
    requires pos < |lines| && n > 0
    requires ReaderLines(lines)
    requires ReadAt(lines, failure, pos).Line?
    requires ReadContextMeets(lines, failure, pos + 1, n - 1)
    ensures ReadContextMeets(lines, failure, pos, n)
  {
    var t := lines[pos];
    var r' := ReadContext(lines, failure, pos + 1, n - 1);
    var r := ReadContext(lines, failure, pos, n);
    assert t != "";
    assert FailPos(lines, failure) != pos;
    if r'.ContextRead? {
      var e := ContextEntry(t);
      assert r == ContextRead(e + r'.text, r'.next);
      assert ContextText(lines, pos, n) == e + ContextText(lines, pos + 1, n - 1);
    } else {
      assert r.ContextFailed?;
    }
  }

  lemma TakeInRange(lines: seq<string>, ps: seq<nat>, m: nat, n: nat)
    requires InRange(lines, ps)
    requires n <= |Take(ps, m)|
    ensures InRange(lines, Take(ps, m)[..n])
  {
    var qs := Take(ps, m);
    assert forall k :: 0 <= k < n ==> qs[..n][k] == ps[k];
  }

  /** The end of a scan that has `found` and still starts the snippets at `qs`
      (at most `m` of them) when the read of `f` raises: the snippets are cut short
      at the first one whose window holds that read. */
  function ScanOutcome(lines: seq<string>, qs: seq<nat>, m: nat, f: nat,
                       found: seq<string>, message: string): (r: ScanEnd)
    requires InRange(lines, qs) && |qs| <= m
  {
    var n := KeptCount(lines, qs, f);
    if n < |qs| || (|qs| < m && f <= |lines|)
    then Aborted(found + Snippets(lines, qs[..n]), message)
    else Finished(found + Snippets(lines, qs))
  }

  /** A snippet read to the end moves from the pending starts to `found`. */
  lemma ScanOutcomeCons(lines: seq<string>, p: nat, rest: seq<nat>, m: nat, f: nat,
                        found: seq<string>, message: string)
    requires p < |lines| && WindowEnd(lines, p) < f && m > 1
    requires InRange(lines, rest) && |rest| <= m - 1
    ensures InRange(lines, [p] + rest)
    ensures ScanOutcome(lines, [p] + rest, m, f, found, message) ==
            ScanOutcome(lines, rest, m - 1, f, found + [Snippet(lines, p)], message)
  {
    var qs := [p] + rest;
    var n' := KeptCount(lines, rest, f);
    assert qs[1..] == rest;
    assert KeptCount(lines, qs, f) == 1 + n';
    assert qs[..1 + n'] == [p] + rest[..n'];
    SnippetsCons(lines, p, rest[..n']);
    SnippetsCons(lines, p, rest);
    AppendOne(found, Snippet(lines, p), Snippets(lines, rest[..n']));
    AppendOne(found, Snippet(lines, p), Snippets(lines, rest));
  }

  /** What the outer loop from `pos` returns. */
  ghost function ExpectedScan(keyword: string, lines: seq<string>, failure: Option<ReadFailure>,
                              pos: nat, found: seq<string>): (r: ScanEnd)
    requires |found| < MaxResults
  {
    ScanOutcome(lines, Take(StreamStarts(keyword, lines, pos), MaxResults - |found|), MaxResults - |found|,
                FailPos(lines, failure), found, FailMessage(failure))
  }

  /** The outer loop, from a tested position `pos` that the failing read has not
      passed, returns the expected snippets. */
  lemma {:induction false} ScanSpec(keyword: string, lines: seq<string>, failure: Option<ReadFailure>,
                                    pos: nat, found: seq<string>)
    requires pos <= |lines| && |found| < MaxResults
    requires ReaderLines(lines)
    requires pos <= FailPos(lines, failure)
    ensures Scan(keyword, lines, failure, pos, found) == ExpectedScan(keyword, lines, failure, pos, found)
    decreases |lines| - pos
  {
    var f := FailPos(lines, failure);
    match ReadAt(lines, failure, pos)
    case Raised(message) =>
      ScanRaised(keyword, lines, failure, pos, found);
    case EndOfFile =>
      assert StreamStarts(keyword, lines, pos) == [];
    case Line(t) =>
      if !Matches(keyword, t) {
        ScanSpec(keyword, lines, failure, pos + 1, found);
      } else {
        ReadContextSpec(lines, failure, pos + 1, ContextLines);
        if f <= WindowEnd(lines, pos) {
          ScanWindowRaises(keyword, lines, failure, pos, found);
        } else if |found| + 1 == MaxResults {
          ScanLastSnippet(keyword, lines, failure, pos, found);
        } else {
          var next := Min(pos + ContextLines + 1, |lines|);
          var found' := found + [Snippet(lines, pos)];
          ScanSpec(keyword, lines, failure, next, found');
          ScanNextSnippet(keyword, lines, failure, pos, found);
        }
      }
  }

  lemma ScanRaised(keyword: string, lines: seq<string>, failure: Option<ReadFailure>,
                   pos: nat, found: seq<string>)
    requires pos <= |lines| && |found| < MaxResults
    requires ReadAt(lines, failure, pos).Raised?
    ensures Scan(keyword, lines, failure, pos, found) == ExpectedScan(keyword, lines, failure, pos, found)
  {
    var qs := Take(StreamStarts(keyword, lines, pos), MaxResults - |found|);
    var f := FailPos(lines, failure);
    assert f == pos;
    if qs != [] {
      assert WindowEnd(lines, qs[0]) >= f;
    }
    assert KeptCount(lines, qs, f) == 0;
    assert qs[..0] == [];
  }

  lemma ScanWindowRaises(keyword: string, lines: seq<string>, failure: Option<ReadFailure>,
                         pos: nat, found: seq<string>)
    requires pos < |lines| && |found| < MaxResults
    requires ReaderLines(lines)
    requires pos <= FailPos(lines, failure) <= WindowEnd(lines, pos)
    requires ReadAt(lines, failure, pos).Line? && Matches(keyword, lines[pos])
    requires ReadContext(lines, failure, pos + 1, ContextLines).ContextFailed? <==>
             pos + 1 <= FailPos(lines, failure) <= Min(pos + ContextLines, |lines|)
    ensures Scan(keyword, lines, failure, pos, found) == ExpectedScan(keyword, lines, failure, pos, found)
  {
    var qs := Take(StreamStarts(keyword, lines, pos), MaxResults - |found|);
    assert qs[0] == pos;
    assert KeptCount(lines, qs, FailPos(lines, failure)) == 0;
    assert qs[..0] == [];
  }

  lemma ScanLastSnippet(keyword: string, lines: seq<string>, failure: Option<ReadFailure>,
                        pos: nat, found: seq<string>)
    requires pos < |lines| && |found| + 1 == MaxResults
    requires ReaderLines(lines)
    requires WindowEnd(lines, pos) < FailPos(lines, failure)
    requires ReadAt(lines, failure, pos).Line? && Matches(keyword, lines[pos])
    requires var r := ReadContext(lines, failure, pos + 1, ContextLines);
             r.ContextRead? && r.text == ContextText(lines, pos + 1, ContextLines)
    ensures Scan(keyword, lines, failure, pos, found) == ExpectedScan(keyword, lines, failure, pos, found)
  {
    var qs := Take(StreamStarts(keyword, lines, pos), 1);
    assert qs == [pos];
    assert KeptCount(lines, qs, FailPos(lines, failure)) == 1;
    assert Snippets(lines, qs) == [Snippet(lines, pos)];
  }

  lemma ScanNextSnippet(keyword: string, lines: seq<string>, failure: Option<ReadFailure>,
                        pos: nat, found: seq<string>)
    requires pos < |lines| && |found| + 1 < MaxResults
    requires ReaderLines(lines)
    requires WindowEnd(lines, pos) < FailPos(lines, failure)
    requires ReadAt(lines, failure, pos).Line? && Matches(keyword, lines[pos])
    requires var r := ReadContext(lines, failure, pos + 1, ContextLines);
             r.ContextRead? && r.text == ContextText(lines, pos + 1, ContextLines)
             && r.next == Min(pos + ContextLines + 1, |lines|)
    requires var next := Min(pos + ContextLines + 1, |lines|);
             Scan(keyword, lines, failure, next, found + [Snippet(lines, pos)]) ==
             ExpectedScan(keyword, lines, failure, next, found + [Snippet(lines, pos)])
    ensures Scan(keyword, lines, failure, pos, found) == ExpectedScan(keyword, lines, failure, pos, found)
  {
    ScanMatchStep(keyword, lines, failure, pos, found);
    ExpectedMatchStep(keyword, lines, failure, pos, found);
  }

  /** The loop after a complete snippet that is not the last one continues from
      the line after its window with the snippet added. */
  lemma ScanMatchStep(keyword: string, lines: seq<string>, failure: Option<ReadFailure>,
                      pos: nat, found: seq<string>)
    requires pos < |lines| && |found| + 1 < MaxResults
    requires ReadAt(lines, failure, pos).Line? && Matches(keyword, lines[pos])
    requires var r := ReadContext(lines, failure, pos + 1, ContextLines);
             r.ContextRead? && r.text == ContextText(lines, pos + 1, ContextLines)
             && r.next == Min(pos + ContextLines + 1, |lines|)
    ensures Scan(keyword, lines, failure, pos, found) ==
            Scan(keyword, lines, failure, Min(pos + ContextLines + 1, |lines|), found + [Snippet(lines, pos)])
  {
  }

  /** The expected outcome after a complete snippet that is not the last one is the
      expected outcome from the line after its window with the snippet added. */
  lemma ExpectedMatchStep(keyword: string, lines: seq<string>, failure: Option<ReadFailure>,
                          pos: nat, found: seq<string>)
    requires pos < |lines| && |found| + 1 < MaxResults
    requires ReaderLines(lines)
    requires WindowEnd(lines, pos) < FailPos(lines, failure)
    requires Matches(keyword, lines[pos])
    ensures ExpectedScan(keyword, lines, failure, pos, found) ==
            ExpectedScan(keyword, lines, failure, Min(pos + ContextLines + 1, |lines|), found + [Snippet(lines, pos)])
  {
    var m := MaxResults - |found|;
    var next := Min(pos + ContextLines + 1, |lines|);
    var found' := found + [Snippet(lines, pos)];
    var rest := Take(StreamStarts(keyword, lines, next), m - 1);
    assert StreamStarts(keyword, lines, next) == StreamStarts(keyword, lines, pos + ContextLines + 1);
    assert StreamStarts(keyword, lines, pos) == [pos] + StreamStarts(keyword, lines, next);
    TakeCons(pos, StreamStarts(keyword, lines, next), m);
    assert MaxResults - |found'| == m - 1;
    var f := FailPos(lines, failure);
    var msg := FailMessage(failure);
    ScanOutcomeCons(lines, pos, rest, m, f, found, msg);
    ExpectedScanUnfold(keyword, lines, failure, next, found', m - 1);
    ExpectedScanUnfold(keyword, lines, failure, pos, found, m);
  }

  lemma ExpectedScanUnfold(keyword: string, lines: seq<string>, failure: Option<ReadFailure>,
                           pos: nat, found: seq<string>, m: nat)
    requires |found| < MaxResults && m == MaxResults - |found|
    ensures InRange(lines, Take(StreamStarts(keyword, lines, pos), m))
    ensures ExpectedScan(keyword, lines, failure, pos, found) ==
            ScanOutcome(lines, Take(StreamStarts(keyword, lines, pos), m), m,
                        FailPos(lines, failure), found, FailMessage(failure))
  {
  }

  lemma AppendOne<T>(a: seq<T>, x: T, b: seq<T>)
    ensures a + ([x] + b) == (a + [x]) + b
  {
  }

  lemma SnippetsCons(lines: seq<string>, p: nat, ps: seq<nat>)
    requires p < |lines| && InRange(lines, ps)
    ensures InRange(lines, [p] + ps)
    ensures Snippets(lines, [p] + ps) == [Snippet(lines, p)] + Snippets(lines, ps)
  {
    assert ([p] + ps)[1..] == ps;
  }

  /** main.py's `search_in_file` on a corpus that exists: without a failing read the
      entries are the snippets of the first `MaxResults` snippet starts, or the
      no-match sentinel when there are none; a failing read keeps the snippets
      completed before it and appends one read-error entry. */
  lemma StreamSearchEntries(keyword: string, lines: seq<string>, failure: Option<ReadFailure>,
                            running: bool, rootAlive: bool)
    requires ReaderLines(lines)
    ensures var qs := Take(StreamStarts(keyword, lines, 0), MaxResults);
            var f := FailPos(lines, failure);
            var n := KeptCount(lines, qs, f);
            Search(keyword, Present(lines, failure), running, rootAlive).entries ==
              if n < |qs| || (|qs| < MaxResults && f <= |lines|)
              then Snippets(lines, qs[..n]) + [ReadError(FailMessage(failure))]
              else if qs == [] then [NoMatch(keyword)]
              else Snippets(lines, qs)
  {
    var qs := Take(StreamStarts(keyword, lines, 0), MaxResults);
    var f := FailPos(lines, failure);
    var n := KeptCount(lines, qs, f);
    var msg := FailMessage(failure);
    ScanSpec(keyword, lines, failure, 0, []);
    ExpectedScanUnfold(keyword, lines, failure, 0, [], MaxResults);
    var r := Scan(keyword, lines, failure, 0, []);
    assert r == ScanOutcome(lines, qs, MaxResults, f, [], msg);
    if n < |qs| || (|qs| < MaxResults && f <= |lines|) {
      TakeInRange(lines, StreamStarts(keyword, lines, 0), MaxResults, n);
      assert r == Aborted(Snippets(lines, qs[..n]), msg) by {
        assert [] + Snippets(lines, qs[..n]) == Snippets(lines, qs[..n]);
      }
    } else {
      assert r == Finished(Snippets(lines, qs)) by {
        assert [] + Snippets(lines, qs) == Snippets(lines, qs);
      }
    }
  }

  /** Without a failing read the scan returns the first (at most four) snippets in
      file order, or exactly the no-match sentinel. */
  lemma StreamSearchNoFailure(keyword: string, lines: seq<string>, running: bool, rootAlive: bool)
    requires ReaderLines(lines)
    ensures var qs := Take(StreamStarts(keyword, lines, 0), MaxResults);
            var r := Search(keyword, Present(lines, None), running, rootAlive);
            && (qs == [] ==> r.entries == [NoMatch(keyword)])
            && (qs != [] ==> r.entries == Snippets(lines, qs))
            && r.running == running
  {
    var qs := Take(StreamStarts(keyword, lines, 0), MaxResults);
    StreamSearchEntries(keyword, lines, None, running, rootAlive);
    KeptCountBeyondEnd(lines, qs, FailPos(lines, None));
  }

  /** When no read can raise, every started snippet is kept. */
  lemma {:induction false} KeptCountBeyondEnd(lines: seq<string>, ps: seq<nat>, f: nat)
    requires f > |lines|
    ensures KeptCount(lines, ps, f) == |ps|
    decreases |ps|
  {
    if ps != [] {
      KeptCountBeyondEnd(lines, ps[1..], f);
    }
  }

  /** If `open` or the first read fails, the only entry is the read error. */
  lemma StreamSearchOpenFails(keyword: string, lines: seq<string>, message: string,
                              running: bool, rootAlive: bool)
    ensures Search(keyword, Present(lines, Some(ReadFailure(0, message))), running, rootAlive).entries
            == [ReadError(message)]
  {
  }
}
