/**
 `search_in_file` of ocr_reader.py (ocr_reader.py:79-106): the scan over the
 list `readlines()` returns. Every line is tested, whether or not it is
 already part of an earlier snippet, so the snippets of nearby matches
 overlap.
 */
module IndexedSearch {
  import opened Text
  import opened Corpus

  /** The indices below `bound` of the lines that contain the keyword, in file order. */
  function MatchesBelow(keyword: string, lines: seq<string>, bound: nat): (ms: seq<nat>)
    requires bound <= |lines|
    ensures InRange(lines, ms)
    ensures forall k :: 0 <= k < |ms| ==> ms[k] < bound
  {
    if bound == 0 then []
    else if Matches(keyword, lines[bound - 1]) then MatchesBelow(keyword, lines, bound - 1) + [bound - 1]
    else MatchesBelow(keyword, lines, bound - 1)
  }

  /** The match indices are increasing, and an index is one exactly when its line
      contains the keyword. */
  lemma {:induction false} MatchesBelowShape(keyword: string, lines: seq<string>, bound: nat)
    requires bound <= |lines|
    ensures Increasing(MatchesBelow(keyword, lines, bound))
    ensures forall i: nat :: i in MatchesBelow(keyword, lines, bound) <==>
              i < bound && Matches(keyword, lines[i])
    decreases bound
  {
    if bound > 0 {
      MatchesBelowShape(keyword, lines, bound - 1);
    }
  }

  /** Raising the bound only appends match indices. */
  lemma {:induction false} MatchesBelowPrefix(keyword: string, lines: seq<string>, b: nat, c: nat)
    requires b <= c <= |lines|
    ensures MatchesBelow(keyword, lines, b) <= MatchesBelow(keyword, lines, c)
    decreases c - b
  {
    if b < c {
      MatchesBelowPrefix(keyword, lines, b, c - 1);
    }
  }

  /** What ocr_reader.py's `search_in_file` returns: the file-not-found entry; the
      read-error entry alone when `readlines` raises; otherwise the snippets of the
      first `MaxResults` matching lines, or the no-match entry. */
  function Search(keyword: string, file: CorpusFile): (r: seq<string>)
    ensures 1 <= |r| <= MaxResults
    ensures file.Missing? ==> r == [FileNotFound()]
    ensures file.Present? && file.failure.Some? && file.failure.value.at <= |file.lines| ==>
              r == [ReadError(file.failure.value.message)]
  {
    match file
    case Missing => [FileNotFound()]
    case Present(lines, failure) =>
      if failure.Some? && failure.value.at <= |lines| then
        [ReadError(failure.value.message)]
      else
        var qs := Take(MatchesBelow(keyword, lines, |lines|), MaxResults);
        if qs == [] then [NoMatch(keyword)] else Snippets(lines, qs)
  }

  lemma MatchesBelowStep(keyword: string, lines: seq<string>, i: nat)
    requires i < |lines|
    ensures MatchesBelow(keyword, lines, i + 1) ==
            if Matches(keyword, lines[i]) then MatchesBelow(keyword, lines, i) + [i]
            else MatchesBelow(keyword, lines, i)
  {
  }

  lemma {:induction false} SnippetsSnoc(lines: seq<string>, ps: seq<nat>, p: nat)
    requires InRange(lines, ps) && p < |lines|
    ensures InRange(lines, ps + [p])
    ensures Snippets(lines, ps + [p]) == Snippets(lines, ps) + [Snippet(lines, p)]
    decreases |ps|
  {
    if ps == [] {
      assert ps + [p] == [p];
      assert [p][1..] == [];
    } else {
      assert (ps + [p])[1..] == ps[1..] + [p];
      SnippetsSnoc(lines, ps[1..], p);
    }
  }

  /** `search_in_file` of ocr_reader.py: the existence check, `readlines`, the
      scan, and the no-match entry when the scan found nothing. */
  method SearchInFile(keyword: string, file: CorpusFile) returns (results: seq<string>)
    ensures results == Search(keyword, file)
  {
    if file.Missing? {
      return [FileNotFound()];
    }
    var lines := file.lines;
    if file.failure.Some? && file.failure.value.at <= |lines| {
      return [ReadError(file.failure.value.message)];
    }
    results := CollectSnippets(keyword, lines);
    if results == [] {
      results := [NoMatch(keyword)];
    }
  }

  /** The outer loop over the line indices, with its early exit once `MaxResults`
      snippets are collected: the snippets of the first `MaxResults` matching lines. */
  method CollectSnippets(keyword: string, lines: seq<string>) returns (results: seq<string>)
    ensures var qs := Take(MatchesBelow(keyword, lines, |lines|), MaxResults);
            InRange(lines, qs) && results == Snippets(lines, qs)
  {
    results := [];
    var i := 0;
    assert MatchesBelow(keyword, lines, 0) == [];
    while i < |lines|
      invariant i <= |lines|
      invariant results == Snippets(lines, MatchesBelow(keyword, lines, i))
      invariant |results| < MaxResults
    {
      results := TestLine(keyword, lines, i, results);
      if |results| >= MaxResults {
        TakeAtCap(keyword, lines, i + 1);
        return;
      }
      i := i + 1;
    }
  }

  /** One pass of the outer loop's body: a matching line adds its snippet. */
  method TestLine(keyword: string, lines: seq<string>, i: nat, results: seq<string>) returns (r: seq<string>)
    requires i < |lines|
    requires results == Snippets(lines, MatchesBelow(keyword, lines, i))
    ensures r == Snippets(lines, MatchesBelow(keyword, lines, i + 1))
  {
    SnippetsStep(keyword, lines, i);
    r := results;
    if Matches(keyword, lines[i]) {
      var snippet := BuildSnippet(lines, i);
      r := results + [snippet];
    }
  }

  /** Testing line `i` adds its snippet exactly when it matches. */
  lemma SnippetsStep(keyword: string, lines: seq<string>, i: nat)
    requires i < |lines|
    ensures Snippets(lines, MatchesBelow(keyword, lines, i + 1)) ==
            if Matches(keyword, lines[i])
            then Snippets(lines, MatchesBelow(keyword, lines, i)) + [Snippet(lines, i)]
            else Snippets(lines, MatchesBelow(keyword, lines, i))
  {
    MatchesBelowStep(keyword, lines, i);
    if Matches(keyword, lines[i]) {
      SnippetsSnoc(lines, MatchesBelow(keyword, lines, i), i);
    }
  }

  /** Once `MaxResults` matches are found below `b`, they are the first `MaxResults` of all. */
  lemma TakeAtCap(keyword: string, lines: seq<string>, b: nat)
    requires b <= |lines| && |MatchesBelow(keyword, lines, b)| >= MaxResults
    ensures Take(MatchesBelow(keyword, lines, |lines|), MaxResults) ==
            Take(MatchesBelow(keyword, lines, b), MaxResults)
  {
    MatchesBelowPrefix(keyword, lines, b, |lines|);
  }

  /** The inner loop: the stripped matching line, then "\n" and each of the next
      `ContextLines` lines stripped, as far as the file has them. */
  method BuildSnippet(lines: seq<string>, i: nat) returns (snippet: string)
    requires i < |lines|
    ensures snippet == Snippet(lines, i)
  {
    var context := "";
    var j := 1;
    while j <= ContextLines
      invariant 1 <= j <= ContextLines + 1
      invariant context == ContextText(lines, i + 1, j - 1)
    {
      ContextTextSnoc(lines, i + 1, j - 1);
      if i + j < |lines| {
        context := context + ContextEntry(lines[i + j]);
      }
      j := j + 1;
    }
    snippet := Strip(lines[i]) + context;
  }
}
