/**
 The corpus file and what both copies of `search_in_file` share: the
 constants, the sentinel entries, the line test and the shape of a snippet.

 A line of the corpus is the raw string Python's file reader yields, with
 its line terminator; the keyword test runs on that raw line, and snippets
 are built from the stripped lines.
 */
module Corpus {
  import opened Wrappers
  import opened Text

  const TextFilePath := "mb.txt"
  /** At most this many snippets are collected. */
  const MaxResults := 4
  /** Lines that follow a matching line in its snippet (`context_lines=4`). */
  const ContextLines := 4

  /** Reading position `at` raises `message`; `at == |lines|` is the end-of-file read
      and `at == 0` also stands for `open` failing. */
  datatype ReadFailure = ReadFailure(at: nat, message: string)

  /** The corpus file as the program finds it. */
  datatype CorpusFile =
    | Missing
    | Present(lines: seq<string>, failure: Option<ReadFailure>)

  function FileNotFound(): (r: string) {
    "Error: File " + TextFilePath + " not found"
  }

  function NoMatch(keyword: string): (r: string) {
    "No match found for: '" + keyword + "'"
  }

  function ReadError(message: string): (r: string) {
    "[Error reading file: " + message + "]"
  }

  /** `keyword.lower() in line.lower()`. */
  predicate Matches(keyword: string, line: string) {
    Contains(Lower(line), Lower(keyword))
  }

  /** The line test is a case-insensitive substring test. */
  lemma MatchesIff(keyword: string, line: string)
    ensures Matches(keyword, line) <==>
            exists i :: OccursAt(Lower(keyword), Lower(line), i)
  {
    ContainsSpec(Lower(line), Lower(keyword));
  }

  /** Lines as a file reader yields them: never the empty string. */
  predicate ReaderLines(lines: seq<string>) {
    forall j :: 0 <= j < |lines| ==> lines[j] != ""
  }

  /** How one context line joins a snippet: `f"\n{line.strip()}"`. */
  function ContextEntry(line: string): (r: string) {
    "\n" + Strip(line)
  }

  /** The context entries of the (at most) `n` lines from `from` on. */
  function ContextText(lines: seq<string>, from: nat, n: nat): (r: string)
    decreases n
  {
    if n == 0 || from >= |lines| then ""
    else ContextEntry(lines[from]) + ContextText(lines, from + 1, n - 1)
  }

  /** The entry the context line at index `k` adds, or nothing past the end of the file. */
  function EntryAt(lines: seq<string>, k: nat): (r: string) {
    if k < |lines| then ContextEntry(lines[k]) else ""
  }

  /** Growing the context by one line appends that line, if the file still has it. */
  lemma {:induction false} ContextTextSnoc(lines: seq<string>, from: nat, n: nat)
    ensures ContextText(lines, from, n + 1) == ContextText(lines, from, n) + EntryAt(lines, from + n)
    decreases n
  {
    if n == 0 {
      ContextTextOne(lines, from);
    } else if from >= |lines| {
      ContextTextPastEnd(lines, from, n);
    } else {
      var m := n - 1;
      ContextTextSnoc(lines, from + 1, m);
      assert m + 1 == n && from + 1 + m == from + n;
      ContextTextStep(lines, from, n);
    }
  }

  lemma ContextTextOne(lines: seq<string>, from: nat)
    ensures ContextText(lines, from, 1) == ContextText(lines, from, 0) + EntryAt(lines, from)
  {
  }

  lemma ContextTextPastEnd(lines: seq<string>, from: nat, n: nat)
    requires from >= |lines|
    ensures ContextText(lines, from, n + 1) == ContextText(lines, from, n) + EntryAt(lines, from + n)
  {
  }

  lemma ContextTextStep(lines: seq<string>, from: nat, n: nat)
    requires n > 0 && from < |lines|
    requires ContextText(lines, from + 1, n) == ContextText(lines, from + 1, n - 1) + EntryAt(lines, from + n)
    ensures ContextText(lines, from, n + 1) == ContextText(lines, from, n) + EntryAt(lines, from + n)
  {
    var head := ContextEntry(lines[from]);
    var mid := ContextText(lines, from + 1, n - 1);
    var tail := EntryAt(lines, from + n);
    ContextTextUnfold(lines, from, n);
    ContextTextUnfold(lines, from, n + 1);
    Assoc(head, mid, tail);
  }

  lemma ContextTextUnfold(lines: seq<string>, from: nat, n: nat)
    requires n > 0 && from < |lines|
    ensures ContextText(lines, from, n) == ContextEntry(lines[from]) + ContextText(lines, from + 1, n - 1)
  {
  }

  /** The snippet for a match at index `i`: the stripped line and the stripped
      lines after it, each preceded by "\n", up to `ContextLines` of them. */
  function Snippet(lines: seq<string>, i: nat): (r: string)
    requires i < |lines|
  {
    Strip(lines[i]) + ContextText(lines, i + 1, ContextLines)
  }

  /** The last read position of the window of a match at `i`: its last context
      line, or the end-of-file read when the file ends first. */
  function WindowEnd(lines: seq<string>, i: nat): (r: nat) {
    if i + ContextLines < |lines| then i + ContextLines else |lines|
  }

  predicate InRange(lines: seq<string>, ps: seq<nat>) {
    forall k :: 0 <= k < |ps| ==> ps[k] < |lines|
  }

  /** The snippets for the match indices `ps`, in order. */
  function Snippets(lines: seq<string>, ps: seq<nat>): (r: seq<string>)
    requires InRange(lines, ps)
    ensures |r| == |ps|
  {
    if ps == [] then [] else [Snippet(lines, ps[0])] + Snippets(lines, ps[1..])
  }

  /** Entry `k` of the snippets is the snippet of the `k`-th index. */
  lemma {:induction false} SnippetsAt(lines: seq<string>, ps: seq<nat>, k: nat)
    requires InRange(lines, ps) && k < |ps|
    ensures Snippets(lines, ps)[k] == Snippet(lines, ps[k])
    decreases k
  {
    if k > 0 {
      assert ps[1..][k - 1] == ps[k];
      SnippetsAt(lines, ps[1..], k - 1);
    }
  }

  /** `s[:n]`. */
  function Take<T>(s: seq<T>, n: nat): (r: seq<T>)
    ensures |r| == if |s| <= n then |s| else n
    ensures r == s[..|r|]
  {
    if |s| <= n then s else s[..n]
  }

  lemma TakeCons<T>(x: T, s: seq<T>, m: nat)
    requires m > 0
    ensures Take([x] + s, m) == [x] + Take(s, m - 1)
  {
  }

  predicate Increasing(ps: seq<nat>) {
    forall k, l :: 0 <= k < l < |ps| ==> ps[k] < ps[l]
  }

  /** Two increasing sequences with the same elements are the same sequence. */
  lemma {:induction false} IncreasingUnique(ps: seq<nat>, qs: seq<nat>)
    requires Increasing(ps) && Increasing(qs)
    requires forall x :: x in ps <==> x in qs
    ensures ps == qs
    decreases |ps|
  {
    if ps != [] {
      assert ps[0] in ps;
    }
    if qs != [] {
      assert qs[0] in qs;
    }
    if ps == [] {
    } else {
      assert qs != [] by {
        assert ps[0] in ps;
      }
      // the least element of both is the head of both
      assert ps[0] == qs[0] by {
        assert ps[0] in qs;
        assert qs[0] in ps;
      }
      forall x
        ensures x in ps[1..] <==> x in qs[1..]
      {
        if x in ps[1..] {
          var k :| 1 <= k < |ps| && ps[k] == x;
          assert x in qs;
          assert x != qs[0];
        }
        if x in qs[1..] {
          var k :| 1 <= k < |qs| && qs[k] == x;
          assert x in ps;
          assert x != ps[0];
        }
      }
      IncreasingUnique(ps[1..], qs[1..]);
      assert ps == [ps[0]] + ps[1..];
      assert qs == [qs[0]] + qs[1..];
    }
  }
}
