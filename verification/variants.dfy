/**
 How the two copies of `search_in_file` relate. The copy in main.py consumes
 a snippet's context lines from the file iterator, so a match inside an
 earlier window is skipped; the copy in ocr_reader.py tests every line, so
 its snippets can overlap. When no two matching lines are within
 `ContextLines` of each other the two return the same entries.
 */
module Variants {
  import opened Wrappers
  import opened Text
  import opened Corpus
  import StreamSearch
  import IndexedSearch

  /** Every snippet the stream scan starts is at a matching line. */
  lemma StreamStartsAreMatches(keyword: string, lines: seq<string>)
    ensures forall p :: p in StreamSearch.StreamStarts(keyword, lines, 0) ==>
              p in IndexedSearch.MatchesBelow(keyword, lines, |lines|)
  {
    var ps := StreamSearch.StreamStarts(keyword, lines, 0);
    StreamSearch.StreamStartsShape(keyword, lines, 0);
    IndexedSearch.MatchesBelowShape(keyword, lines, |lines|);
    forall p | p in ps
      ensures p in IndexedSearch.MatchesBelow(keyword, lines, |lines|)
    {
      var k :| 0 <= k < |ps| && ps[k] == p;
    }
  }

  /** No two lines that contain the keyword are within a context window of each other. */
  predicate Sparse(keyword: string, lines: seq<string>) {
    forall i, j :: 0 <= i < j < |lines| && Matches(keyword, lines[i]) && Matches(keyword, lines[j]) ==>
      i + ContextLines < j
  }

  /** On a sparse file the stream scan starts a snippet at every matching line. */
  lemma SparseSameStarts(keyword: string, lines: seq<string>)
    requires Sparse(keyword, lines)
    ensures StreamSearch.StreamStarts(keyword, lines, 0) == IndexedSearch.MatchesBelow(keyword, lines, |lines|)
  {
    var ms := IndexedSearch.MatchesBelow(keyword, lines, |lines|);
    IndexedSearch.MatchesBelowShape(keyword, lines, |lines|);
    assert forall k :: 0 <= k < |ms| ==> Matches(keyword, lines[ms[k]]) by {
      forall k | 0 <= k < |ms|
        ensures Matches(keyword, lines[ms[k]])
      {
        assert ms[k] in ms;
      }
    }
    assert StreamSearch.Spaced(ms);
    assert forall i: nat :: i < |lines| ==>
             (i in ms <==> Matches(keyword, lines[i]) && !StreamSearch.InWindow(ms, i));
    StreamSearch.StreamStartsUnique(keyword, lines, ms);
  }

  /** On a sparse file without a failing read both copies return the same entries. */
  lemma SparseAgree(keyword: string, lines: seq<string>, running: bool, rootAlive: bool)
    requires ReaderLines(lines)
    requires Sparse(keyword, lines)
    ensures StreamSearch.Search(keyword, Present(lines, None), running, rootAlive).entries ==
            IndexedSearch.Search(keyword, Present(lines, None))
  {
    SparseSameStarts(keyword, lines);
    StreamSearch.StreamSearchNoFailure(keyword, lines, running, rootAlive);
  }

  /** Two adjacent matching lines: main.py folds the second into the first one's
      snippet, ocr_reader.py also gives the second its own snippet. */
  lemma AdjacentMatchesDiverge()
    ensures StreamSearch.Search("apple", Present(["apple\n", "apple\n"], None), true, true).entries
            == ["apple\napple"]
    ensures IndexedSearch.Search("apple", Present(["apple\n", "apple\n"], None))
            == ["apple\napple", "apple"]
  {
    AdjacentStream();
    AdjacentIndexed();
  }

  /** The snippets of the two "apple" lines. */
  lemma AdjacentSnippets()
    ensures Matches("apple", "apple\n")
    ensures Snippet(["apple\n", "apple\n"], 0) == "apple\napple"
    ensures Snippet(["apple\n", "apple\n"], 1) == "apple"
  {
    var lines := ["apple\n", "apple\n"];
    assert Strip("apple\n") == "apple";
    assert Lower("apple\n")[..5] == "apple";
    assert Contains(Lower("apple\n"), Lower("apple"));
    assert ContextText(lines, 2, 3) == "" && ContextText(lines, 2, 4) == "";
    assert ContextText(lines, 1, 4) == "\napple";
  }

  lemma AdjacentStream()
    ensures StreamSearch.Search("apple", Present(["apple\n", "apple\n"], None), true, true).entries
            == ["apple\napple"]
  {
    var lines := ["apple\n", "apple\n"];
    AdjacentSnippets();
    StreamSearch.StreamSearchNoFailure("apple", lines, true, true);
    assert StreamSearch.StreamStarts("apple", lines, 0) == [0];
    assert Take([0], MaxResults) == [0];
    assert Snippets(lines, [0]) == ["apple\napple"];
  }

  lemma AdjacentIndexed()
    ensures IndexedSearch.Search("apple", Present(["apple\n", "apple\n"], None))
            == ["apple\napple", "apple"]
  {
    var lines := ["apple\n", "apple\n"];
    AdjacentSnippets();
    assert IndexedSearch.MatchesBelow("apple", lines, 2) == [0, 1];
    assert Take([0, 1], MaxResults) == [0, 1];
    assert Snippets(lines, [1]) == ["apple"];
    assert Snippets(lines, [0, 1]) == ["apple\napple", "apple"];
  }
}
