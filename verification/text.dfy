/**
 Character-level string helpers the program takes from Python's `str`:
 `lower`, `strip`, `split()`, `' '.join` and the `in` substring test.

 Case folding and whitespace are the ASCII part of Python's tables: `lower`
 maps 'A'..'Z' to 'a'..'z' and leaves every other character alone, and a
 whitespace character is one of the ASCII characters `str.isspace` accepts.
 */
module Text {

  /** ASCII whitespace as `str.isspace` sees it: space, \t \n \v \f \r and \x1c..\x1f. */
  predicate IsSpace(c: char) {
    c == ' ' || ('\t' <= c <= '\r') || ('\U{1C}' <= c <= '\U{1F}')
  }

  predicate AllSpace(s: string) {
    forall i :: 0 <= i < |s| ==> IsSpace(s[i])
  }

  predicate NoSpace(s: string) {
    forall i :: 0 <= i < |s| ==> !IsSpace(s[i])
  }

  function LowerChar(c: char): (r: char) {
    if 'A' <= c <= 'Z' then (c as int + 32) as char else c
  }

  /** `s.lower()`, one character at a time. */
  function Lower(s: string): (r: string)
    ensures |r| == |s|
    ensures forall i :: 0 <= i < |s| ==> r[i] == LowerChar(s[i])
  {
    seq(|s|, i requires 0 <= i < |s| => LowerChar(s[i]))
  }

  // ---------------------------------------------------------------------------
  // Substring containment (`needle in hay`)
  // ---------------------------------------------------------------------------

  /** `needle` sits in `hay` starting at index `i`. */
  predicate OccursAt(needle: string, hay: string, i: int) {
    0 <= i && i + |needle| <= |hay| && hay[i..i + |needle|] == needle
  }

  ghost predicate Occurs(needle: string, hay: string) {
    exists i :: OccursAt(needle, hay, i)
  }

  /** Python's `needle in hay`, trying the start positions left to right. */
  function Contains(hay: string, needle: string): (r: bool)
    decreases |hay|
  {
    if |needle| > |hay| then false
    else if hay[..|needle|] == needle then true
    else Contains(hay[1..], needle)
  }

  /** The scan finds `needle` exactly when it occurs somewhere in `hay`. */
  lemma {:induction false} ContainsSpec(hay: string, needle: string)
    ensures Contains(hay, needle) <==> Occurs(needle, hay)
    decreases |hay|
  {
    if |needle| > |hay| {
    } else if hay[..|needle|] == needle {
      assert OccursAt(needle, hay, 0);
    } else {
      ContainsSpec(hay[1..], needle);
      if Contains(hay[1..], needle) {
        var i :| OccursAt(needle, hay[1..], i);
        assert OccursAt(needle, hay, i + 1) by {
          assert hay[1..][i..i + |needle|] == hay[i + 1..i + 1 + |needle|];
        }
      } else {
        forall i | 0 < i && i + |needle| <= |hay|
          ensures !OccursAt(needle, hay, i)
        {
          assert hay[1..][i - 1..i - 1 + |needle|] == hay[i..i + |needle|];
          assert !OccursAt(needle, hay[1..], i - 1);
        }
        assert !OccursAt(needle, hay, 0);
      }
    }
  }

  // ---------------------------------------------------------------------------
  // strip()
  // ---------------------------------------------------------------------------

  /** `s.lstrip()`: drop whitespace from the front while there is some. */
  function TrimLeft(s: string): (r: string)
    ensures |r| <= |s|
    decreases |s|
  {
    if |s| > 0 && IsSpace(s[0]) then TrimLeft(s[1..]) else s
  }

  /** `lstrip()` keeps the longest suffix that does not start with whitespace. */
  lemma {:induction false} TrimLeftSpec(s: string)
    ensures TrimLeft(s) == s[|s| - |TrimLeft(s)|..]
    ensures AllSpace(s[..|s| - |TrimLeft(s)|])
    ensures TrimLeft(s) == [] || !IsSpace(TrimLeft(s)[0])
    decreases |s|
  {
    if |s| > 0 && IsSpace(s[0]) {
      var r := TrimLeft(s[1..]);
      TrimLeftSpec(s[1..]);
      assert s[..|s| - |r|] == [s[0]] + s[1..][..|s| - 1 - |r|];
    }
  }

  /** `s.rstrip()`: drop whitespace from the back while there is some. */
  function TrimRight(s: string): (r: string)
    ensures |r| <= |s|
    decreases |s|
  {
    if |s| > 0 && IsSpace(s[|s| - 1]) then TrimRight(s[..|s| - 1]) else s
  }

  /** `rstrip()` keeps the longest prefix that does not end with whitespace. */
  lemma {:induction false} TrimRightSpec(s: string)
    ensures TrimRight(s) == s[..|TrimRight(s)|]
    ensures AllSpace(s[|TrimRight(s)|..])
    ensures TrimRight(s) == [] || !IsSpace(TrimRight(s)[|TrimRight(s)| - 1])
    decreases |s|
  {
    if |s| > 0 && IsSpace(s[|s| - 1]) {
      var r := TrimRight(s[..|s| - 1]);
      TrimRightSpec(s[..|s| - 1]);
      assert s[|r|..] == s[..|s| - 1][|r|..] + [s[|s| - 1]];
    }
  }

  /** A string `strip()` leaves as it is: empty, or no whitespace at either end. */
  predicate IsStripped(s: string) {
    s == [] || (!IsSpace(s[0]) && !IsSpace(s[|s| - 1]))
  }

  /** How many leading whitespace characters `strip()` removes. */
  function LeadingSpace(s: string): (r: nat) {
    |s| - |TrimLeft(s)|
  }

  /** `s.strip()`: `s` without its leading and trailing whitespace. */
  function Strip(s: string): (r: string)
    ensures IsStripped(r) && |r| <= |s|
  {
    var l := TrimLeft(s);
    TrimLeftSpec(s);
    TrimRightSpec(l);
    TrimRight(l)
  }

  /** What `strip()` removes is whitespace at either end, and what is left is the
      contiguous part of `s` in between. */
  lemma StripSpec(s: string)
    ensures LeadingSpace(s) + |Strip(s)| <= |s|
    ensures Strip(s) == s[LeadingSpace(s)..LeadingSpace(s) + |Strip(s)|]
    ensures AllSpace(s[..LeadingSpace(s)]) && AllSpace(s[LeadingSpace(s) + |Strip(s)|..])
  {
    var l := TrimLeft(s);
    var r := TrimRight(l);
    var a := |s| - |l|;
    TrimLeftSpec(s);
    TrimRightSpec(l);
    assert r == s[a..a + |r|];
    assert l[|r|..] == s[a + |r|..];
  }

  /** Stripping a stripped string changes nothing, so `strip()` is idempotent. */
  lemma StripStripped(s: string)
    requires IsStripped(s)
    ensures Strip(s) == s
  {
  }

  lemma StripIdempotent(s: string)
    ensures Strip(Strip(s)) == Strip(s)
  {
    StripStripped(Strip(s));
  }

  /** `strip()` yields the empty string exactly for all-whitespace input. */
  lemma StripEmptyIffAllSpace(s: string)
    ensures Strip(s) == [] <==> AllSpace(s)
  {
    var l := TrimLeft(s);
    TrimLeftSpec(s);
    if l == [] {
      assert s[..|s|] == s;
    } else {
      TrimRightSpec(l);
    }
  }

  /** A whitespace character appended to a string leaves its `strip()` unchanged. */
  lemma StripTrailingSpace(s: string, c: char)
    requires IsSpace(c)
    ensures Strip(s + [c]) == Strip(s)
  {
    TrimLeftSnoc(s, c);
    var l := TrimLeft(s);
    if l != [] {
      assert (l + [c])[..|l|] == l;
    }
  }

  lemma {:induction false} TrimLeftSnoc(s: string, c: char)
    requires IsSpace(c)
    ensures TrimLeft(s + [c]) == if TrimLeft(s) == [] then [] else TrimLeft(s) + [c]
    decreases |s|
  {
    if s == [] {
      assert s + [c] == [c];
      assert [c][1..] == [];
    } else if IsSpace(s[0]) {
      assert (s + [c])[1..] == s[1..] + [c];
      TrimLeftSnoc(s[1..], c);
    }
  }

  // ---------------------------------------------------------------------------
  // split() and ' '.join
  // ---------------------------------------------------------------------------

  /** What `split()` can return as one element: non-empty and free of whitespace. */
  predicate IsWord(w: string) {
    |w| > 0 && NoSpace(w)
  }

  /** Length of the leading run of non-whitespace characters. */
  function WordLength(s: string): (n: nat)
    ensures n <= |s|
    ensures NoSpace(s[..n])
    ensures n < |s| ==> IsSpace(s[n])
    decreases |s|
  {
    if |s| == 0 || IsSpace(s[0]) then 0
    else
      var n := 1 + WordLength(s[1..]);
      assert s[..n] == [s[0]] + s[1..][..n - 1];
      n
  }

  /** `s.split()`: the maximal runs of non-whitespace characters, in order. */
  function Words(s: string): (ws: seq<string>)
    ensures forall k :: 0 <= k < |ws| ==> IsWord(ws[k])
    decreases |s|
  {
    if |s| == 0 then []
    else if IsSpace(s[0]) then Words(s[1..])
    else
      var n := WordLength(s);
      [s[..n]] + Words(s[n..])
  }

  /** `' '.join(ws)`. */
  function JoinSpace(ws: seq<string>): (r: string) {
    if |ws| == 0 then ""
    else if |ws| == 1 then ws[0]
    else ws[0] + " " + JoinSpace(ws[1..])
  }

  lemma WordLengthOfWord(w: string, t: string)
    requires IsWord(w)
    requires t == [] || IsSpace(t[0])
    ensures WordLength(w + t) == |w|
    decreases |w|
  {
    if |w| > 1 {
      assert (w + t)[1..] == w[1..] + t;
      WordLengthOfWord(w[1..], t);
    } else {
      assert (w + t)[1..] == t;
    }
  }

  /** Splitting the space-joined words gives the words back. */
  lemma {:induction false} WordsOfJoin(ws: seq<string>)
    requires forall k :: 0 <= k < |ws| ==> IsWord(ws[k])
    ensures Words(JoinSpace(ws)) == ws
    decreases |ws|
  {
    if |ws| == 0 {
    } else if |ws| == 1 {
      var w := ws[0];
      WordLengthOfWord(w, []);
      assert w + [] == w;
      assert w[|w|..] == [];
    } else {
      var w := ws[0];
      var rest := JoinSpace(ws[1..]);
      var s := w + " " + rest;
      assert s == w + (" " + rest);
      WordLengthOfWord(w, " " + rest);
      assert s[..|w|] == w;
      assert s[|w|..] == " " + rest;
      assert (" " + rest)[1..] == rest;
      WordsOfJoin(ws[1..]);
      assert ws == [w] + ws[1..];
    }
  }

  /** The non-whitespace characters of `s` in order, with one space wherever a run
      of whitespace separates two of them: leading and trailing whitespace goes,
      and every inner run shrinks to a single space. */
  function Collapse(s: string): (r: string)
    decreases |s|, 1
  {
    if s == [] then []
    else if IsSpace(s[0]) then Collapse(s[1..])
    else [s[0]] + CollapseAfter(s[1..])
  }

  /** `Collapse` of what follows a non-whitespace character. */
  function CollapseAfter(s: string): (r: string)
    decreases |s|, 0
  {
    if s == [] then []
    else if !IsSpace(s[0]) then [s[0]] + CollapseAfter(s[1..])
    else if Collapse(s[1..]) == [] then []
    else " " + Collapse(s[1..])
  }

  /** A word's characters pass through `CollapseAfter` unchanged. */
  lemma {:induction false} CollapseAfterWord(w: string, t: string)
    requires NoSpace(w)
    ensures CollapseAfter(w + t) == w + CollapseAfter(t)
    decreases |w|
  {
    if w != [] {
      assert (w + t)[0] == w[0];
      assert (w + t)[1..] == w[1..] + t;
      CollapseAfterWord(w[1..], t);
      assert w == [w[0]] + w[1..];
    } else {
      assert w + t == t;
    }
  }

  /** Joining words gives the empty string exactly when there are no words. */
  lemma JoinSpaceEmpty(ws: seq<string>)
    requires forall k :: 0 <= k < |ws| ==> IsWord(ws[k])
    ensures JoinSpace(ws) == [] <==> ws == []
  {
    if |ws| > 0 {
      assert IsWord(ws[0]);
    }
  }

  /** `split()` splits at whitespace and nowhere else: joining its words with single
      spaces gives `Collapse(s)`, and there are no words exactly when `s` is all
      whitespace. */
  lemma {:induction false} WordsSpec(s: string)
    ensures JoinSpace(Words(s)) == Collapse(s)
    ensures Words(s) == [] <==> AllSpace(s)
    decreases |s|
  {
    if s == [] {
    } else if IsSpace(s[0]) {
      WordsSpec(s[1..]);
      assert AllSpace(s) <==> AllSpace(s[1..]);
    } else {
      var t := s[WordLength(s)..];
      if t != [] {
        WordsSpec(t[1..]);
      }
      WordsSpecWord(s);
    }
  }

  /** The step of `WordsSpec` for a string that starts with a word, given the
      property for what follows the whitespace character after that word. */
  lemma WordsSpecWord(s: string)
    requires s != [] && !IsSpace(s[0])
    requires WordLength(s) < |s| ==>
               JoinSpace(Words(s[WordLength(s) + 1..])) == Collapse(s[WordLength(s) + 1..])
    ensures JoinSpace(Words(s)) == Collapse(s)
    ensures Words(s) != []
  {
    var n := WordLength(s);
    var w := s[..n];
    var t := s[n..];
    CollapseOfWord(s);
    var ws := Words(t);
    assert Words(s) == [w] + ws;
    if t == [] {
      assert ws == [] && [w] + ws == [w];
      assert w + CollapseAfter(t) == w + [];
    } else {
      CollapseAfterSpace(t);
      assert t[1..] == s[n + 1..];
      assert Collapse(t[1..]) == JoinSpace(ws);
      JoinSpaceEmpty(ws);
      if ws != [] {
        JoinSpaceCons(w, ws);
        Assoc(w, " ", JoinSpace(ws));
      } else {
        assert [w] + ws == [w];
        assert w + CollapseAfter(t) == w + [];
      }
    }
  }

  /** `Collapse` of a string that starts with a word keeps the word and goes on
      after it. */
  lemma CollapseOfWord(s: string)
    requires s != [] && !IsSpace(s[0])
    ensures Collapse(s) == s[..WordLength(s)] + CollapseAfter(s[WordLength(s)..])
  {
    var n := WordLength(s);
    var w := s[..n];
    var t := s[n..];
    SplitAfterHead(s, n);
    assert NoSpace(w[1..]);
    CollapseAfterWord(w[1..], t);
    calc {
      Collapse(s);
      [s[0]] + CollapseAfter(s[1..]);
      [s[0]] + CollapseAfter(w[1..] + t);
      [s[0]] + (w[1..] + CollapseAfter(t));
      { Assoc([s[0]], w[1..], CollapseAfter(t)); }
      [s[0]] + w[1..] + CollapseAfter(t);
      w + CollapseAfter(t);
    }
  }

  /** After a word, a whitespace character gives one space before the rest, unless
      nothing but whitespace follows. */
  lemma CollapseAfterSpace(t: string)
    requires t != [] && IsSpace(t[0])
    ensures CollapseAfter(t) == if Collapse(t[1..]) == [] then [] else " " + Collapse(t[1..])
    ensures Words(t) == Words(t[1..])
  {
  }

  lemma Assoc(a: string, b: string, c: string)
    ensures a + b + c == a + (b + c)
  {
  }

  /** Cutting `s` after its head and at `n`. */
  lemma SplitAfterHead(s: string, n: nat)
    requires 1 <= n <= |s|
    ensures s[..n] == [s[0]] + s[..n][1..]
    ensures s[1..] == s[..n][1..] + s[n..]
    ensures [s[0]] + (s[..n][1..] + s[n..]) == s[..n] + s[n..]
  {
  }

  lemma JoinSpaceCons(w: string, ws: seq<string>)
    requires ws != []
    ensures JoinSpace([w] + ws) == w + " " + JoinSpace(ws)
  {
    assert ([w] + ws)[1..] == ws;
  }

  /** The words of `s` are the only list of words that joins to `Collapse(s)`: the
      split is the one at the whitespace runs of `s`, and no other. */
  lemma WordsUnique(s: string, ws: seq<string>)
    requires forall k :: 0 <= k < |ws| ==> IsWord(ws[k])
    requires JoinSpace(ws) == Collapse(s)
    ensures ws == Words(s)
  {
    WordsSpec(s);
    WordsOfJoin(ws);
    WordsOfJoin(Words(s));
  }

  /** A string that starts with a non-whitespace character has at least one word. */
  lemma WordsNonEmpty(s: string)
    requires |s| > 0 && !IsSpace(s[0])
    ensures |Words(s)| > 0
  {
  }
}
