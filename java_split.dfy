/**
 * Java's `String.split(regex)` for a regex that is one literal character and
 * the default limit 0: the string is cut at every occurrence of the
 * separator, pieces are kept verbatim (no trimming), and trailing empty
 * pieces are dropped. When the separator does not occur at all, the result
 * is the whole input as its only piece (so "" splits into [""]).
 */
module JavaSplit {

  /** Number of occurrences of `c` in `s`. */
  function Count(s: string, c: char): nat
  {
    if s == [] then 0 else (if s[0] == c then 1 else 0) + Count(s[1..], c)
  }

  /** All pieces between separators, empty ones included: one more than the separators. */
  function SplitAll(s: string, sep: char): (r: seq<string>)
    ensures |r| == Count(s, sep) + 1
    ensures forall k :: 0 <= k < |r| ==> sep !in r[k]
  {
    if s == [] then [[]]
    else if s[0] == sep then [[]] + SplitAll(s[1..], sep)
    else
      var rest := SplitAll(s[1..], sep);
      [[s[0]] + rest[0]] + rest[1..]
  }

  /** Glues pieces back together with `sep` between consecutive pieces. */
  function Join(pieces: seq<string>, sep: char): string
  {
    if pieces == [] then []
    else if |pieces| == 1 then pieces[0]
    else pieces[0] + [sep] + Join(pieces[1..], sep)
  }

  /** Removes the empty strings at the end of `pieces`. */
  function DropTrailingEmpty(pieces: seq<string>): (r: seq<string>)
    ensures r <= pieces
    ensures r != [] ==> r[|r| - 1] != []
    ensures forall k :: |r| <= k < |pieces| ==> pieces[k] == []
  {
    if pieces == [] || pieces[|pieces| - 1] != [] then pieces
    else DropTrailingEmpty(pieces[..|pieces| - 1])
  }

  /**
   * `s.split(String.valueOf(sep))` in Java: separator-free pieces, verbatim,
   * forming a prefix of all the pieces; only empty pieces are cut off, and
   * the last kept piece is non-empty whenever the separator occurs. Without
   * a separator the input comes back whole.
   */
  function Split(s: string, sep: char): (r: seq<string>)
    ensures sep !in s ==> r == [s]
    ensures sep in s ==> r <= SplitAll(s, sep)
    ensures sep in s ==> forall k :: |r| <= k < |SplitAll(s, sep)| ==> SplitAll(s, sep)[k] == []
    ensures sep in s && r != [] ==> r[|r| - 1] != []
    ensures forall k :: 0 <= k < |r| ==> sep !in r[k]
  {
    if sep !in s then [s] else DropTrailingEmpty(SplitAll(s, sep))
  }

  lemma CountZero(s: string, c: char)
    ensures Count(s, c) == 0 <==> c !in s
  {
  }

  /** Joining the pieces of a string restores it exactly. */
  lemma {:induction false} JoinSplitAll(s: string, sep: char)
    ensures Join(SplitAll(s, sep), sep) == s
  {
    if s == [] {
    } else if s[0] == sep {
      JoinSplitAll(s[1..], sep);
      assert s == [sep] + s[1..];
    } else {
      JoinSplitAll(s[1..], sep);
      var rest := SplitAll(s[1..], sep);
      if |rest| == 1 {
        assert s == [s[0]] + s[1..];
      } else {
        assert rest == [rest[0]] + rest[1..];
        assert Join(rest, sep) == rest[0] + [sep] + Join(rest[1..], sep);
        assert s == [s[0]] + s[1..];
      }
    }
  }

  /** Splitting a join of separator-free pieces gives the pieces back. */
  lemma {:induction false} SplitAllJoin(pieces: seq<string>, sep: char)
    requires pieces != []
    requires forall k :: 0 <= k < |pieces| ==> sep !in pieces[k]
    ensures SplitAll(Join(pieces, sep), sep) == pieces
  {
    if |pieces| == 1 {
      SplitAllNoSep(pieces[0], sep);
    } else {
      SplitAllJoin(pieces[1..], sep);
      SplitAllPrefix(pieces[0], Join(pieces[1..], sep), sep);
      assert pieces[0] + [sep] + Join(pieces[1..], sep) == pieces[0] + ([sep] + Join(pieces[1..], sep));
    }
  }

  /** A separator-free string is a single piece. */
  lemma {:induction false} SplitAllNoSep(w: string, sep: char)
    requires sep !in w
    ensures SplitAll(w, sep) == [w]
  {
    if w != [] {
      SplitAllNoSep(w[1..], sep);
      assert w == [w[0]] + w[1..];
    }
  }

  /** A separator-free word followed by a separator and a tail splits into that word and the tail's pieces. */
  lemma {:induction false} SplitAllPrefix(w: string, tail: string, sep: char)
    requires sep !in w
    ensures SplitAll(w + [sep] + tail, sep) == [w] + SplitAll(tail, sep)
  {
    if w == [] {
      assert w + [sep] + tail == [sep] + tail;
    } else {
      var s := w + [sep] + tail;
      assert s[0] == w[0] && s[1..] == w[1..] + [sep] + tail;
      SplitAllPrefix(w[1..], tail, sep);
      assert [w[0]] + w[1..] == w;
    }
  }

  /** Nothing but separators splits into no pieces at all. */
  lemma {:induction false} SplitOnlySeparators(n: nat, sep: char)
    requires n > 0
    ensures Split(seq(n, _ => sep), sep) == []
  {
    var s := seq(n, _ => sep);
    assert s[0] == sep;
    AllEmptyPieces(s, sep);
    DropAllEmpty(SplitAll(s, sep));
  }

  lemma {:induction false} AllEmptyPieces(s: string, sep: char)
    requires forall k :: 0 <= k < |s| ==> s[k] == sep
    ensures forall k :: 0 <= k < |SplitAll(s, sep)| ==> SplitAll(s, sep)[k] == []
  {
    if s != [] {
      AllEmptyPieces(s[1..], sep);
    }
  }

  lemma DropAllEmpty(pieces: seq<string>)
    requires forall k :: 0 <= k < |pieces| ==> pieces[k] == []
    ensures DropTrailingEmpty(pieces) == []
  {
  }

  /** Splitting the join of separator-free pieces whose last one is non-empty gives them back. */
  lemma SplitJoin(pieces: seq<string>, sep: char)
    requires |pieces| >= 2 && pieces[|pieces| - 1] != []
    requires forall k :: 0 <= k < |pieces| ==> sep !in pieces[k]
    ensures Split(Join(pieces, sep), sep) == pieces
  {
    SplitAllJoin(pieces, sep);
    CountZero(Join(pieces, sep), sep);
  }

  /** Three separator-free names, the last non-empty, joined by separators split back into themselves. */
  lemma SplitThree(a: string, b: string, c: string, sep: char)
    requires sep !in a && sep !in b && sep !in c && c != []
    ensures Split(a + [sep] + b + [sep] + c, sep) == [a, b, c]
  {
    var pieces: seq<string> := [a, b, c];
    assert Join(pieces[2..], sep) == c;
    assert Join(pieces[1..], sep) == b + [sep] + c;
    assert Join(pieces, sep) == a + [sep] + b + [sep] + c;
    SplitJoin(pieces, sep);
  }

  /** Whitespace around a name is kept: pieces are not trimmed. */
  lemma SplitKeepsWhitespace()
    ensures Split("a, ,b", ',') == ["a", " ", "b"]
  {
    assert "a, ,b" == "a" + [','] + " " + [','] + "b";
    SplitThree("a", " ", "b", ',');
  }

  /** Inner empty pieces survive; trailing ones are dropped. */
  lemma SplitDropsOnlyTrailingEmpty()
    ensures Split("a,,b,,", ',') == ["a", "", "b"]
  {
    var pieces: seq<string> := ["a", "", "b", "", ""];
    assert Join(pieces[4..], ',') == "";
    assert Join(pieces[3..], ',') == ",";
    assert Join(pieces[2..], ',') == "b,,";
    assert Join(pieces[1..], ',') == ",b,,";
    assert Join(pieces, ',') == "a,,b,,";
    SplitAllJoin(pieces, ',');
    assert "a,,b,,"[1] == ',';
    assert pieces[..4] == ["a", "", "b", ""] && pieces[..4][..3] == ["a", "", "b"];
    calc {
      DropTrailingEmpty(pieces);
      DropTrailingEmpty(pieces[..4]);
      DropTrailingEmpty(pieces[..4][..3]);
    }
  }

  /** A leading empty piece is kept. */
  lemma SplitKeepsLeadingEmpty()
    ensures Split(",a", ',') == ["", "a"]
  {
    var pieces: seq<string> := ["", "a"];
    assert Join(pieces[1..], ',') == "a";
    assert Join(pieces, ',') == ",a";
    SplitJoin(pieces, ',');
  }
}
