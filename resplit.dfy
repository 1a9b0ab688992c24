/**
 * `re.split(r"([\W_]+)", s)`: because the pattern is one capturing group,
 * the result alternates between the text between separator runs and the
 * separator runs themselves. Which characters count as separators (not a
 * Unicode word character, or `_`) is left to the caller as `isSep`.
 */
module ReSplit {
  import opened PyStr

  /** Python's answer on ASCII: everything except letters and digits separates. */
  ghost predicate PythonOnAscii(isSep: char -> bool) {
    forall c: char :: c < '\U{80}' ==> (isSep(c) <==> !('a' <= c <= 'z' || 'A' <= c <= 'Z' || '0' <= c <= '9'))
  }

  /** A piece of text between two separator runs: no separator in it. */
  ghost predicate WordPiece(w: string, isSep: char -> bool) {
    forall k :: 0 <= k < |w| ==> !isSep(w[k])
  }

  /** A separator run: non-empty, separators only. */
  ghost predicate SepPiece(w: string, isSep: char -> bool) {
    |w| > 0 && forall k :: 0 <= k < |w| ==> isSep(w[k])
  }

  /**
   * Piece `i` fits its place: even places hold text (non-empty between two
   * runs, so runs are maximal), odd places hold runs.
   */
  ghost predicate PieceFits(pieces: seq<string>, i: nat, isSep: char -> bool)
    requires i < |pieces|
  {
    if i % 2 == 0 then WordPiece(pieces[i], isSep) && (0 < i < |pieces| - 1 ==> pieces[i] != [])
    else SepPiece(pieces[i], isSep)
  }

  ghost predicate Alternating(pieces: seq<string>, isSep: char -> bool) {
    |pieces| % 2 == 1 && forall i: nat :: i < |pieces| ==> PieceFits(pieces, i, isSep)
  }

  /** The list `re.split` returns. */
  function Split(s: string, isSep: char -> bool): (pieces: seq<string>)
    ensures |pieces| >= 1
  {
    if s == [] then [""]
    else
      var rest := Split(s[1..], isSep);
      if !isSep(s[0]) then [[s[0]] + rest[0]] + rest[1..]
      else if |rest| > 1 && rest[0] == [] then ["", [s[0]] + rest[1]] + rest[2..]
      else ["", [s[0]]] + rest
  }

  /** The number of maximal separator runs, counted by the positions where one ends. */
  function Runs(s: string, isSep: char -> bool): (r: nat)
    ensures r <= |s|
    ensures r == 0 <==> forall i :: 0 <= i < |s| ==> !isSep(s[i])
  {
    if s == [] then 0
    else (if isSep(s[0]) && (|s| == 1 || !isSep(s[1])) then 1 else 0) + Runs(s[1..], isSep)
  }

  /** The first piece is empty, followed by a run, exactly when `s` opens with a separator. */
  lemma SplitHead(s: string, isSep: char -> bool)
    ensures (|Split(s, isSep)| > 1 && Split(s, isSep)[0] == []) <==> (|s| > 0 && isSep(s[0]))
  {
  }

  lemma ConcatCons(a: string, rest: seq<string>)
    ensures Concat([a] + rest) == a + Concat(rest)
  {
    assert ([a] + rest)[1..] == rest;
  }

  lemma AppendAssoc(a: string, b: string, c: string)
    ensures a + (b + c) == (a + b) + c
  {
  }

  lemma JoinExtendWord(c: char, rest: seq<string>)
    requires |rest| >= 1
    ensures Concat([[c] + rest[0]] + rest[1..]) == [c] + Concat(rest)
  {
    var w, tail := rest[0], rest[1..];
    assert rest == [w] + tail;
    ConcatCons(w, tail);
    ConcatCons([c] + w, tail);
    AppendAssoc([c], w, Concat(tail));
  }

  lemma ConcatTwo(a: string, b: string, rest: seq<string>)
    ensures Concat([a, b] + rest) == a + (b + Concat(rest))
  {
    ConcatCons(b, rest);
    assert [a, b] + rest == [a] + ([b] + rest);
    ConcatCons(a, [b] + rest);
  }

  lemma JoinExtendRun(c: char, rest: seq<string>)
    requires |rest| > 1 && rest[0] == []
    ensures Concat(["", [c] + rest[1]] + rest[2..]) == [c] + Concat(rest)
  {
    var w, tail := rest[1], rest[2..];
    var x := [c] + w;
    ConcatTwo([], x, tail);
    assert rest[1..][1..] == tail;
    assert Concat(rest[1..]) == w + Concat(tail);
    assert Concat(rest) == w + Concat(tail);
    AppendAssoc([c], w, Concat(tail));
  }

  lemma JoinNewRun(c: char, rest: seq<string>)
    ensures Concat(["", [c]] + rest) == [c] + Concat(rest)
  {
    ConcatTwo([], [c], rest);
  }

  /** Joining the pieces gives back the input. */
  lemma {:induction false} SplitJoins(s: string, isSep: char -> bool)
    ensures Concat(Split(s, isSep)) == s
  {
    if s != [] {
      var rest := Split(s[1..], isSep);
      SplitJoins(s[1..], isSep);
      if !isSep(s[0]) {
        JoinExtendWord(s[0], rest);
      } else if |rest| > 1 && rest[0] == [] {
        JoinExtendRun(s[0], rest);
      } else {
        JoinNewRun(s[0], rest);
      }
      assert [s[0]] + s[1..] == s;
    }
  }

  lemma ExtendWordAlternates(c: char, rest: seq<string>, isSep: char -> bool)
    requires !isSep(c) && Alternating(rest, isSep)
    ensures Alternating([[c] + rest[0]] + rest[1..], isSep)
  {
    var p := [[c] + rest[0]] + rest[1..];
    forall i: nat | i < |p| ensures PieceFits(p, i, isSep) {
      assert PieceFits(rest, i, isSep);
      if i > 0 {
        assert p[i] == rest[i];
      }
    }
  }

  lemma ExtendRunAlternates(c: char, rest: seq<string>, isSep: char -> bool)
    requires isSep(c) && Alternating(rest, isSep) && |rest| > 1 && rest[0] == []
    ensures Alternating(["", [c] + rest[1]] + rest[2..], isSep)
  {
    var p := ["", [c] + rest[1]] + rest[2..];
    forall i: nat | i < |p| ensures PieceFits(p, i, isSep) {
      assert PieceFits(rest, i, isSep);
      if i > 1 {
        assert p[i] == rest[i];
      }
    }
  }

  lemma NewRunAlternates(c: char, rest: seq<string>, isSep: char -> bool)
    requires isSep(c) && Alternating(rest, isSep) && !(|rest| > 1 && rest[0] == [])
    ensures Alternating(["", [c]] + rest, isSep)
  {
    var p := ["", [c]] + rest;
    forall i: nat | i < |p| ensures PieceFits(p, i, isSep) {
      if i >= 2 {
        assert p[i] == rest[i - 2];
        assert PieceFits(rest, i - 2, isSep);
      }
    }
  }

  /** The pieces alternate between text and maximal separator runs. */
  lemma {:induction false} SplitAlternates(s: string, isSep: char -> bool)
    ensures Alternating(Split(s, isSep), isSep)
  {
    if s == [] {
      assert PieceFits([""], 0, isSep);
    } else {
      var rest := Split(s[1..], isSep);
      SplitAlternates(s[1..], isSep);
      if !isSep(s[0]) {
        ExtendWordAlternates(s[0], rest, isSep);
      } else if |rest| > 1 && rest[0] == [] {
        ExtendRunAlternates(s[0], rest, isSep);
      } else {
        NewRunAlternates(s[0], rest, isSep);
      }
    }
  }

  /** `re.split` returns two pieces per separator run, plus one. */
  lemma {:induction false} SplitCount(s: string, isSep: char -> bool)
    ensures |Split(s, isSep)| == 2 * Runs(s, isSep) + 1
  {
    if s != [] {
      SplitCount(s[1..], isSep);
      SplitHead(s[1..], isSep);
    }
  }

  /** A word character in front extends the first piece. */
  lemma SplitWordCons(c: char, t: string, s: string, w: string, isSep: char -> bool, first: string, more: seq<string>)
    requires s == [c] + t && w == [c] + first
    requires !isSep(c) && Split(t, isSep) == [first] + more
    ensures Split(s, isSep) == [w] + more
  {
    assert s[1..] == t;
    assert ([first] + more)[1..] == more;
  }

  /** A separator in front of a non-empty first piece opens a new run. */
  lemma SplitRunCons(c: char, t: string, s: string, isSep: char -> bool, first: string, more: seq<string>)
    requires s == [c] + t
    requires isSep(c) && first != [] && Split(t, isSep) == [first] + more
    ensures Split(s, isSep) == [""] + ([[c]] + ([first] + more))
  {
    assert s[1..] == t;
    assert ["", [c]] + ([first] + more) == [""] + ([[c]] + ([first] + more));
  }

  /** A word in front extends the first piece by the whole word. */
  lemma {:induction false} SplitWordPrefix(w: string, t: string, isSep: char -> bool, first: string, more: seq<string>)
    requires WordPiece(w, isSep) && Split(t, isSep) == [first] + more
    ensures Split(w + t, isSep) == [w + first] + more
  {
    if w != [] {
      SplitWordPrefix(w[1..], t, isSep, first, more);
      assert w + t == [w[0]] + (w[1..] + t);
      assert w + first == [w[0]] + (w[1..] + first);
      SplitWordCons(w[0], w[1..] + t, w + t, w + first, isSep, w[1..] + first, more);
    } else {
      assert w + t == t && w + first == first;
    }
  }

  // The example lemmas name their strings through parameters and slices
  // rather than literal arguments of Split, which keeps the verifier from
  // unrolling Split on a literal.

  lemma SplitExampleTail(s: string, isSep: char -> bool)
    requires s == "a+4" && PythonOnAscii(isSep)
    ensures Split(s, isSep) == ["a"] + (["+"] + (["4"] + []))
  {
    assert !isSep('a') && !isSep('4') && isSep('+');
    var t0, t1, t2 := s[3..], s[2..], s[1..];
    assert t0 == "" && t1 == [s[2]] + t0 && t2 == [s[1]] + t1 && s == [s[0]] + t2;
    assert Split(t0, isSep) == [""] + [];
    SplitWordCons('4', t0, t1, "4", isSep, "", []);
    SplitRunCons('+', t1, t2, isSep, "4", []);
    SplitWordCons('a', t2, s, "a", isSep, "", ["+"] + (["4"] + []));
  }

  lemma SplitExampleMiddle(s: string, isSep: char -> bool)
    requires s == "is/a+4" && PythonOnAscii(isSep)
    ensures Split(s, isSep) == ["is"] + (["/"] + (["a"] + (["+"] + (["4"] + []))))
  {
    var t1, t2 := s[3..], s[2..];
    assert t1 == "a+4" && t2 == [s[2]] + t1 && s == s[..2] + t2;
    SplitExampleTail(t1, isSep);
    var more := ["+"] + (["4"] + []);
    assert isSep('/');
    SplitRunCons('/', t1, t2, isSep, "a", more);
    var w := s[..2];
    assert w == "is" && WordPiece(w, isSep);
    SplitWordPrefix(w, t2, isSep, "", ["/"] + (["a"] + more));
    assert w + "" == "is";
  }

  lemma SplitExampleHead(s: string, isSep: char -> bool)
    requires s == "this is/a+4" && PythonOnAscii(isSep)
    ensures Split(s, isSep) == ["this"] + ([" "] + (["is"] + (["/"] + (["a"] + (["+"] + (["4"] + []))))))
  {
    var t1, t2 := s[5..], s[4..];
    assert t1 == "is/a+4" && t2 == [s[4]] + t1 && s == s[..4] + t2;
    SplitExampleMiddle(t1, isSep);
    var more := ["/"] + (["a"] + (["+"] + (["4"] + [])));
    assert isSep(' ');
    SplitRunCons(' ', t1, t2, isSep, "is", more);
    var w := s[..4];
    assert w == "this" && WordPiece(w, isSep);
    SplitWordPrefix(w, t2, isSep, "", [" "] + (["is"] + more));
    assert w + "" == "this";
  }

  /** The example pinned by the test suite, under Python's classification of ASCII. */
  lemma SplitExample(s: string, isSep: char -> bool)
    requires s == "this is/a+4" && PythonOnAscii(isSep)
    ensures Split(s, isSep) == ["this", " ", "is", "/", "a", "+", "4"]
  {
    SplitExampleHead(s, isSep);
    assert ["4"] + [] == ["4"];
    assert ["+"] + ["4"] == ["+", "4"];
    assert ["a"] + ["+", "4"] == ["a", "+", "4"];
    assert ["/"] + ["a", "+", "4"] == ["/", "a", "+", "4"];
    assert ["is"] + ["/", "a", "+", "4"] == ["is", "/", "a", "+", "4"];
    assert [" "] + ["is", "/", "a", "+", "4"] == [" ", "is", "/", "a", "+", "4"];
    assert ["this"] + [" ", "is", "/", "a", "+", "4"] == ["this", " ", "is", "/", "a", "+", "4"];
  }
}
