/**
 * The word counter of a text document (`DocumentoTexto.ContarPalavras`): the
 * number of tokens left when the content is split at every space, newline and
 * tab and the empty tokens are dropped.
 *
 * `Pieces` models the split itself (every separator cuts, empty pieces kept),
 * `RemoveEmpty` the `RemoveEmptyEntries` option, and `Split` the two together.
 * `RunCount` is an independent reference: the number of maximal runs of
 * non-separator characters, counted by the positions that end a run.
 */
module Words {
  import opened Joins

  /** The separator set passed to `Split`; '\r' and every other character are word characters. */
  predicate IsSeparator(c: char) {
    c == ' ' || c == '\n' || c == '\t'
  }

  predicate NoSeparator(s: string) {
    forall j :: 0 <= j < |s| ==> !IsSeparator(s[j])
  }

  function SeparatorCount(s: string): nat {
    if s == [] then 0 else (if IsSeparator(s[0]) then 1 else 0) + SeparatorCount(s[1..])
  }

  /** The characters of `s` that are not separators, in order. */
  function Letters(s: string): string {
    if s == [] then [] else (if IsSeparator(s[0]) then [] else [s[0]]) + Letters(s[1..])
  }

  /** The separator characters of `s`, in order: where `Split` cuts. */
  function SeparatorsOf(s: string): (seps: string)
    ensures |seps| == SeparatorCount(s)
  {
    if s == [] then [] else (if IsSeparator(s[0]) then [s[0]] else []) + SeparatorsOf(s[1..])
  }

  /** Puts the pieces back together with `seps[i]` between `pieces[i]` and `pieces[i + 1]`. */
  function Rejoin(pieces: seq<string>, seps: string): string
    requires |pieces| == |seps| + 1
  {
    if seps == [] then pieces[0] else pieces[0] + [seps[0]] + Rejoin(pieces[1..], seps[1..])
  }

  /**
   * Splitting without removing empty entries: each separator ends one piece,
   * so there is one piece more than there are separators, no piece holds a
   * separator, and the first piece is empty exactly when `s` is empty or
   * starts with a separator. `PiecesRejoin` and `ConcatPieces` tie the pieces
   * to the characters of `s`.
   */
  function Pieces(s: string): (r: seq<string>)
    ensures |r| == SeparatorCount(s) + 1
    ensures forall i :: 0 <= i < |r| ==> NoSeparator(r[i])
    ensures r[0] == [] <==> (s == [] || IsSeparator(s[0]))
  {
    if s == [] then [[]]
    else
      var rest := Pieces(s[1..]);
      if IsSeparator(s[0]) then [[]] + rest
      else
        assert NoSeparator(rest[0]);
        [[s[0]] + rest[0]] + rest[1..]
  }

  /** Putting each separator back between the pieces it cut gives `s` again: the cuts fall exactly at the separators. */
  lemma {:induction false} PiecesRejoin(s: string)
    ensures Rejoin(Pieces(s), SeparatorsOf(s)) == s
  {
    if s != [] {
      PiecesRejoin(s[1..]);
      var rest := Pieces(s[1..]);
      var seps := SeparatorsOf(s[1..]);
      if IsSeparator(s[0]) {
        var r := [[]] + rest;
        assert Pieces(s) == r && r[1..] == rest;
        assert SeparatorsOf(s) == [s[0]] + seps && ([s[0]] + seps)[1..] == seps;
        assert [] + [s[0]] + s[1..] == s;
      } else {
        var r := [[s[0]] + rest[0]] + rest[1..];
        assert Pieces(s) == r;
        RejoinFirst(s[0], rest, seps);
        assert SeparatorsOf(s) == seps;
        assert [s[0]] + s[1..] == s;
      }
    }
  }

  /** Joining the pieces with nothing between them gives the word characters of `s`. */
  lemma {:induction false} ConcatPieces(s: string)
    ensures Concat(Pieces(s)) == Letters(s)
  {
    if s != [] {
      ConcatPieces(s[1..]);
      var rest := Pieces(s[1..]);
      assert Concat(rest) == rest[0] + Concat(rest[1..]);
      if IsSeparator(s[0]) {
        assert Pieces(s) == [[]] + rest;
        assert ([[]] + rest)[1..] == rest;
      } else {
        var first := [s[0]] + rest[0];
        assert Pieces(s) == [first] + rest[1..];
        assert ([first] + rest[1..])[1..] == rest[1..];
      }
    }
  }

  /** Adding a character to the front of the first piece adds it to the front of the rejoined string. */
  lemma RejoinFirst(c: char, pieces: seq<string>, seps: string)
    requires |pieces| == |seps| + 1
    ensures Rejoin([[c] + pieces[0]] + pieces[1..], seps) == [c] + Rejoin(pieces, seps)
  {
    var p := [[c] + pieces[0]] + pieces[1..];
    assert p[1..] == pieces[1..];
  }

  /**
   * `StringSplitOptions.RemoveEmptyEntries`: drops the empty pieces. The
   * contract says which pieces survive; `RemoveEmptySingle` and
   * `RemoveEmptyAppend` together pin the result down, order and repeats
   * included.
   */
  function RemoveEmpty(pieces: seq<string>): (r: seq<string>)
    ensures |r| <= |pieces|
    ensures forall i :: 0 <= i < |r| ==> r[i] != [] && r[i] in pieces
    ensures forall i :: 0 <= i < |pieces| && pieces[i] != [] ==> pieces[i] in r
    ensures Concat(r) == Concat(pieces)
  {
    if pieces == [] then []
    else
      var head := if pieces[0] == [] then [] else [pieces[0]];
      var rest := RemoveEmpty(pieces[1..]);
      ConcatAppend(head, rest);
      assert Concat(head) == pieces[0] by {
        if head != [] { assert Concat(head) == pieces[0] + Concat([]); }
      }
      assert forall i :: 1 <= i < |pieces| ==> pieces[i] == pieces[1..][i - 1];
      head + rest
  }

  /** A single piece is kept exactly when it is non-empty. */
  lemma RemoveEmptySingle(p: string)
    ensures RemoveEmpty([p]) == if p == [] then [] else [p]
  {
    assert [p][1..] == [];
  }

  /** Dropping the empty pieces works piece by piece, in order: it distributes over concatenation. */
  lemma {:induction false} RemoveEmptyAppend(a: seq<string>, b: seq<string>)
    ensures RemoveEmpty(a + b) == RemoveEmpty(a) + RemoveEmpty(b)
  {
    if a == [] {
      assert a + b == b;
    } else {
      assert (a + b)[0] == a[0];
      assert (a + b)[1..] == a[1..] + b;
      RemoveEmptyAppend(a[1..], b);
    }
  }

  /** The tokens `Split` returns: none is empty and none holds a separator. */
  function Split(s: string): (tokens: seq<string>)
    ensures forall i :: 0 <= i < |tokens| ==> tokens[i] != [] && NoSeparator(tokens[i])
  {
    RemoveEmpty(Pieces(s))
  }

  /** Position `i` is the last character of a maximal run of non-separators. */
  predicate EndsRun(s: string, i: int)
    requires 0 <= i < |s|
  {
    !IsSeparator(s[i]) && (i + 1 == |s| || IsSeparator(s[i + 1]))
  }

  /** The number of maximal runs of non-separator characters in `s`. */
  function RunCount(s: string): nat {
    if s == [] then 0 else (if EndsRun(s, 0) then 1 else 0) + RunCount(s[1..])
  }

  /** `Split` yields one token per maximal run: `ContarPalavras` counts the runs. */
  lemma {:induction false} SplitCountIsRunCount(s: string)
    ensures |Split(s)| == RunCount(s)
  {
    if s != [] {
      SplitCountIsRunCount(s[1..]);
      var rest := Pieces(s[1..]);
      assert RemoveEmpty(rest) == (if rest[0] == [] then [] else [rest[0]]) + RemoveEmpty(rest[1..]);
      if IsSeparator(s[0]) {
        assert Pieces(s) == [[]] + rest;
        assert ([[]] + rest)[1..] == rest;
      } else {
        var first := [s[0]] + rest[0];
        assert Pieces(s) == [first] + rest[1..];
        assert ([first] + rest[1..])[1..] == rest[1..];
        assert RemoveEmpty(Pieces(s)) == [first] + RemoveEmpty(rest[1..]);
      }
    }
  }

  /** Nothing but separators is lost: the tokens, put together, are the word characters of `s`. */
  lemma SplitKeepsLetters(s: string)
    ensures Concat(Split(s)) == Letters(s)
  {
    ConcatPieces(s);
  }

  /** No words exactly when every character is a separator (this covers the empty content). */
  lemma {:induction false} NoRunsIffAllSeparators(s: string)
    ensures RunCount(s) == 0 <==> forall i :: 0 <= i < |s| ==> IsSeparator(s[i])
  {
    if s != [] {
      NoRunsIffAllSeparators(s[1..]);
      assert forall i :: 1 <= i < |s| ==> s[i] == s[1..][i - 1];
    }
  }

  /**
   * Runs are separated by at least one separator, so there are at most
   * (|s| + 1) / 2 of them; in particular never more than |s|.
   */
  lemma {:induction false} RunCountBound(s: string)
    ensures 2 * RunCount(s) <= |s| + 1
    ensures RunCount(s) <= |s|
  {
    if s != [] {
      RunCountBound(s[1..]);
      if EndsRun(s, 0) && |s| > 1 {
        var t := s[1..];
        RunCountBound(t[1..]);
        assert !EndsRun(t, 0);
        assert RunCount(t) == RunCount(t[1..]);
      }
    }
  }

  lemma WordCountOfEmpty()
    ensures |Split("")| == 0
  {
  }

  lemma WordCountOfMixedSeparators()
    ensures |Split("a b\tc\nd")| == 4
  {
    var s := "a b\tc\nd";
    SplitCountIsRunCount(s);
    assert RunCount(s[6..]) == 1;
    assert RunCount(s[4..]) == 2;
    assert RunCount(s[2..]) == 3;
  }

  /** One step of `Pieces`, for a string given as its first character and the rest. */
  lemma PiecesCons(c: char, t: string)
    ensures Pieces([c] + t) ==
      if IsSeparator(c) then [[]] + Pieces(t) else [[c] + Pieces(t)[0]] + Pieces(t)[1..]
  {
    assert ([c] + t)[1..] == t;
  }

  /** A carriage return is not a separator: "a\r\nb" holds two words, the first one "a\r". */
  lemma CarriageReturnIsNotSeparator()
    ensures Split("a\r\nb") == ["a\r", "b"]
  {
    var p4 := Pieces("");
    assert p4 == [[]];
    PiecesCons('b', "");
    assert ['b'] + "" == "b";
    var p3 := Pieces("b");
    assert p3 == [['b'] + p4[0]] + p4[1..];
    assert p3 == ["b"];
    PiecesCons('\n', "b");
    assert ['\n'] + "b" == "\nb";
    var p2 := Pieces("\nb");
    assert p2 == ["", "b"];
    PiecesCons('\r', "\nb");
    assert ['\r'] + "\nb" == "\r\nb";
    var p1 := Pieces("\r\nb");
    assert p1 == [['\r'] + p2[0]] + p2[1..];
    assert p2[0] == [] && p2[1..] == ["b"];
    assert ['\r'] + [] == "\r";
    assert p1 == ["\r", "b"];
    PiecesCons('a', "\r\nb");
    assert ['a'] + "\r\nb" == "a\r\nb";
    var p0 := Pieces("a\r\nb");
    assert p0 == [['a'] + p1[0]] + p1[1..];
    assert p1[0] == "\r" && p1[1..] == ["b"];
    assert ['a'] + "\r" == "a\r";
    assert p0 == ["a\r", "b"];
    assert RemoveEmpty(["b"]) == ["b"] + RemoveEmpty([]);
    assert p0[1..] == ["b"];
    assert RemoveEmpty(p0) == ["a\r"] + RemoveEmpty(p0[1..]);
  }
}
