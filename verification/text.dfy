/**
 String helpers with the meaning JavaScript gives them: `String.prototype.trim`,
 `split` on a character class, `indexOf`, `slice` and ASCII case-insensitive
 comparison (the `/i` flag of a regular expression without the `u` flag).
 Strings are sequences of characters; nothing here depends on their encoding.
 */
module Text {
  import opened Wrappers
  import opened Seqs

  /** The code points `String.prototype.trim` removes: ECMAScript WhiteSpace and LineTerminator. */
  predicate IsWhitespace(c: char) {
    || c == '\t' || c == '\n' || c == '\U{B}' || c == '\U{C}' || c == '\r' || c == ' '
    || c == '\U{A0}' || c == '\U{1680}' || ('\U{2000}' <= c <= '\U{200A}')
    || c == '\U{2028}' || c == '\U{2029}' || c == '\U{202F}' || c == '\U{205F}'
    || c == '\U{3000}' || c == '\U{FEFF}'
  }

  /** True when no character of `s` satisfies `p`. */
  predicate NoneOf(s: string, p: char -> bool) {
    forall i :: 0 <= i < |s| ==> !p(s[i])
  }

  lemma NoneOfSnoc(s: string, c: char, p: char -> bool)
    requires NoneOf(s, p) && !p(c)
    ensures NoneOf(s + [c], p)
  {
    forall i | 0 <= i < |s + [c]| ensures !p((s + [c])[i]) {
      if i < |s| { assert (s + [c])[i] == s[i]; }
    }
  }

  /** True when every character of `s` satisfies `p`. */
  predicate AllOf(s: string, p: char -> bool) {
    forall i :: 0 <= i < |s| ==> p(s[i])
  }

  // ---------------------------------------------------------------------------
  // trim
  //
  // The trimming machinery is stated for any character class `ws`; `Trim` is
  // its instance for `IsWhitespace`. The proofs never look inside the class.
  // ---------------------------------------------------------------------------

  function TrimStart(s: string, ws: char -> bool): (r: string)
    ensures |r| <= |s| && r == s[|s| - |r|..]
    ensures AllOf(s[..|s| - |r|], ws)
    ensures r == [] || !ws(r[0])
  {
    if |s| > 0 && ws(s[0]) then TrimStart(s[1..], ws) else s
  }

  function TrimEnd(s: string, ws: char -> bool): (r: string)
    ensures |r| <= |s| && r == s[..|r|]
    ensures AllOf(s[|r|..], ws)
    ensures r == [] || !ws(r[|r| - 1])
  {
    if |s| > 0 && ws(s[|s| - 1]) then
      var r := TrimEnd(s[..|s| - 1], ws);
      assert s[|r|..] == s[..|s| - 1][|r|..] + [s[|s| - 1]];
      r
    else s
  }

  /** `s[i..j]` is what remains of `s` once the characters of class `ws` at either end are gone. */
  ghost predicate TrimmedAt(s: string, i: int, j: int, ws: char -> bool) {
    && 0 <= i <= j <= |s|
    && AllOf(s[..i], ws)
    && AllOf(s[j..], ws)
    && (i < j ==> !ws(s[i]) && !ws(s[j - 1]))
  }

  /** Declarative meaning of trimming: `r` is an infix of `s` surrounded only by whitespace, with no whitespace at its ends. */
  ghost predicate IsTrimOf(r: string, s: string) {
    exists i, j :: TrimmedAt(s, i, j, IsWhitespace) && r == s[i..j]
  }

  /** Removes the characters of class `ws` at both ends. */
  function TrimBy(s: string, ws: char -> bool): (r: string)
    ensures |r| <= |s|
    ensures r == [] || (!ws(r[0]) && !ws(r[|r| - 1]))
  {
    TrimEnd(TrimStart(s, ws), ws)
  }

  /** `String.prototype.trim`. */
  function Trim(s: string): (r: string)
    ensures |r| <= |s|
    ensures r == [] || (!IsWhitespace(r[0]) && !IsWhitespace(r[|r| - 1]))
  {
    TrimBy(s, IsWhitespace)
  }

  /** The bounds of what `TrimBy` keeps. */
  lemma TrimBounds(s: string, ws: char -> bool) returns (i: int, j: int)
    ensures TrimmedAt(s, i, j, ws) && TrimBy(s, ws) == s[i..j]
  {
    var t := TrimStart(s, ws);
    var r := TrimEnd(t, ws);
    i, j := |s| - |t|, |s| - |t| + |r|;
    TrimmedAtOfParts(s, t, r, ws);
  }

  /** Cutting the class off the front (`t`) and then the back (`r`) leaves a trimmed infix. */
  lemma TrimmedAtOfParts(s: string, t: string, r: string, ws: char -> bool)
    requires |t| <= |s| && t == s[|s| - |t|..] && AllOf(s[..|s| - |t|], ws)
    requires t == [] || !ws(t[0])
    requires |r| <= |t| && r == t[..|r|] && AllOf(t[|r|..], ws)
    requires r == [] || !ws(r[|r| - 1])
    ensures TrimmedAt(s, |s| - |t|, |s| - |t| + |r|, ws) && r == s[|s| - |t|..|s| - |t| + |r|]
  {
    var i, j := |s| - |t|, |s| - |t| + |r|;
    assert r == s[i..j];
    assert s[j..] == t[|r|..];
    if i < j {
      assert s[i] == t[0];
    }
  }

  /** `Trim` removes exactly the surrounding whitespace. */
  lemma TrimSpec(s: string)
    ensures IsTrimOf(Trim(s), s)
  {
    var i, j := TrimBounds(s, IsWhitespace);
  }

  /** Two ways of cutting off the class at both ends keep the same text. */
  lemma TrimmedAtUnique(s: string, i1: int, j1: int, i2: int, j2: int, ws: char -> bool)
    requires TrimmedAt(s, i1, j1, ws) && TrimmedAt(s, i2, j2, ws)
    ensures s[i1..j1] == s[i2..j2]
  {
    if i1 < j1 && i2 < j2 {
      BoundaryAgrees(s, i1, j1, i2, j2, ws);
      BoundaryAgrees(s, i2, j2, i1, j1, ws);
    } else if i1 < j1 {
      OnlyClassWhenEmpty(s, i2, j2, i1, ws);
      assert false;
    } else if i2 < j2 {
      OnlyClassWhenEmpty(s, i1, j1, i2, ws);
      assert false;
    }
  }

  /** Whatever is cut out between characters of the class is what `TrimBy` keeps. */
  lemma TrimOfTrimmedAt(s: string, i: int, j: int, ws: char -> bool)
    requires TrimmedAt(s, i, j, ws)
    ensures TrimBy(s, ws) == s[i..j]
  {
    var i2, j2 := TrimBounds(s, ws);
    TrimmedAtUnique(s, i, j, i2, j2, ws);
  }

  /** The declarative description determines `Trim` completely. */
  lemma TrimUnique(s: string, r1: string, r2: string)
    requires IsTrimOf(r1, s) && IsTrimOf(r2, s)
    ensures r1 == r2
  {
    var i1, j1 :| TrimmedAt(s, i1, j1, IsWhitespace) && r1 == s[i1..j1];
    var i2, j2 :| TrimmedAt(s, i2, j2, IsWhitespace) && r2 == s[i2..j2];
    TrimmedAtUnique(s, i1, j1, i2, j2, IsWhitespace);
  }

  lemma BoundaryAgrees(s: string, i1: int, j1: int, i2: int, j2: int, ws: char -> bool)
    requires TrimmedAt(s, i1, j1, ws) && TrimmedAt(s, i2, j2, ws) && i1 < j1 && i2 < j2
    ensures i1 <= i2 && j2 <= j1
  {
  }

  lemma OnlyClassWhenEmpty(s: string, i: int, j: int, k: int, ws: char -> bool)
    requires TrimmedAt(s, i, j, ws) && i == j && 0 <= k < |s|
    ensures ws(s[k])
  {
  }

  /** Trimming keeps no character the predicate `p` rejects everywhere in `s`. */
  lemma TrimKeepsNoneOf(s: string, p: char -> bool)
    requires NoneOf(s, p)
    ensures NoneOf(Trim(s), p)
  {
    var i, j := TrimBounds(s, IsWhitespace);
    forall k | 0 <= k < |Trim(s)| ensures !p(Trim(s)[k]) {
      assert Trim(s)[k] == s[i + k];
    }
  }

  /** A string without the class at either end is what `TrimBy` keeps of it. */
  lemma TrimByOfTrimmed(s: string, ws: char -> bool)
    requires s == [] || (!ws(s[0]) && !ws(s[|s| - 1]))
    ensures TrimBy(s, ws) == s
  {
    assert TrimmedAt(s, 0, |s|, ws);
    TrimOfTrimmedAt(s, 0, |s|, ws);
  }

  /** A string without whitespace at either end is its own trim. */
  lemma TrimOfTrimmed(s: string)
    requires s == [] || (!IsWhitespace(s[0]) && !IsWhitespace(s[|s| - 1]))
    ensures Trim(s) == s
  {
    TrimByOfTrimmed(s, IsWhitespace);
  }

  /** Trimming twice is trimming once. */
  lemma TrimIdempotent(s: string)
    ensures Trim(Trim(s)) == Trim(s)
  {
    TrimOfTrimmed(Trim(s));
  }

  /** Extra whitespace at the end of a string does not change its trim. */
  lemma TrimIgnoresTrailingWhitespace(p: string, c: char)
    requires IsWhitespace(c)
    ensures Trim(p + [c]) == Trim(p)
  {
    TrimByIgnoresTrailing(p, c, IsWhitespace);
  }

  lemma TrimByIgnoresTrailing(p: string, c: char, ws: char -> bool)
    requires ws(c)
    ensures TrimBy(p + [c], ws) == TrimBy(p, ws)
  {
    var i, j := TrimBounds(p, ws);
    TrimmedAtExtends(p, c, i, j, ws);
    assert (p + [c])[i..j] == p[i..j];
    TrimOfTrimmedAt(p + [c], i, j, ws);
  }

  lemma TrimmedAtExtends(p: string, c: char, i: int, j: int, ws: char -> bool)
    requires ws(c) && TrimmedAt(p, i, j, ws)
    ensures TrimmedAt(p + [c], i, j, ws)
  {
    var s := p + [c];
    assert s[..i] == p[..i];
    assert s[j..] == p[j..] + [c];
    assert AllOf(s[j..], ws) by {
      forall k | 0 <= k < |s[j..]| ensures ws(s[j..][k]) {
        if k < |p[j..]| { assert s[j..][k] == p[j..][k]; }
      }
    }
  }

  // ---------------------------------------------------------------------------
  // split on a character class
  // ---------------------------------------------------------------------------

  /** Splitting on a character class: the pieces between separator characters, empty pieces included. */
  function Split(s: string, isSep: char -> bool): (pieces: seq<string>)
    ensures |pieces| >= 1
    decreases |s|
  {
    if |s| == 0 then [""]
    else
      var rest := Split(s[1..], isSep);
      if isSep(s[0]) then [""] + rest
      else [[s[0]] + rest[0]] + rest[1..]
  }

  /** No piece of a split contains a separator. */
  lemma {:induction false} SplitPiecesAvoidSeparators(s: string, isSep: char -> bool)
    ensures forall k :: 0 <= k < |Split(s, isSep)| ==> NoneOf(Split(s, isSep)[k], isSep)
    decreases |s|
  {
    if |s| > 0 {
      SplitPiecesAvoidSeparators(s[1..], isSep);
      var rest := Split(s[1..], isSep);
      if !isSep(s[0]) {
        var first := [s[0]] + rest[0];
        assert NoneOf(first, isSep) by {
          forall i | 0 <= i < |first| ensures !isSep(first[i]) {
            if i > 0 { assert first[i] == rest[0][i - 1]; }
          }
        }
      }
    }
  }

  /** The separator characters of `s`, in order. */
  function Separators(s: string, isSep: char -> bool): (seps: string)
    ensures |seps| <= |s|
    ensures AllOf(seps, isSep)
  {
    if |s| == 0 then []
    else if isSep(s[0]) then [s[0]] + Separators(s[1..], isSep)
    else Separators(s[1..], isSep)
  }

  /** Puts the separators back between the pieces: the inverse of `Split`. */
  function Interleave(pieces: seq<string>, seps: string): (s: string)
    requires |pieces| == |seps| + 1
  {
    if |seps| == 0 then pieces[0]
    else pieces[0] + [seps[0]] + Interleave(pieces[1..], seps[1..])
  }

  /** Splitting loses nothing: one more piece than separators, and interleaving them gives back `s`. */
  lemma {:induction false} SplitRoundTrip(s: string, isSep: char -> bool)
    ensures |Split(s, isSep)| == |Separators(s, isSep)| + 1
    ensures Interleave(Split(s, isSep), Separators(s, isSep)) == s
    decreases |s|
  {
    if |s| > 0 {
      SplitRoundTrip(s[1..], isSep);
      var rest := Split(s[1..], isSep);
      var seps := Separators(s[1..], isSep);
      if isSep(s[0]) {
        InterleaveAfterSeparator(rest, s[0], seps);
      } else {
        InterleaveExtendFirst(s[0], rest, seps);
      }
      assert [s[0]] + s[1..] == s;
    }
  }

  lemma InterleaveAfterSeparator(rest: seq<string>, c: char, seps: string)
    requires |rest| == |seps| + 1
    ensures Interleave([""] + rest, [c] + seps) == [c] + Interleave(rest, seps)
  {
    assert ([""] + rest)[1..] == rest;
    assert ([c] + seps)[1..] == seps;
  }

  lemma InterleaveExtendFirst(c: char, rest: seq<string>, seps: string)
    requires |rest| == |seps| + 1
    ensures Interleave([[c] + rest[0]] + rest[1..], seps) == [c] + Interleave(rest, seps)
  {
    var pieces := [[c] + rest[0]] + rest[1..];
    if |seps| > 0 {
      assert pieces[1..] == rest[1..];
    }
  }

  /** A string without separators splits into itself. */
  lemma {:induction false} SplitWithoutSeparator(p: string, isSep: char -> bool)
    requires NoneOf(p, isSep)
    ensures Split(p, isSep) == [p]
    decreases |p|
  {
    if |p| > 0 {
      SplitWithoutSeparator(p[1..], isSep);
      assert [p[0]] + p[1..] == p;
    }
  }

  /** Splitting `p` followed by a separator and then `rest` yields `p` first and then the pieces of `rest`. */
  lemma {:induction false} SplitAfterPiece(p: string, c: char, rest: string, isSep: char -> bool)
    requires NoneOf(p, isSep) && isSep(c)
    ensures Split(p + [c] + rest, isSep) == [p] + Split(rest, isSep)
    decreases |p|
  {
    var s := p + [c] + rest;
    if |p| == 0 {
      assert s[1..] == rest;
    } else {
      assert s[1..] == p[1..] + [c] + rest;
      SplitAfterPiece(p[1..], c, rest, isSep);
      assert [p[0]] + p[1..] == p;
    }
  }

  /** Appending a separator opens a new, empty last piece. */
  lemma {:induction false} SplitSnocSeparator(s: string, c: char, isSep: char -> bool)
    requires isSep(c)
    ensures Split(s + [c], isSep) == Split(s, isSep) + [""]
    decreases |s|
  {
    var t := s + [c];
    if |s| == 0 {
      assert t[1..] == [];
    } else {
      assert t[1..] == s[1..] + [c];
      SplitSnocSeparator(s[1..], c, isSep);
      var before := Split(s[1..], isSep);
      if !isSep(s[0]) {
        assert (before + [""])[0] == before[0];
        assert (before + [""])[1..] == before[1..] + [""];
      }
    }
  }

  /** Appending any other character extends the last piece. */
  lemma {:induction false} SplitSnocOther(s: string, c: char, isSep: char -> bool)
    requires !isSep(c)
    ensures var before := Split(s, isSep);
            Split(s + [c], isSep) == before[..|before| - 1] + [before[|before| - 1] + [c]]
    decreases |s|
  {
    var t := s + [c];
    if |s| == 0 {
      assert t[1..] == [];
      assert Split(t[1..], isSep) == [""];
      assert Split(t, isSep) == [[c]] by {
        assert [c] + "" == [c];
        assert [""][1..] == [];
      }
      assert Split(s, isSep) == [""];
      assert "" + [c] == [c];
      assert [""][..0] + ["" + [c]] == [[c]];
    } else {
      assert t[1..] == s[1..] + [c];
      assert t[0] == s[0];
      SplitSnocOther(s[1..], c, isSep);
      var before := Split(s[1..], isSep);
      if isSep(s[0]) {
        ExtendLastCons("", before, c);
      } else {
        ExtendLastHead(s[0], before, c);
      }
    }
  }

  lemma ExtendLastCons(p: string, ps: seq<string>, c: char)
    requires |ps| > 0
    ensures var qs := [p] + ps;
            qs[..|qs| - 1] + [qs[|qs| - 1] + [c]] == [p] + (ps[..|ps| - 1] + [ps[|ps| - 1] + [c]])
  {
    var qs := [p] + ps;
    assert qs[..|qs| - 1] == [p] + ps[..|ps| - 1];
    assert qs[|qs| - 1] == ps[|ps| - 1];
  }

  lemma ExtendLastHead(x: char, ps: seq<string>, c: char)
    requires |ps| > 0
    ensures var qs, after := [[x] + ps[0]] + ps[1..], ps[..|ps| - 1] + [ps[|ps| - 1] + [c]];
            qs[..|qs| - 1] + [qs[|qs| - 1] + [c]] == [[x] + after[0]] + after[1..]
  {
    var n := |ps|;
    var after := ps[..n - 1] + [ps[n - 1] + [c]];
    if n == 1 {
      assert after == [ps[0] + [c]];
      assert [x] + (ps[0] + [c]) == ([x] + ps[0]) + [c];
    } else {
      assert after[0] == ps[0];
      assert after[1..] == ps[1..n - 1] + [ps[n - 1] + [c]];
    }
  }

  /** The last piece is the tail of `s` after its last separator. */
  lemma {:induction false} LastPieceIsTail(s: string, isSep: char -> bool)
    ensures var pieces := Split(s, isSep);
            var last := pieces[|pieces| - 1];
            && |last| <= |s|
            && s[|s| - |last|..] == last
            && (|last| == |s| || isSep(s[|s| - |last| - 1]))
    decreases |s|
  {
    if |s| > 0 {
      var init := s[..|s| - 1];
      var c := s[|s| - 1];
      assert s == init + [c];
      LastPieceIsTail(init, isSep);
      if isSep(c) { SplitSnocSeparator(init, c, isSep); } else { SplitSnocOther(init, c, isSep); }
    }
  }

  /** Keeps the non-empty strings of a list, in order. */
  function NonEmpty(xs: seq<string>): (ys: seq<string>)
    ensures |ys| <= |xs|
    ensures forall k :: 0 <= k < |ys| ==> ys[k] != []
  {
    if |xs| == 0 then []
    else if xs[0] == [] then NonEmpty(xs[1..])
    else [xs[0]] + NonEmpty(xs[1..])
  }

  /** `NonEmpty` keeps exactly the non-empty strings. */
  lemma {:induction false} NonEmptyMembers(xs: seq<string>)
    ensures forall x :: x in NonEmpty(xs) <==> x in xs && x != []
  {
    if |xs| > 0 {
      NonEmptyMembers(xs[1..]);
      assert xs == [xs[0]] + xs[1..];
    }
  }

  lemma NonEmptyAppend(xs: seq<string>, ys: seq<string>)
    ensures NonEmpty(xs + ys) == NonEmpty(xs) + NonEmpty(ys)
  {
    if |xs| > 0 {
      assert (xs + ys)[1..] == xs[1..] + ys;
      NonEmptyAppend(xs[1..], ys);
    } else {
      assert xs + ys == ys;
    }
  }

  /** Trims every string of a list. */
  function TrimEach(xs: seq<string>): (ys: seq<string>)
    ensures |ys| == |xs|
    ensures forall k :: 0 <= k < |xs| ==> ys[k] == Trim(xs[k])
  {
    if |xs| == 0 then [] else [Trim(xs[0])] + TrimEach(xs[1..])
  }

  /** Trimming every piece and dropping the empty results keeps exactly the non-blank pieces, trimmed. */
  lemma NonBlankPiecesKept(pieces: seq<string>)
    ensures forall p :: p in pieces && Trim(p) != [] ==> Trim(p) in NonEmpty(TrimEach(pieces))
    ensures forall x :: x in NonEmpty(TrimEach(pieces)) ==> x != [] && exists p :: p in pieces && Trim(p) == x
  {
    var trimmed := TrimEach(pieces);
    NonEmptyMembers(trimmed);
    forall p | p in pieces && Trim(p) != [] ensures Trim(p) in NonEmpty(trimmed) {
      var i :| 0 <= i < |pieces| && pieces[i] == p;
      assert trimmed[i] == Trim(p);
    }
    forall x | x in NonEmpty(trimmed) ensures exists p :: p in pieces && Trim(p) == x {
      var i :| 0 <= i < |trimmed| && trimmed[i] == x;
      assert pieces[i] in pieces;
    }
  }

  /** A piece, trimmed, or `None` when nothing but whitespace is left of it. */
  function NonBlankTrim(p: string): (r: Option<string>) {
    if Trim(p) == [] then None else Some(Trim(p))
  }

  /**
   `kept` lists the trimmed non-blank pieces of `pieces` in order, each once:
   `idx` maps it into `pieces`, strictly increasing, and hits exactly the
   pieces that are not blank.
   */
  ghost predicate TrimEmbedding(kept: seq<string>, pieces: seq<string>, idx: seq<nat>) {
    && |idx| == |kept|
    && (forall k :: 0 <= k < |idx| ==> idx[k] < |pieces| && Trim(pieces[idx[k]]) == kept[k])
    && (forall k, m :: 0 <= k < m < |idx| ==> idx[k] < idx[m])
    && (forall i :: 0 <= i < |pieces| ==> (i in idx <==> Trim(pieces[i]) != []))
  }

  /** Trimming every piece and then dropping the empty strings is one pass that keeps the non-blank trims. */
  lemma {:induction false} TrimThenDropIsFilterMap(pieces: seq<string>)
    ensures NonEmpty(TrimEach(pieces)) == FilterMap(NonBlankTrim, pieces)
    decreases |pieces|
  {
    if |pieces| > 0 {
      var trimmed := TrimEach(pieces);
      assert trimmed[1..] == TrimEach(pieces[1..]);
      TrimThenDropIsFilterMap(pieces[1..]);
      FilterMapStep(NonBlankTrim, pieces);
    }
  }

  /** The kept pieces keep their order and their repetitions: they embed into the pieces, hitting every non-blank one. */
  lemma NonBlankPiecesInOrder(pieces: seq<string>)
    ensures exists idx :: TrimEmbedding(NonEmpty(TrimEach(pieces)), pieces, idx)
  {
    TrimThenDropIsFilterMap(pieces);
    var idx := FilterMapEmbedding(NonBlankTrim, pieces);
    assert TrimEmbedding(NonEmpty(TrimEach(pieces)), pieces, idx);
  }

  /** Trimming every string leaves the list alone when every string is already trimmed. */
  lemma TrimEachFixed(xs: seq<string>)
    requires forall k :: 0 <= k < |xs| ==> Trim(xs[k]) == xs[k]
    ensures TrimEach(xs) == xs
  {
  }

  // ---------------------------------------------------------------------------
  // indexOf, slice
  // ---------------------------------------------------------------------------

  predicate OccursAt(s: string, pat: string, i: int) {
    0 <= i && i + |pat| <= |s| && s[i..i + |pat|] == pat
  }

  /** The first occurrence of `pat` at or after `from`, or -1 when there is none (as `indexOf` reports it). */
  function IndexOfFrom(s: string, pat: string, from: nat): (r: int)
    ensures r == -1 || (from <= r && OccursAt(s, pat, r))
    ensures r == -1 ==> forall i :: from <= i ==> !OccursAt(s, pat, i)
    ensures r != -1 ==> forall i :: from <= i < r ==> !OccursAt(s, pat, i)
    decreases |s| - from
  {
    if from + |pat| > |s| then -1
    else if s[from..from + |pat|] == pat then from
    else IndexOfFrom(s, pat, from + 1)
  }

  function IndexOf(s: string, pat: string): (r: int) {
    IndexOfFrom(s, pat, 0)
  }

  /** Resolves a `slice` argument against a length: negative values count from the end. */
  function ClampIndex(k: int, len: nat): (r: nat)
    ensures r <= len
    ensures 0 <= k <= len ==> r == k
    ensures k < 0 && 0 <= len + k ==> r == len + k
  {
    if k < 0 then (if len + k < 0 then 0 else len + k)
    else if k > len then len
    else k
  }

  /** The part of `s` between two indices, each clamped into range first (as `slice` does). */
  function Slice(s: string, start: int, end: int): (r: string)
    ensures var from, to := ClampIndex(start, |s|), ClampIndex(end, |s|);
            if from < to then r == s[from..to] else r == []
  {
    var from := ClampIndex(start, |s|);
    var to := ClampIndex(end, |s|);
    if from < to then s[from..to] else []
  }

  // ---------------------------------------------------------------------------
  // ASCII case-insensitive comparison
  // ---------------------------------------------------------------------------

  /** Case folding of a regular expression with the `i` flag and without `u`: only ASCII letters fold. */
  function AsciiLower(c: char): (d: char) {
    if 'A' <= c <= 'Z' then (c as int + 32) as char else c
  }

  predicate EqualsIgnoreCase(a: string, b: string) {
    |a| == |b| && forall i :: 0 <= i < |a| ==> AsciiLower(a[i]) == AsciiLower(b[i])
  }

  predicate StartsWithIgnoreCase(s: string, prefix: string) {
    |prefix| <= |s| && EqualsIgnoreCase(s[..|prefix|], prefix)
  }
}
