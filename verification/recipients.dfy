/**
 The recipient fields of the task pane (`to`, `cc`, `bcc`): free text holding
 addresses separated by commas, semicolons or line breaks.
 */
module Recipients {
  import opened Text

  /** The separator class `[,\n;]`. */
  predicate IsRecipientSeparator(c: char) {
    c == ',' || c == '\n' || c == ';'
  }

  /** What every parsed recipient looks like: non-empty, no whitespace at either end, no separator inside. */
  predicate IsRecipient(r: string) {
    && r != []
    && !IsWhitespace(r[0])
    && !IsWhitespace(r[|r| - 1])
    && NoneOf(r, IsRecipientSeparator)
  }

  /**
   `parseRecipients`: split on `,`, `;` or newline, trim every piece and drop the
   empty ones. A missing field reaches this function as the empty string.
   */
  function ParseRecipients(raw: string): (rs: seq<string>)
    ensures |rs| <= |Separators(raw, IsRecipientSeparator)| + 1
    ensures forall k :: 0 <= k < |rs| ==> IsRecipient(rs[k])
    ensures raw == [] ==> rs == []
    ensures forall p :: p in Split(raw, IsRecipientSeparator) && Trim(p) != [] ==> Trim(p) in rs
    ensures forall r :: r in rs ==> exists p :: p in Split(raw, IsRecipientSeparator) && Trim(p) == r
    ensures exists idx :: TrimEmbedding(rs, Split(raw, IsRecipientSeparator), idx)
  {
    var pieces := Split(raw, IsRecipientSeparator);
    SplitRoundTrip(raw, IsRecipientSeparator);
    SplitPiecesAvoidSeparators(raw, IsRecipientSeparator);
    KeptPiecesAreRecipients(pieces);
    NonBlankPiecesKept(pieces);
    NonBlankPiecesInOrder(pieces);
    NonEmpty(TrimEach(pieces))
  }

  lemma KeptPiecesAreRecipients(pieces: seq<string>)
    requires forall k :: 0 <= k < |pieces| ==> NoneOf(pieces[k], IsRecipientSeparator)
    ensures forall k :: 0 <= k < |NonEmpty(TrimEach(pieces))| ==> IsRecipient(NonEmpty(TrimEach(pieces))[k])
  {
    var trimmed := TrimEach(pieces);
    var kept := NonEmpty(trimmed);
    NonEmptyMembers(trimmed);
    forall k | 0 <= k < |kept| ensures IsRecipient(kept[k]) {
      var y := kept[k];
      assert y in trimmed;
      var i :| 0 <= i < |trimmed| && trimmed[i] == y;
      TrimKeepsNoneOf(pieces[i], IsRecipientSeparator);
    }
  }

  /** The recipients written one after another with a separator between them: what a user would type. */
  function JoinWith(rs: seq<string>, sep: char): (raw: string) {
    if |rs| == 0 then ""
    else if |rs| == 1 then rs[0]
    else rs[0] + [sep] + JoinWith(rs[1..], sep)
  }

  /** Parsing is the inverse of joining well-formed recipients with any separator. */
  lemma {:induction false} ParseJoinRoundTrip(rs: seq<string>, sep: char)
    requires IsRecipientSeparator(sep)
    requires forall k :: 0 <= k < |rs| ==> IsRecipient(rs[k])
    ensures ParseRecipients(JoinWith(rs, sep)) == rs
  {
    if |rs| == 0 {
      assert Split("", IsRecipientSeparator) == [""];
      assert TrimEach([""]) == [Trim("")];
    } else {
      SplitOfJoin(rs, sep);
      TrimEachOfTrimmed(rs);
      NonEmptyOfNonEmpty(rs);
    }
  }

  lemma {:induction false} SplitOfJoin(rs: seq<string>, sep: char)
    requires IsRecipientSeparator(sep) && |rs| > 0
    requires forall k :: 0 <= k < |rs| ==> IsRecipient(rs[k])
    ensures Split(JoinWith(rs, sep), IsRecipientSeparator) == rs
    decreases |rs|
  {
    if |rs| == 1 {
      SplitWithoutSeparator(rs[0], IsRecipientSeparator);
    } else {
      SplitAfterPiece(rs[0], sep, JoinWith(rs[1..], sep), IsRecipientSeparator);
      SplitOfJoin(rs[1..], sep);
      assert [rs[0]] + rs[1..] == rs;
    }
  }

  lemma TrimEachOfTrimmed(rs: seq<string>)
    requires forall k :: 0 <= k < |rs| ==> IsRecipient(rs[k])
    ensures TrimEach(rs) == rs
  {
    forall k | 0 <= k < |rs| ensures Trim(rs[k]) == rs[k] {
      RecipientIsTrimmed(rs[k]);
    }
    TrimEachFixed(rs);
  }

  lemma RecipientIsTrimmed(r: string)
    requires IsRecipient(r)
    ensures Trim(r) == r
  {
    TrimOfTrimmed(r);
  }

  lemma {:induction false} NonEmptyOfNonEmpty(rs: seq<string>)
    requires forall k :: 0 <= k < |rs| ==> rs[k] != []
    ensures NonEmpty(rs) == rs
    decreases |rs|
  {
    if |rs| > 0 {
      NonEmptyOfNonEmpty(rs[1..]);
      assert [rs[0]] + rs[1..] == rs;
    }
  }
}
