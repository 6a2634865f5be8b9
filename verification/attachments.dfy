/**
 `buildAttachments`: the attachment text box, one attachment per line, turned
 into an ordered list of base64 and url attachment records.
 */
module Attachments {
  import opened Wrappers
  import opened Text
  import opened DataUri
  import opened Seqs

  datatype AttachmentType = Url | Base64

  /** `AttachmentInput`: `{ type, name, value, isInline }`. */
  datatype Attachment = Attachment(kind: AttachmentType, name: string, value: string, isInline: bool)

  /**
   The library calls `guessFileNameFromUrl` relies on: the `pathname` of
   `new URL(url)` and `decodeURIComponent`, each `None` where the call throws.
   */
  datatype UrlLib = UrlLib(pathname: string -> Option<string>, decode: string -> Option<string>)

  // ---------------------------------------------------------------------------
  // lines of the text box
  // ---------------------------------------------------------------------------

  predicate IsNewline(c: char) {
    c == '\n'
  }

  /** Splitting text into lines: a line ends at a line feed, and a carriage return right before it belongs to the break. */
  function SplitLines(s: string): (lines: seq<string>)
    ensures |lines| >= 1
    decreases |s|
  {
    if |s| == 0 then [""]
    else if s[0] == '\n' then [""] + SplitLines(s[1..])
    else if s[0] == '\r' && |s| > 1 && s[1] == '\n' then [""] + SplitLines(s[2..])
    else
      var rest := SplitLines(s[1..]);
      [[s[0]] + rest[0]] + rest[1..]
  }

  /** The lines of the text, each trimmed, with the blank ones dropped. */
  function AttachmentLines(text: string): (lines: seq<string>) {
    NonEmpty(TrimEach(SplitLines(text)))
  }

  /** Every line kept is non-empty and already trimmed, and every non-blank line of the text is kept. */
  lemma AttachmentLinesAreTrimmed(text: string)
    ensures forall k :: 0 <= k < |AttachmentLines(text)| ==> AttachmentLines(text)[k] != [] && Trim(AttachmentLines(text)[k]) == AttachmentLines(text)[k]
    ensures forall line :: line in SplitLines(text) && Trim(line) != [] ==> Trim(line) in AttachmentLines(text)
    ensures forall x :: x in AttachmentLines(text) ==> exists line :: line in SplitLines(text) && Trim(line) == x
    ensures exists idx :: TrimEmbedding(AttachmentLines(text), SplitLines(text), idx)
  {
    var pieces := SplitLines(text);
    var lines := AttachmentLines(text);
    NonEmptyMembers(TrimEach(pieces));
    forall k | 0 <= k < |lines| ensures Trim(lines[k]) == lines[k] {
      assert lines[k] in TrimEach(pieces);
      var i :| 0 <= i < |pieces| && TrimEach(pieces)[i] == lines[k];
      TrimIdempotent(pieces[i]);
    }
    NonBlankPiecesKept(pieces);
    NonBlankPiecesInOrder(pieces);
  }

  /** A line break split with `/\r?\n/` differs from one split on `\n` only by a `\r` at the end of some pieces. */
  lemma {:induction false} SplitLinesDropsCarriageReturns(s: string)
    ensures var lines, pieces := SplitLines(s), Split(s, IsNewline);
            && |lines| == |pieces|
            && forall k :: 0 <= k < |lines| ==> pieces[k] == lines[k] || pieces[k] == lines[k] + ['\r']
    decreases |s|
  {
    if |s| == 0 {
    } else if s[0] == '\n' {
      SplitLinesDropsCarriageReturns(s[1..]);
      assert Split(s, IsNewline) == [""] + Split(s[1..], IsNewline);
    } else if s[0] == '\r' && |s| > 1 && s[1] == '\n' {
      SplitLinesDropsCarriageReturns(s[2..]);
      assert s[1..][1..] == s[2..];
      assert Split(s[1..], IsNewline) == [""] + Split(s[2..], IsNewline);
      assert Split(s, IsNewline) == [['\r'] + ""] + Split(s[2..], IsNewline);
      assert ['\r'] + "" == "" + ['\r'];
    } else {
      SplitLinesDropsCarriageReturns(s[1..]);
      var rest, more := SplitLines(s[1..]), Split(s[1..], IsNewline);
      assert more[0] == rest[0] || more[0] == rest[0] + ['\r'];
      assert [s[0]] + (rest[0] + ['\r']) == ([s[0]] + rest[0]) + ['\r'];
    }
  }

  /** The input is CR/LF tolerant: after trimming, splitting on `\r?\n` and on `\n` give the same lines. */
  lemma LinesIgnoreCarriageReturns(s: string)
    ensures TrimEach(SplitLines(s)) == TrimEach(Split(s, IsNewline))
  {
    SplitLinesDropsCarriageReturns(s);
    var lines, pieces := SplitLines(s), Split(s, IsNewline);
    forall k | 0 <= k < |lines| ensures Trim(lines[k]) == Trim(pieces[k]) {
      TrimOfEither(lines[k], pieces[k]);
    }
    TrimEachPointwise(lines, pieces);
  }

  lemma TrimOfEither(line: string, piece: string)
    requires piece == line || piece == line + ['\r']
    ensures Trim(line) == Trim(piece)
  {
    if piece != line {
      TrimIgnoresTrailingWhitespace(line, '\r');
    }
  }

  lemma TrimEachPointwise(xs: seq<string>, ys: seq<string>)
    requires |xs| == |ys|
    requires forall k :: 0 <= k < |xs| ==> Trim(xs[k]) == Trim(ys[k])
    ensures TrimEach(xs) == TrimEach(ys)
  {
  }

  // ---------------------------------------------------------------------------
  // guessFileNameFromUrl
  // ---------------------------------------------------------------------------

  /** The last non-empty slash-separated segment of a path, if there is one. */
  function LastPathSegment(path: string): (seg: Option<string>) {
    var segments := NonEmpty(Split(path, IsSlash));
    if |segments| == 0 then None else Some(segments[|segments| - 1])
  }

  /** `seg` starts at `i` in `path`, right after a slash or at the start, and only slashes follow it. */
  ghost predicate SegmentAt(path: string, i: int, seg: string) {
    && 0 <= i && i + |seg| <= |path|
    && path[i..i + |seg|] == seg
    && (i == 0 || path[i - 1] == '/')
    && AllOf(path[i + |seg|..], IsSlash)
  }

  /** `seg` is a whole segment of `path` followed by nothing but slashes. */
  ghost predicate IsLastSegment(path: string, seg: string) {
    && seg != []
    && NoneOf(seg, IsSlash)
    && exists i :: SegmentAt(path, i, seg)
  }

  /** The segment chosen is the last non-empty one, and there is none exactly when the path is only slashes. */
  lemma {:induction false} LastPathSegmentSpec(path: string)
    ensures LastPathSegment(path).None? <==> AllOf(path, IsSlash)
    ensures LastPathSegment(path).Some? ==> IsLastSegment(path, LastPathSegment(path).value)
    decreases |path|
  {
    if |path| > 0 {
      var init, c := path[..|path| - 1], path[|path| - 1];
      assert path == init + [c];
      if IsSlash(c) {
        LastPathSegmentSpec(init);
        TrailingSlash(init, c);
      } else {
        OtherLastCharacter(init, c);
      }
    }
  }

  /** A trailing slash changes neither the chosen segment nor whether the path is only slashes. */
  lemma TrailingSlash(init: string, c: char)
    requires IsSlash(c)
    requires LastPathSegment(init).None? <==> AllOf(init, IsSlash)
    requires LastPathSegment(init).Some? ==> IsLastSegment(init, LastPathSegment(init).value)
    ensures LastPathSegment(init + [c]) == LastPathSegment(init)
    ensures LastPathSegment(init + [c]).None? <==> AllOf(init + [c], IsSlash)
    ensures LastPathSegment(init + [c]).Some? ==> IsLastSegment(init + [c], LastPathSegment(init + [c]).value)
  {
    var path := init + [c];
    var before := Split(init, IsSlash);
    SplitSnocSeparator(init, c, IsSlash);
    NonEmptyAppend(before, [""]);
    assert NonEmpty([""]) == [];
    assert NonEmpty(before + [""]) == NonEmpty(before);
    assert AllOf(path, IsSlash) <==> AllOf(init, IsSlash) by {
      if AllOf(init, IsSlash) {
        forall k | 0 <= k < |path| ensures IsSlash(path[k]) {
          if k < |init| { assert path[k] == init[k]; }
        }
      }
      if AllOf(path, IsSlash) {
        forall k | 0 <= k < |init| ensures IsSlash(init[k]) {
          assert path[k] == init[k];
        }
      }
    }
    if LastPathSegment(init).Some? {
      var seg := LastPathSegment(init).value;
      var i :| SegmentAt(init, i, seg);
      SegmentAtExtends(init, c, i, seg);
    }
  }

  lemma SegmentAtExtends(init: string, c: char, i: int, seg: string)
    requires IsSlash(c) && SegmentAt(init, i, seg)
    ensures SegmentAt(init + [c], i, seg)
  {
    var path := init + [c];
    assert path[i + |seg|..] == init[i + |seg|..] + [c];
    assert path[i..i + |seg|] == init[i..i + |seg|];
    if i > 0 {
      assert path[i - 1] == init[i - 1];
    }
  }

  /** Any other last character extends the last piece, which becomes the chosen segment. */
  lemma OtherLastCharacter(init: string, c: char)
    requires !IsSlash(c)
    ensures LastPathSegment(init + [c]).Some?
    ensures !AllOf(init + [c], IsSlash)
    ensures IsLastSegment(init + [c], LastPathSegment(init + [c]).value)
  {
    var path := init + [c];
    var before := Split(init, IsSlash);
    SplitSnocOther(init, c, IsSlash);
    LastPieceIsTail(init, IsSlash);
    var n := |before|;
    var last := before[n - 1];
    NonEmptyAppend(before[..n - 1], [last + [c]]);
    assert NonEmpty([last + [c]]) == [last + [c]];
    assert LastPathSegment(path) == Some(last + [c]);
    var i := |init| - |last|;
    assert path[i..i + |last| + 1] == last + [c];
    assert path[i + |last| + 1..] == [];
    if i > 0 {
      assert path[i - 1] == init[i - 1];
    }
    assert SegmentAt(path, i, last + [c]);
    SplitPiecesAvoidSeparators(init, IsSlash);
    NoneOfSnoc(last, c, IsSlash);
    assert path[|path| - 1] == c;
  }

  /** A path has at most one last segment, so `IsLastSegment` pins the chosen segment down. */
  lemma LastSegmentIsUnique(path: string, seg1: string, seg2: string)
    requires IsLastSegment(path, seg1) && IsLastSegment(path, seg2)
    ensures seg1 == seg2
  {
    var i1 :| SegmentAt(path, i1, seg1);
    var i2 :| SegmentAt(path, i2, seg2);
    assert i1 + |seg1| == i2 + |seg2| by {
      SegmentEndsAgree(path, i1, seg1, i2, seg2);
      SegmentEndsAgree(path, i2, seg2, i1, seg1);
    }
    assert i1 == i2 by {
      SegmentStartsAgree(path, i1, seg1, i2, seg2);
      SegmentStartsAgree(path, i2, seg2, i1, seg1);
    }
  }

  lemma SegmentEndsAgree(path: string, i1: int, seg1: string, i2: int, seg2: string)
    requires SegmentAt(path, i1, seg1) && SegmentAt(path, i2, seg2)
    requires seg2 != [] && NoneOf(seg2, IsSlash)
    ensures i2 + |seg2| <= i1 + |seg1|
  {
    var e1, e2 := i1 + |seg1|, i2 + |seg2|;
    assert !IsSlash(path[e2 - 1]) by {
      assert path[e2 - 1] == seg2[|seg2| - 1];
    }
    forall k | e1 <= k < |path| ensures IsSlash(path[k]) {
      assert path[k] == path[e1..][k - e1];
    }
  }

  lemma SegmentStartsAgree(path: string, i1: int, seg1: string, i2: int, seg2: string)
    requires SegmentAt(path, i1, seg1) && SegmentAt(path, i2, seg2)
    requires i1 + |seg1| == i2 + |seg2|
    requires NoneOf(seg1, IsSlash)
    ensures i1 >= i2
  {
    forall k | i1 <= k < i1 + |seg1| ensures !IsSlash(path[k]) {
      assert path[k] == seg1[k - i1];
    }
  }

  /**
   The file name of a url attachment: `attachment` when the URL does not parse;
   otherwise the decoded last non-empty path segment, with `attachment` standing
   in for a path of slashes only, and `attachment` again when decoding throws.
   */
  lemma GuessFileNameFromUrlSpec(url: string, lib: UrlLib)
    ensures lib.pathname(url).None? ==> GuessFileNameFromUrl(url, lib) == "attachment"
    ensures forall path, seg :: lib.pathname(url) == Some(path) && IsLastSegment(path, seg) ==>
              GuessFileNameFromUrl(url, lib) == lib.decode(seg).GetOr("attachment")
    ensures forall path :: lib.pathname(url) == Some(path) && AllOf(path, IsSlash) ==>
              GuessFileNameFromUrl(url, lib) == lib.decode("attachment").GetOr("attachment")
  {
    if lib.pathname(url).Some? {
      var path := lib.pathname(url).value;
      LastPathSegmentSpec(path);
      forall seg | IsLastSegment(path, seg) ensures GuessFileNameFromUrl(url, lib) == lib.decode(seg).GetOr("attachment") {
        assert !AllOf(path, IsSlash) by {
          var i :| SegmentAt(path, i, seg);
          assert path[i] == seg[0];
        }
        LastSegmentIsUnique(path, seg, LastPathSegment(path).value);
      }
    }
  }

  /**
   `guessFileNameFromUrl`: the decoded last non-empty segment of the URL's path,
   `attachment` standing in for a missing segment, and `attachment` as the
   result when parsing or decoding throws.
   */
  function GuessFileNameFromUrl(url: string, lib: UrlLib): (name: string) {
    match lib.pathname(url)
    case None => "attachment"
    case Some(path) =>
      var last := LastPathSegment(path).GetOr("attachment");
      lib.decode(last).GetOr("attachment")
  }

  // ---------------------------------------------------------------------------
  // buildAttachments
  // ---------------------------------------------------------------------------

  /** The body of the loop of `buildAttachments` for one line: the data-URI test first, then the http(s) test. */
  function ClassifyLine(line: string, lib: UrlLib): (r: Option<Attachment>) {
    if IsDataUriBase64(line) then
      Some(Attachment(Base64, AttachmentName(SplitDataUri(line).mime), line, false))
    else if IsHttpUrl(line) then
      Some(Attachment(Url, GuessFileNameFromUrl(line, lib), line, false))
    else None
  }

  /** `ClassifyLine` with the URL library fixed, as the one-argument function `FilterMap` applies. */
  function Classifier(lib: UrlLib): (classify: string -> Option<Attachment>) {
    line => ClassifyLine(line, lib)
  }

  /** The attachment list `buildAttachments` returns for the text of the attachments box. */
  function AttachmentsOf(text: string, lib: UrlLib): (atts: seq<Attachment>) {
    FilterMap(Classifier(lib), AttachmentLines(text))
  }

  /**
   A line yields a record exactly when, once trimmed, it matches the data-URI
   pattern or starts with `http://` or `https://` in any letter case. The
   record carries the line itself and is never inline. It is a base64 record
   exactly when the pattern matches, so the data-URI test wins, and then its
   name is `attachment.` followed by subtype characters only. A url record is
   named `attachment` when the URL does not parse, and otherwise after the
   decoded last segment of its path.
   */
  lemma ClassifyLineSpec(line: string, lib: UrlLib)
    ensures var r, t := ClassifyLine(line, lib), Trim(line);
            && (r.Some? <==> MatchesDataUriPattern(t) || StartsWithIgnoreCase(t, "http://") || StartsWithIgnoreCase(t, "https://"))
            && (r.Some? ==> r.value.value == line && !r.value.isInline)
            && (r.Some? ==> (r.value.kind == Base64 <==> MatchesDataUriPattern(t)))
            && (r.Some? && r.value.kind == Base64 ==>
                  |r.value.name| >= 11 && r.value.name[..11] == "attachment." && AllOf(r.value.name[11..], IsSubtypeChar))
            && (r.Some? && r.value.kind == Url && lib.pathname(line).None? ==> r.value.name == "attachment")
    ensures forall path, seg ::
              && ClassifyLine(line, lib).Some? && ClassifyLine(line, lib).value.kind == Url
              && lib.pathname(line) == Some(path) && IsLastSegment(path, seg)
              ==> ClassifyLine(line, lib).value.name == lib.decode(seg).GetOr("attachment")
  {
    DataUriRecogniserCorrect(line);
    GuessFileNameFromUrlSpec(line, lib);
    if IsDataUriBase64(line) {
      var ext := Extension(SplitDataUri(line).mime);
      assert ("attachment." + ext)[..11] == "attachment.";
      assert ("attachment." + ext)[11..] == ext;
    }
  }

  /**
   Every record comes from its own line and records keep line order: the
   output embeds into the non-blank lines by a strictly increasing index map
   that hits every data-URI or http(s) line and no other.
   */
  lemma AttachmentsFollowLines(text: string, lib: UrlLib) returns (idx: seq<nat>)
    ensures var lines, out := AttachmentLines(text), AttachmentsOf(text, lib);
            && |idx| == |out|
            && (forall k :: 0 <= k < |idx| ==> idx[k] < |lines| && ClassifyLine(lines[idx[k]], lib) == Some(out[k]))
            && (forall k, m :: 0 <= k < m < |idx| ==> idx[k] < idx[m])
            && (forall i :: 0 <= i < |lines| ==> (i in idx <==> ClassifyLine(lines[i], lib).Some?))
  {
    idx := FilterMapEmbedding(Classifier(lib), AttachmentLines(text));
  }

  /**
   `buildAttachments`: walks the non-blank trimmed lines once and pushes one
   record for every data URI (named `attachment.<ext>`) and every http(s) URL
   (named after its path), skipping other lines.
   */
  method BuildAttachments(text: string, lib: UrlLib) returns (out: seq<Attachment>)
    ensures out == AttachmentsOf(text, lib)
  {
    out := FilterMapLoop(Classifier(lib), AttachmentLines(text));
  }

  /**
   A line with the marker in lower case is named after its media subtype, or
   `attachment.bin` when the media type is left out, and its payload is what
   follows the marker.
   */
  lemma Base64EntryOfWellFormedLine(line: string, j: int, lib: UrlLib)
    requires DataUriPatternAt(line, j)
    requires line[j..j + 8] == Base64Marker
    requires !IsWhitespace(line[|line| - 1])
    ensures var g := line[5..j];
            && ClassifyLine(line, lib) == Some(Attachment(Base64, "attachment." + (if g == [] then "bin" else MediaSubtype(g)), line, false))
            && SplitDataUri(line).base64 == line[j + 8..]
  {
    WellFormedLineIsBase64(line, j, lib);
    WellFormedLineName(line, j);
  }

  lemma WellFormedLineIsBase64(line: string, j: int, lib: UrlLib)
    requires DataUriPatternAt(line, j)
    requires !IsWhitespace(line[|line| - 1])
    ensures ClassifyLine(line, lib) == Some(Attachment(Base64, AttachmentName(SplitDataUri(line).mime), line, false))
  {
    DataUriLineIsTrimmed(line, j);
    RecogniserComplete(line, j);
    ClassifyDataUriLine(line, lib);
  }

  /** A data URI starts with a letter, so one that does not end in whitespace is already trimmed. */
  lemma DataUriLineIsTrimmed(line: string, j: int)
    requires DataUriPatternAt(line, j)
    requires !IsWhitespace(line[|line| - 1])
    ensures Trim(line) == line
  {
    assert AsciiLower(line[..5][0]) == AsciiLower('d');
    TrimOfTrimmed(line);
  }

  lemma WellFormedLineName(line: string, j: int)
    requires DataUriPatternAt(line, j)
    requires line[j..j + 8] == Base64Marker
    ensures SplitDataUri(line).base64 == line[j + 8..]
    ensures AttachmentName(SplitDataUri(line).mime) == "attachment." + (if line[5..j] == [] then "bin" else MediaSubtype(line[5..j]))
  {
    var g := line[5..j];
    assert g == [] || IsMediaTypeSpec(g);
    LowerCaseMarkerIsFound(line, j);
    assert SplitDataUri(line).mime == g;
    NameOfWellFormedMediaType(g);
  }

  lemma ClassifyDataUriLine(line: string, lib: UrlLib)
    requires IsDataUriBase64(line)
    ensures ClassifyLine(line, lib) == Some(Attachment(Base64, AttachmentName(SplitDataUri(line).mime), line, false))
  {
  }

  /** The part of a media type after its first slash. */
  function MediaSubtype(g: string): (sub: string) {
    var k := IndexOf(g, "/");
    if k < 0 then "" else g[k + 1..]
  }

  lemma NameOfWellFormedMediaType(g: string)
    requires g == [] || IsMediaTypeSpec(g)
    ensures AttachmentName(g) == "attachment." + (if g == [] then "bin" else MediaSubtype(g))
  {
    if g == [] {
      ExtensionWithoutSlash(g);
    } else {
      MediaTypeSpecIsDecided(g);
      var k := IndexOf(g, "/");
      assert g[k..k + 1] == "/";
      assert g == g[..k] + "/" + g[k + 1..];
      ExtensionOfMediaType(g[..k], g[k + 1..]);
    }
  }
}
