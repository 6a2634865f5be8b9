/**
 Recognising attachment lines: `data:` URIs in the base64 form of RFC 2397
 (`data:[<mediatype>];base64,<data>`) and absolute `http(s)://` URLs, and
 taking a data URI apart into its media type and payload.
 */
module DataUri {
  import opened Text

  const DataScheme: string := "data:"
  const Base64Marker: string := ";base64,"

  /** `\w` of a regular expression without the `u` flag. */
  predicate IsWordChar(c: char) {
    ('A' <= c <= 'Z') || ('a' <= c <= 'z') || ('0' <= c <= '9') || c == '_'
  }

  /** The class `[-\w.]` of the media type's top-level part. */
  predicate IsTypeChar(c: char) {
    c == '-' || IsWordChar(c) || c == '.'
  }

  /** The class `[-\w.+]` of the media subtype; the same set as `[\w.+-]` kept in extensions. */
  predicate IsSubtypeChar(c: char) {
    IsTypeChar(c) || c == '+'
  }

  predicate IsSlash(c: char) {
    c == '/'
  }

  // ---------------------------------------------------------------------------
  // isDataUriBase64
  // ---------------------------------------------------------------------------

  /** The group `[-\w.]+\/[-\w.+]+` as a statement about where the slash is. */
  ghost predicate IsMediaTypeSpec(g: string) {
    exists k :: 0 < k < |g| - 1 && g[k] == '/' && AllOf(g[..k], IsTypeChar) && AllOf(g[k + 1..], IsSubtypeChar)
  }

  /**
   The pattern `^data:([-\w.]+\/[-\w.+]+)?;base64,` with the `i` flag holds of `t`,
   the optional group ending at `j`.
   */
  ghost predicate DataUriPatternAt(t: string, j: int) {
    && 5 <= j && j + 8 <= |t|
    && StartsWithIgnoreCase(t, DataScheme)
    && (j == 5 || IsMediaTypeSpec(t[5..j]))
    && EqualsIgnoreCase(t[j..j + 8], Base64Marker)
  }

  ghost predicate MatchesDataUriPattern(t: string) {
    exists j :: DataUriPatternAt(t, j)
  }

  /** Executable test of the group: the first slash splits it into a type and a subtype. */
  predicate IsMediaType(g: string) {
    var k := IndexOf(g, "/");
    0 < k < |g| - 1 && AllOf(g[..k], IsTypeChar) && AllOf(g[k + 1..], IsSubtypeChar)
  }

  /**
   The test `isDataUriBase64` applies to the trimmed text: it starts with
   `data:`, an optional media type and `;base64,`, letters in either case.
   Neither class of the group holds `;`, so the group ends at the first `;`
   after the scheme.
   */
  predicate IsDataUriText(t: string) {
    var j := IndexOfFrom(t, ";", 5);
    && StartsWithIgnoreCase(t, DataScheme)
    && j >= 5
    && (j == 5 || IsMediaType(t[5..j]))
    && StartsWithIgnoreCase(t[j..], Base64Marker)
  }

  /** `isDataUriBase64`: the test above on the trimmed text. */
  predicate IsDataUriBase64(s: string) {
    IsDataUriText(Trim(s))
  }

  /** `isDataUriBase64` decides exactly the regular expression it stands for. */
  lemma DataUriRecogniserCorrect(s: string)
    ensures IsDataUriBase64(s) <==> MatchesDataUriPattern(Trim(s))
  {
    var t := Trim(s);
    if IsDataUriText(t) {
      RecogniserSound(t);
    }
    if MatchesDataUriPattern(t) {
      var j :| DataUriPatternAt(t, j);
      RecogniserComplete(t, j);
    }
  }

  lemma RecogniserSound(t: string)
    requires IsDataUriText(t)
    ensures MatchesDataUriPattern(t)
  {
    var j := IndexOfFrom(t, ";", 5);
    if j > 5 {
      MediaTypeMeetsSpec(t[5..j]);
    }
    assert t[j..][..8] == t[j..j + 8];
    assert DataUriPatternAt(t, j);
  }

  lemma RecogniserComplete(t: string, j: int)
    requires DataUriPatternAt(t, j)
    ensures IsDataUriText(t)
  {
    SemicolonEndsGroup(t, j);
    if j > 5 {
      MediaTypeSpecIsDecided(t[5..j]);
    }
    assert t[j..][..8] == t[j..j + 8];
  }

  lemma MediaTypeMeetsSpec(g: string)
    requires IsMediaType(g)
    ensures IsMediaTypeSpec(g)
  {
    var k := IndexOf(g, "/");
    assert g[k..k + 1] == "/";
    assert g[k] == '/';
  }

  lemma MediaTypeSpecIsDecided(g: string)
    requires IsMediaTypeSpec(g)
    ensures IsMediaType(g)
  {
    var k :| 0 < k < |g| - 1 && g[k] == '/' && AllOf(g[..k], IsTypeChar) && AllOf(g[k + 1..], IsSubtypeChar);
    assert OccursAt(g, "/", k) by {
      assert g[k..k + 1] == [g[k]];
    }
    forall i | 0 <= i < k ensures !OccursAt(g, "/", i) {
      assert IsTypeChar(g[..k][i]);
    }
    assert IndexOf(g, "/") == k;
  }

  /** Where the pattern holds, the optional group ends at the first `;` after the scheme. */
  lemma SemicolonEndsGroup(t: string, j: int)
    requires DataUriPatternAt(t, j)
    ensures IndexOfFrom(t, ";", 5) == j
  {
    assert AsciiLower(t[j..j + 8][0]) == AsciiLower(';');
    assert t[j] == ';';
    assert OccursAt(t, ";", j) by {
      assert t[j..j + 1] == [t[j]];
    }
    var g := t[5..j];
    forall i | 5 <= i < j ensures !OccursAt(t, ";", i) {
      assert t[i] == g[i - 5];
      if j > 5 {
        var k :| 0 < k < |g| - 1 && g[k] == '/' && AllOf(g[..k], IsTypeChar) && AllOf(g[k + 1..], IsSubtypeChar);
        if i - 5 < k {
          assert IsTypeChar(g[..k][i - 5]);
        } else if i - 5 > k {
          assert IsSubtypeChar(g[k + 1..][i - 5 - k - 1]);
        }
      }
      assert t[i..i + 1] == [t[i]];
    }
    var r := IndexOfFrom(t, ";", 5);
    assert r != -1;
    assert !(r < j);
    assert !(r > j);
  }

  // ---------------------------------------------------------------------------
  // isHttpUrl
  // ---------------------------------------------------------------------------

  /** `isHttpUrl`: after trimming, the text starts with `http://` or `https://`, letters in either case. */
  predicate IsHttpUrl(s: string) {
    var t := Trim(s);
    StartsWithIgnoreCase(t, "http://") || StartsWithIgnoreCase(t, "https://")
  }

  /** No line is both a data URI and an http(s) URL: the first letters differ. */
  lemma DataUriIsNotHttpUrl(s: string)
    requires IsDataUriBase64(s)
    ensures !IsHttpUrl(s)
  {
    SchemesDiffer(Trim(s));
  }

  lemma SchemesDiffer(t: string)
    requires StartsWithIgnoreCase(t, DataScheme)
    ensures !StartsWithIgnoreCase(t, "http://") && !StartsWithIgnoreCase(t, "https://")
  {
    assert AsciiLower(t[..5][0]) == AsciiLower('d');
  }

  // ---------------------------------------------------------------------------
  // splitDataUri
  // ---------------------------------------------------------------------------

  datatype DataUriParts = DataUriParts(mime: string, base64: string)

  /**
   `splitDataUri`: the text between the scheme and the first `;base64,`, and the
   text after it. The marker is looked up with case, and when it is absent
   `indexOf` gives -1, so the media type runs to the next-to-last character and
   the payload starts at index 7, as `slice` does with those arguments.
   */
  function SplitDataUri(dataUri: string): (parts: DataUriParts) {
    var i := IndexOf(dataUri, Base64Marker);
    DataUriParts(Slice(dataUri, 5, i), Slice(dataUri, i + 8, |dataUri|))
  }

  /**
   Splitting a URI that starts with the scheme and holds the marker loses
   nothing: scheme, media type, marker and payload concatenate back to it, and
   the marker used is the first one.
   */
  lemma SplitDataUriRoundTrip(s: string)
    requires StartsWithIgnoreCase(s, DataScheme)
    requires IndexOf(s, Base64Marker) != -1
    ensures var p := SplitDataUri(s);
            && s == s[..5] + p.mime + Base64Marker + p.base64
            && forall k :: 0 <= k < 5 + |p.mime| ==> !OccursAt(s, Base64Marker, k)
  {
    var i := IndexOf(s, Base64Marker);
    forall k | 0 <= k < 5 ensures !OccursAt(s, Base64Marker, k) {
      NoMarkerInScheme(s, k);
    }
    var p := SplitDataUri(s);
    assert p.mime == s[5..i];
    assert s[i..i + 8] == Base64Marker;
    assert s == s[..5] + s[5..i] + s[i..i + 8] + s[i + 8..];
  }

  lemma NoMarkerInScheme(s: string, k: int)
    requires StartsWithIgnoreCase(s, DataScheme) && 0 <= k < 5
    ensures !OccursAt(s, Base64Marker, k)
  {
    assert AsciiLower(s[..5][k]) == AsciiLower(DataScheme[k]);
  }

  /** Building a URI from its parts and splitting it again returns the parts, when the media type holds no `;`. */
  lemma SplitDataUriOfParts(scheme: string, mime: string, payload: string)
    requires |scheme| == 5
    requires forall c :: c in scheme + mime ==> c != ';'
    ensures SplitDataUri(scheme + mime + Base64Marker + payload) == DataUriParts(mime, payload)
  {
    var s := scheme + mime + Base64Marker + payload;
    var i := 5 + |mime|;
    assert s[i..i + 8] == Base64Marker;
    forall k | 0 <= k < i ensures !OccursAt(s, Base64Marker, k) {
      assert s[k] in scheme + mime by {
        assert s[k] == (scheme + mime)[k];
      }
    }
    assert OccursAt(s, Base64Marker, i);
    var r := IndexOf(s, Base64Marker);
    assert r != -1;
    assert !(r < i);
    assert !(r > i);
    assert s[5..i] == mime;
    assert s[i + 8..] == payload;
  }

  /**
   For a line the recogniser accepts with the marker written in lower case,
   `splitDataUri` yields exactly the media type group and the payload after the marker.
   */
  lemma LowerCaseMarkerIsFound(t: string, j: int)
    requires DataUriPatternAt(t, j)
    requires t[j..j + 8] == Base64Marker
    ensures SplitDataUri(t) == DataUriParts(t[5..j], t[j + 8..])
  {
    SemicolonEndsGroup(t, j);
    forall c | c in t[..5] + t[5..j] ensures c != ';' {
      var i :| 0 <= i < j && (t[..5] + t[5..j])[i] == c;
      assert (t[..5] + t[5..j])[i] == t[i];
      if i < 5 {
        assert AsciiLower(t[..5][i]) == AsciiLower(DataScheme[i]);
      } else {
        assert !OccursAt(t, ";", i);
        assert t[i..i + 1] == [t[i]];
      }
    }
    assert t == t[..5] + t[5..j] + Base64Marker + t[j + 8..];
    SplitDataUriOfParts(t[..5], t[5..j], t[j + 8..]);
  }

  /**
   The recogniser accepts the marker in any case but `splitDataUri` looks it up
   in lower case only. When the line holds no lower-case marker, the lookup
   gives -1: the media type runs from index 5 to the next-to-last character
   and the payload starts at index 7, two characters after the scheme, so
   neither is the part the recogniser matched.
   */
  lemma MixedCaseMarkerIsMissed(t: string, j: int)
    requires DataUriPatternAt(t, j)
    requires IndexOf(t, Base64Marker) == -1
    ensures SplitDataUri(t) == DataUriParts(t[5..|t| - 1], t[7..])
    ensures SplitDataUri(t).mime != t[5..j]
    ensures SplitDataUri(t).base64 != t[j + 8..]
  {
  }

  /**
   The name can survive a missed marker: without a media type group and
   without a slash in the rest of the line, it still comes out as
   `attachment.bin`, the name the matched (empty) group gives.
   */
  lemma MixedCaseNameWithoutGroup(t: string)
    requires DataUriPatternAt(t, 5)
    requires IndexOf(t, Base64Marker) == -1
    requires NoneOf(t[5..|t| - 1], IsSlash)
    ensures AttachmentName(SplitDataUri(t).mime) == AttachmentName(t[5..5])
    ensures Extension(SplitDataUri(t).mime) == "bin"
  {
    var mime := t[5..|t| - 1];
    MixedCaseMarkerIsMissed(t, 5);
    assert SplitDataUri(t).mime == mime;
    ExtensionWithoutSlash(mime);
    ExtensionWithoutSlash(t[5..5]);
  }

  /**
   When the marker the recogniser matched is not in lower case but a lower-case
   `;base64,` comes later in the line, `splitDataUri` splits at that later
   marker: the media type swallows the matched marker and whatever follows it,
   and the payload is only what comes after the later marker.
   */
  lemma LaterLowerCaseMarker(t: string, j: int)
    requires DataUriPatternAt(t, j)
    requires t[j..j + 8] != Base64Marker
    requires IndexOf(t, Base64Marker) != -1
    ensures var i := IndexOf(t, Base64Marker);
            && j < i
            && SplitDataUri(t) == DataUriParts(t[5..i], t[i + 8..])
            && SplitDataUri(t).mime != t[5..j]
            && SplitDataUri(t).base64 != t[j + 8..]
  {
    var i := IndexOf(t, Base64Marker);
    SemicolonEndsGroup(t, j);
    if i < 5 {
      NoMarkerInScheme(t, i);
      assert false;
    }
    if i < j {
      assert t[i] == ';' by {
        assert t[i..i + 8][0] == Base64Marker[0];
      }
      assert OccursAt(t, ";", i) by {
        assert t[i..i + 1] == [t[i]];
      }
      assert false;
    }
  }

  // ---------------------------------------------------------------------------
  // file name of a base64 attachment
  // ---------------------------------------------------------------------------

  /** Removes every character outside the subtype class and keeps the others, in order. */
  function SanitizeExtension(s: string): (r: string)
    ensures |r| <= |s|
    ensures AllOf(r, IsSubtypeChar)
    ensures AllOf(s, IsSubtypeChar) ==> r == s
    ensures NoneOf(s, IsSubtypeChar) ==> r == []
    ensures forall c :: IsSubtypeChar(c) ==> multiset(r)[c] == multiset(s)[c]
  {
    if |s| == 0 then []
    else
      assert s == [s[0]] + s[1..];
      (if IsSubtypeChar(s[0]) then [s[0]] else []) + SanitizeExtension(s[1..])
  }

  /** Stripping works character by character, so it distributes over concatenation. */
  lemma {:induction false} SanitizeExtensionAppend(a: string, b: string)
    ensures SanitizeExtension(a + b) == SanitizeExtension(a) + SanitizeExtension(b)
    decreases |a|
  {
    if |a| > 0 {
      assert (a + b)[1..] == a[1..] + b;
      SanitizeExtensionAppend(a[1..], b);
    } else {
      assert a + b == b;
    }
  }

  /**
   The extension of `attachment.<ext>`: the second `/`-separated part of the
   media type, which runs from its first slash to the next one or to the end,
   or `bin` when that part is missing or empty, stripped of characters outside
   `[\w.+-]`.
   */
  function Extension(mime: string): (ext: string)
    ensures AllOf(ext, IsSubtypeChar)
  {
    var pieces := Split(mime, IsSlash);
    var sub := if |pieces| > 1 then pieces[1] else "";
    SanitizeExtension(if sub == "" then "bin" else sub)
  }

  function AttachmentName(mime: string): (name: string) {
    "attachment." + Extension(mime)
  }

  /** A media type `type/subtype` of the pattern's classes gives its subtype as the extension. */
  lemma ExtensionOfMediaType(mediaType: string, subtype: string)
    requires mediaType != [] && AllOf(mediaType, IsTypeChar)
    requires subtype != [] && AllOf(subtype, IsSubtypeChar)
    ensures Extension(mediaType + "/" + subtype) == subtype
  {
    assert NoneOf(mediaType, IsSlash);
    assert NoneOf(subtype, IsSlash);
    SplitAfterPiece(mediaType, '/', subtype, IsSlash);
    SplitWithoutSeparator(subtype, IsSlash);
  }

  /** A media type without a slash (the pattern's group left out) gives `bin`. */
  lemma ExtensionWithoutSlash(mime: string)
    requires NoneOf(mime, IsSlash)
    ensures Extension(mime) == "bin"
  {
    SplitWithoutSeparator(mime, IsSlash);
    assert AllOf("bin", IsSubtypeChar);
  }
}
