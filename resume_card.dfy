/** The resume card's choice of MIME type for the preview blob, from the suffix of the
    stored image path. */
module ResumeCard {
  import opened JsText
  import Upload

  /** The MIME type given to the blob read from `imagePath`: the suffix tests run in the
      order `.pdf`, `.png`, `.webp`, letters compared without case; `image/jpeg` is the
      default. */
  function PreviewMimeType(imagePath: string): (mime: string)
    ensures mime in {"application/pdf", "image/png", "image/webp", "image/jpeg"}
  {
    if EndsWithIgnoringCase(imagePath, ".pdf") then "application/pdf"
    else if EndsWithIgnoringCase(imagePath, ".png") then "image/png"
    else if EndsWithIgnoringCase(imagePath, ".webp") then "image/webp"
    else "image/jpeg"
  }

  /** Every type the card chooses is one the upload form accepts. */
  lemma PreviewTypeAccepted(imagePath: string)
    ensures PreviewMimeType(imagePath) in Upload.ValidTypes
  {
  }

  /** A path ends with `suffix`, compared without case, whenever it is some stem followed
      by `suffix`. */
  lemma EndsWithOwnSuffix(stem: string, suffix: string)
    ensures EndsWithIgnoringCase(stem + suffix, suffix)
  {
    var p := stem + suffix;
    forall i | 0 <= i < |suffix|
      ensures SameIgnoringCase(p[|p| - |suffix| + i], suffix[i])
    {
      assert p[|p| - |suffix| + i] == suffix[i];
    }
  }

  /** A path whose last character does not match the last character of `suffix` does not
      end with it. */
  lemma LastCharMismatch(p: string, suffix: string)
    requires p != [] && suffix != []
    requires !SameIgnoringCase(p[|p| - 1], suffix[|suffix| - 1])
    ensures !EndsWithIgnoringCase(p, suffix)
  {
    if |suffix| <= |p| {
      var k := |suffix| - 1;
      assert p[|p| - |suffix| + k] == p[|p| - 1];
    }
  }

  /** A path ends with `suffix`, compared without case, whenever it is some stem followed
      by a text that matches `suffix` letter by letter without case. */
  lemma EndsWithCaseVariant(stem: string, variant: string, suffix: string)
    requires |variant| == |suffix|
    requires forall i :: 0 <= i < |suffix| ==> SameIgnoringCase(variant[i], suffix[i])
    ensures EndsWithIgnoringCase(stem + variant, suffix)
  {
    var p := stem + variant;
    forall i | 0 <= i < |suffix|
      ensures SameIgnoringCase(p[|p| - |suffix| + i], suffix[i])
    {
      assert p[|p| - |suffix| + i] == variant[i];
    }
  }

  /** `.pdf` gives `application/pdf`, whatever comes before it. */
  lemma PdfExtension(stem: string)
    ensures PreviewMimeType(stem + ".pdf") == "application/pdf"
  {
    EndsWithOwnSuffix(stem, ".pdf");
  }

  /** `.PDF` gives `application/pdf` too: the test ignores case. */
  lemma PdfUpperExtension(stem: string)
    ensures PreviewMimeType(stem + ".PDF") == "application/pdf"
  {
    var upper, lower := ".PDF", ".pdf";
    assert SameIgnoringCase(upper[0], lower[0]);
    assert SameIgnoringCase(upper[1], lower[1]);
    assert SameIgnoringCase(upper[2], lower[2]);
    assert SameIgnoringCase(upper[3], lower[3]);
    EndsWithCaseVariant(stem, upper, lower);
  }

  /** `.png` gives `image/png`, whatever comes before it. */
  lemma PngExtension(stem: string)
    ensures PreviewMimeType(stem + ".png") == "image/png"
  {
    EndsWithOwnSuffix(stem, ".png");
    var p := stem + ".png";
    assert p[|p| - 1] == 'g';
    LastCharMismatch(p, ".pdf");
  }

  /** Only the final extension counts: `.png` after `.pdf` still gives `image/png`. */
  lemma LastExtensionWins(stem: string)
    ensures PreviewMimeType(stem + ".pdf.png") == "image/png"
  {
    assert stem + ".pdf.png" == (stem + ".pdf") + ".png";
    PngExtension(stem + ".pdf");
  }

  /** `.webp` gives `image/webp`, whatever comes before it. */
  lemma WebpExtension(stem: string)
    ensures PreviewMimeType(stem + ".webp") == "image/webp"
  {
    EndsWithOwnSuffix(stem, ".webp");
    var p := stem + ".webp";
    assert p[|p| - 1] == 'p';
    LastCharMismatch(p, ".pdf");
    LastCharMismatch(p, ".png");
  }

  /** A character matches `.` without case only when it is `.`. */
  lemma DotMatchesOnlyDot(c: char)
    ensures SameIgnoringCase(c, '.') <==> c == '.'
  {
  }

  /** A path without a `.` has no extension and falls back to `image/jpeg`. */
  lemma NoExtensionIsJpeg(imagePath: string)
    requires '.' !in imagePath
    ensures PreviewMimeType(imagePath) == "image/jpeg"
  {
    var n := |imagePath|;
    if n >= 4 {
      DotMatchesOnlyDot(imagePath[n - 4]);
      assert !SameIgnoringCase(imagePath[n - 4], ".pdf"[0]);
      assert !SameIgnoringCase(imagePath[n - 4], ".png"[0]);
    }
    if n >= 5 {
      DotMatchesOnlyDot(imagePath[n - 5]);
      assert !SameIgnoringCase(imagePath[n - 5], ".webp"[0]);
    }
  }

  /** The extension of a path: the text after its last `.`, or `None` when it has no `.`. */
  function Extension(p: string): (e: Option<string>)
    ensures e.None? <==> '.' !in p
    ensures e.Some? ==>
      (|e.value| < |p| && p[|p| - |e.value| - 1] == '.' &&
       p[|p| - |e.value|..] == e.value && '.' !in e.value)
  {
    if p == [] then None
    else
      var init := p[..|p| - 1];
      assert p == init + [p[|p| - 1]];
      if p[|p| - 1] == '.' then Some([])
      else match Extension(init)
        case None => None
        case Some(x) =>
          var n := |init| - |x| - 1;
          assert p[n] == init[n];
          assert p[n + 1..] == init[n + 1..] + [p[|p| - 1]];
          Some(x + [p[|p| - 1]])
  }

  /** A `.` with no `.` after it starts the extension. */
  lemma {:induction false} LastDotAt(p: string, k: nat)
    requires k < |p| && p[k] == '.' && '.' !in p[k + 1..]
    ensures Extension(p) == Some(p[k + 1..])
  {
    if k < |p| - 1 {
      var init := p[..|p| - 1];
      assert p[|p| - 1] == p[k + 1..][|p| - k - 2];
      assert init[k + 1..] == p[k + 1..|p| - 1];
      LastDotAt(init, k);
      assert p[k + 1..] == init[k + 1..] + [p[|p| - 1]];
    }
  }

  /** The type the card gives an extension, written lower-case: the reference table of the
      three suffix tests and the default. */
  function TypeOfExtension(ext: string): (mime: string)
    ensures mime in Upload.ValidTypes
  {
    if ext == "pdf" then "application/pdf"
    else if ext == "png" then "image/png"
    else if ext == "webp" then "image/webp"
    else "image/jpeg"
  }

  /** A path that ends with `.` and a lower-case word, compared without case, has that
      word, lower-cased, as its extension. */
  lemma DotWordGivesExtension(p: string, w: string)
    requires forall i :: 0 <= i < |w| ==> IsLower(w[i])
    requires EndsWithIgnoringCase(p, "." + w)
    ensures Extension(p).Some? && LowerAsciiString(Extension(p).value) == w
  {
    var suffix := "." + w;
    var k := |p| - |suffix|;
    var tail := p[k + 1..];
    assert |tail| == |w|;
    assert SameIgnoringCase(p[k], suffix[0]);
    DotMatchesOnlyDot(p[k]);
    forall j | 0 <= j < |w| ensures tail[j] != '.' && LowerAscii(tail[j]) == w[j] {
      assert tail[j] == p[k + 1 + j];
      assert SameIgnoringCase(p[k + 1 + j], suffix[1 + j]);
      SameIgnoringCaseLower(p[k + 1 + j], w[j]);
    }
    LastDotAt(p, k);
    assert LowerAsciiString(tail) == w;
  }

  /** A path whose extension, lower-cased, is a word ends with `.` and that word, compared
      without case. */
  lemma ExtensionGivesDotWord(p: string, w: string)
    requires Extension(p).Some? && LowerAsciiString(Extension(p).value) == w
    ensures EndsWithIgnoringCase(p, "." + w)
  {
    var suffix := "." + w;
    var e := Extension(p).value;
    var k := |p| - |e| - 1;
    forall i | 0 <= i < |suffix| ensures SameIgnoringCase(p[k + i], suffix[i]) {
      if i > 0 {
        assert p[k + i] == e[i - 1];
        SameIgnoringCaseLower(e[i - 1], w[i - 1]);
      }
    }
  }

  /** A path ends with `.` followed by a lower-case word, compared without case, exactly
      when its extension, lower-cased, is that word. */
  lemma EndsWithDotWord(p: string, w: string)
    requires forall i :: 0 <= i < |w| ==> IsLower(w[i])
    ensures EndsWithIgnoringCase(p, "." + w) <==>
      Extension(p).Some? && LowerAsciiString(Extension(p).value) == w
  {
    if EndsWithIgnoringCase(p, "." + w) {
      DotWordGivesExtension(p, w);
    }
    if Extension(p).Some? && LowerAsciiString(Extension(p).value) == w {
      ExtensionGivesDotWord(p, w);
    }
  }

  /** The card's choice depends only on the extension, lower-cased: `.pdf`, `.png` and
      `.webp` pick their types, and every other extension, or none, gives `image/jpeg`. */
  lemma PreviewByExtension(p: string)
    ensures Extension(p).None? ==> PreviewMimeType(p) == "image/jpeg"
    ensures Extension(p).Some? ==>
      PreviewMimeType(p) == TypeOfExtension(LowerAsciiString(Extension(p).value))
  {
    EndsWithDotWord(p, "pdf");
    EndsWithDotWord(p, "png");
    EndsWithDotWord(p, "webp");
    assert "." + "pdf" == ".pdf" && "." + "png" == ".png" && "." + "webp" == ".webp";
    if Extension(p).None? {
      NoExtensionIsJpeg(p);
    }
  }

  /** Any other extension falls back to `image/jpeg`: `.jpg`, `.gif`, `.pdf.bak` alike. */
  lemma OtherExtensionIsJpeg(stem: string, ext: string)
    requires '.' !in ext
    requires LowerAsciiString(ext) != "pdf" && LowerAsciiString(ext) != "png"
    requires LowerAsciiString(ext) != "webp"
    ensures PreviewMimeType(stem + "." + ext) == "image/jpeg"
  {
    var p := stem + "." + ext;
    assert p[|stem|] == '.' && p[|stem| + 1..] == ext;
    LastDotAt(p, |stem|);
    PreviewByExtension(p);
  }

  /** A suffix test without case gives the same answer on paths that agree up to case. */
  lemma EndsWithCaseInvariant(p: string, q: string, suffix: string)
    requires |p| == |q|
    requires forall i :: 0 <= i < |p| ==> SameIgnoringCase(p[i], q[i])
    ensures EndsWithIgnoringCase(p, suffix) <==> EndsWithIgnoringCase(q, suffix)
  {
    if |suffix| <= |p| {
      forall i | 0 <= i < |suffix|
        ensures SameIgnoringCase(p[|p| - |suffix| + i], suffix[i]) <==> SameIgnoringCase(q[|q| - |suffix| + i], suffix[i])
      {
        assert SameIgnoringCase(p[|p| - |suffix| + i], q[|q| - |suffix| + i]);
      }
    }
  }

  /** The choice ignores the case of letters: paths that agree up to ASCII case get the
      same type. */
  lemma CaseDoesNotMatter(p: string, q: string)
    requires |p| == |q|
    requires forall i :: 0 <= i < |p| ==> SameIgnoringCase(p[i], q[i])
    ensures PreviewMimeType(p) == PreviewMimeType(q)
  {
    EndsWithCaseInvariant(p, q, ".pdf");
    EndsWithCaseInvariant(p, q, ".png");
    EndsWithCaseInvariant(p, q, ".webp");
  }
}
