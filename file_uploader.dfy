/** The file picker of the upload form: the size limit and types it accepts, the choice of
    the dropped file, and the icon and type label it shows for the chosen file. */
module FileUploader {
  import opened JsText
  import Upload

  /** `maxFileSize`: 20 MiB. */
  const MaxFileSize: nat := 20 * 1024 * 1024

  /** The MIME types of the dropzone's `accept` option. */
  const DropzoneTypes: seq<string> := ["application/pdf", "image/jpeg", "image/png", "image/webp"]

  /** The picker and the form schema agree: the same size limit, and every type the
      dropzone accepts passes the schema's type rule. */
  lemma PickerMatchesSchema()
    ensures MaxFileSize == Upload.MaxUploadBytes
    ensures forall t :: t in DropzoneTypes ==> t in Upload.ValidTypes
  {
  }

  /** `onDrop`: the first accepted file, or `null` when none was accepted. */
  function FirstFile(acceptedFiles: seq<Upload.FileInfo>): (file: Option<Upload.FileInfo>)
    ensures file.None? <==> acceptedFiles == []
    ensures file.Some? ==> file.value == acceptedFiles[0]
  {
    if |acceptedFiles| > 0 then Some(acceptedFiles[0]) else None
  }

  /** `getFileIcon`: both branches answer the PDF icon. */
  function FileIcon(mimeType: string): (icon: string)
    ensures icon == "/images/pdf.png"
  {
    if mimeType == "application/pdf" then "/images/pdf.png" else "/images/pdf.png"
  }

  /** The part of `s` before its first `/`, the whole of `s` when it has none. */
  function BeforeSlash(s: string): (seg: string)
    ensures seg <= s
    ensures '/' !in seg
    ensures seg == s || s[|seg|] == '/'
  {
    if s == [] || s[0] == '/' then [] else [s[0]] + BeforeSlash(s[1..])
  }

  /** A string without `/` is its own first segment. */
  lemma {:induction false} BeforeSlashNoSlash(s: string)
    requires '/' !in s
    ensures BeforeSlash(s) == s
  {
    if s != [] {
      BeforeSlashNoSlash(s[1..]);
    }
  }

  /** `getFileTypeName`: `PDF` for a PDF; for an image type the upper-cased text between
      the first and the second `/` (the second element of `split('/')`); `File` for
      anything else. */
  function FileTypeName(mimeType: string): (name: string)
    ensures mimeType == "application/pdf" ==> name == "PDF"
    ensures mimeType != "application/pdf" && !StartsWith(mimeType, "image/") ==> name == "File"
    ensures StartsWith(mimeType, "image/") ==>
      (|name| <= |mimeType| - 6 && forall i :: 0 <= i < |name| ==> !IsLower(name[i]) && name[i] != '/')
  {
    if mimeType == "application/pdf" then "PDF"
    else if StartsWith(mimeType, "image/") then UpperAsciiString(BeforeSlash(mimeType[6..]))
    else "File"
  }

  /** An image type without a further `/` is labelled by its subtype, upper-cased. */
  lemma ImageLabel(subtype: string)
    requires '/' !in subtype
    ensures FileTypeName("image/" + subtype) == UpperAsciiString(subtype)
  {
    var t := "image/" + subtype;
    assert t[..6] == "image/";
    assert t[6..] == subtype;
    assert t != "application/pdf" by {
      assert t[0] != "application/pdf"[0];
    }
    BeforeSlashNoSlash(subtype);
  }

  /** The first segment stops at the first `/`. */
  lemma {:induction false} BeforeSlashStops(seg: string, rest: string)
    requires '/' !in seg
    ensures BeforeSlash(seg + "/" + rest) == seg
  {
    if seg != [] {
      assert (seg + "/" + rest)[1..] == seg[1..] + "/" + rest;
      BeforeSlashStops(seg[1..], rest);
    }
  }

  /** Only the second `/`-separated part is labelled: whatever follows a further `/` is
      dropped. */
  lemma ImageLabelStopsAtSlash(subtype: string, rest: string)
    requires '/' !in subtype
    ensures FileTypeName("image/" + subtype + "/" + rest) == UpperAsciiString(subtype)
  {
    var t := "image/" + subtype + "/" + rest;
    assert t[..6] == "image/";
    assert t[6..] == subtype + "/" + rest;
    assert t != "application/pdf" by {
      assert t[0] != "application/pdf"[0];
    }
    BeforeSlashStops(subtype, rest);
  }

  /** A type that is neither the PDF type nor an image type is labelled `File`. */
  lemma OtherLabel(mimeType: string)
    requires mimeType != "application/pdf" && !StartsWith(mimeType, "image/")
    ensures FileTypeName(mimeType) == "File"
  {
  }

  /** The PDF type is labelled `PDF`. */
  lemma PdfLabel()
    ensures FileTypeName("application/pdf") == "PDF"
  {
  }

  /** `image/png` is labelled `PNG`. */
  lemma PngLabel()
    ensures FileTypeName("image/png") == "PNG"
  {
    ImageLabel("png");
    assert "image/" + "png" == "image/png";
    var u := UpperAsciiString("png");
    assert u[0] == 'P' && u[1] == 'N' && u[2] == 'G';
  }
}
