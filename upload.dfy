/** The check the upload handler makes on a chosen file before reading it:
    the MIME type must be one of four image types and the size at most 10 MiB. */
module Upload {
  import opened Base

  /** The MIME types the upload handler accepts, in the order it lists them. */
  const AcceptedTypes: seq<string> := ["image/jpeg", "image/jpg", "image/png", "image/webp"]

  /** The size limit in bytes: 10 * 1024 * 1024. */
  const MaxUploadBytes: nat := 10 * 1024 * 1024

  const TypeMessage: string := "Please upload a valid image file (JPG, PNG, or WebP)"
  const SizeMessage: string := "Image size must be less than 10MB"

  /** The part of a browser File the handler looks at. */
  datatype UploadFile = UploadFile(mimeType: string, size: nat)

  /** What the handler does: nothing without a file, report an error, or go on to read the file. */
  datatype Verdict = NoFile | Rejected(message: string) | Accepted

  /** The type is checked before the size, so a file that fails both gets the type message. */
  function ValidateUpload(file: Option<UploadFile>): (v: Verdict)
    ensures v == NoFile <==> file == None
    ensures v == Accepted <==>
              file.Some? && file.value.mimeType in AcceptedTypes && file.value.size <= MaxUploadBytes
    ensures v == Rejected(TypeMessage) <==> file.Some? && file.value.mimeType !in AcceptedTypes
    ensures v == Rejected(SizeMessage) <==>
              file.Some? && file.value.mimeType in AcceptedTypes && file.value.size > MaxUploadBytes
  {
    match file
    case None => NoFile
    case Some(f) =>
      if f.mimeType !in AcceptedTypes then Rejected(TypeMessage)
      else if f.size > MaxUploadBytes then Rejected(SizeMessage)
      else Accepted
  }

  /** The limit is inclusive: a file of exactly 10 MiB passes, one byte more does not,
      although the message speaks of "less than 10MB". */
  lemma SizeBoundary(mimeType: string)
    requires mimeType in AcceptedTypes
    ensures ValidateUpload(Some(UploadFile(mimeType, 10485760))) == Accepted
    ensures ValidateUpload(Some(UploadFile(mimeType, 10485761))) == Rejected(SizeMessage)
  {
  }

  /** GIF files are refused whatever their size; a JPEG under the limit is read. */
  lemma TypeExamples(size: nat)
    ensures ValidateUpload(Some(UploadFile("image/gif", size))) == Rejected(TypeMessage)
    ensures size <= MaxUploadBytes ==> ValidateUpload(Some(UploadFile("image/jpeg", size))) == Accepted
  {
    assert "image/gif" != AcceptedTypes[0] && "image/gif" != AcceptedTypes[1];
    assert "image/gif" != AcceptedTypes[2] && "image/gif" != AcceptedTypes[3];
    assert "image/jpeg" == AcceptedTypes[0];
  }
}
