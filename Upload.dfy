/**
 * Upload validation: a chosen or dropped file is accepted only if its MIME
 * type is JPEG, PNG or WebP and it is at most 10 MiB; otherwise an error
 * message is shown and the file goes no further.
 */
module Upload {
  import opened Wrappers

  /** What the validator reads of a File: its MIME type and its size in bytes. */
  datatype FileInfo = FileInfo(mimeType: string, size: nat)

  const AcceptedTypes: seq<string> := ["image/jpeg", "image/png", "image/webp"]

  /** The size limit, 10 MiB. */
  const MaxBytes: nat := 10 * 1024 * 1024

  const UnsupportedType := "Unsupported file type. Please upload JPG, PNG, or WEBP."
  const TooLarge := "File too large. Maximum size is 10MB."

  /**
   * The error a file is rejected with, or None when it is accepted.  The
   * type is checked first, so a file failing both checks reports its type.
   */
  function Check(f: FileInfo): (e: Option<string>)
    ensures e == None <==> f.mimeType in AcceptedTypes && f.size <= MaxBytes
    ensures f.mimeType !in AcceptedTypes ==> e == Some(UnsupportedType)
    ensures f.mimeType in AcceptedTypes && f.size > MaxBytes ==> e == Some(TooLarge)
  {
    if f.mimeType !in AcceptedTypes then Some(UnsupportedType)
    else if f.size > MaxBytes then Some(TooLarge)
    else None
  }

  /** A file of exactly 10 MiB of an accepted type is accepted; one byte more is not. */
  lemma LimitIsInclusive(mimeType: string)
    requires mimeType in AcceptedTypes
    ensures Check(FileInfo(mimeType, MaxBytes)) == None
    ensures Check(FileInfo(mimeType, MaxBytes + 1)) == Some(TooLarge)
  {
  }

  /** The upload drop zone: its error message, drag highlight, and the files it handed on. */
  class UploadArea {
    var error: Option<string>
    var isDragging: bool
    /** Every file passed to the onFileSelect callback, in order. */
    var selected: seq<FileInfo>

    constructor()
      ensures error == None && !isDragging && selected == []
    {
      error := None;
      isDragging := false;
      selected := [];
    }

    /** Clear the error, then reject the file with a message or hand it on exactly once. */
    method ValidateAndProcess(f: FileInfo)
      modifies this
      ensures error == Check(f)
      ensures selected == if Check(f) == None then old(selected) + [f] else old(selected)
      ensures isDragging == old(isDragging)
    {
      error := None;
      if f.mimeType !in AcceptedTypes {
        error := Some(UnsupportedType);
        return;
      }
      if f.size > MaxBytes {
        error := Some(TooLarge);
        return;
      }
      selected := selected + [f];
    }

    /** A drop ends the drag highlight and validates the first dropped file, if any. */
    method HandleDrop(files: seq<FileInfo>)
      modifies this
      ensures !isDragging
      ensures files == [] ==> error == old(error) && selected == old(selected)
      ensures files != [] ==> error == Check(files[0])
      ensures files != [] ==>
        selected == (if Check(files[0]) == None then old(selected) + [files[0]] else old(selected))
    {
      isDragging := false;
      if |files| > 0 {
        ValidateAndProcess(files[0]);
      }
    }

    /** Choosing files in the picker validates the first one, if any. */
    method HandleChange(files: seq<FileInfo>)
      modifies this
      ensures isDragging == old(isDragging)
      ensures files == [] ==> error == old(error) && selected == old(selected)
      ensures files != [] ==> error == Check(files[0])
      ensures files != [] ==>
        selected == (if Check(files[0]) == None then old(selected) + [files[0]] else old(selected))
    {
      if |files| > 0 {
        ValidateAndProcess(files[0]);
      }
    }

    method DragOver()
      modifies this
      ensures isDragging && error == old(error) && selected == old(selected)
    {
      isDragging := true;
    }

    method DragLeave()
      modifies this
      ensures !isDragging && error == old(error) && selected == old(selected)
    {
      isDragging := false;
    }
  }
}
