/**
 * The multer upload stage in front of the route: a file is taken into memory only
 * when its client-declared MIME type starts with "image/" (the `fileFilter`) and its
 * size does not exceed the 10 MiB `fileSize` limit.
 */
module Upload {
  import opened JsString

  /** `limits.fileSize`: 10 MiB. */
  const MaxFileSize: nat := 10 * 1024 * 1024

  /** What multer makes of an incoming file field. */
  datatype Admission = Accepted | InvalidType | TooLarge

  /**
   * The pre-filter on declared metadata. The `fileFilter` callback runs on the part's
   * headers before any byte is read, so a wrong declared type is reported even for a
   * file that is also too large.
   */
  function Admit(declaredType: string, size: nat): (a: Admission)
    ensures a == Accepted <==> StartsWith(declaredType, "image/") && size <= MaxFileSize
    ensures a == InvalidType <==> !StartsWith(declaredType, "image/")
    ensures a == TooLarge ==> size > 10485760
  {
    if !StartsWith(declaredType, "image/") then InvalidType
    else if size > MaxFileSize then TooLarge
    else Accepted
  }
}
