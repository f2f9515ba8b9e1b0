/** The part of the multer library that the upload configurations rely on:
    a file is first shown to the configured filter, and a file the filter
    accepts is then refused if it grows beyond the configured size limit
    (multer's `LIMIT_FILE_SIZE` error). */
module Multer {
  import opened Common

  /** The message of multer's `LIMIT_FILE_SIZE` error. */
  const FileTooLarge := "File too large"

  /** The verdict on one file of `size` bytes. */
  function Admit(filter: Verdict, limit: Option<nat>, size: nat): (r: Verdict)
    ensures r == Accept <==> filter == Accept && (limit.None? || size <= limit.value)
    ensures filter.Reject? ==> r == filter
    ensures filter == Accept && r.Reject? ==> r.message == FileTooLarge
  {
    match filter
    case Reject(_) => filter
    case Accept => if limit.Some? && size > limit.value then Reject(FileTooLarge) else Accept
  }
}
