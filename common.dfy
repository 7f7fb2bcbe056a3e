/** Values shared by every part of the model: optional values, results of
    operations that can throw, and the key separator. */
module Common {

  /** A Java reference that may be null. */
  datatype Option<+T> = None | Some(value: T)

  /** The outcome of a Java call that either returns a value or throws. */
  datatype Result<+T, +E> = Ok(value: T) | Err(error: E)

  /** The `IOException`s the plugin raises or passes on. */
  datatype IOError =
    | InvalidPathError(detail: string)
    | DeleteDirectoryError(detail: string)
    | QiniuError(message: string)
    /** "Delete error <key>: <error>", raised for an operation of a batch
        the service rejected. */
    | BatchDeleteError(key: string, error: string)

  /** The separator of object keys and path names (`File.separator` on the
      platforms the plugin runs on). */
  const Sep: char := '/'

  /** `String.endsWith(File.separator)`. */
  predicate EndsWithSep(s: string)
  {
    |s| > 0 && s[|s| - 1] == Sep
  }

  /** `String.startsWith(p)`. */
  predicate StartsWith(s: string, p: string)
  {
    |p| <= |s| && s[..|p|] == p
  }

  /** A separator is appended unless the string already ends with one
      (the normalisation applied to every listing prefix). */
  function WithTrailingSep(s: string): (r: string)
    ensures EndsWithSep(r)
    ensures StartsWith(r, s)
    ensures EndsWithSep(s) <==> r == s
    ensures !EndsWithSep(s) ==> |r| == |s| + 1
  {
    if EndsWithSep(s) then s else s + [Sep]
  }
}
