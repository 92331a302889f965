/** src/from.rs: conversions out of a `UnixString`, each `into_bytes`
    followed by a wrap; also `into_cstring`, `into_os_string` and
    `into_pathbuf` of src/unix_string.rs, which are these conversions. */
module FromImpls {
  import opened HostTypes
  import opened UnixStrings
  import opened TryFromImpls

  /** `From<UnixString> for CString`: `CString::from_vec_unchecked` of the
      logical bytes. The unchecked constructor is sound because a valid string
      has no zero byte among them. */
  function IntoCString(u: UnixString): (r: CString)
    requires |u.inner| > 0
    ensures r.bytes == u.AsBytes()
    ensures u.Valid() ==> r.Valid()
  {
    CString(u.IntoBytes())
  }

  /** `From<UnixString> for OsString`: `OsString::from_vec(into_bytes())`,
      the owned form of the `as_os_str` view. */
  function IntoOsString(u: UnixString): (r: OsString)
    requires |u.inner| > 0
    ensures r == u.AsOsStr()
  {
    OsString(u.IntoBytes())
  }

  /** `From<UnixString> for PathBuf`: the `PathBuf` of that `OsString`, the
      owned form of the `as_path` view. */
  function IntoPathBuf(u: UnixString): (r: PathBuf)
    requires |u.inner| > 0
    ensures r == u.AsPath()
  {
    PathBuf(IntoOsString(u))
  }

  /** `CString` to `UnixString` and back is the identity. */
  lemma CStringRoundTrip(c: CString)
    requires c.Valid()
    ensures IntoCString(FromCString(c)) == c
  {
  }

  /** `OsString` to `UnixString` and back is the identity on input without a
      zero byte. */
  lemma OsStringRoundTrip(o: OsString)
    requires 0 !in o.bytes
    ensures TryFromOsString(o).Ok?
    ensures IntoOsString(TryFromOsString(o).value) == o
  {
    TryFromOsStringKeepsBytes(o);
  }

  /** Likewise for `PathBuf`. */
  lemma PathBufRoundTrip(p: PathBuf)
    requires 0 !in p.os.bytes
    ensures TryFromPathBuf(p).Ok?
    ensures IntoPathBuf(TryFromPathBuf(p).value) == p
  {
    OsStringRoundTrip(p.os);
  }
}
