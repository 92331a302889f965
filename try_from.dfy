/** src/try_from.rs: every owned byte-like value converts through
    `UnixString::from_bytes`, so all four accept and reject the same bytes. */
module TryFromImpls {
  import opened HostTypes
  import opened Errors
  import opened UnixStrings

  /** What a conversion through `from_bytes` promises about `bytes`: it fails,
      with `InteriorNulByte`, exactly when `bytes` has a zero before its last
      position, and otherwise yields a valid string holding `bytes` without
      their terminator. */
  ghost predicate ConvertsBytes(bytes: seq<u8>, r: Result<UnixString>) {
    && (r.Ok? <==> !HasInteriorNul(bytes))
    && (r.Err? ==> r.error == InteriorNulByte)
    && (r.Ok? ==> r.value.Valid() && r.value.AsBytes() == WithoutTerminator(bytes))
  }

  /** `from_bytes` itself meets that promise. */
  lemma FromBytesConverts(bytes: seq<u8>)
    ensures ConvertsBytes(bytes, FromBytes(bytes))
  {
    match Memchr.FindNulByte(bytes)
    case Some(p) =>
      if p + 1 < |bytes| {
        assert bytes[p] == 0;
      } else {
        assert NulTerminated(bytes);
      }
    case None =>
  }

  /** `TryFrom<Vec<u8>>`. */
  function TryFromVec(bytes: seq<u8>): (r: Result<UnixString>)
    ensures ConvertsBytes(bytes, r)
  {
    FromBytesConverts(bytes);
    FromBytes(bytes)
  }

  /** `TryFrom<String>` (and `UnixString::from_string`): the string's bytes. */
  function TryFromString(s: String): (r: Result<UnixString>)
    ensures ConvertsBytes(s.bytes, r)
  {
    FromBytesConverts(s.bytes);
    FromBytes(s.bytes)
  }

  /** `TryFrom<OsString>` (and `UnixString::from_os_string`): `into_vec`. */
  function TryFromOsString(o: OsString): (r: Result<UnixString>)
    ensures ConvertsBytes(o.bytes, r)
  {
    FromBytesConverts(o.bytes);
    FromBytes(o.bytes)
  }

  /** `TryFrom<PathBuf>` (and `UnixString::from_pathbuf`): through the path's
      `OsString`, so with the same accept and reject rules. */
  function TryFromPathBuf(p: PathBuf): (r: Result<UnixString>)
    ensures r == TryFromOsString(p.IntoOsString())
    ensures ConvertsBytes(p.os.bytes, r)
  {
    TryFromOsString(p.IntoOsString())
  }

  /** tests/try_from_string.rs and tests/try_from_pathbuf.rs: an interior
      zero is refused, from a `String` and from a `PathBuf`. */
  lemma TryFromRejectsInteriorNul()
    ensures TryFromString(String(Ascii("/home\0/user"))).Err?
    ensures TryFromPathBuf(PathBuf(OsString(Ascii("/home\0/user")))).Err?
  {
    var interior := Ascii("/home\0/user");
    assert interior[5] == 0;
  }

  /** tests/try_from_string.rs: a trailing zero is taken as the terminator. */
  lemma TryFromAcceptsTerminator()
    ensures TryFromString(String(Ascii("/home/user\0"))).Ok?
  {
    assert NulTerminated(Ascii("/home/user\0"));
  }

  /** tests/try_from_string.rs: `""` converts to an empty string. */
  lemma TryFromEmptyString()
    ensures TryFromString(String([])).Ok?
    ensures TryFromString(String([])).value.IsEmpty()
    ensures TryFromString(String([])).value.AsBytes() == []
  {
    assert !HasInteriorNul([]);
  }

  /** For input without a zero byte, the OS-string view of the converted
      string is the input itself. */
  lemma TryFromOsStringKeepsBytes(o: OsString)
    requires 0 !in o.bytes
    ensures TryFromOsString(o).Ok?
    ensures TryFromOsString(o).value.AsOsStr() == o
  {
    assert !HasInteriorNul(o.bytes);
  }
}
