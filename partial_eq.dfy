/** src/partial_eq.rs: equality of a `UnixString` with `&str`, `&OsStr` and
    `&CStr`, comparing logical bytes; each impl with the `UnixString` on the
    right delegates to the one with it on the left. */
module PartialEqImpls {
  import opened HostTypes
  import opened UnixStrings
  import opened TryFromImpls

  /** `UnixString == &str`: the logical bytes against the string's bytes,
      with no assumption that either is valid UTF-8. Equal exactly when the
      string is a prefix as long as the whole logical content. */
  function EqStr(u: UnixString, other: String): (r: bool)
    requires |u.inner| > 0
    ensures r <==> u.StartsWith(other.bytes) && |other.bytes| == u.Len()
  {
    assert u.AsBytes() == other.bytes ==> u.AsBytes() == other.bytes + [];
    u.AsBytes() == other.bytes
  }

  /** `&str == UnixString`. */
  function StrEq(other: String, u: UnixString): (r: bool)
    requires |u.inner| > 0
    ensures r <==> other.bytes == u.AsBytes()
  {
    EqStr(u, other)
  }

  /** `UnixString == &OsStr`: the `as_os_str` view against `other`. */
  function EqOsStr(u: UnixString, other: OsString): (r: bool)
    requires |u.inner| > 0
    ensures r <==> EqStr(u, String(other.bytes))
  {
    u.AsOsStr() == other
  }

  /** `&OsStr == UnixString`. */
  function OsStrEq(other: OsString, u: UnixString): (r: bool)
    requires |u.inner| > 0
    ensures r <==> other.bytes == u.AsBytes()
  {
    EqOsStr(u, other)
  }

  /** `UnixString == &CStr`: the `as_c_str` view against `other`; `CStr`
      equality compares the bytes before the terminator. */
  function EqCStr(u: UnixString, other: CString): (r: bool)
    requires u.Valid()
    ensures r <==> EqStr(u, String(other.bytes))
  {
    u.AsCStr() == other
  }

  /** `&CStr == UnixString`. */
  function CStrEq(other: CString, u: UnixString): (r: bool)
    requires u.Valid()
    ensures r <==> other.bytes == u.AsBytes()
  {
    EqCStr(u, other)
  }

  /** tests/partial_eq.rs: an empty string equals `""` in every form. */
  lemma EmptyEqualsEmpty()
    ensures EqStr(New(), String([])) && StrEq(String([]), New())
    ensures EqOsStr(New(), OsString([])) && OsStrEq(OsString([]), New())
    ensures EqCStr(New(), CString([])) && CStrEq(CString([]), New())
  {
    assert New().AsBytes() == [] + [];
  }

  /** tests/partial_eq.rs: a string one byte short of `"hello_world"`
      differs from it. */
  lemma ShorterDiffers()
    ensures TryFromString(String(Ascii("hello_worl"))).Ok?
    ensures !EqStr(TryFromString(String(Ascii("hello_worl"))).value, String(Ascii("hello_world")))
  {
    var s := "hello_worl";
    assert forall i | 0 <= i < |s| :: s[i] as int > 0;
    assert 0 !in Ascii(s);
  }

  /** tests/partial_eq.rs: a string one byte longer than `"hello_world"`
      differs from it. */
  lemma LongerDiffers()
    ensures TryFromString(String(Ascii("hello_worldd"))).Ok?
    ensures !EqStr(TryFromString(String(Ascii("hello_worldd"))).value, String(Ascii("hello_world")))
  {
    var s := "hello_worldd";
    assert forall i | 0 <= i < |s| :: s[i] as int > 0;
    assert 0 !in Ascii(s);
  }
}
