/** Stand-ins for the Rust standard-library types the string type converts
    to and from. On Unix every one of them is, underneath, a vector of bytes;
    only `CString` adds a guarantee (no zero byte) that its own constructors
    enforce and `from_vec_unchecked` merely trusts. */
module HostTypes {

  /** Rust's `u8`. */
  newtype u8 = x: int | 0 <= x < 256

  datatype Option<T> = None | Some(value: T)

  /** `String` and `&str`: the bytes of their UTF-8 encoding. */
  datatype String = String(bytes: seq<u8>)

  /** `OsString` and `&OsStr`: on Unix, an unrestricted byte vector
      (`OsStringExt::into_vec`, `OsStrExt::as_bytes`). */
  datatype OsString = OsString(bytes: seq<u8>)

  /** `PathBuf` and `&Path`: a wrapper around an `OsString`. */
  datatype PathBuf = PathBuf(os: OsString) {
    function IntoOsString(): OsString { os }
  }

  /** `CString` and `&CStr`: `bytes` is the content without the terminator
      (`CStr::to_bytes`). */
  datatype CString = CString(bytes: seq<u8>) {
    /** The invariant of a `CString` built by a checked constructor. */
    predicate Valid() { 0 !in bytes }

    /** `CString::into_bytes_with_nul`. */
    function IntoBytesWithNul(): seq<u8> { bytes + [0] }
  }

  /** The bytes of a string literal, one per character; every literal this
      model writes is ASCII, so each character is its own byte. */
  function Ascii(s: string): (r: seq<u8>)
    ensures |r| == |s|
    ensures forall i :: 0 <= i < |s| && s[i] as int < 256 ==> r[i] as int == s[i] as int
  {
    seq(|s|, i requires 0 <= i < |s| => if s[i] as int < 256 then s[i] as int as u8 else 0)
  }

  /** `Ascii` of a concatenation is the concatenation of the parts. */
  lemma AsciiConcat(s: string, t: string)
    ensures Ascii(s + t) == Ascii(s) + Ascii(t)
  {
  }

  /** Length of the well-formed UTF-8 sequence that starts `s`, or 0 when `s`
      does not start with one (the byte patterns of Unicode's table of
      well-formed UTF-8 byte sequences, as in RFC 3629 section 4). */
  function Utf8SequenceLength(s: seq<u8>): (n: nat)
    ensures n <= |s| && n <= 4
  {
    if |s| == 0 then 0
    else if s[0] < 0x80 then 1
    else if 0xC2 <= s[0] <= 0xDF then
      if |s| >= 2 && IsContinuation(s[1]) then 2 else 0
    else if 0xE0 <= s[0] <= 0xEF then
      var lo: u8 := if s[0] == 0xE0 then 0xA0 else 0x80;
      var hi: u8 := if s[0] == 0xED then 0x9F else 0xBF;
      if |s| >= 3 && lo <= s[1] <= hi && IsContinuation(s[2]) then 3 else 0
    else if 0xF0 <= s[0] <= 0xF4 then
      var lo: u8 := if s[0] == 0xF0 then 0x90 else 0x80;
      var hi: u8 := if s[0] == 0xF4 then 0x8F else 0xBF;
      if |s| >= 4 && lo <= s[1] <= hi && IsContinuation(s[2]) && IsContinuation(s[3]) then 4 else 0
    else 0
  }

  predicate IsContinuation(b: u8) { 0x80 <= b <= 0xBF }

  /** The check `std::str::from_utf8` performs: `s` splits into well-formed
      UTF-8 sequences. */
  predicate IsUtf8(s: seq<u8>)
    decreases |s|
  {
    if |s| == 0 then true
    else
      var n := Utf8SequenceLength(s);
      n > 0 && IsUtf8(s[n..])
  }

  /** Every ASCII byte string is valid UTF-8. */
  lemma {:induction false} AsciiIsUtf8(s: seq<u8>)
    requires forall i :: 0 <= i < |s| ==> s[i] < 0x80
    ensures IsUtf8(s)
  {
    if |s| > 0 {
      assert Utf8SequenceLength(s) == 1;
      AsciiIsUtf8(s[1..]);
    }
  }
}
