/** The byte scanner of src/memchr.rs: C's `memchr` (section 7.24.5.1 of
    ISO/IEC 9899:2011), returning the offset of the first occurrence. */
module Memchr {
  import opened HostTypes

  /** Offset of the first `needle` in `haystack`, or `None`. */
  function Memchr(needle: u8, haystack: seq<u8>): (r: Option<nat>)
    ensures r.Some? ==> r.value < |haystack| && haystack[r.value] == needle
    ensures r.Some? ==> forall j :: 0 <= j < r.value ==> haystack[j] != needle
    ensures r.None? <==> needle !in haystack
  {
    if |haystack| == 0 then None
    else if haystack[0] == needle then Some(0)
    else match Memchr(needle, haystack[1..]) {
      case None => None
      case Some(i) => Some(i + 1)
    }
  }

  /** `find_nul_byte`: the offset of the first zero byte, or `None` when
      there is none. */
  function FindNulByte(bytes: seq<u8>): (r: Option<nat>)
    ensures r.Some? ==> r.value < |bytes| && bytes[r.value] == 0
    ensures r.Some? ==> 0 !in bytes[..r.value]
    ensures r.None? <==> 0 !in bytes
  {
    Memchr(0, bytes)
  }

  /** The result is determined by "first occurrence": any index holding the
      needle with no earlier occurrence is the one returned. */
  lemma MemchrIsFirstOccurrence(needle: u8, haystack: seq<u8>, i: nat)
    requires i < |haystack| && haystack[i] == needle
    requires forall j :: 0 <= j < i ==> haystack[j] != needle
    ensures Memchr(needle, haystack) == Some(i)
  {
  }

  /** Scanning a concatenation: the first occurrence in `a`, if any, and
      otherwise the first occurrence in `b` shifted by `|a|`. */
  lemma {:induction false} MemchrAppend(needle: u8, a: seq<u8>, b: seq<u8>)
    ensures Memchr(needle, a + b) ==
      match Memchr(needle, a) {
        case Some(i) => Some(i)
        case None => match Memchr(needle, b) {
          case None => None
          case Some(j) => Some(|a| + j)
        }
      }
    decreases |a|
  {
    if |a| == 0 {
      assert a + b == b;
    } else {
      assert (a + b)[1..] == a[1..] + b;
      MemchrAppend(needle, a[1..], b);
    }
  }
}
