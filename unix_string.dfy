/** src/unix_string.rs: `UnixString`, a byte vector that holds exactly one
    zero byte, at its last index (the string convention of section 7.1.1 of
    ISO/IEC 9899:2011).

    `UnixString` (the datatype) is the struct as a value: its `inner` vector.
    Everything that reads a `UnixString` or builds a new one is a function on
    it. `UnixStringBuffer` (the class) is the same vector seen through its
    allocation, a byte array as long as the capacity plus a length; it is what
    `push_bytes`, `as_mut_ptr` and `set_len` change in place. */
module UnixStrings {
  import opened HostTypes
  import opened Errors
  import opened Memchr

  /** `usize::MAX` on a 64-bit target, the value of `0usize.wrapping_sub(1)`. */
  const UsizeMax: nat := 0xFFFF_FFFF_FFFF_FFFF

  /** The invariant every safe operation keeps: `inner` is not empty, ends in a
      zero byte, and holds no other zero byte. */
  predicate NulTerminated(inner: seq<u8>) {
    && |inner| > 0
    && inner[|inner| - 1] == 0
    && forall i :: 0 <= i < |inner| - 1 ==> inner[i] != 0
  }

  /** A zero byte somewhere before the last position. */
  predicate HasInteriorNul(bytes: seq<u8>) {
    exists i :: 0 <= i < |bytes| - 1 && bytes[i] == 0
  }

  /** `bytes` without its final byte when that byte is zero. */
  function WithoutTerminator(bytes: seq<u8>): (r: seq<u8>) {
    if |bytes| > 0 && bytes[|bytes| - 1] == 0 then bytes[..|bytes| - 1] else bytes
  }

  datatype UnixString = UnixString(inner: seq<u8>) {

    predicate Valid() { NulTerminated(inner) }

    /** `validate`: classifies `inner` by its first zero byte. */
    function Validate(): (r: Result<()>)
      ensures r == Ok(()) <==> NulTerminated(inner)
      ensures r == Err(InteriorNulByte) <==> HasInteriorNul(inner)
      ensures r == Err(MissingNulTerminator) <==> 0 !in inner
    {
      match FindNulByte(inner)
      case Some(nulPos) =>
        if nulPos + 1 == |inner| then Ok(()) else Err(InteriorNulByte)
      case None => Err(MissingNulTerminator)
    }

    /** `as_bytes` (and the private `inner_without_nul_terminator`): the
        logical bytes. Slicing `0..len - 1` panics on an empty `inner`. */
    function AsBytes(): (r: seq<u8>)
      requires |inner| > 0
      ensures |r| == |inner| - 1
      ensures forall i :: 0 <= i < |r| ==> r[i] == inner[i]
      ensures Valid() ==> 0 !in r
    {
      inner[..|inner| - 1]
    }

    /** `as_bytes_with_nul`: the physical bytes. */
    function AsBytesWithNul(): (r: seq<u8>)
      ensures Valid() ==> r == AsBytes() + [0]
    {
      inner
    }

    /** `into_bytes`: `inner` with its last byte removed (`Vec::remove`
        panics on an empty vector). */
    function IntoBytes(): (r: seq<u8>)
      requires |inner| > 0
      ensures r == AsBytes()
    {
      inner[..|inner| - 1]
    }

    /** `into_bytes_with_nul`. */
    function IntoBytesWithNul(): (r: seq<u8>)
      ensures Valid() ==> r == IntoBytes() + [0]
    {
      inner
    }

    /** `len_with_nul`. */
    function LenWithNul(): (r: nat)
      ensures Valid() ==> r >= 1
      ensures r == |AsBytesWithNul()|
    {
      |inner|
    }

    /** `len`: `inner.len().wrapping_sub(1)`. */
    function Len(): (r: nat)
      ensures |inner| > 0 ==> r == |AsBytes()| && r + 1 == LenWithNul()
      ensures |inner| == 0 ==> r == UsizeMax
    {
      if |inner| == 0 then UsizeMax else |inner| - 1
    }

    /** `is_empty`: `inner` is exactly `[0]`. */
    function IsEmpty(): (r: bool)
      ensures r <==> Valid() && Len() == 0
    {
      inner == [0]
    }

    /** `starts_with`: `as_bytes().get(0..rhs.len())` compared with `rhs`;
        the `get` gives `None`, hence `false`, when `rhs` is longer. */
    function StartsWith(rhs: seq<u8>): (r: bool)
      requires |inner| > 0
      ensures r <==> exists suffix :: AsBytes() == rhs + suffix
      ensures r ==> |rhs| <= Len()
    {
      var bytes := AsBytes();
      if |rhs| <= |bytes| then
        assert bytes == bytes[..|rhs|] + bytes[|rhs|..];
        bytes[..|rhs|] == rhs
      else false
    }

    /** `as_os_str`: an `OsStr` over the logical bytes. */
    function AsOsStr(): (r: OsString)
      requires |inner| > 0
      ensures |r.bytes| == Len()
      ensures Valid() ==> 0 !in r.bytes
      ensures forall i :: 0 <= i < |r.bytes| ==> r.bytes[i] == inner[i]
    {
      OsString(AsBytes())
    }

    /** `as_path`: `Path::new(self.as_os_str())`. */
    function AsPath(): (r: PathBuf)
      requires |inner| > 0
      ensures r.IntoOsString().bytes == AsBytes()
    {
      PathBuf(AsOsStr())
    }

    /** `as_c_str`: `CStr::from_bytes_with_nul(&inner).unwrap()`, which panics
        unless `inner` is nul-terminated without an interior zero. */
    function AsCStr(): (r: CString)
      requires Valid()
      ensures r.Valid() && r.IntoBytesWithNul() == inner
    {
      CString(AsBytes())
    }

    /** `to_str`: `std::str::from_utf8` of the logical bytes. */
    function ToStr(): (r: Result<String>)
      requires |inner| > 0
      ensures r.Ok? <==> IsUtf8(AsBytes())
      ensures r.Ok? ==> r.value.bytes == AsBytes()
      ensures r.Err? ==> r.error == Utf8Error
    {
      if IsUtf8(AsBytes()) then Ok(String(AsBytes())) else Err(Utf8Error)
    }

    /** `into_string`: `String::from_utf8(self.into_bytes())`. */
    function IntoString(): (r: Result<String>)
      requires |inner| > 0
      ensures r == ToStr()
    {
      var bytes := IntoBytes();
      if IsUtf8(bytes) then Ok(String(bytes)) else Err(Utf8Error)
    }

    /** `into_string_unchecked`: the caller vouches for UTF-8 validity. */
    function IntoStringUnchecked(): (r: String)
      requires |inner| > 0 && IsUtf8(IntoBytes())
      ensures IntoString() == Ok(r)
    {
      String(IntoBytes())
    }

    /** What `push_bytes` makes of this value: `bytes` is scanned first; with
        an interior zero the push is refused, otherwise the terminator is
        removed and `bytes` appended, followed by a fresh terminator when
        `bytes` has none of its own. */
    function PushBytes(bytes: seq<u8>): (r: Result<UnixString>)
      requires |inner| > 0
      ensures r.Err? <==> HasInteriorNul(bytes)
      ensures r.Err? ==> r.error == InteriorNulByte
      ensures r.Ok? ==> |r.value.inner| > 0 && r.value.inner[|r.value.inner| - 1] == 0
      ensures r.Ok? ==> r.value.AsBytes() == AsBytes() + WithoutTerminator(bytes)
      ensures r.Ok? && Valid() ==> r.value.Valid()
    {
      match FindNulByte(bytes)
      case Some(nulPos) =>
        if nulPos + 1 == |bytes| then Ok(UnixString(AsBytes() + bytes))
        else Err(InteriorNulByte)
      case None => Ok(UnixString(AsBytes() + bytes + [0]))
    }
  }

  /** `Default::default`: `vec![0]`. */
  function Default(): (r: UnixString)
    ensures r.Validate() == Ok(()) && r.IsEmpty()
  {
    UnixString([0])
  }

  /** `new`: the default value. */
  function New(): (r: UnixString)
    ensures r.Valid() && r.Len() == 0 && r.LenWithNul() == 1 && r.AsBytes() == []
  {
    Default()
  }

  /** `from_bytes`: the vector as it is when its first zero is its last byte,
      the vector with a zero appended when it has none, an error otherwise. */
  function FromBytes(bytes: seq<u8>): (r: Result<UnixString>)
    ensures 0 !in bytes ==> r == Ok(UnixString(bytes + [0]))
    ensures NulTerminated(bytes) ==> r == Ok(UnixString(bytes))
    ensures HasInteriorNul(bytes) ==> r == Err(InteriorNulByte)
    ensures r.Ok? ==> r.value.Valid() && r.value.AsBytes() == WithoutTerminator(bytes)
  {
    match FindNulByte(bytes)
    case Some(nulPos) =>
      if nulPos + 1 == |bytes| then Ok(UnixString(bytes)) else Err(InteriorNulByte)
    case None => Ok(UnixString(bytes + [0]))
  }

  /** `From<CString>`: `into_bytes_with_nul`, trusted without a scan. */
  function FromCString(c: CString): (r: UnixString)
    ensures c.Valid() ==> r.Valid() && r.AsBytes() == c.bytes
    ensures r.Validate() == if c.Valid() then Ok(()) else Err(InteriorNulByte)
  {
    assert UnixString(c.IntoBytesWithNul()).AsBytes() == c.bytes;
    UnixString(c.IntoBytesWithNul())
  }

  /** `from_ptr`: `CStr::from_ptr(ptr).to_owned().into()`. `memory` is what
      lies at `ptr`; the caller vouches that it holds a zero byte, and the
      bytes up to and including the first one are copied. */
  function FromPtr(memory: seq<u8>): (r: UnixString)
    requires 0 in memory
    ensures r.Valid()
    ensures |r.inner| <= |memory| && r.inner == memory[..|r.inner|]
  {
    var end := FindNulByte(memory).value;
    assert memory[..end + 1] == memory[..end] + [0];
    FromCString(CString(memory[..end]))
  }

  /** Building from bytes is pushing them onto a new string. */
  lemma FromBytesIsPushOntoNew(bytes: seq<u8>)
    ensures FromBytes(bytes) == New().PushBytes(bytes)
  {
    assert New().AsBytes() == [];
    assert [] + bytes == bytes;
    assert [] + bytes + [0] == bytes + [0];
  }

  /** Idempotent re-termination: appending the terminator oneself changes
      nothing about what `from_bytes` builds. */
  lemma FromBytesReTerminated(bytes: seq<u8>)
    requires 0 !in bytes
    ensures FromBytes(bytes + [0]) == FromBytes(bytes)
    ensures FromBytes(bytes).Ok? && FromBytes(bytes).value.AsBytes() == bytes
  {
    assert NulTerminated(bytes + [0]);
  }

  /** Pushing nothing, or just a terminator, leaves a valid string as it is. */
  lemma PushNothing(u: UnixString)
    requires u.Valid()
    ensures u.PushBytes([]) == Ok(u)
    ensures u.PushBytes([0]) == Ok(u)
  {
    assert u.AsBytes() + [0] == u.inner;
    assert u.AsBytes() + [] + [0] == u.inner;
  }

  /** Every prefix test holds for the empty prefix, and none for a prefix
      longer than the logical bytes. */
  lemma StartsWithBounds(u: UnixString, rhs: seq<u8>)
    requires |u.inner| > 0
    ensures u.StartsWith([])
    ensures |rhs| > u.Len() ==> !u.StartsWith(rhs)
  {
    assert u.AsBytes() == [] + u.AsBytes();
  }

  /** `is_empty` holds exactly for the value `new` builds. */
  lemma IsEmptyIsNew(u: UnixString)
    ensures u.IsEmpty() <==> u == New()
  {
  }

  /** A series of pushes, stopping at the first failure. */
  function PushAll(u: UnixString, chunks: seq<seq<u8>>): (r: Result<UnixString>)
    requires |u.inner| > 0
    decreases |chunks|
  {
    if chunks == [] then Ok(u)
    else match u.PushBytes(chunks[0]) {
      case Err(e) => Err(e)
      case Ok(v) => PushAll(v, chunks[1..])
    }
  }

  /** The logical bytes a series of successful pushes appends. */
  function Appended(chunks: seq<seq<u8>>): (r: seq<u8>)
    decreases |chunks|
  {
    if chunks == [] then [] else WithoutTerminator(chunks[0]) + Appended(chunks[1..])
  }

  /** A series of pushes onto a valid string fails exactly when some chunk
      has an interior zero. */
  lemma {:induction false} PushAllFailsOnInteriorNul(u: UnixString, chunks: seq<seq<u8>>)
    requires u.Valid()
    ensures PushAll(u, chunks).Ok? <==> forall k :: 0 <= k < |chunks| ==> !HasInteriorNul(chunks[k])
    decreases |chunks|
  {
    if chunks != [] {
      var r := u.PushBytes(chunks[0]);
      if r.Ok? {
        PushAllFailsOnInteriorNul(r.value, chunks[1..]);
        assert forall k :: 1 <= k < |chunks| ==> chunks[k] == chunks[1..][k - 1];
      }
    }
  }

  /** Invariant preservation: a series of successful pushes onto a valid
      string leaves a valid string whose logical bytes are the old ones
      followed by every chunk's. */
  lemma {:induction false} PushAllKeepsInvariant(u: UnixString, chunks: seq<seq<u8>>)
    requires u.Valid() && PushAll(u, chunks).Ok?
    ensures PushAll(u, chunks).value.Valid()
    ensures PushAll(u, chunks).value.AsBytes() == u.AsBytes() + Appended(chunks)
    decreases |chunks|
  {
    if chunks == [] {
      assert u.AsBytes() + [] == u.AsBytes();
    } else {
      var r := u.PushBytes(chunks[0]);
      assert r.Ok?;
      var v := r.value;
      assert v.Valid() && v.AsBytes() == u.AsBytes() + WithoutTerminator(chunks[0]);
      var rest := chunks[1..];
      assert PushAll(u, chunks) == PushAll(v, rest);
      PushAllKeepsInvariant(v, rest);
      AppendedStep(u.AsBytes(), chunks);
    }
  }

  /** One push's worth of `Appended`: the first chunk, then the rest. */
  lemma AppendedStep(prefix: seq<u8>, chunks: seq<seq<u8>>)
    requires chunks != []
    ensures prefix + Appended(chunks) == (prefix + WithoutTerminator(chunks[0])) + Appended(chunks[1..])
  {
  }

  /** Hence `validate` succeeds after any series of successful pushes. */
  lemma ValidateAfterPushes(u: UnixString, chunks: seq<seq<u8>>)
    requires u.Validate() == Ok(()) && PushAll(u, chunks).Ok?
    ensures PushAll(u, chunks).value.Validate() == Ok(())
  {
    PushAllKeepsInvariant(u, chunks);
  }

  /** The `Vec<u8>` behind a `UnixString`: `buf` is its allocation (its length
      is the capacity), `len` the vector's length. Only `len <= capacity` is
      an invariant of the class; the nul-terminator invariant can be broken
      through `as_mut_ptr` and `set_len`, and `Value().Validate()` finds out. */
  class UnixStringBuffer {
    var buf: array<u8>
    var len: nat

    ghost predicate Wf()
      reads this
    {
      len <= buf.Length
    }

    /** The `UnixString` value this buffer currently holds. */
    function Value(): (r: UnixString)
      reads this, buf
      requires Wf()
    {
      UnixString(buf[..len])
    }

    /** `capacity`. */
    function Capacity(): (r: nat)
      reads this, buf
      requires Wf()
      ensures r >= Value().LenWithNul()
    {
      buf.Length
    }

    /** `new` / `default`: `vec![0]`. */
    constructor Create()
      ensures Wf() && fresh(buf)
      ensures Value() == New() && Capacity() >= 1
    {
      buf := new u8[1];
      len := 0;
      new;
      buf[0] := 0;
      len := 1;
    }

    /** `with_capacity`: room for `capacity` bytes plus the terminator. */
    constructor WithCapacity(capacity: nat)
      ensures Wf() && fresh(buf)
      ensures Value() == New() && Capacity() >= capacity + 1
    {
      buf := new u8[capacity + 1];
      len := 0;
      new;
      buf[0] := 0;
      len := 1;
    }

    /** Taking ownership of a value, as `let mut unx = value;` does. */
    constructor Own(u: UnixString)
      ensures Wf() && fresh(buf)
      ensures Value() == u && Capacity() == |u.inner|
    {
      buf := new u8[|u.inner|](i requires 0 <= i < |u.inner| => u.inner[i]);
      len := |u.inner|;
    }

    /** The allocation step of `Vec` growth: afterwards `additional` more
        bytes fit, and the live bytes have moved along if it reallocated. */
    method Reserve(additional: nat)
      requires Wf()
      modifies this
      ensures Wf() && len == old(len) && buf.Length >= len + additional
      ensures buf[..len] == old(buf[..len])
      ensures buf == old(buf) || fresh(buf)
    {
      if buf.Length < len + additional {
        var capacity := if 2 * buf.Length < len + additional then len + additional else 2 * buf.Length;
        var grown := new u8[capacity];
        forall i | 0 <= i < len {
          grown[i] := buf[i];
        }
        buf := grown;
      }
    }

    /** `Vec::push` (`inner.extend(Some(byte))`). */
    method AppendByte(byte: u8)
      requires Wf()
      modifies this, buf
      ensures Wf() && Value().inner == old(Value().inner) + [byte]
      ensures buf == old(buf) || fresh(buf)
    {
      Reserve(1);
      buf[len] := byte;
      len := len + 1;
    }

    /** `extend_slice`: removes the last byte, then appends `slice`. */
    method ExtendSlice(slice: seq<u8>)
      requires Wf() && len > 0
      modifies this, buf
      ensures Wf() && (buf == old(buf) || fresh(buf))
      ensures Value().inner == old(Value().AsBytes()) + slice
    {
      len := len - 1;
      Reserve(|slice|);
      forall i | 0 <= i < |slice| {
        buf[len + i] := slice[i];
      }
      len := len + |slice|;
    }

    /** `push_bytes`: the scan happens before any change, so a refused push
        leaves the allocation and its bytes exactly as they were. */
    method PushBytes(bytes: seq<u8>) returns (r: Result<()>)
      requires Wf() && len > 0
      modifies this, buf
      ensures Wf() && (buf == old(buf) || fresh(buf))
      ensures old(Value()).PushBytes(bytes).Ok? ==>
        r == Ok(()) && Value() == old(Value()).PushBytes(bytes).value
      ensures old(Value()).PushBytes(bytes).Err? ==>
        r == Err(InteriorNulByte) && buf == old(buf) && len == old(len) && buf[..] == old(buf[..])
    {
      match FindNulByte(bytes)
      case Some(nulPos) =>
        if nulPos + 1 == |bytes| {
          ExtendSlice(bytes);
          r := Ok(());
        } else {
          r := Err(InteriorNulByte);
        }
      case None =>
        ExtendSlice(bytes);
        AppendByte(0);
        r := Ok(());
    }

    /** `push`: `push_bytes` of the value's `OsStr` bytes. */
    method Push(value: OsString) returns (r: Result<()>)
      requires Wf() && len > 0
      modifies this, buf
      ensures Wf() && (buf == old(buf) || fresh(buf))
      ensures old(Value()).PushBytes(value.bytes).Ok? ==>
        r == Ok(()) && Value() == old(Value()).PushBytes(value.bytes).value
      ensures old(Value()).PushBytes(value.bytes).Err? ==>
        r == Err(InteriorNulByte) && buf == old(buf) && len == old(len) && buf[..] == old(buf[..])
    {
      r := PushBytes(value.bytes);
    }

    /** `extend_from_ptr`: `memory` is what lies at `ptr`, which the caller
        vouches holds a zero byte; the bytes before the first one are pushed. */
    method ExtendFromPtr(memory: seq<u8>) returns (r: Result<()>)
      requires Wf() && len > 0 && 0 in memory
      modifies this, buf
      ensures Wf() && r == Ok(())
      ensures Value().inner == old(Value().AsBytes()) + memory[..FindNulByte(memory).value] + [0]
    {
      var cstrLen := FindNulByte(memory).value;
      r := PushBytes(memory[..cstrLen]);
      assert WithoutTerminator(memory[..cstrLen]) == memory[..cstrLen];
    }

    /** `as_mut_ptr`: the allocation itself; writes through the pointer are
        stores into this array. */
    method AsMutPtr() returns (ptr: array<u8>)
      requires Wf()
      ensures ptr == buf && ptr.Length == Capacity()
    {
      ptr := buf;
    }

    /** `set_len`: forces the length; the bytes are taken as they are. */
    method SetLen(newLen: nat)
      requires newLen <= buf.Length
      modifies this`len
      ensures Wf() && len == newLen
      ensures Value().inner == buf[..newLen]
    {
      len := newLen;
    }
  }
}
