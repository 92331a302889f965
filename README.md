# unixstring in Dafny

A model of `UnixString` from the Rust crate `unixstring`. A `UnixString` is
an FFI-friendly byte string. It owns a `Vec<u8>` that must hold exactly one
zero byte, at its last index. This is the string convention of section 7.1.1
of ISO/IEC 9899:2011. The model covers these parts:

- **The string type** (`UnixStrings`).
  - The datatype `UnixString` is the struct as a value. Every read and every
    pure constructor is a function on it: `validate`, the byte views, `len`,
    `len_with_nul`, `is_empty`, `starts_with`, `into_bytes(_with_nul)`, the
    UTF-8 conversions, `new`, `default`, `from_bytes`, `From<CString>` and
    `from_ptr`.
  - The class `UnixStringBuffer` is the same vector seen through its
    allocation: a byte array as long as the capacity, plus a length. Its
    methods change the string in place: `push_bytes`, `push`,
    `extend_slice`, `extend_from_ptr`, `as_mut_ptr` and `set_len`. Each
    method is proved against the datatype's functions.
- **The scanner** (`Memchr`): `memchr` as a first-occurrence search, with
  the meaning of section 7.24.5.1 of ISO/IEC 9899:2011. The crate's
  `find_nul_byte` is `memchr(0, ·)`.
- **Conversions in** (`TryFromImpls`): `TryFrom` for `Vec<u8>`, `String`,
  `OsString` and `PathBuf`. All of them go through `from_bytes`.
- **Conversions out** (`FromImpls`): `From<UnixString>` for `CString`,
  `OsString` and `PathBuf`.
- **Equality** (`PartialEqImpls`): comparison with `&str`, `&OsStr` and
  `&CStr`, in both directions.
- **Scenarios** (`Scenarios`): the crate's tests, restated as methods and
  lemmas over the model.

How Rust values are represented (`HostTypes`):

- A byte is `u8`, a newtype over `0..255`.
- `String`, `OsString`, `PathBuf` and `CString` are datatypes over their
  bytes. For `CString` that means the bytes without the terminator.
- UTF-8 validity is a predicate. It follows Unicode's table of well-formed
  byte sequences, as restated in section 4 of RFC 3629.
- `usize` is 64 bits wide. It matters for `len`, which wraps, and for the
  `capacity + 1` of `with_capacity`, which the model does not wrap.

Two points where the code and its surroundings disagree. In both, the model
follows the code that the crate compiles:

- **The error type.** The shipped src/error.rs declares `InternalNulByte`
  and `Io`. The code in src/unix_string.rs raises `InteriorNulByte`,
  `MissingNulTerminator` and a UTF-8 error. The model's `Errors.Error` has
  the three variants the code raises.
- **`find_nul_byte`.** src/unix_string.rs:10 imports it from
  src/memchr.rs, which defines only `memchr`. The stale draft
  src/unixstring.rs:12-14 defines it as `memchr(0, bytes)`, and the model
  uses that definition.

## Model

| member | source | states |
|---|---|---|
| `Memchr.Memchr` | src/memchr.rs:1-14 | A returned offset is in range and holds the needle, and no earlier byte holds it. `None` is returned exactly when the needle occurs nowhere, so an empty haystack gives `None`. |
| `Memchr.MemchrIsFirstOccurrence` | src/memchr.rs:1-14 | The result is unique: any index that holds the needle, with no earlier occurrence, is the one returned. |
| `Memchr.FindNulByte` | src/unixstring.rs:12-14 | `find_nul_byte` returns an offset in range that holds a zero byte, with no zero byte before it. It returns `None` exactly when the bytes hold no zero. |
| `Memchr.MemchrAppend` | src/memchr.rs:1-14 | Scanning `a + b` finds the first occurrence in `a` if there is one. Otherwise it finds the first occurrence in `b`, shifted by `\|a\|`. |
| `UnixStrings.UnixString.Validate` | src/unix_string.rs:55-62 | `Ok` exactly when `inner` is nul-terminated with no other zero byte. `InteriorNulByte` exactly when a zero byte comes before the last position. `MissingNulTerminator` exactly when there is no zero byte at all, which includes an empty `inner`. |
| `UnixStrings.UnixString.AsBytes` | src/unix_string.rs:214-216 | The logical bytes are `inner` without its last byte. For a valid string they contain no zero byte. |
| `UnixStrings.UnixString.AsBytesWithNul` | src/unix_string.rs:407-409 | For a valid string, the physical bytes are the logical bytes followed by one zero. |
| `UnixStrings.UnixString.IntoBytes` | src/unix_string.rs:419-423 | Removing the last byte gives exactly the logical bytes. |
| `UnixStrings.UnixString.IntoBytesWithNul` | src/unix_string.rs:414-416 | For a valid string, the result is `into_bytes` followed by the terminator. |
| `UnixStrings.UnixString.LenWithNul` | src/unix_string.rs:611-613 | The length of the physical bytes. It is at least 1 for a valid string. |
| `UnixStrings.UnixString.Len` | src/unix_string.rs:588-590 | One less than `len_with_nul`, and equal to the number of logical bytes. On an empty `inner` it wraps to `usize::MAX`. |
| `UnixStrings.UnixString.IsEmpty` | src/unix_string.rs:637-639 | True exactly when the string is valid and has no logical bytes. |
| `UnixStrings.UnixString.StartsWith` | src/unix_string.rs:482-488 | True exactly when the logical bytes are `rhs` followed by some suffix. Then `\|rhs\|` is at most `len()`. |
| `UnixStrings.UnixString.AsOsStr` | src/unix_string.rs:233-235 | The `OsStr` has `len()` bytes, agrees with `inner` on each of them, and has no zero byte when the string is valid. |
| `UnixStrings.UnixString.AsPath` | src/unix_string.rs:249-251 | The path's `OsString` holds the logical bytes. |
| `UnixStrings.UnixString.AsCStr` | src/unix_string.rs:254-259 | Only a valid string may be viewed as a `CStr`, since the `unwrap` panics otherwise. The view has no zero byte, and with its terminator it is `inner`. |
| `UnixStrings.UnixString.ToStr` | src/unix_string.rs:267-269 | `Ok` exactly when the logical bytes are valid UTF-8, and then it holds those bytes. Otherwise the result is the UTF-8 error. |
| `UnixStrings.UnixString.IntoString` | src/unix_string.rs:313-315 | The owned conversion gives the same result as `to_str`. |
| `UnixStrings.UnixString.IntoStringUnchecked` | src/unix_string.rs:342-344 | When the caller's UTF-8 promise holds, the result is what the checked `into_string` returns. |
| `UnixStrings.UnixString.PushBytes` | src/unix_string.rs:111-127 | The push fails, with `InteriorNulByte`, exactly when `bytes` has a zero before its last position. On success the string is still terminated. Its logical bytes are the old ones followed by `bytes` without a trailing zero. A valid string stays valid. |
| `UnixStrings.Default` | src/unix_string.rs:19-23 | The default string validates and is empty. |
| `UnixStrings.New` | src/unix_string.rs:31-33 | A new string has length 0, `len_with_nul` 1 and no logical bytes. |
| `UnixStrings.FromBytes` | src/unix_string.rs:148-158 | There are three outcomes. Input with no zero byte gets a zero appended. Input whose only zero is its last byte is kept as it is. Input with an interior zero gives `InteriorNulByte`. Every success is valid and holds the input without its terminator. |
| `UnixStrings.FromCString` | src/unix_string.rs:642-650 | A valid `CString` becomes a valid string with the same content. An unchecked `CString` with an interior zero yields a string that `validate` rejects with `InteriorNulByte`. |
| `UnixStrings.FromPtr` | src/unix_string.rs:194-196 | The result is valid. It is the prefix of the pointed-to memory that ends at the first zero byte. |
| `UnixStrings.FromBytesIsPushOntoNew` | src/unix_string.rs:148-158 | `from_bytes(b)` equals pushing `b` onto `new()`, in every outcome. |
| `UnixStrings.FromBytesReTerminated` | src/unix_string.rs:148-158 | For zero-free input, `from_bytes(b ++ [0])` equals `from_bytes(b)`. Both succeed with logical bytes `b`. |
| `UnixStrings.PushNothing` | src/unix_string.rs:111-127 | Pushing `[]` or `[0]` onto a valid string leaves it unchanged. |
| `UnixStrings.StartsWithBounds` | src/unix_string.rs:482-488 | `""` is always a prefix. A prefix longer than `len()` never is. |
| `UnixStrings.IsEmptyIsNew` | src/unix_string.rs:637-639 | `is_empty` holds for exactly one value, the one `new()` builds. |
| `UnixStrings.PushAllFailsOnInteriorNul` | src/unix_string.rs:111-127 | A series of pushes onto a valid string fails exactly when some chunk has an interior zero. |
| `UnixStrings.PushAllKeepsInvariant` | src/unix_string.rs:111-127 | A series of successful pushes keeps the string valid. The logical bytes become the old ones followed by each chunk without its terminator. |
| `UnixStrings.ValidateAfterPushes` | src/unix_string.rs:55-62 | After any series of successful pushes onto a string that validates, `validate` still returns `Ok`. |
| `UnixStrings.UnixStringBuffer.Capacity` | src/unix_string.rs:570-572 | The capacity is never less than `len_with_nul`. |
| `UnixStrings.UnixStringBuffer.Create` | src/unix_string.rs:19-33 | A fresh buffer holds `new()`, with room for at least the terminator. |
| `UnixStrings.UnixStringBuffer.WithCapacity` | src/unix_string.rs:171-176 | A fresh buffer holds `new()`, with capacity at least `capacity + 1`. |
| `UnixStrings.UnixStringBuffer.Own` | src/unix_string.rs:15-17 | A fresh buffer that owns a given value. Its capacity is exactly that value's length, as for a vector collected to its exact size. |
| `UnixStrings.UnixStringBuffer.Reserve` | src/unix_string.rs:66-70 | Growth before `extend_from_slice`: afterwards `additional` more bytes fit. The live bytes and the length are kept, and the array is either the old one or a fresh one. |
| `UnixStrings.UnixStringBuffer.AppendByte` | src/unix_string.rs:123 | `inner.extend(Some(b))`: the physical bytes gain `b` at the end. |
| `UnixStrings.UnixStringBuffer.ExtendSlice` | src/unix_string.rs:66-70 | The last byte is removed and then `slice` is appended, so the physical bytes become the old logical bytes followed by `slice`. |
| `UnixStrings.UnixStringBuffer.PushBytes` | src/unix_string.rs:111-127 | In place, the new value is the value-level `push_bytes` result. A refused push returns `InteriorNulByte` and leaves the array, every byte in it and the length exactly as they were. |
| `UnixStrings.UnixStringBuffer.Push` | src/unix_string.rs:90-92 | Pushing an `OsStr` behaves as `push_bytes` of its bytes. |
| `UnixStrings.UnixStringBuffer.ExtendFromPtr` | src/unix_string.rs:285-289 | Appends the bytes before the first zero of the pointed-to memory. It always succeeds, and the string ends in exactly one new terminator. |
| `UnixStrings.UnixStringBuffer.AsMutPtr` | src/unix_string.rs:533-536 | The pointer is the allocation itself, as long as the capacity. |
| `UnixStrings.UnixStringBuffer.SetLen` | src/unix_string.rs:553-555 | Only `len` changes, to `new_len`, which must not exceed the capacity. The value is then the first `new_len` bytes of the allocation, whatever they are. |
| `TryFromImpls.FromBytesConverts` | src/unix_string.rs:148-158 | `from_bytes` fails with `InteriorNulByte` exactly on an interior zero. Otherwise it yields a valid string holding the input without its terminator. |
| `TryFromImpls.TryFromVec` | src/try_from.rs:34-40 | `TryFrom<Vec<u8>>` has the accept and reject rules of `from_bytes`, with the same result bytes. |
| `TryFromImpls.TryFromString` | src/try_from.rs:26-32 | `TryFrom<String>` applies those rules to the string's bytes. |
| `TryFromImpls.TryFromOsString` | src/try_from.rs:16-24 | `TryFrom<OsString>` applies those rules to `into_vec()`. |
| `TryFromImpls.TryFromPathBuf` | src/try_from.rs:8-14 | `TryFrom<PathBuf>` is the `OsString` conversion of the path, with the same rules. |
| `TryFromImpls.TryFromRejectsInteriorNul` | tests/try_from_pathbuf.rs:29-33 | `"/home\0/user"` is rejected as a `String` and as a `PathBuf`. |
| `TryFromImpls.TryFromAcceptsTerminator` | tests/try_from_string.rs:11-15 | `"/home/user\0"` is accepted. |
| `TryFromImpls.TryFromEmptyString` | tests/try_from_string.rs:17-24 | `""` converts to an empty string with no logical bytes. |
| `TryFromImpls.TryFromOsStringKeepsBytes` | tests/try_from_osstring.rs:5-27 | A zero-free `OsString` converts, and the `as_os_str` view of the result is the input. |
| `FromImpls.IntoCString` | src/from.rs:8-16 | The `CString` holds the logical bytes. For a valid string they have no zero byte, which is the safety condition of `from_vec_unchecked`. |
| `FromImpls.IntoOsString` | src/from.rs:18-26 | The `OsString` is the owned `as_os_str` view. |
| `FromImpls.IntoPathBuf` | src/from.rs:28-34 | The `PathBuf` is the owned `as_path` view. |
| `FromImpls.CStringRoundTrip` | tests/into.rs:8-18 | Converting `CString` to `UnixString` and back is the identity. |
| `FromImpls.OsStringRoundTrip` | tests/into.rs:32-42 | Converting a zero-free `OsString` to `UnixString` and back is the identity. |
| `FromImpls.PathBufRoundTrip` | tests/into.rs:20-30 | Converting a zero-free `PathBuf` to `UnixString` and back is the identity. |
| `PartialEqImpls.EqStr` | src/partial_eq.rs:20-26 | `unix == s` holds exactly when `s`'s bytes are a prefix of the logical bytes and as long as them. No UTF-8 validity is assumed. |
| `PartialEqImpls.StrEq` | src/partial_eq.rs:28-34 | `s == unix` holds exactly when the two byte strings are equal, so it agrees with `unix == s`. |
| `PartialEqImpls.EqOsStr` | src/partial_eq.rs:36-40 | Comparing the `as_os_str` view is comparing the bytes as a `&str` would. |
| `PartialEqImpls.OsStrEq` | src/partial_eq.rs:42-46 | The reversed `&OsStr` comparison is byte equality. |
| `PartialEqImpls.EqCStr` | src/partial_eq.rs:48-52 | Comparing the `as_c_str` view is comparing the content before the terminator. |
| `PartialEqImpls.CStrEq` | src/partial_eq.rs:54-58 | The reversed `&CStr` comparison is byte equality of that content. |
| `PartialEqImpls.EmptyEqualsEmpty` | tests/partial_eq.rs:22-23 | `new()` equals the empty `&str`, `&OsStr` and `&CStr`, on either side. |
| `PartialEqImpls.ShorterDiffers` | tests/partial_eq.rs:26-27 | The string from `"hello_worl"` converts and differs from `"hello_world"`. |
| `PartialEqImpls.LongerDiffers` | tests/partial_eq.rs:29-30 | The string from `"hello_worldd"` converts and differs from `"hello_world"`. |
| `Scenarios.WritingToMutPtr` | tests/as_mut_ptr.rs:4-19 | Storing `"hello world\0"` through the pointer and forcing the length to 12 gives a string that validates and whose text is `"hello world"`. |
| `Scenarios.OverwritingTheTerminator` | tests/as_mut_ptr.rs:21-30 | Overwriting the allocation with the byte 5 destroys the terminator, so `validate` reports `MissingNulTerminator`. |
| `Scenarios.WritingAnInteriorNul` | tests/as_mut_ptr.rs:32-43 | Storing a zero at index 5 of fifty `a`s makes `validate` report `InteriorNulByte`. |
| `Scenarios.FailedPushKeepsString` | tests/push_bytes.rs:44-60 | A refused push of `"a\0bc"` leaves `"abc\0"` byte for byte. |
| `Scenarios.PushNulTerminatedBytes` | tests/push_bytes.rs:70-86 | Pushing `"abc"`, `"abc\0"` and `"cde\0"` gives `"abcabccde\0"`. |
| `Scenarios.PlainPush` | src/unix_string.rs:119-124 | Pushing bytes with no zero byte onto a valid string succeeds, keeps it valid, and appends all of them. |
| `Scenarios.PushSequence` | tests/push_bytes.rs:70-86 | On values, pushing `abc`, then `abc` and `cde` each with a terminator, succeeds each time and ends with `abc + abc + cde` and one terminator. |
| `Scenarios.RefusedSecondPush` | tests/push_bytes.rs:44-60 | On values, a zero-free push onto `new()` succeeds with `abc` and a terminator, and a following push with an interior zero fails with `InteriorNulByte`. |
| `Scenarios.TerminatedText` | src/unix_string.rs:55-62 | Zero-free UTF-8 text followed by a terminator validates, and `to_str` gives back that text. |
| `Scenarios.TerminatedPush` | src/unix_string.rs:113-117 | Pushing bytes that carry their own terminator appends exactly the bytes before it. |
| `Scenarios.LoremIpsum` | tests/starts_with.rs:19-20 | The string of that test is valid, and its logical bytes are exactly `"lorem ipsum"`. |
| `Scenarios.LoremIpsumIsPushed` | tests/starts_with.rs:19-20 | Pushing `"lorem ipsum"` onto a new string succeeds and gives that string. |
| `Scenarios.HasPrefix` | src/unix_string.rs:482-488 | When the logical bytes are `prefix + rest`, `starts_with(prefix)` holds. |
| `Scenarios.StartsWithItsPrefixes` | tests/starts_with.rs:22-23 | `"lorem"` and `"lorem ipsum"` are prefixes of that string. |
| `Scenarios.StartsWithRejectsNearMisses` | tests/starts_with.rs:25-27 | `"lorem ipsun"`, `"lorem ipsum "` and `"lorem ipsumm"` are not prefixes of it. |
| `Scenarios.LoremIpsumEqualsItsText` | tests/partial_eq.rs:17-20 | That string equals `"lorem ipsum"` as a `&str`, `&OsStr` and `&CStr`, on either side. |
| `Scenarios.LengthsAfterPushes` | tests/len_and_cap.rs:4-21 | Pushing `"\0"` keeps `new()` empty. Pushing `"123321"` gives length 6, `len_with_nul` 7, and a string that is not empty. |
| `Scenarios.LenAndCap` | tests/len_and_cap.rs:23-42 | `"John Doe\0"` has `len_with_nul` 9 and `len` 8. Owned at its exact size, its capacity is 9. |
| `Scenarios.UncheckedCStringIsInvalid` | tests/validate.rs:21-35 | A `CString` built unchecked over `"hello\0world"` gives a string that `validate` rejects with `InteriorNulByte`. |

## Left out

- `as_ptr` (src/unix_string.rs:210-212) returns a raw pointer to the
  `as_c_str` view. That view is modelled, and the address itself has no
  counterpart.
- `from_ptr` and `extend_from_ptr` take the memory at the pointer as a
  parameter: the bytes up to and including a zero byte the caller vouches
  for. Reading foreign memory is not modelled.
- The lossy UTF-8 conversions are not modelled: `to_string_lossy` and
  `into_string_lossy` (src/unix_string.rs:294-304, 349-351). Their output
  depends on std's replacement-character substitution.
- `Path` equality (src/partial_eq.rs:8-18) is not modelled. std compares
  paths component by component, and that comparison is not visible here.
- src/as_ref.rs is one-line delegations to the views modelled above.
  src/lib.rs holds only the module list and documentation. Neither is
  modelled.
- The example programs under examples/ make system calls and do I/O. They
  are not modelled.
- The stale draft src/unixstring.rs is not in the module tree. Only its
  definition of `find_nul_byte` is used.
- `UnixStrings.UnixStringBuffer.Reserve`: the exact capacity `Vec` chooses
  when it grows is std's allocation policy. The model guarantees enough
  room and doubles or grows to need. Exact capacity values are not
  modelled (tests/len_and_cap.rs:14). The exception is a buffer owned at
  the exact size of its value.
- `UnixStrings.UnixStringBuffer.WithCapacity`: the `isize::MAX` capacity
  overflow panic (src/unix_string.rs:168-170) is not modelled. Nor is the
  `capacity + 1` at src/unix_string.rs:172, which wraps to 0 for
  `usize::MAX` in a release build. The model's capacity is an unbounded
  natural, so it always has room for the terminator.
- Uninitialised memory is not modelled. Bytes past the length of a fresh
  allocation hold some value of type `u8`, and `set_len` over them is
  modelled as reading whatever the array holds.
- `UnixStrings.UnixStringBuffer.ExtendSlice`: the `debug_assert` that the
  removed byte is zero (src/unix_string.rs:68) is not required. The model
  removes the last byte whatever it is, as a release build does.
- The in-file test of src/memchr.rs (lines 21-25) is not modelled. It
  searches for the character `'0'`, byte 0x30, which does occur in its
  text, so as written it asserts something false of `memchr`.
- The derived `Clone`, `PartialOrd`, `Ord` and `Hash` (src/unix_string.rs:12)
  are standard derivations over `inner` and are not modelled. The derived
  `PartialEq` between two `UnixString`s is datatype equality.
- `usize` arithmetic is modelled as wrapping only in `len`, with a
  64-bit `usize`. Lengths elsewhere are unbounded naturals, because a `Vec`
  cannot exceed `isize::MAX` bytes.
- Panics are modelled as preconditions. The functions that index or slice
  `inner` require it to be non-empty (`|inner| > 0`): `AsBytes`,
  `IntoBytes`, `StartsWith`, `AsOsStr`, `AsPath`, `ToStr`, `IntoString`,
  `PushBytes` (and the buffer's `len > 0`), the `&str` and `&OsStr`
  comparisons, and the conversions `IntoCString`, `IntoOsString` and
  `IntoPathBuf`. On an empty `inner` the code panics. The functions
  behind the `unwrap` at src/unix_string.rs:258 require a valid string:
  `AsCStr`, `EqCStr` and `CStrEq`.
- `UnixStrings.UnixString.PushBytes`: on an empty `inner`, bytes with an
  interior zero are refused with `InteriorNulByte` before anything panics
  (src/unix_string.rs:112-118). The precondition `|inner| > 0` excludes that
  case. An empty `inner` exists only after `set_len(0)`, which breaks the
  safety requirement of src/unix_string.rs:494.
