/** The crate's usage scenarios under tests/, restated over the model: the
    buffer class where a test writes through the allocation or pushes in
    place, the value functions where it only reads. */
module Scenarios {
  import opened HostTypes
  import opened Errors
  import opened Memchr
  import opened UnixStrings
  import opened PartialEqImpls

  /** tests/as_mut_ptr.rs, `writing_to_mut_ptr`: room for twelve bytes,
      `"hello world\0"` stored through the pointer one byte at a time, then
      the length forced to twelve. The result is a valid string whose text
      is `"hello world"`. */
  method WritingToMutPtr() returns (validation: Result<()>, text: Result<String>)
    ensures validation == Ok(())
    ensures text == Ok(String(Ascii("hello world")))
  {
    var unx := new UnixStringBuffer.WithCapacity(12);
    var ptr := unx.AsMutPtr();
    var literal := "hello world\0";
    var bytes := Ascii(literal);
    for idx := 0 to |bytes|
      invariant unx.Wf() && ptr == unx.buf && ptr.Length >= 13
      invariant ptr[..idx] == bytes[..idx]
    {
      ptr[idx] := bytes[idx];
    }
    assert ptr[..12] == bytes;
    unx.SetLen(12);
    HelloWorldBytes();
    HelloWorldText();
    TerminatedText(Ascii("hello world"));
    assert unx.Value() == UnixString(Ascii("hello world") + [0]);
    validation := unx.Value().Validate();
    text := unx.Value().ToStr();
  }

  /** Text without a zero byte, followed by a terminator, is a valid string
      whose `str` form is that text. */
  lemma TerminatedText(text: seq<u8>)
    requires 0 !in text && IsUtf8(text)
    ensures UnixString(text + [0]).Validate() == Ok(())
    ensures UnixString(text + [0]).ToStr() == Ok(String(text))
  {
    assert UnixString(text + [0]).AsBytes() == text;
  }

  /** `"hello world\0"` is the bytes of `"hello world"` and a terminator. */
  lemma HelloWorldBytes()
    ensures Ascii("hello world\0") == Ascii("hello world") + [0]
  {
    AsciiConcat("hello world", "\0");
    assert "hello world\0" == "hello world" + "\0";
  }

  /** `"hello world"` is ASCII text: no zero byte, and valid UTF-8. */
  lemma HelloWorldText()
    ensures 0 !in Ascii("hello world")
    ensures IsUtf8(Ascii("hello world"))
  {
    var text := "hello world";
    assert forall i | 0 <= i < |text| :: 0 < text[i] as int < 0x80;
    var bytes := Ascii(text);
    assert forall i | 0 <= i < |bytes| :: 0 < bytes[i] < 0x80;
    AsciiIsUtf8(bytes);
  }

  /** tests/as_mut_ptr.rs, `as_mut_ptr_invalidating_nul_terminator`: fifty-one
      bytes of value 5 written over the allocation overwrite the terminator,
      and the length stays one. */
  method OverwritingTheTerminator() returns (validation: Result<()>)
    ensures validation == Err(MissingNulTerminator)
  {
    var unx := new UnixStringBuffer.WithCapacity(50);
    var ptr := unx.AsMutPtr();
    forall i | 0 <= i < 51 {
      ptr[i] := 5;
    }
    assert unx.Value().inner == [5];
    validation := unx.Value().Validate();
  }

  /** tests/as_mut_ptr.rs, `as_mut_ptr_invalidating_interior_nul_byte`: fifty
      `a`s, then a zero stored at index 5 through the pointer. */
  method WritingAnInteriorNul() returns (validation: Result<()>)
    ensures validation == Err(InteriorNulByte)
  {
    var aaa := seq(50, _ => 'a' as int as u8);
    var built := FromBytes(aaa);
    var unx := new UnixStringBuffer.Own(built.value);
    var ptr := unx.AsMutPtr();
    ptr[5] := 0;
    assert unx.Value().inner[5] == 0 && 5 < |unx.Value().inner| - 1;
    validation := unx.Value().Validate();
  }

  /** tests/push_bytes.rs, `push_byte_failure_does_not_alter_the_unix_string`:
      a refused push of `"a\0bc"` leaves `"abc\0"` as it was. */
  method FailedPushKeepsString() returns (before: seq<u8>, failure: Result<()>, after: seq<u8>)
    ensures before == Ascii("abc") + [0]
    ensures failure == Err(InteriorNulByte)
    ensures after == before
  {
    var abc := Ascii("abc");
    var a0bc := Ascii("a\0bc");
    AbcAndA0bc();
    RefusedSecondPush(abc, a0bc);
    var unx := new UnixStringBuffer.Create();
    var pushed := unx.PushBytes(abc);
    before := unx.Value().AsBytesWithNul();
    failure := unx.PushBytes(a0bc);
    after := unx.Value().AsBytesWithNul();
  }

  /** The pushes of `push_byte_failure_does_not_alter_the_unix_string` on
      values: the first is taken, the second refused. */
  lemma RefusedSecondPush(abc: seq<u8>, a0bc: seq<u8>)
    requires 0 !in abc && HasInteriorNul(a0bc)
    ensures New().PushBytes(abc).Ok?
    ensures New().PushBytes(abc).value.AsBytesWithNul() == abc + [0]
    ensures New().PushBytes(abc).value.PushBytes(a0bc) == Err(InteriorNulByte)
  {
    PlainPush(New(), abc);
    var v1 := New().PushBytes(abc).value;
    assert v1.Valid() && v1.AsBytes() == abc;
  }

  /** `"abc"` has no zero byte; `"a\0bc"` has one before its last byte. */
  lemma AbcAndA0bc()
    ensures 0 !in Ascii("abc")
    ensures HasInteriorNul(Ascii("a\0bc"))
  {
    var abc := Ascii("abc");
    assert forall i | 0 <= i < |abc| :: abc[i] != 0;
    assert Ascii("a\0bc")[1] == 0;
  }

  /** tests/push_bytes.rs, `push_null_terminated_bytes`: pushing `"abc"`,
      `"abc\0"` and `"cde\0"` gives `"abcabccde\0"`; a terminator of the
      pushed bytes is taken as the string's own. */
  method PushNulTerminatedBytes() returns (result: seq<u8>)
    ensures result == Ascii("abcabccde") + [0]
  {
    var abc := Ascii("abc");
    var cde := Ascii("cde");
    assert 0 !in abc && 0 !in cde;
    PushSequence(abc, cde);
    var unx := new UnixStringBuffer.Create();
    var r := unx.PushBytes(abc);
    r := unx.PushBytes(abc + [0]);
    r := unx.PushBytes(cde + [0]);
    result := unx.Value().AsBytesWithNul();
    AbcAbcCde();
  }

  /** The pushes of `push_null_terminated_bytes` on values: `abc`, then `abc`
      and `cde` each with a terminator of their own, give `abc + abc + cde`
      and one terminator. */
  lemma PushSequence(abc: seq<u8>, cde: seq<u8>)
    requires 0 !in abc && 0 !in cde
    ensures New().PushBytes(abc).Ok?
    ensures New().PushBytes(abc).value.PushBytes(abc + [0]).Ok?
    ensures New().PushBytes(abc).value.PushBytes(abc + [0]).value.PushBytes(cde + [0]).Ok?
    ensures New().PushBytes(abc).value.PushBytes(abc + [0]).value.PushBytes(cde + [0]).value.AsBytesWithNul()
      == abc + abc + cde + [0]
  {
    var v0 := New();
    PlainPush(v0, abc);
    var v1 := v0.PushBytes(abc).value;
    assert v1.Valid() && v1.AsBytes() == abc;
    TerminatedPush(v1, abc);
    var v2 := v1.PushBytes(abc + [0]).value;
    assert v2.Valid() && v2.AsBytes() == abc + abc;
    TerminatedPush(v2, cde);
    var v3 := v2.PushBytes(cde + [0]).value;
    assert v3.Valid() && v3.AsBytes() == abc + abc + cde;
  }

  /** The bytes of `"abcabccde"` are those of the three pushed parts. */
  lemma AbcAbcCde()
    ensures Ascii("abcabccde") == Ascii("abc") + Ascii("abc") + Ascii("cde")
  {
    AsciiConcat("abc", "abc");
    AsciiConcat("abcabc", "cde");
    assert "abcabc" == "abc" + "abc";
    assert "abcabccde" == "abcabc" + "cde";
  }

  /** Pushing bytes without a zero appends them all. */
  lemma PlainPush(u: UnixString, bytes: seq<u8>)
    requires u.Valid() && 0 !in bytes
    ensures u.PushBytes(bytes).Ok?
    ensures u.PushBytes(bytes).value.Valid()
    ensures u.PushBytes(bytes).value.AsBytes() == u.AsBytes() + bytes
  {
    assert !HasInteriorNul(bytes);
  }

  /** Pushing bytes that carry their own terminator appends exactly the bytes
      before it. */
  lemma TerminatedPush(u: UnixString, bytes: seq<u8>)
    requires u.Valid() && 0 !in bytes
    ensures u.PushBytes(bytes + [0]).Ok?
    ensures u.PushBytes(bytes + [0]).value.Valid()
    ensures u.PushBytes(bytes + [0]).value.AsBytes() == u.AsBytes() + bytes
  {
    assert WithoutTerminator(bytes + [0]) == bytes;
  }

  /** The string tests/starts_with.rs builds from `"lorem ipsum"`. */
  function LoremIpsum(): (r: UnixString)
    ensures r.Valid() && r.AsBytes() == Ascii("lorem ipsum")
  {
    var bytes := Ascii("lorem ipsum");
    assert forall i | 0 <= i < |bytes| :: bytes[i] != 0;
    UnixString(bytes + [0])
  }

  /** tests/starts_with.rs, `starts_with_boundaries`: the string is what
      pushing `"lorem ipsum"` onto a new one gives. */
  lemma LoremIpsumIsPushed()
    ensures New().PushBytes(Ascii("lorem ipsum")) == Ok(LoremIpsum())
  {
    var bytes := Ascii("lorem ipsum");
    assert 0 !in bytes;
    FromBytesIsPushOntoNew(bytes);
    FromBytesReTerminated(bytes);
  }

  /** tests/starts_with.rs, `starts_with_boundaries`: a proper prefix and the
      whole content match. */
  lemma StartsWithItsPrefixes()
    ensures LoremIpsum().StartsWith(Ascii("lorem"))
    ensures LoremIpsum().StartsWith(Ascii("lorem ipsum"))
  {
    var bytes := Ascii("lorem ipsum");
    LoremIsAPrefix();
    HasPrefix(LoremIpsum(), Ascii("lorem"), bytes[5..]);
    HasPrefix(LoremIpsum(), bytes, []);
  }

  /** The first five bytes of `"lorem ipsum"` are `"lorem"`. */
  lemma LoremIsAPrefix()
    ensures Ascii("lorem ipsum") == Ascii("lorem") + Ascii("lorem ipsum")[5..]
  {
    var bytes := Ascii("lorem ipsum");
    var lorem := Ascii("lorem");
    assert forall i | 0 <= i < 5 :: lorem[i] == bytes[i];
  }

  /** Logical bytes `prefix + rest` start with `prefix`. */
  lemma HasPrefix(u: UnixString, prefix: seq<u8>, rest: seq<u8>)
    requires |u.inner| > 0 && u.AsBytes() == prefix + rest
    ensures u.StartsWith(prefix)
  {
  }

  /** tests/starts_with.rs, `starts_with_boundaries`: a changed last byte or
      one byte too many, a space or a repeated letter, does not match. */
  lemma StartsWithRejectsNearMisses()
    ensures !LoremIpsum().StartsWith(Ascii("lorem ipsun"))
    ensures !LoremIpsum().StartsWith(Ascii("lorem ipsum "))
    ensures !LoremIpsum().StartsWith(Ascii("lorem ipsumm"))
  {
    StartsWithBounds(LoremIpsum(), Ascii("lorem ipsum "));
    StartsWithBounds(LoremIpsum(), Ascii("lorem ipsumm"));
    assert Ascii("lorem ipsun")[10] != LoremIpsum().AsBytes()[10];
  }

  /** tests/partial_eq.rs, `partial_eq_str`: the string built from
      `"lorem ipsum"` equals that text, with either operand on the left, and
      its `OsStr` and `CStr` forms. */
  lemma LoremIpsumEqualsItsText()
    ensures EqStr(LoremIpsum(), String(Ascii("lorem ipsum")))
    ensures StrEq(String(Ascii("lorem ipsum")), LoremIpsum())
    ensures EqOsStr(LoremIpsum(), OsString(Ascii("lorem ipsum")))
    ensures OsStrEq(OsString(Ascii("lorem ipsum")), LoremIpsum())
    ensures EqCStr(LoremIpsum(), CString(Ascii("lorem ipsum")))
    ensures CStrEq(CString(Ascii("lorem ipsum")), LoremIpsum())
  {
  }

  /** tests/len_and_cap.rs, `is_empty`: pushing a lone terminator leaves a
      new string empty; pushing `"123321"` then gives six logical bytes. */
  lemma LengthsAfterPushes()
    ensures New().PushBytes([0]) == Ok(New())
    ensures New().PushBytes(Ascii("123321")).Ok?
    ensures !New().PushBytes(Ascii("123321")).value.IsEmpty()
    ensures New().PushBytes(Ascii("123321")).value.Len() == 6
    ensures New().PushBytes(Ascii("123321")).value.LenWithNul() == 7
  {
    PushNothing(New());
    var digits := Ascii("123321");
    assert 0 !in digits;
    assert New().PushBytes(digits).value.AsBytes() == digits;
  }

  /** tests/len_and_cap.rs, `len_and_cap`: `"John Doe\0"` keeps its nine
      bytes, eight of them logical; owned as a buffer, its capacity is the
      vector's nine. */
  method LenAndCap() returns (lenWithNul: nat, len: nat, capacity: nat)
    ensures lenWithNul == 9 && len == 8 && capacity == 9
  {
    var literal := "John Doe\0";
    assert forall i | 0 <= i < |literal| - 1 :: literal[i] as int > 0;
    var name := Ascii(literal);
    assert NulTerminated(name);
    var u := FromBytes(name).value;
    lenWithNul := u.LenWithNul();
    len := u.Len();
    var unx := new UnixStringBuffer.Own(u);
    capacity := unx.Capacity();
  }

  /** tests/validate.rs, `invalid_interior_nul_byte`: a `CString` built
      unchecked over `"hello\0world"` yields a string that `validate`
      rejects. */
  lemma UncheckedCStringIsInvalid()
    ensures FromCString(CString(Ascii("hello\0world"))).Validate() == Err(InteriorNulByte)
  {
    assert Ascii("hello\0world")[5] == 0;
  }
}
