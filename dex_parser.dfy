/**
 * `DexParser`: a cursor over the bytes of a DEX file, the byte order selected by
 * the header's endian tag, and the tables it loads.  Every read is proved to
 * compute the value the layout functions of module DexFormat give for the
 * cursor position at which it starts, and to leave the cursor where those
 * functions say.
 */
module DexParsing {
  import opened Wrappers
  import opened JavaLang
  import opened DexFormat
  import opened MethodRefs

  /** The bytes `readFully` of n bytes from p copies before it stops: all n, or what
      is left of the file. */
  function Available(file: seq<byte>, p: nat, n: nat): (got: seq<byte>)
    ensures |got| <= n
  {
    if p >= |file| then [] else file[p..Advance(file, p, n)]
  }

  /** A buffer after `readFully` into its first n cells: the copied bytes, then the
      cells it did not reach. */
  function AfterReadFully(buf: seq<byte>, file: seq<byte>, p: nat, n: nat): seq<byte>
    requires n <= |buf|
  {
    var got := Available(file, p, n);
    got + buf[|got|..]
  }

  class DexParser {
    /** The contents of the `RandomAccessFile`. */
    const file: seq<byte>
    /** The file position. */
    var pos: nat
    /** The 4-byte scratch buffer of the fixed-width reads. */
    const bufHelper: array<byte>
    var isBigEndian: bool
    /** `mHeaderItem`, which is `lateinit`: None until `parseHeaderItem` runs. */
    var header: Option<HeaderItem>
    var strings: seq<seq<byte>>
    var typeIds: seq<TypeIdItem>
    var protoIds: seq<ProtoIdItem>
    var fieldIds: seq<FieldIdItem>
    var methodIds: seq<MethodIdItem>
    var classDefs: seq<ClassDefItem>

    predicate Valid()
      reads this
    {
      bufHelper.Length == 4
    }

    /** A parser over the file, positioned at 0, little-endian, nothing loaded. */
    constructor (dexFile: seq<byte>)
      ensures Valid() && fresh(bufHelper)
      ensures file == dexFile && pos == 0 && !isBigEndian && header == None
      ensures strings == [] && typeIds == [] && protoIds == [] && fieldIds == [] && methodIds == [] && classDefs == []
    {
      file := dexFile;
      pos := 0;
      bufHelper := new byte[4];
      isBigEndian := false;
      header := None;
      strings, typeIds, protoIds, fieldIds, methodIds, classDefs := [], [], [], [], [], [];
    }

    /* -----------------------------------------------------------------
     * Basic I/O
     * ----------------------------------------------------------------- */

    /** `seek`: any non-negative position, even past the end, is accepted. */
    method Seek(position: int32) returns (r: Result<(), DexError>)
      modifies this`pos
      ensures position < 0 ==> r == Failure(NegativeSeekOffset) && pos == old(pos)
      ensures position >= 0 ==> r == Success(()) && pos == position
    {
      if position < 0 {
        return Failure(NegativeSeekOffset);
      }
      pos := position;
      return Success(());
    }

    /** `RandomAccessFile.readFully(buf, 0, n)`: copies n bytes from the cursor, or
        fails with end of file after copying what is left. */
    method ReadFully(buf: array<byte>, n: nat) returns (r: Result<(), DexError>)
      requires n <= buf.Length
      modifies buf, this`pos
      ensures pos == Advance(file, old(pos), n)
      ensures r == if n == 0 || old(pos) + n <= |file| then Success(()) else Failure(EndOfFile)
      ensures buf[..] == AfterReadFully(old(buf[..]), file, old(pos), n)
    {
      var i := 0;
      while i < n && pos < |file|
        invariant 0 <= i <= n && pos == old(pos) + i && (i > 0 ==> pos <= |file|)
        invariant forall j | 0 <= j < i :: buf[j] == file[old(pos) + j]
        invariant forall j | i <= j < buf.Length :: buf[j] == old(buf[j])
      {
        buf[i] := file[pos];
        pos := pos + 1;
        i := i + 1;
      }
      assert Available(file, old(pos), n) == buf[..i];
      assert buf[..] == buf[..i] + old(buf[..])[i..];
      if i < n {
        return Failure(EndOfFile);
      }
      return Success(());
    }

    /** `readBytes`: fills the whole buffer. */
    method ReadBytes(buffer: array<byte>) returns (r: Result<(), DexError>)
      modifies buffer, this`pos
      ensures pos == Advance(file, old(pos), buffer.Length)
      ensures r == if buffer.Length == 0 || old(pos) + buffer.Length <= |file| then Success(()) else Failure(EndOfFile)
      ensures buffer[..] == AfterReadFully(old(buffer[..]), file, old(pos), buffer.Length)
    {
      r := ReadFully(buffer, buffer.Length);
    }

    /** `readByte`: one byte through the scratch buffer. */
    method ReadByte() returns (r: Result<byte, DexError>)
      requires Valid()
      modifies this`pos, bufHelper
      ensures old(pos) < |file| ==> r == Success(file[old(pos)]) && pos == old(pos) + 1
      ensures old(pos) >= |file| ==> r == Failure(EndOfFile) && pos == old(pos)
    {
      var _ :- ReadFully(bufHelper, 1);
      return Success(bufHelper[0]);
    }

    /** `readShort`: two bytes in the selected byte order, as a signed `Short`. */
    method ReadShort() returns (r: Result<int16, DexError>)
      requires Valid()
      modifies this`pos, bufHelper
      ensures old(pos) + 2 <= |file| ==> pos == old(pos) + 2
      ensures old(pos) + 2 > |file| ==> pos == Advance(file, old(pos), 2)
      ensures r == if old(pos) + 2 <= |file| then Success(Int16At(file, old(pos), isBigEndian)) else Failure(EndOfFile)
    {
      var _ :- ReadFully(bufHelper, 2);
      var b0, b1 := bufHelper[0] as int, bufHelper[1] as int;
      if isBigEndian {
        return Success(ToSigned16(b1 + 0x100 * b0));
      } else {
        return Success(ToSigned16(b0 + 0x100 * b1));
      }
    }

    /** `readInt`: four bytes in the selected byte order, as a signed `Int`. */
    method ReadInt() returns (r: Result<int32, DexError>)
      requires Valid()
      modifies this`pos, bufHelper
      ensures old(pos) + 4 <= |file| ==> pos == old(pos) + 4
      ensures old(pos) + 4 > |file| ==> pos == Advance(file, old(pos), 4)
      ensures r == if old(pos) + 4 <= |file| then Success(Int32At(file, old(pos), isBigEndian)) else Failure(EndOfFile)
    {
      var _ :- ReadFully(bufHelper, 4);
      var b0, b1, b2, b3 := bufHelper[0] as int, bufHelper[1] as int, bufHelper[2] as int, bufHelper[3] as int;
      if isBigEndian {
        return Success(ToSigned32(b3 + 0x100 * b2 + 0x1_0000 * b1 + 0x100_0000 * b0));
      } else {
        return Success(ToSigned32(b0 + 0x100 * b1 + 0x1_0000 * b2 + 0x100_0000 * b3));
      }
    }

    /** `readUnsignedLeb128`: bytes up to and including the first one below 0x80,
        each shifted in as the new least significant group. */
    method ReadUnsignedLeb128() returns (r: Result<int32, DexError>)
      requires Valid()
      modifies this`pos, bufHelper
      ensures match Leb128At(file, old(pos))
        case Success((v, e)) => r == Success(v) && pos == e
        case Failure(err) => r == Failure(err)
    {
      ghost var p0 := pos;
      LebTailFromStart(file, p0);
      var result: int32 := 0;
      var b :- ReadByte();
      result := LebStep(result, b);
      while b >= 0x80
        invariant Valid() && pos <= |file|
        invariant Leb128At(file, p0) == if b < 0x80 then Success((result, pos)) else LebTail(file, pos, result)
        decreases |file| - pos
      {
        var next := ReadByte();
        if next.Failure? {
          return Failure(next.error);
        }
        b := next.value;
        result := LebStep(result, b);
      }
      return Success(result);
    }

    /** `readString`: the LEB128 utf16 length n, then at most 3n bytes into a
        buffer of that size, stopping after the first zero byte; the bytes before
        the final loop index are returned undecoded. */
    method ReadString() returns (r: Result<seq<byte>, DexError>)
      requires Valid()
      modifies this`pos, bufHelper
      ensures match StringAt(file, old(pos))
        case Success((s, e)) => r == Success(s) && pos == e
        case Failure(err) => r == Failure(err)
    {
      ghost var p0 := pos;
      var utf16Len :- ReadUnsignedLeb128();
      assert Leb128At(file, p0) == Success((utf16Len, pos));
      var size := Wrap32(utf16Len as int * 3);
      assert size == StringBufferSize(utf16Len);
      if size < 0 {
        return Failure(NegativeArraySize);
      }
      assert StringAt(file, p0) == StringBody(file, pos, size);
      r := ReadPayload(size);
    }

    /** The byte loop of `readString` over a fresh buffer of `size` bytes. */
    method ReadPayload(size: nat) returns (r: Result<seq<byte>, DexError>)
      requires Valid() && pos <= |file|
      modifies this`pos, bufHelper
      ensures match StringBody(file, old(pos), size)
        case Success((s, e)) => r == Success(s) && pos == e
        case Failure(err) => r == Failure(err)
    {
      ghost var q := pos;
      var bytes := new byte[size];
      var idx := 0;
      var i := 0;
      while i < size
        invariant Valid() && fresh(bytes)
        invariant 0 <= i <= size && pos == q + i && q + i <= |file|
        invariant PayloadScan(file, q, size, i) == PayloadScan(file, q, size, 0)
        invariant bytes[..i] == file[q..q + i]
        invariant idx == if i == 0 then 0 else i - 1
      {
        idx := i;
        var next := ReadByte();
        if next.Failure? {
          assert PayloadScan(file, q, size, i) == Failure(EndOfFile);
          return Failure(next.error);
        }
        var b := next.value;
        if b == 0 {
          assert PayloadScan(file, q, size, i) == Success((i, q + i + 1));
          return Success(bytes[..idx]);
        }
        bytes[idx] := b;
        i := i + 1;
        assert bytes[..i] == bytes[..i - 1] + [b];
      }
      assert PayloadScan(file, q, size, i) == Success((idx, q + size));
      assert bytes[..idx] == file[q..q + idx];
      return Success(bytes[..idx]);
    }

    /** `parse`: the header, the five tables in order, then the two stubs. */
    method Parse() returns (r: Result<(), DexError>)
      requires Valid()
      modifies this`pos, this`isBigEndian, this`header, this`strings, this`typeIds, this`protoIds, this`fieldIds, this`methodIds, bufHelper
      ensures match DexParse(file, old(isBigEndian))
        case Success(t) =>
          && r == Success(()) && header == Some(t.header) && isBigEndian == t.bigEndian
          && strings == t.strings && typeIds == t.typeIds && protoIds == t.protoIds
          && fieldIds == t.fieldIds && methodIds == t.methodIds
        case Failure(e) => r == Failure(e)
    {
      ghost var file0, big0 := file, isBigEndian;
      var _ :- ParseHeaderItem();
      ghost var h, big := header.value, isBigEndian;
      assert HeaderParse(file, big0) == Success((h, big));
      r := ParseTables();
      if r.Failure? {
        return;
      }
      ParseClassDefs();
      MarkInternalClasses();
      return Success(());
    }

    /** The five table loaders of `parse`, in order, after the header. */
    method ParseTables() returns (r: Result<(), DexError>)
      requires Valid() && header.Some?
      modifies this`pos, this`strings, this`typeIds, this`protoIds, this`fieldIds, this`methodIds, bufHelper
      ensures match TablesParse(file, header.value, isBigEndian)
        case Success(t) =>
          && r == Success(()) && strings == t.strings && typeIds == t.typeIds && protoIds == t.protoIds
          && fieldIds == t.fieldIds && methodIds == t.methodIds
        case Failure(e) => r == Failure(e)
    {
      ghost var h, big := header.value, isBigEndian;
      r := ParseStrings();
      if r.Failure? {
        assert TablesParse(file, h, big) == Failure(r.error);
        return;
      }
      r := ParseTypeIds();
      if r.Failure? {
        assert TablesParse(file, h, big) == Failure(r.error);
        return;
      }
      r := ParseProtoIds();
      if r.Failure? {
        assert TablesParse(file, h, big) == Failure(r.error);
        return;
      }
      r := ParseFieldIds();
      if r.Failure? {
        assert TablesParse(file, h, big) == Failure(r.error);
        return;
      }
      r := ParseMethodIds();
      if r.Failure? {
        assert TablesParse(file, h, big) == Failure(r.error);
        return;
      }
      assert TablesParse(file, h, big) == Success(DexTables(h, big, strings, typeIds, protoIds, fieldIds, methodIds));
    }

    /** `parseClassDefs` is an empty stub in the source: nothing is read. */
    method ParseClassDefs()
    {
    }

    /** `markInternalClasses` is an empty stub in the source: no flag changes. */
    method MarkInternalClasses()
    {
    }

    /** `getMethodRefs` is a stub in the source: an empty array, whatever was
        loaded; the parser's state is untouched. */
    method GetMethodRefs() returns (refs: array<MethodRef>)
      ensures fresh(refs) && refs.Length == 0
    {
      refs := new MethodRef[0];
    }

    /** `getFieldRefs` is a stub in the same way. */
    method GetFieldRefs() returns (refs: array<FieldRef>)
      ensures fresh(refs) && refs.Length == 0
    {
      refs := new FieldRef[0];
    }

    /* -----------------------------------------------------------------
     * Header
     * ----------------------------------------------------------------- */

    /** `parseHeaderItem`: the magic, then the endian tag read in the current
        byte order, which selects the byte order, then the twenty fields. */
    method ParseHeaderItem() returns (r: Result<(), DexError>)
      requires Valid()
      modifies this`pos, this`isBigEndian, this`header, bufHelper
      ensures header.Some?
      ensures match HeaderParse(file, old(isBigEndian))
        case Success((h, big)) => r == Success(()) && header == Some(h) && isBigEndian == big
        case Failure(err) => r == Failure(err)
    {
      header := Some(EMPTY_HEADER);
      var _ := Seek(0);
      var magic := new byte[8];
      var _ :- ReadBytes(magic);
      assert magic[..] == file[..8];
      if !VerifyMagic(magic[..]) {
        return Failure(WrongMagic);
      }
      var _ := Seek(ENDIAN_TAG_OFFSET as int32);
      var tag :- ReadInt();
      header := Some(header.value.(endianTag := tag));
      if tag == ENDIAN_CONSTANT {
        isBigEndian := false;
      } else if tag == REVERSE_ENDIAN_CONSTANT {
        isBigEndian := true;
      } else {
        return Failure(UnexpectedEndianTag(tag));
      }
      var _ := Seek(HEADER_FIELDS_OFFSET as int32);
      r := ReadHeaderFields();
    }

    /** The twenty u32 fields of `parseHeaderItem`, read in order from the cursor
        into the header, in four runs of five. */
    method ReadHeaderFields() returns (r: Result<(), DexError>)
      requires Valid() && header.Some? && pos == HEADER_FIELDS_OFFSET
      modifies this`pos, this`header, bufHelper
      ensures header.Some?
      ensures |file| >= HEADER_END ==> r == Success(()) && header == Some(HeaderAt(file, isBigEndian))
      ensures |file| < HEADER_END ==> r == Failure(EndOfFile)
    {
      var _ :- ReadSizeAndLinkFields();
      var _ :- ReadMapAndStringTypeFields();
      var _ :- ReadProtoFieldMethodFields();
      var _ :- ReadClassDefAndDataFields();
      return Success(());
    }

    /** The header fields file_size, header_size, endian_tag, link_size, link_off. */
    method ReadSizeAndLinkFields() returns (r: Result<(), DexError>)
      requires Valid() && header.Some? && pos == HEADER_FIELDS_OFFSET + 0
      modifies this`pos, this`header, bufHelper
      ensures header.Some?
      ensures 52 <= |file| ==>
        r == Success(()) && pos == 52 && header == Some(old(header).value.(fileSize := HeaderField(file, 0, isBigEndian), headerSize := HeaderField(file, 1, isBigEndian), endianTag := HeaderField(file, 2, isBigEndian), linkSize := HeaderField(file, 3, isBigEndian), linkOff := HeaderField(file, 4, isBigEndian)))
      ensures 52 > |file| ==> r == Failure(EndOfFile)
    {
      var v: int32;
      v :- ReadInt(); header := Some(header.value.(fileSize := v));
      v :- ReadInt(); header := Some(header.value.(headerSize := v));
      v :- ReadInt(); header := Some(header.value.(endianTag := v));
      v :- ReadInt(); header := Some(header.value.(linkSize := v));
      v :- ReadInt(); header := Some(header.value.(linkOff := v));
      return Success(());
    }

    /** The header fields map_off, string_ids_size/off, type_ids_size/off. */
    method ReadMapAndStringTypeFields() returns (r: Result<(), DexError>)
      requires Valid() && header.Some? && pos == HEADER_FIELDS_OFFSET + 20
      modifies this`pos, this`header, bufHelper
      ensures header.Some?
      ensures 72 <= |file| ==>
        r == Success(()) && pos == 72 && header == Some(old(header).value.(mapOff := HeaderField(file, 5, isBigEndian), stringIdsSize := HeaderField(file, 6, isBigEndian), stringIdsOff := HeaderField(file, 7, isBigEndian), typeIdsSize := HeaderField(file, 8, isBigEndian), typeIdsOff := HeaderField(file, 9, isBigEndian)))
      ensures 72 > |file| ==> r == Failure(EndOfFile)
    {
      var v: int32;
      v :- ReadInt(); header := Some(header.value.(mapOff := v));
      v :- ReadInt(); header := Some(header.value.(stringIdsSize := v));
      v :- ReadInt(); header := Some(header.value.(stringIdsOff := v));
      v :- ReadInt(); header := Some(header.value.(typeIdsSize := v));
      v :- ReadInt(); header := Some(header.value.(typeIdsOff := v));
      return Success(());
    }

    /** The header fields proto_ids_size/off, field_ids_size/off, method_ids_size. */
    method ReadProtoFieldMethodFields() returns (r: Result<(), DexError>)
      requires Valid() && header.Some? && pos == HEADER_FIELDS_OFFSET + 40
      modifies this`pos, this`header, bufHelper
      ensures header.Some?
      ensures 92 <= |file| ==>
        r == Success(()) && pos == 92 && header == Some(old(header).value.(protoIdsSize := HeaderField(file, 10, isBigEndian), protoIdsOff := HeaderField(file, 11, isBigEndian), fieldIdsSize := HeaderField(file, 12, isBigEndian), fieldIdsOff := HeaderField(file, 13, isBigEndian), methodIdsSize := HeaderField(file, 14, isBigEndian)))
      ensures 92 > |file| ==> r == Failure(EndOfFile)
    {
      var v: int32;
      v :- ReadInt(); header := Some(header.value.(protoIdsSize := v));
      v :- ReadInt(); header := Some(header.value.(protoIdsOff := v));
      v :- ReadInt(); header := Some(header.value.(fieldIdsSize := v));
      v :- ReadInt(); header := Some(header.value.(fieldIdsOff := v));
      v :- ReadInt(); header := Some(header.value.(methodIdsSize := v));
      return Success(());
    }

    /** The header fields method_ids_off, class_defs_size/off, data_size, data_off. */
    method ReadClassDefAndDataFields() returns (r: Result<(), DexError>)
      requires Valid() && header.Some? && pos == HEADER_FIELDS_OFFSET + 60
      modifies this`pos, this`header, bufHelper
      ensures header.Some?
      ensures 112 <= |file| ==>
        r == Success(()) && pos == 112 && header == Some(old(header).value.(methodIdsOff := HeaderField(file, 15, isBigEndian), classDefsSize := HeaderField(file, 16, isBigEndian), classDefsOff := HeaderField(file, 17, isBigEndian), dataSize := HeaderField(file, 18, isBigEndian), dataOff := HeaderField(file, 19, isBigEndian)))
      ensures 112 > |file| ==> r == Failure(EndOfFile)
    {
      var v: int32;
      v :- ReadInt(); header := Some(header.value.(methodIdsOff := v));
      v :- ReadInt(); header := Some(header.value.(classDefsSize := v));
      v :- ReadInt(); header := Some(header.value.(classDefsOff := v));
      v :- ReadInt(); header := Some(header.value.(dataSize := v));
      v :- ReadInt(); header := Some(header.value.(dataOff := v));
      return Success(());
    }

    /* -----------------------------------------------------------------
     * Tables
     * ----------------------------------------------------------------- */

    /** `parseStrings`: `IntArray(count)`, the string_id_item offsets from
        string_ids_off, `seek(strIdxOffsets[0])`, then one string per offset. */
    method ParseStrings() returns (r: Result<(), DexError>)
      requires Valid()
      modifies this`pos, this`strings, bufHelper
      ensures header.None? ==> r == Failure(NotInitialized) && strings == old(strings)
      ensures header.Some? ==>
        match StringTable(file, header.value.stringIdsOff, header.value.stringIdsSize, isBigEndian)
          case Success(t) => r == Success(()) && strings == t
          case Failure(e) => r == Failure(e) && strings == old(strings)
    {
      if header.None? {
        return Failure(NotInitialized);
      }
      var off, count := header.value.stringIdsOff, header.value.stringIdsSize;
      if count < 0 {
        return Failure(NegativeArraySize);
      }
      var strIdxOffsets := new int32[count];
      var _ :- Seek(off);
      var _ :- ReadStringOffsets(strIdxOffsets);
      if count == 0 {
        return Failure(IndexOutOfBounds);
      }
      var _ :- Seek(strIdxOffsets[0]);
      strings :- ReadStringData(strIdxOffsets);
      return Success(());
    }

    /** The `for (i in 0 until count) strIdxOffsets[i] = readInt()` of `parseStrings`. */
    method ReadStringOffsets(offsets: array<int32>) returns (r: Result<(), DexError>)
      requires Valid()
      modifies this`pos, bufHelper, offsets
      ensures match Int32sFrom(file, old(pos), offsets.Length, isBigEndian)
        case Success(o) => r == Success(()) && offsets[..] == o
        case Failure(e) => r == Failure(e)
    {
      ghost var p := pos;
      var i := 0;
      while i < offsets.Length
        invariant Valid() && 0 <= i <= offsets.Length && pos == p + 4 * i
        invariant i > 0 ==> p + 4 * i <= |file|
        invariant forall j | 0 <= j < i :: p + 4 * j + 4 <= |file| && offsets[j] == Int32At(file, p + 4 * j, isBigEndian)
      {
        var o := ReadInt();
        if o.Failure? {
          assert p + 4 * offsets.Length > |file|;
          return Failure(o.error);
        }
        offsets[i] := o.value;
        i := i + 1;
      }
      assert offsets[..] == Int32sFrom(file, p, offsets.Length, isBigEndian).value;
      return Success(());
    }

    /** The `Array(count) { i -> seek(strIdxOffsets[i]); readString() }` of
        `parseStrings`. */
    method ReadStringData(offsets: array<int32>) returns (r: Result<seq<seq<byte>>, DexError>)
      requires Valid()
      modifies this`pos, bufHelper
      ensures r == StringData(file, offsets[..])
    {
      var acc: seq<seq<byte>> := [];
      var i := 0;
      while i < offsets.Length
        invariant Valid() && 0 <= i <= offsets.Length
        invariant StringData(file, offsets[..i]) == Success(acc)
      {
        assert offsets[..i + 1][..i] == offsets[..i];
        var sought := Seek(offsets[i]);
        if sought.Failure? {
          StringDataPrefixFailure(file, offsets[..], i + 1);
          return Failure(sought.error);
        }
        var s := ReadString();
        if s.Failure? {
          StringDataPrefixFailure(file, offsets[..], i + 1);
          return Failure(s.error);
        }
        acc := acc + [s.value];
        i := i + 1;
      }
      assert offsets[..i] == offsets[..];
      return Success(acc);
    }

    /** `parseTypeIds`: seek to type_ids_off, then one u32 descriptor index per
        entry, each entry marked internal. */
    method ParseTypeIds() returns (r: Result<(), DexError>)
      requires Valid()
      modifies this`pos, this`typeIds, bufHelper
      ensures header.None? ==> r == Failure(NotInitialized) && typeIds == old(typeIds)
      ensures header.Some? ==>
        match TypeIdTable(file, header.value.typeIdsOff, header.value.typeIdsSize, isBigEndian)
          case Success(t) => r == Success(()) && typeIds == t
          case Failure(e) => r == Failure(e) && typeIds == old(typeIds)
    {
      if header.None? {
        return Failure(NotInitialized);
      }
      var off, count := header.value.typeIdsOff, header.value.typeIdsSize;
      var _ :- Seek(off);
      if count < 0 {
        return Failure(NegativeArraySize);
      }
      typeIds :- ReadTypeIdItems(count);
      return Success(());
    }

    /** The `Array(count) { TypeIdItem(readInt(), true) }` of `parseTypeIds`. */
    method ReadTypeIdItems(count: nat) returns (r: Result<seq<TypeIdItem>, DexError>)
      requires Valid()
      modifies this`pos, bufHelper
      ensures r == TypeIdsFrom(file, old(pos), count, isBigEndian)
    {
      ghost var p := pos;
      var items: seq<TypeIdItem> := [];
      var i := 0;
      assert TypeIdsFrom(file, p, 0, isBigEndian).Success? && |TypeIdsFrom(file, p, 0, isBigEndian).value| == 0;
      while i < count
        invariant Valid() && 0 <= i <= count && pos == p + 4 * i
        invariant TypeIdsFrom(file, p, i, isBigEndian) == Success(items)
      {
        var descriptorIdx := ReadInt();
        if descriptorIdx.Failure? {
          assert p + 4 * count > |file|;
          return Failure(descriptorIdx.error);
        }
        TypeIdsSnoc(file, p, i, isBigEndian, items);
        items := items + [TypeIdItem(descriptorIdx.value, true)];
        i := i + 1;
      }
      return Success(items);
    }

    /** `parseProtoIds`: the primary records from proto_ids_off, stored, then a
        second pass that gives each stored proto the type list at its
        parameters offset. */
    method ParseProtoIds() returns (r: Result<(), DexError>)
      requires Valid()
      modifies this`pos, this`protoIds, bufHelper
      ensures header.None? ==> r == Failure(NotInitialized) && protoIds == old(protoIds)
      ensures header.Some? ==>
        match ProtoIdTable(file, header.value.protoIdsOff, header.value.protoIdsSize, isBigEndian)
          case Success(t) => r == Success(()) && protoIds == t
          case Failure(e) => r == Failure(e)
      ensures header.Some? && ProtoHeaderTable(file, header.value.protoIdsOff, header.value.protoIdsSize, isBigEndian).Failure? ==>
        protoIds == old(protoIds)
    {
      if header.None? {
        return Failure(NotInitialized);
      }
      var off, count := header.value.protoIdsOff, header.value.protoIdsSize;
      var _ :- Seek(off);
      if count < 0 {
        return Failure(NegativeArraySize);
      }
      protoIds :- ReadProtoHeaders(count);
      r := ReadTypeLists();
    }

    /** The `Array(count) { ProtoIdItem(readInt(), readInt(), readInt(), intArrayOf()) }`
        of `parseProtoIds`. */
    method ReadProtoHeaders(count: nat) returns (r: Result<seq<ProtoIdItem>, DexError>)
      requires Valid()
      modifies this`pos, bufHelper
      ensures r == ProtoHeadersFrom(file, old(pos), count, isBigEndian)
    {
      ghost var p := pos;
      var items: seq<ProtoIdItem> := [];
      var i := 0;
      assert ProtoHeadersFrom(file, p, 0, isBigEndian).Success? && |ProtoHeadersFrom(file, p, 0, isBigEndian).value| == 0;
      while i < count
        invariant Valid() && 0 <= i <= count && pos == p + 12 * i
        invariant ProtoHeadersFrom(file, p, i, isBigEndian) == Success(items)
      {
        var item := ReadProtoHeader();
        if item.Failure? {
          assert p + 12 * count > |file|;
          return Failure(item.error);
        }
        ProtoHeadersSnoc(file, p, i, isBigEndian, items);
        items := items + [item.value];
        i := i + 1;
      }
      return Success(items);
    }

    /** One primary proto record: shorty_idx, return_type_idx, parameters_off,
        with an empty type list. */
    method ReadProtoHeader() returns (r: Result<ProtoIdItem, DexError>)
      requires Valid()
      modifies this`pos, bufHelper
      ensures old(pos) + 12 <= |file| ==> r == Success(ProtoHeaderAt(file, old(pos), isBigEndian)) && pos == old(pos) + 12
      ensures old(pos) + 12 > |file| ==> r == Failure(EndOfFile)
    {
      var shortyIdx :- ReadInt();
      var returnTypeIdx :- ReadInt();
      var parametersOff :- ReadInt();
      return Success(ProtoIdItem(shortyIdx, returnTypeIdx, parametersOff, []));
    }

    /** The second pass of `parseProtoIds`: `protoId.types` is set on each stored
        proto in turn; a failure leaves the earlier ones updated. */
    method ReadTypeLists() returns (r: Result<(), DexError>)
      requires Valid()
      modifies this`pos, this`protoIds, bufHelper
      ensures match WithTypeLists(file, old(protoIds), isBigEndian)
        case Success(t) => r == Success(()) && protoIds == t
        case Failure(e) => r == Failure(e)
    {
      ghost var items := protoIds;
      var k := 0;
      while k < |protoIds|
        invariant Valid() && 0 <= k <= |items| == |protoIds|
        invariant WithTypeLists(file, items[..k], isBigEndian) == Success(protoIds[..k])
        invariant protoIds[k..] == items[k..]
      {
        assert protoIds[k] == items[k];
        var types := ReadTypeList(protoIds[k].parametersOff);
        if types.Failure? {
          WithTypeListsStep(file, items, k, protoIds[..k], isBigEndian);
          WithTypeListsPrefixFailure(file, items, isBigEndian, k + 1);
          return Failure(types.error);
        }
        WithTypeListsStep(file, items, k, protoIds[..k], isBigEndian);
        UpdateSplits(protoIds, k, protoIds[k].(types := types.value));
        protoIds := protoIds[k := protoIds[k].(types := types.value)];
        k := k + 1;
      }
      assert items[..k] == items && protoIds[..k] == protoIds;
      return Success(());
    }

    /** One type list of the second pass: none at offset 0; otherwise seek, a u32
        size, then `IntArray(size) { readShort().toInt() and 0xffff }`. */
    method ReadTypeList(offset: int32) returns (r: Result<seq<int>, DexError>)
      requires Valid()
      modifies this`pos, bufHelper
      ensures r == TypeListAt(file, offset, isBigEndian)
    {
      if offset == 0 {
        return Success([]);
      }
      var _ :- Seek(offset);
      var size :- ReadInt();
      if size < 0 {
        return Failure(NegativeArraySize);
      }
      ghost var p := offset + 4;
      var types: seq<int> := [];
      var j := 0;
      assert U16sFrom(file, p, 0, isBigEndian).Success? && |U16sFrom(file, p, 0, isBigEndian).value| == 0;
      while j < size
        invariant Valid() && 0 <= j <= size && pos == p + 2 * j
        invariant U16sFrom(file, p, j, isBigEndian) == Success(types)
      {
        var t := ReadShort();
        if t.Failure? {
          assert p + 2 * size > |file|;
          return Failure(t.error);
        }
        U16sSnoc(file, p, j, isBigEndian, types);
        types := types + [ZeroExtend16(t.value)];
        j := j + 1;
      }
      return Success(types);
    }

    /** `parseFieldIds`: seek to field_ids_off, then per entry two u16 indices, masked with
        0xffff, and a u32 name index. */
    method ParseFieldIds() returns (r: Result<(), DexError>)
      requires Valid()
      modifies this`pos, this`fieldIds, bufHelper
      ensures header.None? ==> r == Failure(NotInitialized) && fieldIds == old(fieldIds)
      ensures header.Some? ==>
        match FieldIdTable(file, header.value.fieldIdsOff, header.value.fieldIdsSize, isBigEndian)
          case Success(t) => r == Success(()) && fieldIds == t
          case Failure(e) => r == Failure(e) && fieldIds == old(fieldIds)
    {
      if header.None? {
        return Failure(NotInitialized);
      }
      var off, count := header.value.fieldIdsOff, header.value.fieldIdsSize;
      var _ :- Seek(off);
      if count < 0 {
        return Failure(NegativeArraySize);
      }
      fieldIds :- ReadFieldIdItems(count);
      return Success(());
    }

    /** The `Array(count) { FieldIdItem(...) }` of `parseFieldIds`. */
    method ReadFieldIdItems(count: nat) returns (r: Result<seq<FieldIdItem>, DexError>)
      requires Valid()
      modifies this`pos, bufHelper
      ensures r == FieldIdsFrom(file, old(pos), count, isBigEndian)
    {
      ghost var p := pos;
      var items: seq<FieldIdItem> := [];
      var i := 0;
      assert FieldIdsFrom(file, p, 0, isBigEndian).Success? && |FieldIdsFrom(file, p, 0, isBigEndian).value| == 0;
      while i < count
        invariant Valid() && 0 <= i <= count && pos == p + 8 * i
        invariant FieldIdsFrom(file, p, i, isBigEndian) == Success(items)
      {
        var item := ReadFieldIdItem();
        if item.Failure? {
          assert p + 8 * count > |file|;
          return Failure(item.error);
        }
        FieldIdsSnoc(file, p, i, isBigEndian, items);
        items := items + [item.value];
        i := i + 1;
      }
      return Success(items);
    }

    /** One field_id_item: the lambda of `Array(count) { ... }` in `parseFieldIds`. */
    method ReadFieldIdItem() returns (r: Result<FieldIdItem, DexError>)
      requires Valid()
      modifies this`pos, bufHelper
      ensures old(pos) + 8 <= |file| ==> r == Success(FieldIdAt(file, old(pos), isBigEndian)) && pos == old(pos) + 8
      ensures old(pos) + 8 > |file| ==> r == Failure(EndOfFile)
    {
      var classIdx :- ReadShort();
      var typeIdx :- ReadShort();
      var nameIdx :- ReadInt();
      return Success(FieldIdItem(ZeroExtend16(classIdx), ZeroExtend16(typeIdx), nameIdx));
    }

    /** `parseMethodIds`: seek to method_ids_off, then per entry two u16 indices, masked with
        0xffff, and a u32 name index. */
    method ParseMethodIds() returns (r: Result<(), DexError>)
      requires Valid()
      modifies this`pos, this`methodIds, bufHelper
      ensures header.None? ==> r == Failure(NotInitialized) && methodIds == old(methodIds)
      ensures header.Some? ==>
        match MethodIdTable(file, header.value.methodIdsOff, header.value.methodIdsSize, isBigEndian)
          case Success(t) => r == Success(()) && methodIds == t
          case Failure(e) => r == Failure(e) && methodIds == old(methodIds)
    {
      if header.None? {
        return Failure(NotInitialized);
      }
      var off, count := header.value.methodIdsOff, header.value.methodIdsSize;
      var _ :- Seek(off);
      if count < 0 {
        return Failure(NegativeArraySize);
      }
      methodIds :- ReadMethodIdItems(count);
      return Success(());
    }

    /** The `Array(count) { MethodIdItem(...) }` of `parseMethodIds`. */
    method ReadMethodIdItems(count: nat) returns (r: Result<seq<MethodIdItem>, DexError>)
      requires Valid()
      modifies this`pos, bufHelper
      ensures r == MethodIdsFrom(file, old(pos), count, isBigEndian)
    {
      ghost var p := pos;
      var items: seq<MethodIdItem> := [];
      var i := 0;
      assert MethodIdsFrom(file, p, 0, isBigEndian).Success? && |MethodIdsFrom(file, p, 0, isBigEndian).value| == 0;
      while i < count
        invariant Valid() && 0 <= i <= count && pos == p + 8 * i
        invariant MethodIdsFrom(file, p, i, isBigEndian) == Success(items)
      {
        var item := ReadMethodIdItem();
        if item.Failure? {
          assert p + 8 * count > |file|;
          return Failure(item.error);
        }
        MethodIdsSnoc(file, p, i, isBigEndian, items);
        items := items + [item.value];
        i := i + 1;
      }
      return Success(items);
    }

    /** One method_id_item: the lambda of `Array(count) { ... }` in `parseMethodIds`. */
    method ReadMethodIdItem() returns (r: Result<MethodIdItem, DexError>)
      requires Valid()
      modifies this`pos, bufHelper
      ensures old(pos) + 8 <= |file| ==> r == Success(MethodIdAt(file, old(pos), isBigEndian)) && pos == old(pos) + 8
      ensures old(pos) + 8 > |file| ==> r == Failure(EndOfFile)
    {
      var classIdx :- ReadShort();
      var protoIdx :- ReadShort();
      var nameIdx :- ReadInt();
      return Success(MethodIdItem(ZeroExtend16(classIdx), ZeroExtend16(protoIdx), nameIdx));
    }
  }

  /** Reading one more byte shifts the value so far by seven bits and adds the
      byte's low seven bits. */
  lemma LebValueSnoc(file: seq<byte>, p: nat, q: nat)
    requires p <= q < |file|
    ensures LebValue(file[p..q + 1]) == LebStep(LebValue(file[p..q]), file[q])
  {
    assert file[p..q + 1][..q - p] == file[p..q];
  }

  /** What `readUnsignedLeb128` still reads from q on, with the bytes before q
      already combined into acc. */
  function LebTail(file: seq<byte>, q: nat, acc: int32): Result<(int32, nat), DexError>
    decreases |file| - q
  {
    if q >= |file| then Failure(EndOfFile)
    else if file[q] < 0x80 then Success((LebStep(acc, file[q]), q + 1))
    else LebTail(file, q + 1, LebStep(acc, file[q]))
  }

  /** After a run of bytes with the high bit set, the rest of the read is the tail
      from the end of the run, starting from the value of the run. */
  lemma {:induction false} LebTailAfterRun(file: seq<byte>, p: nat, q: nat)
    requires p <= q <= |file|
    requires forall i | p <= i < q :: file[i] >= 0x80
    ensures Leb128At(file, p) == LebTail(file, q, LebValue(file[p..q]))
    decreases |file| - q
  {
    LebEndAfterRun(file, p, q);
    if q < |file| {
      LebValueSnoc(file, p, q);
      if file[q] >= 0x80 {
        LebTailAfterRun(file, p, q + 1);
      }
    }
  }

  /** A run of bytes with the high bit set does not end the value. */
  lemma {:induction false} LebEndAfterRun(file: seq<byte>, p: nat, q: nat)
    requires p <= q <= |file|
    requires forall i | p <= i < q :: file[i] >= 0x80
    ensures LebEnd(file, p) == LebEnd(file, q)
    decreases q - p
  {
    if p < q {
      LebEndAfterRun(file, p + 1, q);
    }
  }

  /** The whole read is the tail from the start with nothing combined yet. */
  lemma LebTailFromStart(file: seq<byte>, p: nat)
    ensures Leb128At(file, p) == LebTail(file, p, 0)
  {
    if p <= |file| {
      LebTailAfterRun(file, p, p);
      assert file[p..p] == [];
    }
  }

  /** Replacing element k splits the sequence into the old prefix, the new
      element and the old suffix. */
  lemma UpdateSplits<T>(s: seq<T>, k: nat, x: T)
    requires k < |s|
    ensures s[k := x][..k + 1] == s[..k] + [x]
    ensures s[k := x][k + 1..] == s[k + 1..]
  {
  }

  /** One step of the second proto pass: the next item's type list after those
      of the earlier items. */
  lemma WithTypeListsStep(file: seq<byte>, items: seq<ProtoIdItem>, k: nat, done: seq<ProtoIdItem>, big: bool)
    requires k < |items| && WithTypeLists(file, items[..k], big) == Success(done)
    ensures var next := TypeListAt(file, items[k].parametersOff, big);
      && (next.Failure? ==> WithTypeLists(file, items[..k + 1], big) == Failure(next.error))
      && (next.Success? ==> WithTypeLists(file, items[..k + 1], big) == Success(done + [items[k].(types := next.value)]))
  {
    assert items[..k + 1][..k] == items[..k];
  }

  /** One more primary proto record that the file holds extends the table by it. */
  lemma ProtoHeadersSnoc(file: seq<byte>, p: nat, i: nat, big: bool, items: seq<ProtoIdItem>)
    requires p + 12 * i + 12 <= |file| && ProtoHeadersFrom(file, p, i, big) == Success(items)
    ensures ProtoHeadersFrom(file, p, i + 1, big) == Success(items + [ProtoHeaderAt(file, p + 12 * i, big)])
  {
    var more := items + [ProtoHeaderAt(file, p + 12 * i, big)];
    var longer := ProtoHeadersFrom(file, p, i + 1, big).value;
    forall j | 0 <= j < i + 1 ensures longer[j] == more[j] {
      if j < i {
        assert items[j] == ProtoHeaderAt(file, p + 12 * j, big);
      }
    }
    assert longer == more;
  }

  /** One more u16 value that the file holds extends the list by it. */
  lemma U16sSnoc(file: seq<byte>, p: nat, i: nat, big: bool, items: seq<int>)
    requires p + 2 * i + 2 <= |file| && U16sFrom(file, p, i, big) == Success(items)
    ensures U16sFrom(file, p, i + 1, big) == Success(items + [U16At(file, p + 2 * i, big)])
  {
    var more := items + [U16At(file, p + 2 * i, big)];
    var longer := U16sFrom(file, p, i + 1, big).value;
    forall j | 0 <= j < i + 1 ensures longer[j] == more[j] {
      if j < i {
        assert items[j] == U16At(file, p + 2 * j, big);
      }
    }
    assert longer == more;
  }

  /** One more record that the file holds extends the table by it. */
  lemma FieldIdsSnoc(file: seq<byte>, p: nat, i: nat, big: bool, items: seq<FieldIdItem>)
    requires p + 8 * i + 8 <= |file| && FieldIdsFrom(file, p, i, big) == Success(items)
    ensures FieldIdsFrom(file, p, i + 1, big) == Success(items + [FieldIdAt(file, p + 8 * i, big)])
  {
    var more := items + [FieldIdAt(file, p + 8 * i, big)];
    var longer := FieldIdsFrom(file, p, i + 1, big).value;
    forall j | 0 <= j < i + 1 ensures longer[j] == more[j] {
      if j < i {
        assert items[j] == FieldIdAt(file, p + 8 * j, big);
      }
    }
    assert longer == more;
  }

  /** One more record that the file holds extends the table by it. */
  lemma MethodIdsSnoc(file: seq<byte>, p: nat, i: nat, big: bool, items: seq<MethodIdItem>)
    requires p + 8 * i + 8 <= |file| && MethodIdsFrom(file, p, i, big) == Success(items)
    ensures MethodIdsFrom(file, p, i + 1, big) == Success(items + [MethodIdAt(file, p + 8 * i, big)])
  {
    var more := items + [MethodIdAt(file, p + 8 * i, big)];
    var longer := MethodIdsFrom(file, p, i + 1, big).value;
    forall j | 0 <= j < i + 1 ensures longer[j] == more[j] {
      if j < i {
        assert items[j] == MethodIdAt(file, p + 8 * j, big);
      }
    }
    assert longer == more;
  }

  /** One more descriptor index that the file holds extends the type table by it. */
  lemma TypeIdsSnoc(file: seq<byte>, p: nat, i: nat, big: bool, items: seq<TypeIdItem>)
    requires p + 4 * i + 4 <= |file| && TypeIdsFrom(file, p, i, big) == Success(items)
    ensures TypeIdsFrom(file, p, i + 1, big) == Success(items + [TypeIdItem(Int32At(file, p + 4 * i, big), true)])
  {
    var more := items + [TypeIdItem(Int32At(file, p + 4 * i, big), true)];
    var longer := TypeIdsFrom(file, p, i + 1, big).value;
    forall j | 0 <= j < i + 1 ensures longer[j] == more[j] {
      if j < i {
        assert items[j] == TypeIdItem(Int32At(file, p + 4 * j, big), true);
      }
    }
    assert longer == more;
  }
}
