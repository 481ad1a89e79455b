/**
 * The byte layouts of the Dalvik Executable (DEX) format that the parser
 * decodes, stated as functions of the file's bytes: the fixed-width integer
 * reads, the variable-length LEB128 read, the string_data_item read, the
 * header_item and the id tables.  The parser class in module DexParsing is
 * proved to compute exactly these values.  Every read of a region that runs past
 * the end of the file fails with EndOfFile, as `RandomAccessFile.readFully` does.
 */
module DexFormat {
  import opened Wrappers
  import opened JavaLang

  /** One byte of the file, as an unsigned value.  Kotlin's `Byte` is signed:
      its `b < 0` is `b >= 0x80` here. */
  type byte = x: int | 0 <= x < 0x100

  /** The exceptions the parser can throw. */
  datatype DexError =
    | EndOfFile                        // java.io.EOFException from readFully
    | NegativeSeekOffset               // IOException from RandomAccessFile.seek
    | NegativeArraySize                // NegativeArraySizeException from IntArray(n) / Array(n)
    | IndexOutOfBounds                 // ArrayIndexOutOfBoundsException
    | WrongMagic                       // DexNotParsedException("Wrong magic number")
    | UnexpectedEndianTag(tag: int32)  // DexNotParsedException("Unexpected endian constant")
    | NotInitialized                   // UninitializedPropertyAccessException (lateinit header)

  const ENDIAN_CONSTANT: int32 := 0x1234_5678
  const REVERSE_ENDIAN_CONSTANT: int32 := 0x7856_3412

  /** Offset of endian_tag in header_item: magic (8), checksum (4), signature (20),
      file_size (4), header_size (4). */
  const ENDIAN_TAG_OFFSET: nat := 8 + 4 + 20 + 4 + 4

  /** Offset of file_size, the first of the twenty u32 header fields. */
  const HEADER_FIELDS_OFFSET: nat := 8 + 4 + 20

  /** Bytes of the header that the parser reads: up to and including data_off. */
  const HEADER_END: nat := HEADER_FIELDS_OFFSET + 20 * 4

  // "dex\n035\0", "dex\n037\0", "dex\n038\0", "dex\n039\0" in US-ASCII.
  const DEX_FILE_MAGIC_V035: seq<byte> := [0x64, 0x65, 0x78, 0x0a, 0x30, 0x33, 0x35, 0x00]
  const DEX_FILE_MAGIC_V037: seq<byte> := [0x64, 0x65, 0x78, 0x0a, 0x30, 0x33, 0x37, 0x00]
  const DEX_FILE_MAGIC_V038: seq<byte> := [0x64, 0x65, 0x78, 0x0a, 0x30, 0x33, 0x38, 0x00]
  const DEX_FILE_MAGIC_V039: seq<byte> := [0x64, 0x65, 0x78, 0x0a, 0x30, 0x33, 0x39, 0x00]

  /** `HeaderItem.verifyMagic`: content equality with one of the four accepted tags.
      Version 036 is deliberately rejected. */
  function VerifyMagic(magic: seq<byte>): (ok: bool)
    ensures ok <==> |magic| == 8 && magic[..6] == [0x64, 0x65, 0x78, 0x0a, 0x30, 0x33]
                    && magic[6] in {0x35, 0x37, 0x38, 0x39} && magic[7] == 0
  {
    magic == DEX_FILE_MAGIC_V035 || magic == DEX_FILE_MAGIC_V037
    || magic == DEX_FILE_MAGIC_V038 || magic == DEX_FILE_MAGIC_V039
  }

  /* ---------------------------------------------------------------------
   * Fixed-width reads
   * --------------------------------------------------------------------- */

  /** `readInt` at position p: four bytes combined little-endian
      (b0 | b1 << 8 | b2 << 16 | b3 << 24), or in reverse byte order when big. */
  function Int32At(file: seq<byte>, p: nat, big: bool): int32
    requires p + 4 <= |file|
  {
    if big then ToSigned32((file[p + 3] as int) + 0x100 * (file[p + 2] as int) + 0x1_0000 * (file[p + 1] as int) + 0x100_0000 * (file[p] as int))
    else ToSigned32((file[p] as int) + 0x100 * (file[p + 1] as int) + 0x1_0000 * (file[p + 2] as int) + 0x100_0000 * (file[p + 3] as int))
  }

  /** `readShort` at position p: two bytes combined in the selected byte order,
      truncated to a signed `Short`. */
  function Int16At(file: seq<byte>, p: nat, big: bool): int16
    requires p + 2 <= |file|
  {
    if big then ToSigned16((file[p + 1] as int) + 0x100 * (file[p] as int)) else ToSigned16((file[p] as int) + 0x100 * (file[p + 1] as int))
  }

  /** `readShort().toInt() and 0xffff`, the form in which every caller uses a short. */
  function U16At(file: seq<byte>, p: nat, big: bool): (r: int)
    requires p + 2 <= |file|
    ensures 0 <= r < 0x1_0000
    ensures big ==> r == (file[p + 1] as int) + 0x100 * (file[p] as int)
    ensures !big ==> r == (file[p] as int) + 0x100 * (file[p + 1] as int)
  {
    ZeroExtend16(Int16At(file, p, big))
  }

  /** Where the cursor stands after `readFully` of n bytes from p: past them, or at
      the end of the file when there are fewer (the read consumes what is left). */
  function Advance(file: seq<byte>, p: nat, n: nat): nat {
    if p + n <= |file| then p + n else if p < |file| then |file| else p
  }

  /** The four bytes of x in the given byte order: the inverse of Int32At. */
  function EncodeInt32(x: int32, big: bool): (bs: seq<byte>)
    ensures |bs| == 4
  {
    var u := x % TWO_32;
    var le: seq<byte> := [u % 0x100, (u / 0x100) % 0x100, (u / 0x1_0000) % 0x100, u / 0x100_0000];
    if big then [le[3], le[2], le[1], le[0]] else le
  }

  lemma Int32RoundTrip(x: int32, big: bool, rest: seq<byte>)
    ensures Int32At(EncodeInt32(x, big) + rest, 0, big) == x
  {
    var u := x % TWO_32;
    Undigits(u);
    SignedOfResidue(x);
    var le := [u % 0x100, (u / 0x100) % 0x100, (u / 0x1_0000) % 0x100, u / 0x100_0000];
    var file := EncodeInt32(x, big) + rest;
    if big {
      assert file[0] == le[3] && file[1] == le[2] && file[2] == le[1] && file[3] == le[0];
    } else {
      assert file[0] == le[0] && file[1] == le[1] && file[2] == le[2] && file[3] == le[3];
    }
  }

  /** A 32-bit residue is recomposed from its four base-256 digits. */
  lemma Undigits(u: int)
    requires 0 <= u < TWO_32
    ensures u == u % 0x100 + 0x100 * ((u / 0x100) % 0x100) + 0x1_0000 * ((u / 0x1_0000) % 0x100) + 0x100_0000 * (u / 0x100_0000)
    ensures u / 0x100_0000 < 0x100
  {
    var b0, q0 := u % 0x100, u / 0x100;
    var b1, q1 := q0 % 0x100, q0 / 0x100;
    var b2, b3 := q1 % 0x100, q1 / 0x100;
    assert u / 0x1_0000 == q1;
    assert u / 0x100_0000 == b3;
    assert u == b0 + 0x100 * b1 + 0x1_0000 * b2 + 0x100_0000 * b3;
  }

  /** Reading a value's residue back as signed gives the value. */
  lemma SignedOfResidue(x: int32)
    ensures 0 <= x % TWO_32 < TWO_32 && ToSigned32(x % TWO_32) == x
  {
    if x < 0 {
      assert x % TWO_32 == x + TWO_32;
    } else {
      assert x % TWO_32 == x;
    }
  }

  /** Base-256 digits are unique: the four bytes of a 32-bit value are its digits. */
  lemma Digits(d0: int, d1: int, d2: int, d3: int)
    requires 0 <= d0 < 0x100 && 0 <= d1 < 0x100 && 0 <= d2 < 0x100 && 0 <= d3 < 0x100
    ensures var u := d0 + 0x100 * d1 + 0x1_0000 * d2 + 0x100_0000 * d3;
      u % 0x100 == d0 && (u / 0x100) % 0x100 == d1 && (u / 0x1_0000) % 0x100 == d2 && u / 0x100_0000 == d3
  {
    var u := d0 + 0x100 * d1 + 0x1_0000 * d2 + 0x100_0000 * d3;
    var q0 := d1 + 0x100 * d2 + 0x1_0000 * d3;
    assert u == 0x100 * q0 + d0;
    assert u / 0x100 == q0 && u % 0x100 == d0;
    var q1 := d2 + 0x100 * d3;
    assert q0 == 0x100 * q1 + d1;
    assert q0 / 0x100 == q1 && q0 % 0x100 == d1;
    assert u == 0x1_0000 * q1 + (d0 + 0x100 * d1);
    assert u / 0x1_0000 == q1;
    assert q1 % 0x100 == d2 && q1 / 0x100 == d3;
    assert u == 0x100_0000 * d3 + (d0 + 0x100 * d1 + 0x1_0000 * d2);
  }

  /** Encoding the signed value of four digits gives the digits back, in the
      selected byte order. */
  lemma EncodeOfDigits(d0: byte, d1: byte, d2: byte, d3: byte, big: bool)
    ensures var u := d0 as int + 0x100 * d1 as int + 0x1_0000 * d2 as int + 0x100_0000 * d3 as int;
      && 0 <= u < TWO_32
      && EncodeInt32(ToSigned32(u), big) == if big then [d3, d2, d1, d0] else [d0, d1, d2, d3]
  {
    var u := d0 as int + 0x100 * d1 as int + 0x1_0000 * d2 as int + 0x100_0000 * d3 as int;
    var x := ToSigned32(u);
    assert x % TWO_32 == u;
    Digits(d0 as int, d1 as int, d2 as int, d3 as int);
  }

  /** The bytes read by Int32At are those of EncodeInt32 of the value read. */
  lemma BytesOfInt32(file: seq<byte>, p: nat, big: bool)
    requires p + 4 <= |file|
    ensures file[p..p + 4] == EncodeInt32(Int32At(file, p, big), big)
  {
    if big {
      EncodeOfDigits(file[p + 3], file[p + 2], file[p + 1], file[p], true);
    } else {
      EncodeOfDigits(file[p], file[p + 1], file[p + 2], file[p + 3], false);
    }
    assert file[p..p + 4] == [file[p], file[p + 1], file[p + 2], file[p + 3]];
  }

  /** The endian tag of a file written in the other byte order reads, in the
      selected order, as the native constant. */
  lemma SwappedTagReadsNative(file: seq<byte>, p: nat)
    requires p + 4 <= |file|
    requires Int32At(file, p, false) == REVERSE_ENDIAN_CONSTANT
    ensures Int32At(file, p, true) == ENDIAN_CONSTANT
  {
    BytesOfInt32(file, p, false);
    assert file[p..p + 4] == [0x12, 0x34, 0x56, 0x78];
    assert file[p] == 0x12 && file[p + 1] == 0x34 && file[p + 2] == 0x56 && file[p + 3] == 0x78;
  }

  /* ---------------------------------------------------------------------
   * readUnsignedLeb128
   * --------------------------------------------------------------------- */

  /** Where a LEB128 value starting at p ends: just past the first byte whose high
      bit is clear, or None when the file ends first. */
  function LebEnd(file: seq<byte>, p: nat): (e: Option<nat>)
    decreases |file| - p
    ensures e.Some? ==> p < e.value <= |file| && file[e.value - 1] < 0x80
    ensures e.Some? ==> forall i | p <= i < e.value - 1 :: file[i] >= 0x80
    ensures e.None? ==> forall i | p <= i < |file| :: file[i] >= 0x80
  {
    if p >= |file| then None
    else if file[p] < 0x80 then Some(p + 1)
    else LebEnd(file, p + 1)
  }

  /** The source's accumulation over the bytes read: result = (result shl 7) or
      (b and 0x7f), in 32-bit arithmetic.  The low seven bits of the shifted value
      are zero, so the `or` is an addition.  The FIRST byte ends up in the most
      significant group, the reverse of the standard's LEB128 section. */
  function LebValue(bs: seq<byte>): int32 {
    if bs == [] then 0 else LebStep(LebValue(bs[..|bs| - 1]), bs[|bs| - 1])
  }

  /** One byte of the accumulation: `(result shl 7) or (b and 0x7f)`. */
  function LebStep(result: int32, b: byte): int32 {
    Wrap32(result * 0x80 + b % 0x80)
  }

  /** The same groups combined in unbounded arithmetic, first byte most significant. */
  function LebGroups(bs: seq<byte>): nat {
    if bs == [] then 0 else LebGroups(bs[..|bs| - 1]) * 0x80 + bs[|bs| - 1] % 0x80
  }

  /** `readUnsignedLeb128` at p: the value and the position after it. */
  function Leb128At(file: seq<byte>, p: nat): (r: Result<(int32, nat), DexError>)
    ensures r.Success? ==> p < r.value.1 <= |file|
  {
    match LebEnd(file, p)
    case None => Failure(EndOfFile)
    case Some(e) => Success((LebValue(file[p..e]), e))
  }

  /** The decoded value is the MSB-first combination of the groups, modulo 2^32. */
  lemma {:induction false} LebValueWraps(bs: seq<byte>)
    ensures (LebValue(bs) - LebGroups(bs)) % TWO_32 == 0
  {
    if bs != [] {
      var init := bs[..|bs| - 1];
      var g := bs[|bs| - 1] % 0x80;
      LebValueWraps(init);
      Wrap32Congruent(LebValue(init) * 0x80 + g);
      ShiftCongruent(LebValue(init), LebGroups(init), g, LebValue(bs));
    }
  }

  /** Shifting two values congruent modulo 2^32 by seven bits and adding the same
      group keeps them congruent. */
  lemma ShiftCongruent(a: int, b: int, g: int, w: int)
    requires (a - b) % TWO_32 == 0 && (w - (a * 0x80 + g)) % TWO_32 == 0
    ensures (w - (b * 0x80 + g)) % TWO_32 == 0
  {
    var k := (a - b) / TWO_32;
    var j := (w - (a * 0x80 + g)) / TWO_32;
    assert a == b + k * TWO_32;
    assert w == a * 0x80 + g + j * TWO_32;
    assert w - (b * 0x80 + g) == (k * 0x80 + j) * TWO_32;
  }

  /** Values that fit in an Int decode exactly. */
  lemma LebValueExact(bs: seq<byte>)
    requires LebGroups(bs) <= INT_MAX
    ensures LebValue(bs) == LebGroups(bs)
  {
    LebValueWraps(bs);
    var d := LebValue(bs) - LebGroups(bs);
    assert -TWO_32 < d < TWO_32;
  }

  /** A single byte below 0x80 decodes to itself. */
  lemma LebSingleByte(file: seq<byte>, p: nat)
    requires p < |file| && file[p] < 0x80
    ensures Leb128At(file, p) == Success((file[p] as int32, p + 1))
  {
    var bs := file[p..p + 1];
    assert bs[..0] == [];
    assert LebValue(bs) == LebStep(0, file[p]);
  }

  /** The groups of v, most significant first, each in [0, 0x80). */
  function MsbGroups(v: nat): (gs: seq<byte>)
    ensures |gs| > 0 && forall i | 0 <= i < |gs| :: gs[i] < 0x80
  {
    if v < 0x80 then [v] else MsbGroups(v / 0x80) + [v % 0x80]
  }

  /** The encoding that this decoder inverts: the groups of v, most significant
      first, with the continuation bit set on every byte but the last. */
  function EncodeLeb(v: nat): (bs: seq<byte>)
    ensures |bs| > 0 && bs[|bs| - 1] < 0x80
    ensures forall i | 0 <= i < |bs| - 1 :: bs[i] >= 0x80
  {
    var gs := MsbGroups(v);
    seq(|gs|, i requires 0 <= i < |gs| => if i < |gs| - 1 then gs[i] + 0x80 else gs[i])
  }

  lemma {:induction false} MsbGroupsValue(v: nat)
    ensures LebGroups(MsbGroups(v)) == v
  {
    if v >= 0x80 {
      MsbGroupsValue(v / 0x80);
      var gs := MsbGroups(v);
      assert gs[..|gs| - 1] == MsbGroups(v / 0x80);
    }
  }

  lemma {:induction false} LebGroupsIgnoresContinuation(bs: seq<byte>, gs: seq<byte>)
    requires |bs| == |gs| && forall i | 0 <= i < |bs| :: bs[i] % 0x80 == gs[i] % 0x80
    ensures LebGroups(bs) == LebGroups(gs)
  {
    if bs != [] {
      LebGroupsIgnoresContinuation(bs[..|bs| - 1], gs[..|gs| - 1]);
    }
  }

  /** Round trip: every Int value v >= 0 written MSB-first is read back as v, and
      the read stops right after the encoding whatever follows it. */
  lemma LebRoundTrip(v: nat, rest: seq<byte>)
    requires v <= INT_MAX
    ensures Leb128At(EncodeLeb(v) + rest, 0) == Success((v as int32, |EncodeLeb(v)|))
  {
    var bs := EncodeLeb(v);
    var file := bs + rest;
    LebEndOfPrefix(bs, rest);
    assert file[0..|bs|] == bs;
    LebGroupsIgnoresContinuation(bs, MsbGroups(v));
    MsbGroupsValue(v);
    LebValueExact(bs);
  }

  lemma LebEndOfPrefix(bs: seq<byte>, rest: seq<byte>)
    requires |bs| > 0 && bs[|bs| - 1] < 0x80
    requires forall i | 0 <= i < |bs| - 1 :: bs[i] >= 0x80
    ensures LebEnd(bs + rest, 0) == Some(|bs|)
  {
    var file := bs + rest;
    assert file[|bs| - 1] < 0x80;
    assert forall i | 0 <= i < |bs| - 1 :: file[i] >= 0x80;
  }

  /** The standard's encoding of 300, [0xAC, 0x02], is read as 0x2C * 128 + 2. */
  lemma LebIsMostSignificantFirst()
    ensures Leb128At([0xAC, 0x02], 0) == Success((5634, 2))
  {
    var file: seq<byte> := [0xAC, 0x02];
    assert LebEnd(file, 0) == Some(2);
    assert file[0..2] == file;
    assert file[..1] == [0xAC];
    assert [0xAC][..0] == [];
  }

  /* ---------------------------------------------------------------------
   * readString (string_data_item)
   * --------------------------------------------------------------------- */

  /** Index of the first zero byte of s, or |s| when there is none. */
  function FirstZero(s: seq<byte>): (k: nat)
    ensures k <= |s| && (k < |s| ==> s[k] == 0)
    ensures forall i | 0 <= i < k :: s[i] != 0
  {
    if s == [] then 0 else if s[0] == 0 then 0 else 1 + FirstZero(s[1..])
  }

  /** `ByteArray(utf16Len * 3)`: the worst-case buffer size, in 32-bit arithmetic. */
  function StringBufferSize(utf16Len: int32): int32 {
    Wrap32(utf16Len * 3)
  }

  /** The payload loop of `readString` from q with a buffer of `size` bytes, at
      loop index i: it reads byte after byte, stopping at the first zero byte or
      after `size` bytes.  The result is the final loop index (the returned length)
      and the cursor; when no zero came, the index is that of the last byte read,
      size - 1, so that byte is dropped. */
  function PayloadScan(file: seq<byte>, q: nat, size: nat, i: nat): (r: Result<(nat, nat), DexError>)
    requires i <= size && q + i <= |file|
    decreases size - i
    ensures r.Success? ==> r.value.0 <= size && q + r.value.0 <= r.value.1 <= |file|
  {
    if i == size then Success((if size == 0 then 0 else size - 1, q + size))
    else if q + i == |file| then Failure(EndOfFile)
    else if file[q + i] == 0 then Success((i, q + i + 1))
    else PayloadScan(file, q, size, i + 1)
  }

  /** The bytes the payload loop keeps. */
  function StringBody(file: seq<byte>, q: nat, size: nat): Result<(seq<byte>, nat), DexError>
    requires q <= |file|
  {
    var scan :- PayloadScan(file, q, size, 0);
    Success((file[q..q + scan.0], scan.1))
  }

  /** The same result stated on the window of at most `size` bytes from q: the bytes
      before its first zero when it has one; otherwise all but the last of `size`
      bytes when the file holds them, and end of file when it does not. */
  function StringWindow(file: seq<byte>, q: nat, size: nat): Result<(seq<byte>, nat), DexError>
    requires q <= |file|
  {
    var window := file[q..WindowEnd(file, q, size)];
    var z := FirstZero(window);
    if z < |window| then Success((file[q..q + z], q + z + 1))
    else if q + size <= |file| then Success((file[q..q + (if size == 0 then 0 else size - 1)], q + size))
    else Failure(EndOfFile)
  }

  /** The end of the window: `size` bytes on from q, or the end of the file. */
  function WindowEnd(file: seq<byte>, q: nat, size: nat): (e: nat)
    requires q <= |file|
    ensures q <= e <= |file|
  {
    if q + size <= |file| then q + size else |file|
  }

  /** The byte-at-a-time loop and the window description agree. */
  lemma StringBodyIsWindow(file: seq<byte>, q: nat, size: nat)
    requires q <= |file|
    ensures StringBody(file, q, size) == StringWindow(file, q, size)
  {
    ScanFindsFirstZero(file, q, size, 0, file[q..WindowEnd(file, q, size)]);
  }

  lemma {:induction false} ScanFindsFirstZero(file: seq<byte>, q: nat, size: nat, i: nat, window: seq<byte>)
    requires i <= size && q + i <= |file|
    requires window == file[q..WindowEnd(file, q, size)]
    requires forall j | 0 <= j < i :: window[j] != 0
    ensures var z := FirstZero(window);
      PayloadScan(file, q, size, i) ==
        if z < |window| then Success((z, q + z + 1))
        else if q + size <= |file| then Success((if size == 0 then 0 else size - 1, q + size))
        else Failure(EndOfFile)
    decreases size - i
  {
    var z := FirstZero(window);
    assert i <= |window|;
    assert z >= i;
    if i == size {
      assert |window| == size;
    } else if q + i == |file| {
      assert |window| == i;
    } else if file[q + i] == 0 {
      assert window[i] == 0;
    } else {
      assert window[i] != 0;
      ScanFindsFirstZero(file, q, size, i + 1, window);
    }
  }

  /** `readString` at p: the LEB128 utf16 length, then the payload loop.  The bytes
      are returned undecoded. */
  function StringAt(file: seq<byte>, p: nat): Result<(seq<byte>, nat), DexError> {
    var (utf16Len, q) :- Leb128At(file, p);
    var size := StringBufferSize(utf16Len);
    if size < 0 then Failure(NegativeArraySize) else StringBody(file, q, size)
  }

  /** An encoded string_data_item: the length written as this decoder reads it,
      the payload and the terminating zero. */
  function EncodeString(utf16Len: nat, payload: seq<byte>): seq<byte> {
    EncodeLeb(utf16Len) + payload + [0]
  }

  /** Round trip: a zero-free payload shorter than the 3 * utf16Len bound is read
      back whole, and the cursor stops right after its terminator. */
  lemma StringRoundTrip(utf16Len: nat, payload: seq<byte>, rest: seq<byte>)
    requires 3 * utf16Len <= INT_MAX
    requires |payload| < 3 * utf16Len
    requires forall i | 0 <= i < |payload| :: payload[i] != 0
    ensures StringAt(EncodeString(utf16Len, payload) + rest, 0)
            == Success((payload, |EncodeString(utf16Len, payload)|))
  {
    var lenBytes := EncodeLeb(utf16Len);
    var file := EncodeString(utf16Len, payload) + rest;
    assert file == lenBytes + (payload + [0] + rest);
    LebRoundTrip(utf16Len, payload + [0] + rest);
    assert StringBufferSize(utf16Len) == 3 * utf16Len;
    StringAtIs(file, 0, utf16Len, |lenBytes|);
    assert file[|lenBytes|..] == payload + [0] + rest;
    TerminatedBody(file, |lenBytes|, 3 * utf16Len, payload);
  }

  /** The payload loop returns a zero-free prefix that a zero ends within the bound. */
  lemma TerminatedBody(file: seq<byte>, q: nat, size: nat, payload: seq<byte>)
    requires |payload| < size && q + |payload| < |file|
    requires file[q..q + |payload| + 1] == payload + [0]
    requires forall i | 0 <= i < |payload| :: payload[i] != 0
    ensures StringBody(file, q, size) == Success((payload, q + |payload| + 1))
  {
    StringBodyIsWindow(file, q, size);
    var window := file[q..WindowEnd(file, q, size)];
    assert window[..|payload| + 1] == file[q..q + |payload| + 1];
    FirstZeroOfTerminated(window, payload);
    assert file[q..q + |payload|] == window[..|payload|];
  }

  lemma FirstZeroOfTerminated(window: seq<byte>, payload: seq<byte>)
    requires |payload| < |window| && window[..|payload| + 1] == payload + [0]
    requires forall i | 0 <= i < |payload| :: payload[i] != 0
    ensures FirstZero(window) == |payload| && window[..|payload|] == payload
  {
    var z := FirstZero(window);
    assert window[|payload|] == 0;
    assert forall i | 0 <= i < |payload| :: window[i] == payload[i];
    assert window[..|payload|] == (payload + [0])[..|payload|];
  }

  /** A payload that fills the whole 3 * utf16Len bound without a zero loses its
      last byte: the loop ends on the bound, not on the terminator after it. */
  lemma StringDropsLastByteAtBound(utf16Len: nat, payload: seq<byte>, rest: seq<byte>)
    requires 0 < utf16Len && 3 * utf16Len <= INT_MAX
    requires |payload| == 3 * utf16Len
    requires forall i | 0 <= i < |payload| :: payload[i] != 0
    ensures StringAt(EncodeString(utf16Len, payload) + rest, 0)
            == Success((payload[..|payload| - 1], |EncodeLeb(utf16Len)| + |payload|))
  {
    var lenBytes := EncodeLeb(utf16Len);
    var file := EncodeString(utf16Len, payload) + rest;
    EncodedStringParts(utf16Len, payload, rest);
    LebRoundTrip(utf16Len, payload + [0] + rest);
    assert StringBufferSize(utf16Len) == |payload|;
    BoundedString(file, utf16Len, |lenBytes|, payload);
  }

  /** An encoded string followed by more bytes: the length, then the payload. */
  lemma EncodedStringParts(utf16Len: nat, payload: seq<byte>, rest: seq<byte>)
    ensures var lenBytes, file := EncodeLeb(utf16Len), EncodeString(utf16Len, payload) + rest;
      && file == lenBytes + (payload + [0] + rest)
      && file[|lenBytes|..|lenBytes| + |payload|] == payload
  {
    var lenBytes, file := EncodeLeb(utf16Len), EncodeString(utf16Len, payload) + rest;
    assert file == lenBytes + (payload + [0] + rest);
    assert file[|lenBytes|..|lenBytes| + |payload|] == payload;
  }

  /** A string whose zero-free payload fills the whole buffer bound. */
  lemma BoundedString(file: seq<byte>, n: int32, q: nat, payload: seq<byte>)
    requires Leb128At(file, 0) == Success((n, q)) && StringBufferSize(n) == |payload| > 0
    requires q + |payload| <= |file| && file[q..q + |payload|] == payload
    requires forall i | 0 <= i < |payload| :: payload[i] != 0
    ensures StringAt(file, 0) == Success((payload[..|payload| - 1], q + |payload|))
  {
    StringAtIs(file, 0, n, q);
    BoundedBody(file, q, payload);
  }

  /** `readString` after a length that reads as n and ends at q. */
  lemma StringAtIs(file: seq<byte>, p: nat, n: int32, q: nat)
    requires Leb128At(file, p) == Success((n, q)) && StringBufferSize(n) >= 0
    ensures q <= |file| && StringAt(file, p) == StringBody(file, q, StringBufferSize(n))
  {
  }

  /** The payload loop stops on the bound when the window holds no zero, keeping
      all but the window's last byte. */
  lemma BoundedBody(file: seq<byte>, q: nat, window: seq<byte>)
    requires 0 < |window| && q + |window| <= |file|
    requires file[q..q + |window|] == window
    requires forall i | 0 <= i < |window| :: window[i] != 0
    ensures StringBody(file, q, |window|) == Success((window[..|window| - 1], q + |window|))
  {
    StringBodyIsWindow(file, q, |window|);
    assert FirstZero(window) == |window|;
    assert file[q..q + |window| - 1] == window[..|window| - 1];
  }

  /** A zero utf16 length reads nothing after the length. */
  lemma EmptyString(file: seq<byte>, p: nat)
    requires p < |file| && file[p] == 0
    ensures StringAt(file, p) == Success(([], p + 1))
  {
    LebSingleByte(file, p);
    assert Leb128At(file, p) == Success((0, p + 1));
    assert StringBufferSize(0) == 0;
    assert PayloadScan(file, p + 1, 0, 0) == Success((0, p + 1));
    assert file[p + 1..p + 1] == [];
    assert StringBody(file, p + 1, 0) == Success(([], p + 1));
  }

  /* ---------------------------------------------------------------------
   * header_item
   * --------------------------------------------------------------------- */

  /** `HeaderItem`: the twenty u32 fields of header_item that follow the magic,
      the checksum and the signature. */
  datatype HeaderItem = HeaderItem(
    fileSize: int32, headerSize: int32, endianTag: int32, linkSize: int32, linkOff: int32,
    mapOff: int32, stringIdsSize: int32, stringIdsOff: int32, typeIdsSize: int32,
    typeIdsOff: int32, protoIdsSize: int32, protoIdsOff: int32, fieldIdsSize: int32,
    fieldIdsOff: int32, methodIdsSize: int32, methodIdsOff: int32, classDefsSize: int32,
    classDefsOff: int32, dataSize: int32, dataOff: int32)

  /** `HeaderItem()`: every field 0. */
  const EMPTY_HEADER := HeaderItem(0, 0, 0, 0, 0, 0, 0, 0, 0, 0, 0, 0, 0, 0, 0, 0, 0, 0, 0, 0)

  /** The k-th u32 header field, k from 0 (file_size) to 19 (data_off). */
  function HeaderField(file: seq<byte>, k: nat, big: bool): int32
    requires k < 20 && HEADER_FIELDS_OFFSET + 4 * k + 4 <= |file|
  {
    Int32At(file, HEADER_FIELDS_OFFSET + 4 * k, big)
  }

  /** The twenty fields read consecutively from offset 32 in the given byte order. */
  function HeaderAt(file: seq<byte>, big: bool): HeaderItem
    requires |file| >= HEADER_END
  {
    HeaderItem(
      HeaderField(file, 0, big), HeaderField(file, 1, big), HeaderField(file, 2, big),
      HeaderField(file, 3, big), HeaderField(file, 4, big), HeaderField(file, 5, big),
      HeaderField(file, 6, big), HeaderField(file, 7, big), HeaderField(file, 8, big),
      HeaderField(file, 9, big), HeaderField(file, 10, big), HeaderField(file, 11, big),
      HeaderField(file, 12, big), HeaderField(file, 13, big), HeaderField(file, 14, big),
      HeaderField(file, 15, big), HeaderField(file, 16, big), HeaderField(file, 17, big),
      HeaderField(file, 18, big), HeaderField(file, 19, big))
  }

  /** `parseHeaderItem` as a function of the file and of the byte order in force
      when it starts (the endian tag itself is read in that order): the header and
      the byte order it selects, or the first check that fails. */
  function HeaderParse(file: seq<byte>, bigBefore: bool): Result<(HeaderItem, bool), DexError> {
    if |file| < 8 then Failure(EndOfFile)
    else if !VerifyMagic(file[..8]) then Failure(WrongMagic)
    else if |file| < ENDIAN_TAG_OFFSET + 4 then Failure(EndOfFile)
    else
      var tag := Int32At(file, ENDIAN_TAG_OFFSET, bigBefore);
      if tag != ENDIAN_CONSTANT && tag != REVERSE_ENDIAN_CONSTANT then Failure(UnexpectedEndianTag(tag))
      else if |file| < HEADER_END then Failure(EndOfFile)
      else
        var big := tag == REVERSE_ENDIAN_CONSTANT;
        Success((HeaderAt(file, big), big))
  }

  /** For a parser starting in little-endian order, a header parse succeeds exactly
      when the magic is accepted, the tag read little-endian is one of the two
      constants and the header is complete; the reverse constant selects big-endian,
      and the stored endian tag is then the native constant for either byte order. */
  lemma HeaderParseFresh(file: seq<byte>)
    ensures HeaderParse(file, false).Success? <==>
      |file| >= HEADER_END && VerifyMagic(file[..8])
      && Int32At(file, ENDIAN_TAG_OFFSET, false) in {ENDIAN_CONSTANT, REVERSE_ENDIAN_CONSTANT}
    ensures HeaderParse(file, false).Success? ==>
      var (h, big) := HeaderParse(file, false).value;
      && h.endianTag == ENDIAN_CONSTANT
      && big == (Int32At(file, ENDIAN_TAG_OFFSET, false) == REVERSE_ENDIAN_CONSTANT)
      && h == HeaderAt(file, big)
  {
    if HeaderParse(file, false).Success? {
      var big := HeaderParse(file, false).value.1;
      assert HeaderField(file, 2, big) == Int32At(file, ENDIAN_TAG_OFFSET, big);
      if big {
        SwappedTagReadsNative(file, ENDIAN_TAG_OFFSET);
      }
    }
  }

  /* ---------------------------------------------------------------------
   * The id tables
   * --------------------------------------------------------------------- */

  /** type_id_item; `internal` is set to true for every entry at load time. */
  datatype TypeIdItem = TypeIdItem(descriptorIdx: int32, internal: bool)

  /** proto_id_item with the contents of its parameter type_list. */
  datatype ProtoIdItem = ProtoIdItem(shortyIdx: int32, returnTypeIdx: int32, parametersOff: int32, types: seq<int>)

  /** field_id_item; the two u16 indices are zero-extended. */
  datatype FieldIdItem = FieldIdItem(classIdx: int, typeIdx: int, nameIdx: int32)

  /** method_id_item; the two u16 indices are zero-extended. */
  datatype MethodIdItem = MethodIdItem(classIdx: int, protoIdx: int, nameIdx: int32)

  /** class_def_item; only the class index is kept.  The loader is a stub. */
  datatype ClassDefItem = ClassDefItem(classIdx: int32)

  /** The string_id_item offsets: `IntArray(count)` is allocated before the seek,
      so a negative count is reported first. */
  function StringOffsets(file: seq<byte>, off: int32, count: int32, big: bool): Result<seq<int32>, DexError> {
    if count < 0 then Failure(NegativeArraySize)
    else if off < 0 then Failure(NegativeSeekOffset)
    else Int32sFrom(file, off, count, big)
  }

  /** count consecutive u32 values read from p. */
  function Int32sFrom(file: seq<byte>, p: nat, count: nat, big: bool): Result<seq<int32>, DexError> {
    if count > 0 && p + 4 * count > |file| then Failure(EndOfFile)
    else Success(seq(count, i requires 0 <= i < count => Int32At(file, p + 4 * i, big)))
  }

  /** One string per offset, in order: each seeks to its offset and reads a
      string_data_item.  The first failure is the result. */
  function StringData(file: seq<byte>, offsets: seq<int32>): Result<seq<seq<byte>>, DexError> {
    if offsets == [] then Success([])
    else
      var init :- StringData(file, offsets[..|offsets| - 1]);
      var o := offsets[|offsets| - 1];
      if o < 0 then Failure(NegativeSeekOffset)
      else
        var read :- StringAt(file, o);
        Success(init + [read.0])
  }

  /** `parseStrings`: the offsets, then `seek(strIdxOffsets[0])` (which fails on an
      empty table), then the strings. */
  function StringTable(file: seq<byte>, off: int32, count: int32, big: bool): Result<seq<seq<byte>>, DexError> {
    var offsets :- StringOffsets(file, off, count, big);
    if count == 0 then Failure(IndexOutOfBounds)
    else if offsets[0] < 0 then Failure(NegativeSeekOffset)
    else StringData(file, offsets)
  }

  /** `parseTypeIds`: count u32 descriptor indices from off. */
  function TypeIdTable(file: seq<byte>, off: int32, count: int32, big: bool): Result<seq<TypeIdItem>, DexError> {
    if off < 0 then Failure(NegativeSeekOffset)
    else if count < 0 then Failure(NegativeArraySize)
    else TypeIdsFrom(file, off, count, big)
  }

  /** count type_id_items read from p. */
  function TypeIdsFrom(file: seq<byte>, p: nat, count: nat, big: bool): Result<seq<TypeIdItem>, DexError> {
    if count > 0 && p + 4 * count > |file| then Failure(EndOfFile)
    else Success(seq(count, i requires 0 <= i < count => TypeIdItem(Int32At(file, p + 4 * i, big), true)))
  }

  /** The record at p of the primary proto pass: shorty, return type, parameters offset. */
  function ProtoHeaderAt(file: seq<byte>, p: nat, big: bool): ProtoIdItem
    requires p + 12 <= |file|
  {
    ProtoIdItem(Int32At(file, p, big), Int32At(file, p + 4, big), Int32At(file, p + 8, big), [])
  }

  /** The primary pass of `parseProtoIds`: count records of three u32 values. */
  function ProtoHeaderTable(file: seq<byte>, off: int32, count: int32, big: bool): Result<seq<ProtoIdItem>, DexError> {
    if off < 0 then Failure(NegativeSeekOffset)
    else if count < 0 then Failure(NegativeArraySize)
    else ProtoHeadersFrom(file, off, count, big)
  }

  /** count primary proto records read from p. */
  function ProtoHeadersFrom(file: seq<byte>, p: nat, count: nat, big: bool): Result<seq<ProtoIdItem>, DexError> {
    if count > 0 && p + 12 * count > |file| then Failure(EndOfFile)
    else Success(seq(count, i requires 0 <= i < count => ProtoHeaderAt(file, p + 12 * i, big)))
  }

  /** A type_list at off: a u32 size and that many u16 type indices.  Offset 0
      means "no parameters". */
  function TypeListAt(file: seq<byte>, off: int32, big: bool): Result<seq<int>, DexError> {
    if off == 0 then Success([])
    else if off < 0 then Failure(NegativeSeekOffset)
    else TypeListBody(file, off, big)
  }

  /** The type_list read from p: the u32 size, then that many u16 values. */
  function TypeListBody(file: seq<byte>, p: nat, big: bool): Result<seq<int>, DexError> {
    if p + 4 > |file| then Failure(EndOfFile)
    else
      var size := Int32At(file, p, big);
      if size < 0 then Failure(NegativeArraySize)
      else U16sFrom(file, p + 4, size, big)
  }

  /** count u16 values read from p. */
  function U16sFrom(file: seq<byte>, p: nat, count: nat, big: bool): Result<seq<int>, DexError> {
    if count > 0 && p + 2 * count > |file| then Failure(EndOfFile)
    else Success(seq(count, j requires 0 <= j < count => U16At(file, p + 2 * j, big)))
  }

  /** The second pass of `parseProtoIds`: each item's type list, in order. */
  function WithTypeLists(file: seq<byte>, items: seq<ProtoIdItem>, big: bool): Result<seq<ProtoIdItem>, DexError> {
    if items == [] then Success([])
    else
      var init :- WithTypeLists(file, items[..|items| - 1], big);
      var last := items[|items| - 1];
      var types :- TypeListAt(file, last.parametersOff, big);
      Success(init + [last.(types := types)])
  }

  /** `parseProtoIds`: the primary pass, then the type lists. */
  function ProtoIdTable(file: seq<byte>, off: int32, count: int32, big: bool): Result<seq<ProtoIdItem>, DexError> {
    var items :- ProtoHeaderTable(file, off, count, big);
    WithTypeLists(file, items, big)
  }

  /** The record at p of the field table: two u16 indices and a u32 name index. */
  function FieldIdAt(file: seq<byte>, p: nat, big: bool): FieldIdItem
    requires p + 8 <= |file|
  {
    FieldIdItem(U16At(file, p, big), U16At(file, p + 2, big), Int32At(file, p + 4, big))
  }

  /** `parseFieldIds`. */
  function FieldIdTable(file: seq<byte>, off: int32, count: int32, big: bool): Result<seq<FieldIdItem>, DexError> {
    if off < 0 then Failure(NegativeSeekOffset)
    else if count < 0 then Failure(NegativeArraySize)
    else FieldIdsFrom(file, off, count, big)
  }

  /** count field_id_items read from p. */
  function FieldIdsFrom(file: seq<byte>, p: nat, count: nat, big: bool): Result<seq<FieldIdItem>, DexError> {
    if count > 0 && p + 8 * count > |file| then Failure(EndOfFile)
    else Success(seq(count, i requires 0 <= i < count => FieldIdAt(file, p + 8 * i, big)))
  }

  /** The record at p of the method table: two u16 indices and a u32 name index. */
  function MethodIdAt(file: seq<byte>, p: nat, big: bool): MethodIdItem
    requires p + 8 <= |file|
  {
    MethodIdItem(U16At(file, p, big), U16At(file, p + 2, big), Int32At(file, p + 4, big))
  }

  /** `parseMethodIds`. */
  function MethodIdTable(file: seq<byte>, off: int32, count: int32, big: bool): Result<seq<MethodIdItem>, DexError> {
    if off < 0 then Failure(NegativeSeekOffset)
    else if count < 0 then Failure(NegativeArraySize)
    else MethodIdsFrom(file, off, count, big)
  }

  /** count method_id_items read from p. */
  function MethodIdsFrom(file: seq<byte>, p: nat, count: nat, big: bool): Result<seq<MethodIdItem>, DexError> {
    if count > 0 && p + 8 * count > |file| then Failure(EndOfFile)
    else Success(seq(count, i requires 0 <= i < count => MethodIdAt(file, p + 8 * i, big)))
  }

  /* ---------------------------------------------------------------------
   * Properties of the tables
   * --------------------------------------------------------------------- */

  /** A string table has exactly one string per string_id_item, the one at that
      item's offset; an empty table always fails. */
  lemma StringTableShape(file: seq<byte>, off: int32, count: int32, big: bool)
    ensures count == 0 ==> StringTable(file, off, count, big).Failure?
    ensures StringTable(file, off, count, big).Success? ==>
      && StringOffsets(file, off, count, big).Success?
      && var offsets := StringOffsets(file, off, count, big).value;
         var strings := StringTable(file, off, count, big).value;
         && |strings| == |offsets| == count
         && forall i | 0 <= i < count ::
              offsets[i] >= 0 && StringAt(file, offsets[i]).Success? && strings[i] == StringAt(file, offsets[i]).value.0
  {
    if StringTable(file, off, count, big).Success? {
      StringDataShape(file, StringOffsets(file, off, count, big).value);
    }
  }

  /** The offsets are count consecutive u32 values from off. */
  lemma StringOffsetsShape(file: seq<byte>, off: int32, count: int32, big: bool)
    ensures StringOffsets(file, off, count, big).Success? <==>
      0 <= count && 0 <= off && (count == 0 || off + 4 * count <= |file|)
    ensures StringOffsets(file, off, count, big).Success? ==>
      var offsets := StringOffsets(file, off, count, big).value;
      && |offsets| == count
      && forall i | 0 <= i < count :: offsets[i] == Int32At(file, off + 4 * i, big)
  {
  }

  lemma {:induction false} StringDataShape(file: seq<byte>, offsets: seq<int32>)
    requires StringData(file, offsets).Success?
    ensures var strings := StringData(file, offsets).value;
      && |strings| == |offsets|
      && forall i | 0 <= i < |offsets| ::
           offsets[i] >= 0 && StringAt(file, offsets[i]).Success? && strings[i] == StringAt(file, offsets[i]).value.0
  {
    if offsets != [] {
      var n := |offsets| - 1;
      var init := offsets[..n];
      StringDataShape(file, init);
      var prev := StringData(file, init).value;
      assert offsets[n] >= 0 && StringAt(file, offsets[n]).Success?;
      assert StringData(file, offsets) == Success(prev + [StringAt(file, offsets[n]).value.0]);
      StringDataStep(file, offsets, prev);
    }
  }

  /** One step of `StringDataShape`: the last offset's string after the others. */
  lemma StringDataStep(file: seq<byte>, offsets: seq<int32>, prev: seq<seq<byte>>)
    requires |offsets| > 0 && |prev| == |offsets| - 1
    requires forall i | 0 <= i < |prev| ::
      offsets[..|prev|][i] >= 0 && StringAt(file, offsets[..|prev|][i]).Success? && prev[i] == StringAt(file, offsets[..|prev|][i]).value.0
    requires offsets[|prev|] >= 0 && StringAt(file, offsets[|prev|]).Success?
    ensures var strings := prev + [StringAt(file, offsets[|prev|]).value.0];
      forall i | 0 <= i < |offsets| ::
        offsets[i] >= 0 && StringAt(file, offsets[i]).Success? && strings[i] == StringAt(file, offsets[i]).value.0
  {
    var strings := prev + [StringAt(file, offsets[|prev|]).value.0];
    forall i | 0 <= i < |offsets|
      ensures offsets[i] >= 0 && StringAt(file, offsets[i]).Success? && strings[i] == StringAt(file, offsets[i]).value.0
    {
      if i < |prev| {
        assert offsets[i] == offsets[..|prev|][i];
      }
    }
  }

  /** The proto table has exactly one entry per primary record: each keeps the
      record's three values and gets the type list at its parameters offset. */
  lemma ProtoIdTableShape(file: seq<byte>, off: int32, count: int32, big: bool)
    ensures ProtoIdTable(file, off, count, big).Success? ==>
      && ProtoHeaderTable(file, off, count, big).Success?
      && var items := ProtoHeaderTable(file, off, count, big).value;
         var protos := ProtoIdTable(file, off, count, big).value;
         && |protos| == |items| == count
         && forall i | 0 <= i < count ::
              && TypeListAt(file, items[i].parametersOff, big).Success?
              && protos[i] == items[i].(types := TypeListAt(file, items[i].parametersOff, big).value)
  {
    if ProtoIdTable(file, off, count, big).Success? {
      WithTypeListsShape(file, ProtoHeaderTable(file, off, count, big).value, big);
    }
  }

  /** The primary records are count consecutive 12-byte records from off. */
  lemma ProtoHeaderTableShape(file: seq<byte>, off: int32, count: int32, big: bool)
    ensures ProtoHeaderTable(file, off, count, big).Success? <==>
      0 <= off && 0 <= count && (count == 0 || off + 12 * count <= |file|)
    ensures ProtoHeaderTable(file, off, count, big).Success? ==>
      var items := ProtoHeaderTable(file, off, count, big).value;
      && |items| == count
      && forall i | 0 <= i < count :: items[i] == ProtoHeaderAt(file, off + 12 * i, big)
  {
  }

  lemma {:induction false} WithTypeListsShape(file: seq<byte>, items: seq<ProtoIdItem>, big: bool)
    requires WithTypeLists(file, items, big).Success?
    ensures var protos := WithTypeLists(file, items, big).value;
      && |protos| == |items|
      && forall i | 0 <= i < |items| ::
           && TypeListAt(file, items[i].parametersOff, big).Success?
           && protos[i] == items[i].(types := TypeListAt(file, items[i].parametersOff, big).value)
  {
    if items != [] {
      var n := |items| - 1;
      var init := items[..n];
      WithTypeListsShape(file, init, big);
      var prev := WithTypeLists(file, init, big).value;
      var last := items[n];
      assert TypeListAt(file, last.parametersOff, big).Success?;
      var protos := prev + [last.(types := TypeListAt(file, last.parametersOff, big).value)];
      assert WithTypeLists(file, items, big) == Success(protos);
      forall i | 0 <= i < |items|
        ensures TypeListAt(file, items[i].parametersOff, big).Success?
        ensures protos[i] == items[i].(types := TypeListAt(file, items[i].parametersOff, big).value)
      {
        if i < n {
          assert items[i] == init[i];
        }
      }
    }
  }

  /** A type list at a non-zero offset is its u32 size followed by that many
      zero-extended u16 values. */
  lemma TypeListShape(file: seq<byte>, off: int32, big: bool)
    ensures off == 0 ==> TypeListAt(file, off, big) == Success([])
    ensures off != 0 && TypeListAt(file, off, big).Success? ==>
      var types := TypeListAt(file, off, big).value;
      && off > 0 && off + 4 <= |file|
      && |types| == Int32At(file, off, big)
      && off + 4 + 2 * |types| <= |file|
      && forall j | 0 <= j < |types| :: 0 <= types[j] < 0x1_0000 && types[j] == U16At(file, off + 4 + 2 * j, big)
  {
  }

  /** The string loop stops at its first failure: a failing prefix of the offsets
      makes the whole table fail with the same error. */
  lemma {:induction false} StringDataPrefixFailure(file: seq<byte>, offsets: seq<int32>, k: nat)
    requires k <= |offsets| && StringData(file, offsets[..k]).Failure?
    ensures StringData(file, offsets) == StringData(file, offsets[..k])
    decreases |offsets|
  {
    if k < |offsets| {
      var init := offsets[..|offsets| - 1];
      assert init[..k] == offsets[..k];
      StringDataPrefixFailure(file, init, k);
    } else {
      assert offsets[..k] == offsets;
    }
  }

  /** The same for the type-list pass of the proto loader. */
  lemma {:induction false} WithTypeListsPrefixFailure(file: seq<byte>, items: seq<ProtoIdItem>, big: bool, k: nat)
    requires k <= |items| && WithTypeLists(file, items[..k], big).Failure?
    ensures WithTypeLists(file, items, big) == WithTypeLists(file, items[..k], big)
    decreases |items|
  {
    if k < |items| {
      var init := items[..|items| - 1];
      assert init[..k] == items[..k];
      WithTypeListsPrefixFailure(file, init, big, k);
    } else {
      assert items[..k] == items;
    }
  }

  /** A type id table is count consecutive u32 descriptor indices from its offset,
      every entry marked internal. */
  lemma TypeIdTableShape(file: seq<byte>, off: int32, count: int32, big: bool)
    ensures TypeIdTable(file, off, count, big).Success? <==>
      0 <= off && 0 <= count && (count == 0 || off + 4 * count <= |file|)
    ensures TypeIdTable(file, off, count, big).Success? ==>
      var t := TypeIdTable(file, off, count, big).value;
      && |t| == count
      && forall i | 0 <= i < count :: t[i].internal && t[i].descriptorIdx == Int32At(file, off + 4 * i, big)
  {
  }

  /** A field id table is count consecutive 8-byte records from its offset: two
      zero-extended u16 indices and a u32 name index. */
  lemma FieldIdTableShape(file: seq<byte>, off: int32, count: int32, big: bool)
    ensures FieldIdTable(file, off, count, big).Success? <==>
      0 <= off && 0 <= count && (count == 0 || off + 8 * count <= |file|)
    ensures FieldIdTable(file, off, count, big).Success? ==>
      var t := FieldIdTable(file, off, count, big).value;
      && |t| == count
      && forall i | 0 <= i < count ::
           && 0 <= t[i].classIdx < 0x1_0000 && t[i].classIdx == U16At(file, off + 8 * i, big)
           && 0 <= t[i].typeIdx < 0x1_0000 && t[i].typeIdx == U16At(file, off + 8 * i + 2, big)
           && t[i].nameIdx == Int32At(file, off + 8 * i + 4, big)
  {
  }

  /** The same layout for the method id table, with the proto index second. */
  lemma MethodIdTableShape(file: seq<byte>, off: int32, count: int32, big: bool)
    ensures MethodIdTable(file, off, count, big).Success? <==>
      0 <= off && 0 <= count && (count == 0 || off + 8 * count <= |file|)
    ensures MethodIdTable(file, off, count, big).Success? ==>
      var t := MethodIdTable(file, off, count, big).value;
      && |t| == count
      && forall i | 0 <= i < count ::
           && 0 <= t[i].classIdx < 0x1_0000 && t[i].classIdx == U16At(file, off + 8 * i, big)
           && 0 <= t[i].protoIdx < 0x1_0000 && t[i].protoIdx == U16At(file, off + 8 * i + 2, big)
           && t[i].nameIdx == Int32At(file, off + 8 * i + 4, big)
  {
  }

  /* ---------------------------------------------------------------------
   * The whole parse
   * --------------------------------------------------------------------- */

  /** What `parse` loads: the header, the byte order and the five tables. */
  datatype DexTables = DexTables(
    header: HeaderItem, bigEndian: bool, strings: seq<seq<byte>>, typeIds: seq<TypeIdItem>,
    protoIds: seq<ProtoIdItem>, fieldIds: seq<FieldIdItem>, methodIds: seq<MethodIdItem>)

  /** `parse`: the header, then the string, type, proto, field and method tables in
      that order, each located by its header fields; the first exception ends it. */
  function DexParse(file: seq<byte>, bigBefore: bool): Result<DexTables, DexError> {
    var (h, big) :- HeaderParse(file, bigBefore);
    TablesParse(file, h, big)
  }

  /** The five tables that a header locates, loaded in order in byte order big. */
  function TablesParse(file: seq<byte>, h: HeaderItem, big: bool): (r: Result<DexTables, DexError>)
    ensures r.Success? ==> r.value.header == h && r.value.bigEndian == big
  {
    var strings :- StringTable(file, h.stringIdsOff, h.stringIdsSize, big);
    var typeIds :- TypeIdTable(file, h.typeIdsOff, h.typeIdsSize, big);
    var protoIds :- ProtoIdTable(file, h.protoIdsOff, h.protoIdsSize, big);
    var fieldIds :- FieldIdTable(file, h.fieldIdsOff, h.fieldIdsSize, big);
    var methodIds :- MethodIdTable(file, h.methodIdsOff, h.methodIdsSize, big);
    Success(DexTables(h, big, strings, typeIds, protoIds, fieldIds, methodIds))
  }

  /** A file that a fresh parser loads has an accepted magic and a native endian
      tag, at least one string, and tables of exactly the sizes its header declares. */
  lemma DexParseShape(file: seq<byte>)
    ensures DexParse(file, false).Success? ==>
      var t := DexParse(file, false).value;
      && VerifyMagic(file[..8])
      && t.header == HeaderAt(file, t.bigEndian)
      && t.header.endianTag == ENDIAN_CONSTANT
      && 0 < |t.strings| == t.header.stringIdsSize
      && |t.typeIds| == t.header.typeIdsSize
      && |t.protoIds| == t.header.protoIdsSize
      && |t.fieldIds| == t.header.fieldIdsSize
      && |t.methodIds| == t.header.methodIdsSize
  {
    HeaderParseFresh(file);
    if DexParse(file, false).Success? {
      var (h, big) := HeaderParse(file, false).value;
      StringTableShape(file, h.stringIdsOff, h.stringIdsSize, big);
      TypeIdTableShape(file, h.typeIdsOff, h.typeIdsSize, big);
      ProtoIdTableShape(file, h.protoIdsOff, h.protoIdsSize, big);
      FieldIdTableShape(file, h.fieldIdsOff, h.fieldIdsSize, big);
      MethodIdTableShape(file, h.methodIdsOff, h.methodIdsSize, big);
    }
  }
}
