/**
 * The store-only ZIP writer: stringToBytes, toBytesLE and createZip. Each
 * file becomes a local header (section 4.3.7 of PKWARE's APPNOTE.TXT), its
 * name and its bytes; then come one central-directory header per file
 * (section 4.3.12) and the end-of-central-directory record (section
 * 4.3.16). Nothing is compressed and every CRC-32 field holds 0.
 */
module Zip {
  import opened Wrappers
  import opened Arith

  /** One entry of the `files` array: a part name and its text. */
  datatype ZipFile = ZipFile(name: string, content: string)

  // ---------------------------------------------------------------------
  // stringToBytes
  // ---------------------------------------------------------------------

  /**
   * `c.charCodeAt(0)` for one code point of `Array.from(str)`: the code
   * itself below U+10000, otherwise the leading UTF-16 surrogate.
   */
  function CharCode(c: char): (n: nat)
    ensures n < 0x1_0000
  {
    if c as int < 0x1_0000 then c as int else 0xD800 + (c as int - 0x1_0000) / 0x400
  }

  /** stringToBytes: one number per code point of the string. */
  function StringToBytes(s: string): seq<int> {
    seq(|s|, i requires 0 <= i < |s| => CharCode(s[i]) as int)
  }

  /** `new Uint8Array(xs)`: every element is taken modulo 256. */
  function Uint8(xs: seq<int>): (b: seq<int>)
    ensures |b| == |xs|
    ensures forall i :: 0 <= i < |b| ==> 0 <= b[i] < 256
  {
    seq(|xs|, i requires 0 <= i < |xs| => xs[i] % 256)
  }

  predicate Latin1(s: string) {
    forall i :: 0 <= i < |s| ==> s[i] as int < 256
  }

  /** The text a reader recovers from bytes, one character per byte. */
  function BytesToString(b: seq<int>): string {
    seq(|b|, i requires 0 <= i < |b| => (b[i] % 256) as char)
  }

  /**
   * A string whose characters all lie below U+0100 becomes exactly one byte
   * per character, which the Uint8Array keeps and a reader turns back into
   * the same string.
   */
  lemma Latin1RoundTrip(s: string)
    requires Latin1(s)
    ensures |StringToBytes(s)| == |s|
    ensures Uint8(StringToBytes(s)) == StringToBytes(s)
    ensures BytesToString(StringToBytes(s)) == s
  {
    var b := StringToBytes(s);
    assert forall i :: 0 <= i < |s| ==> b[i] == s[i] as int;
    assert forall i :: 0 <= i < |s| ==> BytesToString(b)[i] == s[i];
  }

  // ---------------------------------------------------------------------
  // toBytesLE
  // ---------------------------------------------------------------------

  const Two31: int := 0x8000_0000
  const Two32: int := 0x1_0000_0000

  /** JavaScript's ToInt32, which `&` and `>>=` apply to their operand. */
  function ToInt32(x: int): (y: int)
    ensures -Two31 <= y < Two31
  {
    (x + Two31) % Two32 - Two31
  }

  lemma ToInt32InRange(x: int)
    requires -Two31 <= x < Two31
    ensures ToInt32(x) == x
  {
    DivModUnique(x + Two31, Two32, 0, x + Two31);
  }

  /** ToInt32 changes its argument by a multiple of 2^32. */
  lemma ToInt32Congruent(x: int)
    ensures x == ((x + Two31) / Two32) * Two32 + ToInt32(x)
  {
  }

  /** The low len bytes of n, least significant first (floor division, as `>>` shifts). */
  function LittleEndian(n: int, len: nat): (b: seq<int>)
    ensures |b| == len
    ensures forall i :: 0 <= i < len ==> 0 <= b[i] < 256
    decreases len
  {
    if len == 0 then [] else [n % 256] + LittleEndian(n / 256, len - 1)
  }

  /** What toBytesLE(num, len) returns. */
  function BytesLE(num: int, len: nat): seq<int> {
    LittleEndian(ToInt32(num), len)
  }

  /** toBytesLE: `num & 0xff`, then `num >>= 8`, len times. */
  method ToBytesLE(num: int, len: nat) returns (arr: seq<int>)
    ensures arr == BytesLE(num, len)
  {
    arr := [];
    var n := num;
    var i := 0;
    while i < len
      invariant 0 <= i <= len
      invariant arr + LittleEndian(ToInt32(n), len - i) == BytesLE(num, len)
    {
      var t := ToInt32(n);
      assert -0x80_0000 <= t / 256 < 0x80_0000;
      ToInt32InRange(t / 256);
      assert LittleEndian(t, len - i) == [t % 256] + LittleEndian(t / 256, len - i - 1);
      arr := arr + [t % 256];
      n := t / 256;
      i := i + 1;
    }
  }

  /** A little-endian field read as an unsigned number. */
  function FromLE(b: seq<int>): int {
    if b == [] then 0 else b[0] + 256 * FromLE(b[1..])
  }

  function Pow256(len: nat): (p: nat)
    ensures p >= 1
  {
    if len == 0 then 1 else 256 * Pow256(len - 1)
  }

  lemma Pow256Values()
    ensures Pow256(1) == 256 && Pow256(2) == 0x1_0000 && Pow256(4) == Two32
  {
    assert Pow256(2) == 256 * Pow256(1);
    assert Pow256(3) == 256 * Pow256(2);
    assert Pow256(4) == 256 * Pow256(3);
  }

  /** The len bytes of n read back as n modulo 256^len. */
  lemma {:induction false} LittleEndianDecode(n: int, len: nat)
    ensures FromLE(LittleEndian(n, len)) == n % Pow256(len)
    decreases len
  {
    if len == 0 {
      DivModUnique(n, 1, n, 0);
    } else {
      var p := Pow256(len - 1);
      var q, r := n / 256, n % 256;
      LittleEndianDecode(q, len - 1);
      var b := LittleEndian(n, len);
      assert b[1..] == LittleEndian(q, len - 1);
      assert FromLE(b) == r + 256 * (q % p);
      assert q == (q / p) * p + q % p;
      MulMono(q % p, p - 1, 256);
      assert n == 256 * q + r;
      assert 256 * q == (q / p) * (256 * p) + 256 * (q % p);
      DivModUnique(n, 256 * p, q / p, 256 * (q % p) + r);
    }
  }

  /**
   * A field of toBytesLE(num, len), len at most 4, reads back as num modulo
   * 256^len: the ToInt32 wrap does not show in the low four bytes.
   */
  lemma BytesLEDecode(num: int, len: nat)
    requires len == 2 || len == 4
    ensures FromLE(BytesLE(num, len)) == num % Pow256(len)
  {
    var t := ToInt32(num);
    var p := Pow256(len);
    LittleEndianDecode(t, len);
    Pow256Values();
    var m := if len == 2 then 0x1_0000 else 1;
    assert Two32 == m * p;
    var k := (num + Two31) / Two32;
    ToInt32Congruent(num);
    assert t == (t / p) * p + t % p;
    assert k * Two32 == (k * m) * p;
    DivModUnique(num, p, k * m + t / p, t % p);
  }

  /** Hence a length or offset below 256^len is recorded exactly. */
  lemma BytesLEExact(num: int, len: nat)
    requires len == 2 || len == 4
    requires 0 <= num < Pow256(len)
    ensures FromLE(BytesLE(num, len)) == num
  {
    BytesLEDecode(num, len);
    DivModUnique(num, Pow256(len), 0, num);
  }

  // ---------------------------------------------------------------------
  // createZip
  // ---------------------------------------------------------------------

  /** Local header up to the sizes: signature, version 2.0, no flags, stored, zero time, date and CRC. */
  const LocalFixed: seq<int> := [0x50, 0x4b, 0x03, 0x04, 0x14, 0x00, 0x00, 0x00, 0x00, 0x00,
                                 0x00, 0x00, 0x00, 0x00, 0x00, 0x00, 0x00, 0x00]

  /** Central header up to the sizes: signature, versions 2.0, no flags, stored, zero time, date and CRC. */
  const CentralFixed: seq<int> := [0x50, 0x4b, 0x01, 0x02, 0x14, 0x00, 0x14, 0x00, 0x00, 0x00,
                                   0x00, 0x00, 0x00, 0x00, 0x00, 0x00, 0x00, 0x00, 0x00, 0x00]

  /** Central header between name length and offset: no extra field, comment, disk or attributes. */
  const CentralMiddle: seq<int> := [0x00, 0x00, 0x00, 0x00, 0x00, 0x00, 0x00, 0x00, 0x00, 0x00, 0x00, 0x00]

  /** End record up to the entry counts: signature and disk numbers 0. */
  const EndFixed: seq<int> := [0x50, 0x4b, 0x05, 0x06, 0x00, 0x00, 0x00, 0x00]

  function LocalHeader(fileLen: int, nameLen: int): seq<int> {
    LocalFixed + BytesLE(fileLen, 4) + BytesLE(fileLen, 4) + BytesLE(nameLen, 2) + [0x00, 0x00]
  }

  function LocalEntry(f: ZipFile): seq<int> {
    var nameBytes := StringToBytes(f.name);
    var fileBytes := StringToBytes(f.content);
    LocalHeader(|fileBytes|, |nameBytes|) + nameBytes + fileBytes
  }

  function CentralHeader(fileLen: int, nameLen: int, offset: int): seq<int> {
    CentralFixed + BytesLE(fileLen, 4) + BytesLE(fileLen, 4) + BytesLE(nameLen, 2) + CentralMiddle + BytesLE(offset, 4)
  }

  function CentralEntry(f: ZipFile, offset: int): seq<int> {
    var nameBytes := StringToBytes(f.name);
    CentralHeader(|StringToBytes(f.content)|, |nameBytes|, offset) + nameBytes
  }

  /** Bytes taken by the local entries: a 30-byte header, the name and the content per file. */
  function LocalSize(files: seq<ZipFile>): nat {
    if files == [] then 0
    else
      var f := files[|files| - 1];
      LocalSize(files[..|files| - 1]) + 30 + |f.name| + |f.content|
  }

  /** Bytes taken by the central directory: a 46-byte header and the name per file. */
  function CentralSize(files: seq<ZipFile>): nat {
    if files == [] then 0
    else CentralSize(files[..|files| - 1]) + 46 + |files[|files| - 1].name|
  }

  /** The local entry of every file. */
  function LocalEntries(files: seq<ZipFile>): seq<seq<int>> {
    seq(|files|, i requires 0 <= i < |files| => LocalEntry(files[i]))
  }

  /** The central entry of every file; entry i records where local entry i starts. */
  function CentralEntries(files: seq<ZipFile>): seq<seq<int>> {
    seq(|files|, i requires 0 <= i < |files| => CentralEntry(files[i], LocalSize(files[..i])))
  }

  /** Byte sequences laid end to end, as `push(...)` appends them. */
  function Joined(parts: seq<seq<int>>): seq<int> {
    if parts == [] then [] else Joined(parts[..|parts| - 1]) + parts[|parts| - 1]
  }

  /** allData after the given files. */
  function LocalPart(files: seq<ZipFile>): seq<int> {
    Joined(LocalEntries(files))
  }

  /** centralDir after the given files. */
  function CentralPart(files: seq<ZipFile>): seq<int> {
    Joined(CentralEntries(files))
  }

  function EndRecord(count: int, centralLen: int, dataLen: int): seq<int> {
    EndFixed + BytesLE(count, 2) + BytesLE(count, 2) + BytesLE(centralLen, 4) + BytesLE(dataLen, 4) + [0x00, 0x00]
  }

  /** The local entries, then the central directory, then the end record. */
  function Archive(data: seq<int>, central: seq<int>, count: int): seq<int> {
    data + central + EndRecord(count, |central|, |data|)
  }

  /** The archive before the Uint8Array conversion. */
  function ZipBytes(files: seq<ZipFile>): seq<int> {
    Archive(LocalPart(files), CentralPart(files), |files|)
  }

  /** createZip: local entries in order, then the central directory, then the end record. */
  method CreateZip(files: seq<ZipFile>) returns (zip: seq<int>)
    ensures zip == Uint8(ZipBytes(files))
  {
    var offset := 0;
    var allData := [];
    var centralDir := [];
    var k := 0;
    while k < |files|
      invariant 0 <= k <= |files|
      invariant allData == LocalPart(files[..k]) && centralDir == CentralPart(files[..k])
      invariant offset == LocalSize(files[..k])
    {
      var file := files[k];
      var fileBytes := StringToBytes(file.content);
      var fileLen := |fileBytes|;
      var filenameBytes := StringToBytes(file.name);
      var compressedSize := ToBytesLE(fileLen, 4);
      var uncompressedSize := ToBytesLE(fileLen, 4);
      var nameLength := ToBytesLE(|filenameBytes|, 2);
      var localHeader := LocalFixed + compressedSize + uncompressedSize + nameLength + [0x00, 0x00];
      var local := localHeader + filenameBytes + fileBytes;
      allData := allData + local;
      var localOffset := ToBytesLE(offset, 4);
      var central := CentralFixed + compressedSize + uncompressedSize + nameLength + CentralMiddle + localOffset;
      assert central == CentralHeader(fileLen, |filenameBytes|, offset);
      centralDir := centralDir + central + filenameBytes;
      offset := offset + |local|;
      PartsSnoc(files, k);
      assert files[..k + 1][..k] == files[..k];
      k := k + 1;
    }
    assert files[..k] == files;
    PartLengths(files);
    var centralDirLen := |centralDir|;
    var allDataLen := |allData|;
    var entryCount := ToBytesLE(|files|, 2);
    var totalEntries := ToBytesLE(|files|, 2);
    var centralSize := ToBytesLE(centralDirLen, 4);
    var centralOffset := ToBytesLE(allDataLen, 4);
    var endCentral := EndFixed + entryCount + totalEntries + centralSize + centralOffset + [0x00, 0x00];
    zip := Uint8(allData + centralDir + endCentral);
  }

  // ---------------------------------------------------------------------
  // The layout of the archive
  // ---------------------------------------------------------------------

  /** The entry lists of the first k files are the first k entries. */
  lemma EntriesPrefix(files: seq<ZipFile>, k: nat)
    requires k <= |files|
    ensures LocalEntries(files[..k]) == LocalEntries(files)[..k]
    ensures CentralEntries(files[..k]) == CentralEntries(files)[..k]
  {
    assert forall i :: 0 <= i < k ==> files[..k][..i] == files[..i];
  }

  /** One more file appends its local entry and its central entry. */
  lemma PartsSnoc(files: seq<ZipFile>, k: nat)
    requires k < |files|
    ensures LocalPart(files[..k + 1]) == LocalPart(files[..k]) + LocalEntry(files[k])
    ensures CentralPart(files[..k + 1]) == CentralPart(files[..k]) + CentralEntry(files[k], LocalSize(files[..k]))
  {
    var upto := files[..k + 1];
    assert upto[..k] == files[..k];
    EntriesPrefix(upto, k);
  }

  lemma {:induction false} PartLengths(files: seq<ZipFile>)
    ensures |LocalPart(files)| == LocalSize(files)
    ensures |CentralPart(files)| == CentralSize(files)
    decreases |files|
  {
    if files != [] {
      var n := |files| - 1;
      PartLengths(files[..n]);
      PartsSnoc(files, n);
      assert files[..n + 1] == files;
    }
  }

  /** The archive is the local entries, the central directory and 22 bytes of end record. */
  lemma ZipLength(files: seq<ZipFile>)
    ensures |Uint8(ZipBytes(files))| == LocalSize(files) + CentralSize(files) + 22
  {
    PartLengths(files);
  }

  /** t occurs in s at position a. */
  predicate At(s: seq<int>, a: int, t: seq<int>) {
    0 <= a && a + |t| <= |s| && s[a..a + |t|] == t
  }

  lemma AtWithin(s: seq<int>, a: int, t: seq<int>, i: int, j: int)
    requires At(s, a, t) && 0 <= i <= j <= |t|
    ensures At(s, a + i, t[i..j])
  {
    var u, w := s[a + i..a + j], t[i..j];
    assert forall x :: 0 <= x < |u| ==> u[x] == w[x];
  }

  /** Whatever follows a prefix of s occurs in s right after it. */
  lemma AfterPrefix(s: seq<int>, p: seq<int>, pre: seq<int>, t: seq<int>)
    requires p <= s && p == pre + t
    ensures At(s, |pre|, t)
  {
    assert s[|pre|..|pre| + |t|] == p[|pre|..];
  }

  lemma {:induction false} JoinedPrefix(parts: seq<seq<int>>, k: nat)
    requires k <= |parts|
    ensures Joined(parts[..k]) <= Joined(parts)
    decreases |parts| - k
  {
    if k < |parts| {
      JoinedPrefix(parts, k + 1);
      assert parts[..k + 1][..k] == parts[..k];
    } else {
      assert parts[..k] == parts;
    }
  }

  lemma JoinedAt(parts: seq<seq<int>>, k: nat)
    requires k < |parts|
    ensures At(Joined(parts), |Joined(parts[..k])|, parts[k])
  {
    var upto := parts[..k + 1];
    assert upto[..k] == parts[..k];
    JoinedPrefix(parts, k + 1);
    AfterPrefix(Joined(parts), Joined(upto), Joined(parts[..k]), parts[k]);
  }

  /** Local entry k starts at LocalSize of the files before it. */
  lemma LocalEntryAt(files: seq<ZipFile>, k: nat)
    requires k < |files|
    ensures At(LocalPart(files), LocalSize(files[..k]), LocalEntry(files[k]))
  {
    EntriesPrefix(files, k);
    PartLengths(files[..k]);
    JoinedAt(LocalEntries(files), k);
  }

  /** Central entry k, which records that offset, starts at CentralSize of the files before it. */
  lemma CentralEntryAt(files: seq<ZipFile>, k: nat)
    requires k < |files|
    ensures At(CentralPart(files), CentralSize(files[..k]), CentralEntry(files[k], LocalSize(files[..k])))
  {
    EntriesPrefix(files, k);
    PartLengths(files[..k]);
    JoinedAt(CentralEntries(files), k);
  }

  // ---------------------------------------------------------------------
  // Header fields
  // ---------------------------------------------------------------------

  const LocalSignature: seq<int> := [0x50, 0x4b, 0x03, 0x04]
  const CentralSignature: seq<int> := [0x50, 0x4b, 0x01, 0x02]
  const EndSignature: seq<int> := [0x50, 0x4b, 0x05, 0x06]

  predicate AllBytes(xs: seq<int>) {
    forall i :: 0 <= i < |xs| ==> 0 <= xs[i] < 256
  }

  lemma Uint8At(xs: seq<int>, a: int, t: seq<int>)
    requires At(xs, a, t) && AllBytes(t)
    ensures At(Uint8(xs), a, t)
  {
    assert forall x :: 0 <= x < |t| ==> Uint8(xs)[a + x] == xs[a + x] % 256 == t[x];
  }

  /** A little-endian field of len bytes, read as an unsigned number, is v. */
  predicate Reads(s: seq<int>, a: int, len: nat, v: int) {
    0 <= a && a + len <= |s| && FromLE(s[a..a + len]) == v
  }

  lemma FieldReads(s: seq<int>, a: int, len: nat, n: int)
    requires len == 2 || len == 4
    requires At(s, a, BytesLE(n, len))
    ensures Reads(s, a, len, n % Pow256(len))
  {
    BytesLEDecode(n, len);
  }

  lemma LocalHeaderParts(n: int, m: int)
    ensures var h := LocalHeader(n, m);
      |h| == 30 && AllBytes(h) && h[0..4] == LocalSignature && h[14..18] == [0, 0, 0, 0] &&
      h[18..22] == BytesLE(n, 4) && h[22..26] == BytesLE(n, 4) && h[26..28] == BytesLE(m, 2)
  {
    var h := LocalHeader(n, m);
    var size := BytesLE(n, 4);
    assert h == LocalFixed + size + size + BytesLE(m, 2) + [0, 0];
    assert h[0..4] == LocalFixed[0..4];
    assert h[14..18] == LocalFixed[14..18];
  }

  /**
   * Wherever a local header sits: the signature, a CRC-32 of zero, the
   * content length modulo 2^32 as both sizes, the name length modulo 2^16.
   */
  lemma LocalHeaderFields(s: seq<int>, o: int, n: int, m: int)
    requires At(s, o, LocalHeader(n, m))
    ensures At(s, o, LocalSignature) && At(s, o + 14, [0, 0, 0, 0])
    ensures Reads(s, o + 18, 4, n % Two32) && Reads(s, o + 22, 4, n % Two32)
    ensures Reads(s, o + 26, 2, m % 0x1_0000)
  {
    var h := LocalHeader(n, m);
    LocalHeaderParts(n, m);
    Pow256Values();
    AtWithin(s, o, h, 0, 4);
    AtWithin(s, o, h, 14, 18);
    AtWithin(s, o, h, 18, 22);
    AtWithin(s, o, h, 22, 26);
    AtWithin(s, o, h, 26, 28);
    FieldReads(s, o + 18, 4, n);
    FieldReads(s, o + 22, 4, n);
    FieldReads(s, o + 26, 2, m);
  }

  lemma CentralHeaderParts(n: int, m: int, offset: int)
    ensures var h := CentralHeader(n, m, offset);
      |h| == 46 && AllBytes(h) && h[0..4] == CentralSignature && h[16..20] == [0, 0, 0, 0] &&
      h[20..24] == BytesLE(n, 4) && h[24..28] == BytesLE(n, 4) && h[28..30] == BytesLE(m, 2) &&
      h[42..46] == BytesLE(offset, 4)
  {
    var h := CentralHeader(n, m, offset);
    var size := BytesLE(n, 4);
    assert h == CentralFixed + size + size + BytesLE(m, 2) + CentralMiddle + BytesLE(offset, 4);
    assert h[0..4] == CentralFixed[0..4];
    assert h[16..20] == CentralFixed[16..20];
  }

  /**
   * Wherever a central header sits: the signature, a CRC-32 of zero, both
   * sizes and the name length as in the local header, and the offset of
   * the local header modulo 2^32.
   */
  lemma CentralHeaderFields(s: seq<int>, c: int, n: int, m: int, offset: int)
    requires At(s, c, CentralHeader(n, m, offset))
    ensures At(s, c, CentralSignature) && At(s, c + 16, [0, 0, 0, 0])
    ensures Reads(s, c + 20, 4, n % Two32) && Reads(s, c + 24, 4, n % Two32)
    ensures Reads(s, c + 28, 2, m % 0x1_0000) && Reads(s, c + 42, 4, offset % Two32)
  {
    var h := CentralHeader(n, m, offset);
    CentralHeaderParts(n, m, offset);
    Pow256Values();
    AtWithin(s, c, h, 0, 4);
    AtWithin(s, c, h, 16, 20);
    AtWithin(s, c, h, 20, 24);
    AtWithin(s, c, h, 24, 28);
    AtWithin(s, c, h, 28, 30);
    AtWithin(s, c, h, 42, 46);
    FieldReads(s, c + 20, 4, n);
    FieldReads(s, c + 24, 4, n);
    FieldReads(s, c + 28, 2, m);
    FieldReads(s, c + 42, 4, offset);
  }

  lemma EndRecordParts(count: int, centralLen: int, dataLen: int)
    ensures var e := EndRecord(count, centralLen, dataLen);
      |e| == 22 && AllBytes(e) && e[0..4] == EndSignature &&
      e[8..10] == BytesLE(count, 2) && e[10..12] == BytesLE(count, 2) &&
      e[12..16] == BytesLE(centralLen, 4) && e[16..20] == BytesLE(dataLen, 4)
  {
    var e := EndRecord(count, centralLen, dataLen);
    var n := BytesLE(count, 2);
    assert e == EndFixed + n + n + BytesLE(centralLen, 4) + BytesLE(dataLen, 4) + [0, 0];
    assert e[0..4] == EndFixed[0..4];
  }

  /**
   * Wherever an end record sits: the signature, the entry count modulo 2^16
   * twice, then the size and the offset of the central directory modulo 2^32.
   */
  lemma EndRecordFieldsAt(s: seq<int>, e: int, count: int, centralLen: int, dataLen: int)
    requires At(s, e, EndRecord(count, centralLen, dataLen))
    ensures At(s, e, EndSignature)
    ensures Reads(s, e + 8, 2, count % 0x1_0000) && Reads(s, e + 10, 2, count % 0x1_0000)
    ensures Reads(s, e + 12, 4, centralLen % Two32) && Reads(s, e + 16, 4, dataLen % Two32)
  {
    var r := EndRecord(count, centralLen, dataLen);
    EndRecordParts(count, centralLen, dataLen);
    Pow256Values();
    AtWithin(s, e, r, 0, 4);
    AtWithin(s, e, r, 8, 10);
    AtWithin(s, e, r, 10, 12);
    AtWithin(s, e, r, 12, 16);
    AtWithin(s, e, r, 16, 20);
    FieldReads(s, e + 8, 2, count);
    FieldReads(s, e + 10, 2, count);
    FieldReads(s, e + 12, 4, centralLen);
    FieldReads(s, e + 16, 4, dataLen);
  }

  /** A local entry is its header, the name, then the content. */
  lemma LocalEntryLayout(f: ZipFile)
    ensures At(LocalEntry(f), 0, LocalHeader(|f.content|, |f.name|))
    ensures At(LocalEntry(f), 30, StringToBytes(f.name))
    ensures At(LocalEntry(f), 30 + |f.name|, StringToBytes(f.content))
    ensures |LocalEntry(f)| == 30 + |f.name| + |f.content|
  {
    var h := LocalHeader(|f.content|, |f.name|);
    var nb, cb := StringToBytes(f.name), StringToBytes(f.content);
    LocalHeaderParts(|f.content|, |f.name|);
    assert LocalEntry(f) == h + nb + cb;
    assert (h + nb + cb)[30..30 + |nb|] == nb;
  }

  lemma CentralEntryLayout(f: ZipFile, offset: int)
    ensures At(CentralEntry(f, offset), 0, CentralHeader(|f.content|, |f.name|, offset))
    ensures At(CentralEntry(f, offset), 46, StringToBytes(f.name))
  {
    CentralHeaderParts(|f.content|, |f.name|, offset);
  }
  // ---------------------------------------------------------------------
  // The records inside the archive
  // ---------------------------------------------------------------------

  lemma AtAppend(s: seq<int>, a: int, t: seq<int>, q: seq<int>)
    requires At(s, a, t)
    ensures At(s + q, a, t)
  {
    assert (s + q)[a..a + |t|] == s[a..a + |t|];
  }

  lemma AtPrepend(p: seq<int>, s: seq<int>, a: int, t: seq<int>)
    requires At(s, a, t)
    ensures At(p + s, |p| + a, t)
  {
    assert (p + s)[|p| + a..|p| + a + |t|] == s[a..a + |t|];
  }

  lemma AtCompose(s: seq<int>, a: int, t: seq<int>, b: int, u: seq<int>)
    requires At(s, a, t) && At(t, b, u)
    ensures At(s, a + b, u)
  {
    AtWithin(s, a, t, b, b + |u|);
  }

  /** Bytes found in the data part keep their place in the converted archive. */
  lemma InData(data: seq<int>, central: seq<int>, count: int, a: int, t: seq<int>)
    requires At(data, a, t) && AllBytes(t)
    ensures At(Uint8(Archive(data, central, count)), a, t)
  {
    var end := EndRecord(count, |central|, |data|);
    AtAppend(data, a, t, central);
    AtAppend(data + central, a, t, end);
    Uint8At(data + central + end, a, t);
  }

  /** Bytes found in the central directory sit after the data in the converted archive. */
  lemma InCentral(data: seq<int>, central: seq<int>, count: int, a: int, t: seq<int>, pos: int)
    requires At(central, a, t) && AllBytes(t) && pos == |data| + a
    ensures At(Uint8(Archive(data, central, count)), pos, t)
  {
    var end := EndRecord(count, |central|, |data|);
    AtPrepend(data, central, a, t);
    AtAppend(data + central, pos, t, end);
    Uint8At(data + central + end, pos, t);
  }

  /** Bytes found in the end record sit after the data and the central directory. */
  lemma InEnd(data: seq<int>, central: seq<int>, count: int, a: int, t: seq<int>, pos: int)
    requires At(EndRecord(count, |central|, |data|), a, t) && AllBytes(t) && pos == |data| + |central| + a
    ensures At(Uint8(Archive(data, central, count)), pos, t)
  {
    var end := EndRecord(count, |central|, |data|);
    AtPrepend(data + central, end, a, t);
    Uint8At(data + central + end, pos, t);
  }

  /** Local entry k begins with its header at LocalSize(files[..k]). */
  lemma LocalHeaderAt(files: seq<ZipFile>, k: nat)
    requires k < |files|
    ensures At(LocalPart(files), LocalSize(files[..k]), LocalHeader(|files[k].content|, |files[k].name|))
  {
    var f := files[k];
    LocalEntryAt(files, k);
    LocalEntryLayout(f);
    AtCompose(LocalPart(files), LocalSize(files[..k]), LocalEntry(f), 0, LocalHeader(|f.content|, |f.name|));
  }

  /** Central entry k begins with its header at CentralSize(files[..k]). */
  lemma CentralHeaderAt(files: seq<ZipFile>, k: nat)
    requires k < |files|
    ensures At(CentralPart(files), CentralSize(files[..k]),
               CentralHeader(|files[k].content|, |files[k].name|, LocalSize(files[..k])))
  {
    var f, o := files[k], LocalSize(files[..k]);
    CentralEntryAt(files, k);
    CentralEntryLayout(f, o);
    AtCompose(CentralPart(files), CentralSize(files[..k]), CentralEntry(f, o), 0, CentralHeader(|f.content|, |f.name|, o));
  }

  /** Bytes at a in the local entries sit at a in the archive. */
  lemma DataInArchive(files: seq<ZipFile>, a: int, t: seq<int>)
    requires At(LocalPart(files), a, t) && AllBytes(t)
    ensures At(Uint8(ZipBytes(files)), a, t)
  {
    InData(LocalPart(files), CentralPart(files), |files|, a, t);
  }

  /** Bytes at a in the central directory sit at LocalSize(files) + a in the archive. */
  lemma DirectoryInArchive(files: seq<ZipFile>, a: int, t: seq<int>, pos: int)
    requires At(CentralPart(files), a, t) && AllBytes(t) && pos == LocalSize(files) + a
    ensures At(Uint8(ZipBytes(files)), pos, t)
  {
    PartLengths(files);
    InCentral(LocalPart(files), CentralPart(files), |files|, a, t, pos);
  }

  /**
   * Local entry k of the archive starts at the sum of the sizes of the
   * entries before it, with the local signature, a CRC-32 of zero, the
   * content length modulo 2^32 as both sizes and the name length modulo 2^16.
   */
  lemma LocalRecord(files: seq<ZipFile>, k: nat)
    requires k < |files|
    ensures var zip, o, f := Uint8(ZipBytes(files)), LocalSize(files[..k]), files[k];
      At(zip, o, LocalSignature) && At(zip, o + 14, [0, 0, 0, 0]) &&
      Reads(zip, o + 18, 4, |f.content| % Two32) && Reads(zip, o + 22, 4, |f.content| % Two32) &&
      Reads(zip, o + 26, 2, |f.name| % 0x1_0000)
  {
    var f := files[k];
    var h := LocalHeader(|f.content|, |f.name|);
    var zip := Uint8(ZipBytes(files));
    assert At(zip, LocalSize(files[..k]), h) by {
      LocalHeaderAt(files, k);
      LocalHeaderParts(|f.content|, |f.name|);
      DataInArchive(files, LocalSize(files[..k]), h);
    }
    LocalHeaderFields(zip, LocalSize(files[..k]), |f.content|, |f.name|);
  }

  /**
   * Central record k, at c, follows the local entries and the central
   * records before it; it carries the central signature, a CRC-32 of zero,
   * and the same sizes and name length as local entry k.
   */
  lemma CentralRecord(files: seq<ZipFile>, k: nat, c: int)
    requires k < |files| && c == LocalSize(files) + CentralSize(files[..k])
    ensures var zip, f := Uint8(ZipBytes(files)), files[k];
      At(zip, c, CentralSignature) && At(zip, c + 16, [0, 0, 0, 0]) &&
      Reads(zip, c + 20, 4, |f.content| % Two32) && Reads(zip, c + 24, 4, |f.content| % Two32) &&
      Reads(zip, c + 28, 2, |f.name| % 0x1_0000)
  {
    var f, o := files[k], LocalSize(files[..k]);
    CentralHeaderInArchive(files, k, c);
    CentralHeaderFields(Uint8(ZipBytes(files)), c, |f.content|, |f.name|, o);
  }

  /**
   * The offset field of central record k, 42 bytes into it, holds toBytesLE
   * of LocalSize of the files before it, which reads back as that size
   * modulo 2^32: the position at which local entry k starts.
   */
  lemma CentralRecordOffset(files: seq<ZipFile>, k: nat)
    requires k < |files|
    ensures At(CentralPart(files), CentralSize(files[..k]) + 42, BytesLE(LocalSize(files[..k]), 4))
    ensures FromLE(BytesLE(LocalSize(files[..k]), 4)) == LocalSize(files[..k]) % Two32
    ensures At(LocalPart(files), LocalSize(files[..k]), LocalEntry(files[k]))
  {
    var f, o := files[k], LocalSize(files[..k]);
    var h := CentralHeader(|f.content|, |f.name|, o);
    CentralHeaderAt(files, k);
    CentralHeaderParts(|f.content|, |f.name|, o);
    AtWithin(CentralPart(files), CentralSize(files[..k]), h, 42, 46);
    BytesLEDecode(o, 4);
    Pow256Values();
    LocalEntryAt(files, k);
  }

  lemma CentralHeaderInArchive(files: seq<ZipFile>, k: nat, c: int)
    requires k < |files| && c == LocalSize(files) + CentralSize(files[..k])
    ensures At(Uint8(ZipBytes(files)), c, CentralHeader(|files[k].content|, |files[k].name|, LocalSize(files[..k])))
  {
    var f, o := files[k], LocalSize(files[..k]);
    var h := CentralHeader(|f.content|, |f.name|, o);
    CentralHeaderAt(files, k);
    CentralHeaderParts(|f.content|, |f.name|, o);
    DirectoryInArchive(files, CentralSize(files[..k]), h, c);
  }

  /**
   * The last 22 bytes, at e: the end signature, the entry count modulo 2^16
   * twice, the size of the central directory and its offset, which is where
   * the local entries end, each modulo 2^32.
   */
  lemma EndRecordFields(files: seq<ZipFile>, e: int)
    requires e == LocalSize(files) + CentralSize(files)
    ensures var zip := Uint8(ZipBytes(files));
      |zip| == e + 22 && At(zip, e, EndSignature) &&
      Reads(zip, e + 8, 2, |files| % 0x1_0000) && Reads(zip, e + 10, 2, |files| % 0x1_0000) &&
      Reads(zip, e + 12, 4, CentralSize(files) % Two32) && Reads(zip, e + 16, 4, LocalSize(files) % Two32)
  {
    EndInArchive(files, e);
    EndRecordFieldsAt(Uint8(ZipBytes(files)), e, |files|, CentralSize(files), LocalSize(files));
  }

  lemma EndInArchive(files: seq<ZipFile>, e: int)
    requires e == LocalSize(files) + CentralSize(files)
    ensures |Uint8(ZipBytes(files))| == e + 22
    ensures At(Uint8(ZipBytes(files)), e, EndRecord(|files|, CentralSize(files), LocalSize(files)))
  {
    PartLengths(files);
    var r := EndRecord(|files|, CentralSize(files), LocalSize(files));
    EndRecordParts(|files|, CentralSize(files), LocalSize(files));
    assert At(r, 0, r);
    InEnd(LocalPart(files), CentralPart(files), |files|, 0, r, e);
  }

  // ---------------------------------------------------------------------
  // Reading the archive back
  // ---------------------------------------------------------------------

  /** Reads one local entry: the header, then as many name and content bytes as it announces. */
  function ReadLocal(b: seq<int>): Option<(ZipFile, seq<int>)> {
    if |b| < 30 || b[..4] != LocalSignature then None
    else
      var size, nameLen := FromLE(b[18..22]), FromLE(b[26..28]);
      if size < 0 || nameLen < 0 || |b| < 30 + nameLen + size then None
      else
        var name := BytesToString(b[30..30 + nameLen]);
        var content := BytesToString(b[30 + nameLen..30 + nameLen + size]);
        Some((ZipFile(name, content), b[30 + nameLen + size..]))
  }

  /** Reads n local entries one after the other. */
  function ReadLocals(b: seq<int>, n: nat): Option<seq<ZipFile>> {
    if n == 0 then Some([])
    else
      var first :- ReadLocal(b);
      var others :- ReadLocals(first.1, n - 1);
      Some([first.0] + others)
  }

  /** Takes the entry count from the end record, then reads that many local entries from the start. */
  function ReadArchive(zip: seq<int>): Option<seq<ZipFile>> {
    if |zip| < 22 || zip[|zip| - 22..|zip| - 18] != EndSignature then None
    else
      var count := FromLE(zip[|zip| - 14..|zip| - 12]);
      if count < 0 then None else ReadLocals(zip, count)
  }

  /** A file the archive can carry faithfully: one byte per character, lengths that fit their fields. */
  predicate Storable(f: ZipFile) {
    Latin1(f.name) && Latin1(f.content) && |f.name| < 0x1_0000 && |f.content| < Two32
  }

  /** The three fields a reader takes from a local header at the front of b. */
  lemma LocalEntryFields(f: ZipFile, rest: seq<int>)
    requires Storable(f)
    ensures var b := LocalEntry(f) + rest;
            && |b| >= 30 + |f.name| + |f.content|
            && b[..4] == LocalSignature
            && FromLE(b[18..22]) == |f.content|
            && FromLE(b[26..28]) == |f.name|
  {
    var n, m := |f.content|, |f.name|;
    var h := LocalHeader(n, m);
    var tail := StringToBytes(f.name) + StringToBytes(f.content) + rest;
    LocalEntrySplit(f, rest);
    LocalHeaderLength(n, m);
    PrefixOfConcat(h, tail, 28);
    HeaderFieldsRead(h + tail, h, n, m);
  }

  /** An entry followed by more bytes: the header, then the name, the content and the rest. */
  lemma LocalEntrySplit(f: ZipFile, rest: seq<int>)
    ensures LocalEntry(f) + rest ==
            LocalHeader(|f.content|, |f.name|) + (StringToBytes(f.name) + StringToBytes(f.content) + rest)
    ensures |StringToBytes(f.name) + StringToBytes(f.content) + rest| == |f.name| + |f.content| + |rest|
  {
  }

  lemma LocalHeaderLength(n: int, m: int)
    ensures |LocalHeader(n, m)| == 30
  {
  }

  lemma PrefixOfConcat(h: seq<int>, t: seq<int>, k: nat)
    requires k <= |h|
    ensures (h + t)[..k] == h[..k]
  {
  }

  /** The fields of a local header, read from any sequence that begins like it. */
  lemma HeaderFieldsRead(b: seq<int>, h: seq<int>, n: nat, m: nat)
    requires h == LocalHeader(n, m) && n < Two32 && m < 0x1_0000
    requires |b| >= 28 && b[..28] == h[..28]
    ensures b[..4] == LocalSignature && FromLE(b[18..22]) == n && FromLE(b[26..28]) == m
  {
    LocalHeaderParts(n, m);
    Pow256Values();
    assert b[..4] == h[0..4];
    assert b[18..22] == h[18..22];
    BytesLEExact(n, 4);
    assert b[26..28] == h[26..28];
    BytesLEExact(m, 2);
  }

  /** Slicing a header-name-content-rest concatenation back into its pieces. */
  lemma SliceEntry(h: seq<int>, x: seq<int>, y: seq<int>, z: seq<int>)
    ensures var b, k := h + x + y + z, |h|;
            && b[k..k + |x|] == x
            && b[k + |x|..k + |x| + |y|] == y
            && b[k + |x| + |y|..] == z
  {
    var b, k := h + x + y + z, |h|;
    assert b == h + (x + (y + z));
    assert b[k..] == x + (y + z);
    assert b[k + |x|..] == y + z;
  }

  /** After the 30 header bytes come the name's bytes, the content's bytes, and then whatever follows. */
  lemma LocalEntryData(f: ZipFile, rest: seq<int>)
    ensures var b, m, n := LocalEntry(f) + rest, |f.name|, |f.content|;
            && 30 + m + n <= |b|
            && b[30..30 + m] == StringToBytes(f.name)
            && b[30 + m..30 + m + n] == StringToBytes(f.content)
            && b[30 + m + n..] == rest
  {
    var n, m := |f.content|, |f.name|;
    LocalHeaderParts(n, m);
    SliceEntry(LocalHeader(n, m), StringToBytes(f.name), StringToBytes(f.content), rest);
  }

  lemma ReadLocalEntry(f: ZipFile, rest: seq<int>)
    requires Storable(f)
    ensures ReadLocal(LocalEntry(f) + rest) == Some((f, rest))
  {
    LocalEntryFields(f, rest);
    LocalEntryData(f, rest);
    Latin1RoundTrip(f.name);
    Latin1RoundTrip(f.content);
  }

  lemma {:induction false} JoinedCons(parts: seq<seq<int>>)
    requires parts != []
    ensures Joined(parts) == parts[0] + Joined(parts[1..])
    decreases |parts|
  {
    var n := |parts| - 1;
    if n > 0 {
      JoinedCons(parts[..n]);
      assert parts[..n][1..] == parts[1..][..n - 1];
      assert parts[..n][0] == parts[0] && parts[1..][n - 1] == parts[n];
    } else {
      assert parts[1..] == [];
    }
  }

  /** The local entries seen from the front: the first file's entry, then the others'. */
  lemma LocalPartCons(files: seq<ZipFile>)
    requires files != []
    ensures LocalPart(files) == LocalEntry(files[0]) + LocalPart(files[1..])
  {
    JoinedCons(LocalEntries(files));
    assert LocalEntries(files)[1..] == LocalEntries(files[1..]);
  }

  /** The local entries read back, in order, as the files they came from. */
  lemma {:induction false} ReadLocalsOf(files: seq<ZipFile>, rest: seq<int>)
    requires forall f | f in files :: Storable(f)
    ensures ReadLocals(LocalPart(files) + rest, |files|) == Some(files)
    decreases |files|
  {
    if files != [] {
      var f, tail := files[0], files[1..];
      var r := LocalPart(tail) + rest;
      assert Storable(f);
      LocalPartCons(files);
      ConcatAssoc(LocalEntry(f), LocalPart(tail), rest);
      ReadLocalEntry(f, r);
      ReadLocalsOf(tail, rest);
      ReadLocalsStep(LocalPart(files) + rest, f, r, tail);
      assert [f] + tail == files;
    }
  }

  lemma ConcatAssoc(x: seq<int>, y: seq<int>, z: seq<int>)
    ensures (x + y) + z == x + (y + z)
  {
  }

  /** One entry read, then the others: the first file comes before the rest. */
  lemma ReadLocalsStep(b: seq<int>, f: ZipFile, r: seq<int>, others: seq<ZipFile>)
    requires ReadLocal(b) == Some((f, r))
    requires ReadLocals(r, |others|) == Some(others)
    ensures ReadLocals(b, |others| + 1) == Some([f] + others)
  {
  }

  lemma {:induction false} JoinedAllBytes(parts: seq<seq<int>>)
    requires forall i | 0 <= i < |parts| :: AllBytes(parts[i])
    ensures AllBytes(Joined(parts))
    decreases |parts|
  {
    if parts != [] {
      JoinedAllBytes(parts[..|parts| - 1]);
    }
  }

  /** With one byte per character, the local entries open the archive unchanged by the Uint8Array. */
  lemma DataOpensArchive(files: seq<ZipFile>)
    requires forall f | f in files :: Storable(f)
    ensures LocalPart(files) <= Uint8(ZipBytes(files))
  {
    var data := LocalPart(files);
    assert AllBytes(data) by {
      forall i | 0 <= i < |files|
        ensures AllBytes(LocalEntries(files)[i])
      {
        var f := files[i];
        assert f in files;
        LocalHeaderParts(|f.content|, |f.name|);
        Latin1RoundTrip(f.name);
        Latin1RoundTrip(f.content);
        assert LocalEntry(f) == LocalHeader(|f.content|, |f.name|) + StringToBytes(f.name) + StringToBytes(f.content);
      }
      JoinedAllBytes(LocalEntries(files));
    }
    assert At(data, 0, data);
    DataInArchive(files, 0, data);
  }

  /**
   * Reading the Uint8Array that createZip returns gives back the files it
   * was given, provided there are fewer than 2^16 of them and each is storable.
   */
  lemma ZipRoundTrip(files: seq<ZipFile>)
    requires |files| < 0x1_0000
    requires forall f | f in files :: Storable(f)
    ensures ReadArchive(Uint8(ZipBytes(files))) == Some(files)
  {
    var zip := Uint8(ZipBytes(files));
    EndRecordReadBack(files, zip);
    DataOpensArchive(files);
    var rest := zip[|LocalPart(files)|..];
    PrefixSplit(LocalPart(files), zip);
    ReadLocalsOf(files, rest);
  }

  lemma PrefixSplit(p: seq<int>, s: seq<int>)
    requires p <= s
    ensures s == p + s[|p|..]
  {
  }

  /** The reader finds the end record 22 bytes from the end, and in it the number of files. */
  lemma EndRecordReadBack(files: seq<ZipFile>, zip: seq<int>)
    requires |files| < 0x1_0000 && zip == Uint8(ZipBytes(files))
    ensures |zip| >= 22 && zip[|zip| - 22..|zip| - 18] == EndSignature
    ensures FromLE(zip[|zip| - 14..|zip| - 12]) == |files|
  {
    var e := LocalSize(files) + CentralSize(files);
    EndRecordFields(files, e);
    DivModUnique(|files|, 0x1_0000, 0, |files|);
  }
}
