/** bootimg.h: the header of a boot image, the MTK header, and how sections fill pages. */
module BootFormat {
  import opened Arith
  import opened Bits
  import opened BigNum
  import opened Bytes

  // "ANDROID!", and the first four bytes of an MTK header.
  const BOOT_MAGIC: seq<Byte> := [0x41, 0x4E, 0x44, 0x52, 0x4F, 0x49, 0x44, 0x21]
  const MTK_MAGIC: seq<Byte> := [0x88, 0x16, 0x88, 0x58]

  const NAME_SIZE := 16
  const ARGS_SIZE := 512
  const ID_SIZE := 32
  const EXTRA_ARGS_SIZE := 1024
  const HEADER_SIZE := 1632
  const MTK_SIZE := 512

  datatype Header = Header(
    kernelSize: Word, kernelAddr: Word, ramdiskSize: Word, ramdiskAddr: Word, secondSize: Word, secondAddr: Word,
    tagsAddr: Word, pageSize: Word, dtSize: Word, unused: Word,
    name: seq<Byte>, cmdline: seq<Byte>, id: seq<Byte>, extraCmdline: seq<Byte>)

  predicate WellSized(h: Header) {
    |h.name| == NAME_SIZE && |h.cmdline| == ARGS_SIZE && |h.id| == ID_SIZE && |h.extraCmdline| == EXTRA_ARGS_SIZE
  }

  // ----- little-endian words -----

  function LittleEndian(w: Word): (b: seq<Byte>)
    ensures |b| == 4
  {
    var b := Split(w);
    [b[3], b[2], b[1], b[0]]
  }

  function FromLittle(b: seq<Byte>): (w: Word)
    requires |b| == 4
  {
    Sum4(b[3], b[2], b[1], b[0])
  }

  lemma LittleBack(w: Word)
    ensures FromLittle(LittleEndian(w)) == w
  {
    hide Split, Sum4;
    SplitJoins(w);
  }

  function WordBytes(ws: seq<Word>): (b: seq<Byte>)
    ensures |b| == 4 * |ws|
  {
    if ws == [] then [] else WordBytes(ws[..|ws| - 1]) + LittleEndian(ws[|ws| - 1])
  }

  lemma {:induction false} WordBytesAt(ws: seq<Word>, k: nat)
    requires k < |ws|
    ensures WordBytes(ws)[4 * k..4 * k + 4] == LittleEndian(ws[k])
  {
    hide LittleEndian;
    var n := |ws| - 1;
    if k < n {
      WordBytesAt(ws[..n], k);
      assert WordBytes(ws)[4 * k..4 * k + 4] == WordBytes(ws[..n])[4 * k..4 * k + 4];
    }
  }

  // ----- the header -----

  function Fields(h: Header): (ws: seq<Word>)
    ensures |ws| == 10
  {
    [h.kernelSize, h.kernelAddr, h.ramdiskSize, h.ramdiskAddr, h.secondSize, h.secondAddr, h.tagsAddr, h.pageSize, h.dtSize, h.unused]
  }

  // The packed structure as it lies in the file.
  function Encode(h: Header): (b: seq<Byte>)
    requires WellSized(h)
    ensures |b| == HEADER_SIZE
  {
    BOOT_MAGIC + WordBytes(Fields(h)) + h.name + h.cmdline + h.id + h.extraCmdline
  }

  function Field(b: seq<Byte>, k: nat): (w: Word)
    requires |b| == HEADER_SIZE && k < 10
  {
    FromLittle(b[8 + 4 * k..12 + 4 * k])
  }

  function Decode(b: seq<Byte>): (h: Header)
    requires |b| == HEADER_SIZE
    ensures WellSized(h)
  {
    Header(Field(b, 0), Field(b, 1), Field(b, 2), Field(b, 3), Field(b, 4), Field(b, 5), Field(b, 6), Field(b, 7), Field(b, 8), Field(b, 9),
           b[48..64], b[64..576], b[576..608], b[608..])
  }

  // Reading a header back gives the fields that were written.
  lemma HeaderRoundTrip(h: Header)
    requires WellSized(h)
    ensures Decode(Encode(h)) == h
  {
    hide WordBytes, FromLittle, LittleEndian;
    var b := Encode(h);
    EncodeParts(h);
    forall k | 0 <= k < 10
      ensures Field(b, k) == Fields(h)[k]
    {
      WordBytesAt(Fields(h), k);
      assert b[8 + 4 * k..12 + 4 * k] == b[8..48][4 * k..4 * k + 4];
      LittleBack(Fields(h)[k]);
    }
  }

  lemma EncodeParts(h: Header)
    requires WellSized(h)
    ensures var b := Encode(h);
            && b[..8] == BOOT_MAGIC && b[8..48] == WordBytes(Fields(h)) && b[48..64] == h.name && b[64..576] == h.cmdline
            && b[576..608] == h.id && b[608..] == h.extraCmdline
  {
    hide WordBytes, Fields;
    var w := WordBytes(Fields(h));
    var b1 := BOOT_MAGIC + w;
    var b2 := b1 + h.name;
    var b3 := b2 + h.cmdline;
    var b4 := b3 + h.id;
    var b := b4 + h.extraCmdline;
    assert b[..608] == b4 && b[608..] == h.extraCmdline;
    assert b4[..576] == b3 && b4[576..] == h.id;
    assert b3[..64] == b2 && b3[64..] == h.cmdline;
    assert b2[..48] == b1 && b2[48..] == h.name;
    assert b[..576] == b3 && b[..64] == b2 && b[..48] == b1;
    assert b[576..608] == b[..608][576..] && b[64..576] == b[..576][64..] && b[48..64] == b[..64][48..] && b[8..48] == b[..48][8..] && b[..8] == b[..48][..8];
  }

  // ----- strings in fixed fields -----

  // What strlen and printf see: the bytes before the first zero.
  function CString(b: seq<Byte>): (s: seq<Byte>)
    ensures |s| <= |b| && s == b[..|s|]
    ensures |s| < |b| ==> b[|s|] == 0
    ensures forall i :: 0 <= i < |s| ==> s[i] != 0
  {
    if b == [] || b[0] == 0 then [] else
      var t := CString(b[1..]);
      assert b[1..][..|t|] == b[1..|t| + 1];
      [b[0]] + t
  }

  predicate NoZeros(s: seq<Byte>) {
    forall i :: 0 <= i < |s| ==> s[i] != 0
  }

  function Fill(n: nat, b: Byte): (s: seq<Byte>)
    ensures |s| == n
  {
    seq(n, i => b)
  }

  // strncpy into n bytes, or strcpy into a field that was zero.
  function StrField(s: seq<Byte>, n: nat): (b: seq<Byte>)
    ensures |b| == n
  {
    if |s| >= n then s[..n] else s + Fill(n - |s|, 0)
  }

  lemma CStringIs(b: seq<Byte>, s: seq<Byte>)
    requires NoZeros(s) && |s| <= |b| && b[..|s|] == s && (|s| < |b| ==> b[|s|] == 0)
    ensures CString(b) == s
  {
    var t := CString(b);
    assert forall i :: 0 <= i < |s| ==> b[..|s|][i] == b[i];
    assert forall i :: 0 <= i < |t| ==> b[..|t|][i] == b[i];
  }

  lemma StrFieldBack(s: seq<Byte>, n: nat)
    requires NoZeros(s) && |s| <= n
    ensures CString(StrField(s, n)) == s
  {
    CStringIs(StrField(s, n), s);
  }

  predicate PartAt(s: seq<Byte>, part: seq<Byte>, i: nat) {
    i + |part| <= |s| && s[i..i + |part|] == part
  }

  // ----- pages -----

  predicate PageSize(page: nat) {
    page in {2048, 4096, 8192, 16384, 32768, 65536, 131072}
  }

  // The bytes from the end of an item to the end of its page.
  function PadLength(size: nat, page: nat): (n: nat)
    requires page > 0
    ensures n <= page
  {
    var rest := And(page - 1, size);
    AndBelow(page - 1, size);
    if rest == 0 then 0 else page - rest
  }

  lemma {:induction false} AndBelow(a: nat, b: nat)
    ensures And(a, b) <= a
  {
    if a > 0 && b > 0 {
      AndBelow(a / 2, b / 2);
    }
  }

  // Every padded item ends on a page boundary, with less than a page of padding.
  lemma PadAligns(size: nat, page: nat)
    requires PageSize(page)
    ensures PadLength(size, page) < page && (size + PadLength(size, page)) % page == 0
  {
    hide And;
    var k := PageBits(page);
    AndMask(size, k);
    var q := size / page;
    if size % page == 0 {
    } else {
      DivModUnique(size + PadLength(size, page), q + 1, 0, page);
    }
  }

  function PageBits(page: nat): (k: nat)
    requires PageSize(page)
    ensures Pow(2, k) == page
  {
    assert Pow(2, 8) == 0x100;
    PowAdd(2, 8, 3);
    PowAdd(2, 8, 4);
    PowAdd(2, 8, 5);
    PowAdd(2, 8, 6);
    PowAdd(2, 8, 7);
    PowAdd(2, 8, 8);
    PowAdd(2, 8, 9);
    if page == 2048 then 11 else if page == 4096 then 12 else if page == 8192 then 13 else if page == 16384 then 14
    else if page == 32768 then 15 else if page == 65536 then 16 else 17
  }

  // An item on whole pages.
  function Paged(item: seq<Byte>, page: nat): (b: seq<Byte>)
    requires page > 0
  {
    item + Fill(PadLength(|item|, page), 0)
  }

  // ----- the MTK header -----

  function MtkHeader(size: Word, name: seq<Byte>): (b: seq<Byte>)
    requires |name| <= 32
    ensures |b| == MTK_SIZE && b[..4] == MTK_MAGIC
  {
    var b := MTK_MAGIC + LittleEndian(size) + StrField(name, 32) + Fill(MTK_SIZE - 40, 0xFF);
    assert b[..4] == MTK_MAGIC;
    b
  }

  // A file gets a header if its first four bytes can be read and are not the magic.
  predicate NeedsMtk(file: seq<Byte>) {
    |file| >= 4 && file[..4] != MTK_MAGIC
  }
}
