/** What the hash and the headers of mkbootimg.c hold, read back byte by byte. */
module BootHash {
  import opened BigNum
  import opened Bytes
  import opened BootFormat
  import opened BootWriter
  import opened ShaStream
  import opened Wrappers

  // ----- the hash tells images apart -----

  // A section and its size can be taken off the end.
  lemma PeelSection(p: seq<Byte>, x: seq<Byte>, q: seq<Byte>, y: seq<Byte>)
    requires |x| < 0x8000_0000 && |y| < 0x8000_0000
    requires p + x + LittleEndian(|x|) == q + y + LittleEndian(|y|)
    ensures p == q && x == y
  {
    hide LittleEndian;
    var a, b := p + x, q + y;
    var s, t := a + LittleEndian(|x|), b + LittleEndian(|y|);
    assert s[|s| - 4..] == LittleEndian(|x|) && t[|t| - 4..] == LittleEndian(|y|);
    LittleBack(|x|);
    LittleBack(|y|);
    assert s[..|s| - 4] == a && t[..|t| - 4] == b;
    assert a[|a| - |x|..] == x && b[|b| - |y|..] == y;
    assert a[..|a| - |x|] == p && b[..|b| - |y|] == q;
  }

  // Equal input means equal sections, as long as both images have a device tree or neither.
  lemma HashInputInjective(kernel: seq<Byte>, ramdisk: seq<Byte>, second: seq<Byte>, dt: Option<seq<Byte>>,
                           kernel': seq<Byte>, ramdisk': seq<Byte>, second': seq<Byte>, dt': Option<seq<Byte>>)
    requires |kernel| < 0x8000_0000 && |ramdisk| < 0x8000_0000 && |second| < 0x8000_0000 && FileSized(dt)
    requires |kernel'| < 0x8000_0000 && |ramdisk'| < 0x8000_0000 && |second'| < 0x8000_0000 && FileSized(dt')
    requires HashInput(kernel, ramdisk, second, dt) == HashInput(kernel', ramdisk', second', dt') && dt.Some? == dt'.Some?
    ensures kernel == kernel' && ramdisk == ramdisk' && second == second' && dt == dt'
  {
    hide LittleEndian;
    var k, k' := kernel + LittleEndian(|kernel|), kernel' + LittleEndian(|kernel'|);
    var r, r' := k + ramdisk + LittleEndian(|ramdisk|), k' + ramdisk' + LittleEndian(|ramdisk'|);
    var s, s' := r + second + LittleEndian(|second|), r' + second' + LittleEndian(|second'|);
    if dt.Some? {
      PeelSection(s, dt.value, s', dt'.value);
    }
    PeelSection(r, second, r', second');
    PeelSection(k, ramdisk, k', ramdisk');
    assert [] + kernel == kernel && [] + kernel' == kernel';
    PeelSection([], kernel, [], kernel');
  }

  // ----- where everything is -----

  // The bytes of a word of the header.
  function SizeBytes(a: Args, place: nat): (b: seq<Byte>)
    requires Accepted(a) && place + 4 <= HEADER_SIZE
  {
    Encode(HeaderOf(a))[place..place + 4]
  }

  // Word k of the header is at place 8 + 4 k.
  lemma WordPlace(h: Header, k: nat)
    requires WellSized(h) && k < 10
    ensures Encode(h)[8 + 4 * k..12 + 4 * k] == LittleEndian(Fields(h)[k])
  {
    hide WordBytes, Fields, LittleEndian, Encode;
    EncodeParts(h);
    WordBytesAt(Fields(h), k);
    SubSlice(Encode(h), 8, 48, 4 * k, 4 * k + 4);
  }

  lemma SubSlice(s: seq<Byte>, a: nat, b: nat, i: nat, j: nat)
    requires a <= b <= |s| && i <= j <= b - a
    ensures s[a..b][i..j] == s[a + i..a + j]
  {
    var x, y := s[a..b][i..j], s[a + i..a + j];
    assert forall k :: 0 <= k < j - i ==> x[k] == y[k];
  }

  // The hash is taken of kernel, ramdisk, second stage and device tree, each followed by the
  // four bytes of its size in the header.
  lemma ContentsPlaces(a: Args)
    requires Accepted(a)
    ensures var k, r, s := KernelBlob(a), RamdiskBlob(a), Section(a.second);
            Contents(a) == k + SizeBytes(a, 8) + r + SizeBytes(a, 16) + s + SizeBytes(a, 24)
                           + if a.dt.Some? then a.dt.value + SizeBytes(a, 40) else []
  {
    hide KernelBlob, RamdiskBlob, Encode, LittleEndian, Digest, StrField;
    var h := HeaderOf(a);
    WordPlace(h, 0);
    WordPlace(h, 2);
    WordPlace(h, 4);
    WordPlace(h, 8);
  }

  function ReadWord(d: seq<Byte>, place: nat): (w: Word)
    requires place + 4 <= |d|
  {
    FromLittle(d[place..place + 4])
  }

  lemma FieldAt(a: Args, k: nat)
    requires Accepted(a) && k < 10
    ensures |ImageOf(a)| >= HEADER_SIZE && ReadWord(ImageOf(a), 8 + 4 * k) == Fields(HeaderOf(a))[k]
  {
    hide HeaderOf, Fields, Encode, LittleEndian, FromLittle, ImageUnder;
    var h, d := HeaderOf(a), ImageOf(a);
    ImageStarts(HeaderOf(a), a);
    WordPlace(h, k);
    LittleBack(Fields(h)[k]);
    assert d[8 + 4 * k..12 + 4 * k] == d[..HEADER_SIZE][8 + 4 * k..12 + 4 * k];
  }

  // The words of the header in the image.
  lemma HeaderPlaces(a: Args, d: seq<Byte>)
    requires Accepted(a) && d == ImageOf(a)
    ensures |d| >= HEADER_SIZE
    ensures ReadWord(d, 8) == |KernelBlob(a)| && ReadWord(d, 12) == (a.base + a.kernelOffset) % 0x1_0000_0000
    ensures ReadWord(d, 16) == |RamdiskBlob(a)| && ReadWord(d, 20) == (a.base + a.ramdiskOffset) % 0x1_0000_0000
    ensures ReadWord(d, 24) == |Section(a.second)| && ReadWord(d, 28) == (a.base + a.secondOffset) % 0x1_0000_0000
    ensures ReadWord(d, 32) == (a.base + a.tagsOffset) % 0x1_0000_0000 && ReadWord(d, 36) == a.pageSize
    ensures ReadWord(d, 40) == |Section(a.dt)| && ReadWord(d, 44) == 0
  {
    hide KernelBlob, RamdiskBlob, Section, ReadWord, ImageUnder, Digest, StrField, Contents;
    ImageStarts(HeaderOf(a), a);
    forall k | 0 <= k < 10
      ensures ReadWord(d, 8 + 4 * k) == Fields(HeaderOf(a))[k]
    {
      FieldAt(a, k);
    }
    assert ReadWord(d, 8 + 4 * 0) == Fields(HeaderOf(a))[0] && ReadWord(d, 8 + 4 * 1) == Fields(HeaderOf(a))[1];
    assert ReadWord(d, 8 + 4 * 2) == Fields(HeaderOf(a))[2] && ReadWord(d, 8 + 4 * 3) == Fields(HeaderOf(a))[3];
    assert ReadWord(d, 8 + 4 * 4) == Fields(HeaderOf(a))[4] && ReadWord(d, 8 + 4 * 5) == Fields(HeaderOf(a))[5];
    assert ReadWord(d, 8 + 4 * 6) == Fields(HeaderOf(a))[6] && ReadWord(d, 8 + 4 * 7) == Fields(HeaderOf(a))[7];
    assert ReadWord(d, 8 + 4 * 8) == Fields(HeaderOf(a))[8] && ReadWord(d, 8 + 4 * 9) == Fields(HeaderOf(a))[9];
  }

  function IdOf(a: Args): (digest: seq<Byte>)
    requires Accepted(a)
  {
    Digest(SHA1, Contents(a))
  }

  // The magic, and the hash of the contents at its place.
  lemma IdPlace(a: Args, d: seq<Byte>)
    requires Accepted(a) && d == ImageOf(a)
    ensures |d| >= HEADER_SIZE && d[..8] == BOOT_MAGIC && d[576..596] == IdOf(a)
  {
    hide KernelBlob, RamdiskBlob, Section, Encode, ImageUnder, Digest, StrField, Contents;
    var h := HeaderOf(a);
    ImageStarts(HeaderOf(a), a);
    EncodeParts(h);
    var e := d[..HEADER_SIZE];
    assert h.id[..20] == IdOf(a);
    SubSlice(d, 0, HEADER_SIZE, 0, 8);
    SubSlice(d, 0, HEADER_SIZE, 576, 608);
    SubSlice(d, 576, 608, 0, 20);
  }

  // ----- the MTK header -----

  function Ascii(s: string): (b: seq<Byte>)
    requires forall i :: 0 <= i < |s| ==> s[i] < 128 as char
    ensures |b| == |s|
  {
    seq(|s|, i requires 0 <= i < |s| => s[i] as int)
  }

  // A reader of an MTK header finds the length of the file and the name of the partition.
  lemma MtkHeaderReads(size: Word, name: seq<Byte>)
    requires NoZeros(name) && |name| < 32
    ensures var b := MtkHeader(size, name);
            FromLittle(b[4..8]) == size && CString(b[8..40]) == name
  {
    hide LittleEndian, FromLittle, StrField;
    var b := MtkHeader(size, name);
    assert b[4..8] == LittleEndian(size);
    LittleBack(size);
    assert b[8..40] == StrField(name, 32);
    StrFieldBack(name, 32);
  }

  lemma Names()
    ensures KERNEL == Ascii("KERNEL") && ROOTFS == Ascii("ROOTFS") && RECOVERY == Ascii("RECOVERY")
    ensures BOOT_MAGIC == Ascii("ANDROID!") && BOOT_PART == Ascii("boot") && RECOVERY_PART == Ascii("recovery")
    ensures NoZeros(KERNEL) && NoZeros(ROOTFS) && NoZeros(RECOVERY)
  {
  }

  // The headers that an MTK image gets: the kernel's is called KERNEL, and the ramdisk's by
  // the first of the two words that the name of the image has in it.
  lemma MtkBlobsRead(a: Args)
    requires Accepted(a) && a.mtk
    ensures NeedsMtk(a.kernel.value) ==>
              var b := KernelBlob(a);
              |b| == MTK_SIZE + |a.kernel.value| && FromLittle(b[4..8]) == |a.kernel.value| && CString(b[8..40]) == Ascii("KERNEL")
    ensures var name := if Contains(a.output.value, Ascii("boot")) then Ascii("ROOTFS") else Ascii("RECOVERY");
            NeedsMtk(a.ramdisk.value) && (Contains(a.output.value, Ascii("boot")) || Contains(a.output.value, Ascii("recovery"))) ==>
              var b := RamdiskBlob(a);
              |b| == MTK_SIZE + |a.ramdisk.value| && FromLittle(b[4..8]) == |a.ramdisk.value| && CString(b[8..40]) == name
    ensures !Contains(a.output.value, Ascii("boot")) && !Contains(a.output.value, Ascii("recovery")) ==> RamdiskBlob(a) == []
  {
    hide Contains, FromLittle, CString, MtkHeader, Ascii;
    Names();
    BlobReads(a.kernel.value, KERNEL);
    BlobReads(a.ramdisk.value, ROOTFS);
    BlobReads(a.ramdisk.value, RECOVERY);
  }

  lemma BlobReads(file: seq<Byte>, name: seq<Byte>)
    requires |file| < 0x7FFF_FE00 && NoZeros(name) && |name| < 32
    ensures NeedsMtk(file) ==>
              var b := MtkBlob(file, name);
              |b| == MTK_SIZE + |file| && FromLittle(b[4..8]) == |file| && CString(b[8..40]) == name
  {
    hide FromLittle, CString, MtkHeader;
    MtkHeaderReads(|file|, name);
    var h, b := MtkHeader(|file|, name), MtkHeader(|file|, name) + file;
    assert b[4..8] == h[4..8] && b[8..40] == h[8..40];
  }
}
