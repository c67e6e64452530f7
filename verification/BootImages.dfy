/** What unpackbootimg.c recovers of an image that mkbootimg.c wrote, and when. */
module BootImages {
  import opened BigNum
  import opened Bytes
  import opened BootFormat
  import opened BootReader
  import opened BootWriter
  import opened ShaStream
  import opened Wrappers

  // ----- reading back what was written -----

  lemma SliceMiddle(p: seq<Byte>, q: seq<Byte>, r: seq<Byte>)
    ensures Slice(p + q + r, |p|, |q|) == q
  {
    var d := p + q + r;
    assert d[|p|..|p| + |q|] == q;
  }

  lemma PartInside(p: seq<Byte>, q: seq<Byte>, r: seq<Byte>, part: seq<Byte>)
    requires |part| <= |q| && q[..|part|] == part
    ensures PartAt(p + q + r, part, |p|)
  {
    assert (p + q + r)[|p|..|p| + |part|] == q[..|part|];
  }

  // A section that lies behind its MTK header, or has none, is read and its padding passed over.
  lemma SectionBack(p: seq<Byte>, item: seq<Byte>, r: seq<Byte>, skip: nat, page: nat)
    requires page > 0 && skip <= |item|
    ensures var d := p + Paged(item, page) + r;
            && FileAt(d, |p|, |item|, skip) == Spot(Cut(item, skip), |p| + |item|)
            && SkipPadding(d, |p| + |item|, |item|, page) == |p + Paged(item, page)|
            && |Paged(item, page)| == |item| + PadLength(|item|, page)
  {
    hide PadLength, Slice;
    var d := p + Paged(item, page) + r;
    var pad := Fill(PadLength(|item|, page), 0);
    SliceMiddle(p, item[..skip], item[skip..] + pad + r);
    assert d == p + item[..skip] + (item[skip..] + pad + r);
    SliceMiddle(p + item[..skip], item[skip..], pad + r);
    assert d == (p + item[..skip]) + item[skip..] + (pad + r);
    SliceMiddle(p + item, pad, r);
    assert d == (p + item) + pad + r;
    EmptySlice(d, |p|);
  }

  // What is left of a stored section behind its MTK header.
  function Cut(item: seq<Byte>, skip: nat): (file: Option<seq<Byte>>)
    requires skip <= |item|
  {
    if item == [] then None else Some(item[skip..])
  }

  // The header starts at the first place of its magic, so what leads the image is passed over.
  ghost predicate PassedOver(lead: seq<Byte>, image: seq<Byte>) {
    |lead| <= 512 && forall k :: 0 <= k < |lead| ==> !PartAt(lead + image, BOOT_MAGIC, k)
  }

  ghost predicate Leads(lead: seq<Byte>, a: Args)
    requires Accepted(a)
  {
    PassedOver(lead, ImageOf(a))
  }

  lemma HeaderFound(lead: seq<Byte>, h: Header, a: Args)
    requires Accepted(a) && WellSized(h) && PassedOver(lead, ImageUnder(h, a))
    ensures var d := lead + ImageUnder(h, a);
            && FirstMatch(d, BOOT_MAGIC, 0, 512) == |lead|
            && Slice(d, |lead|, HEADER_SIZE) == Encode(h)
  {
    hide Encode, ImageUnder, PartAt, Slice;
    var d, e := lead + ImageUnder(h, a), Encode(h);
    ImageStarts(h, a);
    var rest := ImageUnder(h, a)[HEADER_SIZE..];
    assert d == lead + e + rest;
    SliceMiddle(lead, e, rest);
    MagicFirst(h);
    PartInside(lead, e, rest, BOOT_MAGIC);
  }

  lemma MagicFirst(h: Header)
    requires WellSized(h)
    ensures Encode(h)[..8] == BOOT_MAGIC
  {
    EncodeParts(h);
  }

  // Everything that comes out of an image, for any options, with anything in front.
  lemma UnpackImage(lead: seq<Byte>, a: Args)
    requires Accepted(a) && Leads(lead, a)
    requires FoundMtk(lead + ImageOf(a)) ==> |KernelBlob(a)| >= MTK_SIZE && |RamdiskBlob(a)| >= MTK_SIZE
    ensures var m := FoundMtk(lead + ImageOf(a));
            var skip := if m then MTK_SIZE else 0;
            Unpack(lead + ImageOf(a), 0)
            == Described(HeaderOf(a), m, Cut(KernelBlob(a), skip), Cut(RamdiskBlob(a), skip), Cut(Section(a.second), 0), Cut(Section(a.dt), 0))
  {
    hide Unpack, FoundMtk, Described, KernelBlob, RamdiskBlob, Section, ImageUnder, HeaderOf;
    SizesStored(a);
    assert HeaderOf(a).(pageSize := a.pageSize) == HeaderOf(a);
    UnpackPages(lead, a, a.pageSize, 0);
  }

  // The page size of the caller stands for the one in the header, whatever that says: with
  // the page size that the image was written with, everything comes out.
  lemma UnpackPages(lead: seq<Byte>, a: Args, stored: Word, option: Word)
    requires Accepted(a) && a.pageSize == if option == 0 then stored else option
    requires PassedOver(lead, ImageUnder(HeaderOf(a).(pageSize := stored), a))
    requires FoundMtk(lead + ImageUnder(HeaderOf(a).(pageSize := stored), a)) ==> |KernelBlob(a)| >= MTK_SIZE && |RamdiskBlob(a)| >= MTK_SIZE
    ensures var h := HeaderOf(a).(pageSize := stored);
            var m := FoundMtk(lead + ImageUnder(h, a));
            var skip := if m then MTK_SIZE else 0;
            Unpack(lead + ImageUnder(h, a), option)
            == Described(h, m, Cut(KernelBlob(a), skip), Cut(RamdiskBlob(a), skip), Cut(Section(a.second), 0), Cut(Section(a.dt), 0))
  {
    hide Unpack, FoundMtk, Described, KernelBlob, RamdiskBlob, Section, SectionsAt, ImageUnder, HeaderOf;
    var h := HeaderOf(a).(pageSize := stored);
    var m := FoundMtk(lead + ImageUnder(h, a));
    SizesStored(a);
    HeaderRead(lead, h, a, option);
    SectionsBack(lead, h, a, if m then MTK_SIZE else 0);
  }

  lemma HeaderRead(lead: seq<Byte>, h: Header, a: Args, option: Word)
    requires Accepted(a) && WellSized(h) && PassedOver(lead, ImageUnder(h, a)) && a.pageSize == if option == 0 then h.pageSize else option
    ensures var d := lead + ImageUnder(h, a);
            Unpack(d, option) == UnpackAt(d, |lead|, h, a.pageSize, FoundMtk(d))
  {
    hide Encode, FoundMtk, Decode, UnpackAt, ImageUnder, Slice;
    HeaderFound(lead, h, a);
    HeaderRoundTrip(h);
  }

  lemma SizesStored(a: Args)
    requires Accepted(a)
    ensures var h := HeaderOf(a);
            && h.kernelSize == |KernelBlob(a)| && h.ramdiskSize == |RamdiskBlob(a)| && h.secondSize == |Section(a.second)|
            && h.dtSize == |Section(a.dt)| && h.pageSize == a.pageSize && 0 < a.pageSize < 0x8000_0000
  {
    hide KernelBlob, RamdiskBlob, Section, Digest, StrField;
  }

  // The five reads of the reader meet the five items of the writer.
  lemma SectionsBack(lead: seq<Byte>, h: Header, a: Args, skip: nat)
    requires Accepted(a) && WellSized(h) && skip <= |KernelBlob(a)| && skip <= |RamdiskBlob(a)|
    ensures SectionsAt(lead + ImageUnder(h, a), |lead| + HEADER_SIZE, |KernelBlob(a)|, |RamdiskBlob(a)|, |Section(a.second)|, |Section(a.dt)|, skip, a.pageSize)
         == Sections(Cut(KernelBlob(a), skip), Cut(RamdiskBlob(a), skip), Cut(Section(a.second), 0), Cut(Section(a.dt), 0), |lead + ImageUnder(h, a)| - PadLength(|Section(a.dt)|, a.pageSize))
  {
    hide SectionsAt, PadLength, KernelBlob, RamdiskBlob, Section, Encode;
    var d, page := lead + ImageUnder(h, a), a.pageSize;
    var e, pad := Encode(h), Fill(PadLength(HEADER_SIZE, page), 0);
    var k, r, s, t := KernelBlob(a), RamdiskBlob(a), Section(a.second), Section(a.dt);
    FiveSections(lead, e, pad, k, r, s, t, skip, page);
    assert d == lead + (e + pad + Paged(k, page) + Paged(r, page) + Paged(s, page) + Paged(t, page));
  }

  lemma FiveSections(lead: seq<Byte>, e: seq<Byte>, pad: seq<Byte>, k: seq<Byte>, r: seq<Byte>, s: seq<Byte>, t: seq<Byte>, skip: nat, page: nat)
    requires page > 0 && skip <= |k| && skip <= |r| && |e| == HEADER_SIZE && |pad| == PadLength(HEADER_SIZE, page)
    ensures var d := lead + (e + pad + Paged(k, page) + Paged(r, page) + Paged(s, page) + Paged(t, page));
            SectionsAt(d, |lead| + HEADER_SIZE, |k|, |r|, |s|, |t|, skip, page) == Sections(Cut(k, skip), Cut(r, skip), Cut(s, 0), Cut(t, 0), |d| - PadLength(|t|, page))
  {
    hide FileAt, SkipPadding, Paged, PadLength;
    var pk, pr, ps, pt := Paged(k, page), Paged(r, page), Paged(s, page), Paged(t, page);
    var d := lead + (e + pad + pk + pr + ps + pt);
    HeaderPadding(lead + e, pad, pk + pr + ps + pt, page);
    assert d == lead + e + pad + (pk + pr + ps + pt);
    SectionBack(lead + e + pad, k, pr + ps + pt, skip, page);
    assert d == lead + e + pad + pk + (pr + ps + pt);
    SectionBack(lead + e + pad + pk, r, ps + pt, skip, page);
    assert d == lead + e + pad + pk + pr + (ps + pt);
    SectionBack(lead + e + pad + pk + pr, s, pt, 0, page);
    assert d == lead + e + pad + pk + pr + ps + pt;
    SectionBack(lead + e + pad + pk + pr + ps, t, [], 0, page);
    assert d == lead + e + pad + pk + pr + ps + pt + [];
  }

  lemma HeaderPadding(p: seq<Byte>, pad: seq<Byte>, r: seq<Byte>, page: nat)
    requires page > 0 && |pad| == PadLength(HEADER_SIZE, page)
    ensures SkipPadding(p + pad + r, |p|, HEADER_SIZE, page) == |p + pad|
  {
    hide Slice;
    SliceMiddle(p, pad, r);
  }

  // ----- when the files come back -----

  // Which of the two files mkbootimg puts behind a new MTK header, and a ramdisk it drops.
  predicate KernelMarked(a: Args)
    requires Accepted(a)
  {
    a.mtk && NeedsMtk(a.kernel.value)
  }

  predicate RamdiskMarked(a: Args)
    requires Accepted(a)
  {
    a.mtk && RamdiskName(a.output.value).Some? && NeedsMtk(a.ramdisk.value)
  }

  predicate RamdiskDropped(a: Args)
    requires Accepted(a)
  {
    a.mtk && RamdiskName(a.output.value).None?
  }

  predicate Returns(r: Unpacked, a: Args) {
    r.Files? && r.kernel == a.kernel && r.ramdisk == a.ramdisk
  }

  // Exactly when kernel and ramdisk come back: nothing was dropped, and the reader takes
  // headers off both if and only if the writer put them on.
  lemma ReturnsIff(lead: seq<Byte>, a: Args)
    requires Accepted(a) && Leads(lead, a) && a.kernel.value != [] && a.ramdisk.value != []
    ensures var m := FoundMtk(lead + ImageOf(a));
            Returns(Unpack(lead + ImageOf(a), 0), a) <==> !RamdiskDropped(a) && (m <==> KernelMarked(a)) && (m <==> RamdiskMarked(a))
  {
    hide Unpack, FoundMtk, HeaderOf, ImageOf, KernelBlob, RamdiskBlob;
    var d := lead + ImageOf(a);
    var m := FoundMtk(d);
    BlobsMarked(a);
    if m && (|KernelBlob(a)| < MTK_SIZE || |RamdiskBlob(a)| < MTK_SIZE) {
      ShortSections(lead, a);
    } else {
      UnpackImage(lead, a);
      CutMarked(KernelBlob(a), a.kernel.value, KernelMarked(a), if m then MTK_SIZE else 0);
      if !RamdiskDropped(a) {
        CutMarked(RamdiskBlob(a), a.ramdisk.value, RamdiskMarked(a), if m then MTK_SIZE else 0);
      }
    }
  }

  // A blob is its file, with a header in front if it is marked.
  predicate IsBlob(blob: seq<Byte>, file: seq<Byte>, marked: bool) {
    if marked then |blob| == MTK_SIZE + |file| && blob[MTK_SIZE..] == file else blob == file
  }

  lemma BlobsMarked(a: Args)
    requires Accepted(a)
    ensures IsBlob(KernelBlob(a), a.kernel.value, KernelMarked(a))
    ensures if RamdiskDropped(a) then RamdiskBlob(a) == [] else IsBlob(RamdiskBlob(a), a.ramdisk.value, RamdiskMarked(a))
  {
    hide MtkHeader, Contains;
  }

  lemma CutMarked(blob: seq<Byte>, file: seq<Byte>, marked: bool, skip: nat)
    requires file != [] && IsBlob(blob, file, marked) && skip <= |blob| && (skip == 0 || skip == MTK_SIZE)
    ensures Cut(blob, skip) == Some(file) <==> (marked <==> skip == MTK_SIZE)
  {
    assert |blob[skip..]| == |blob| - skip;
    assert blob[0..] == blob;
  }

  // A magic that no header follows: the sizes wrap around, or a dropped ramdisk stays away.
  lemma ShortSections(lead: seq<Byte>, a: Args)
    requires Accepted(a) && Leads(lead, a) && FoundMtk(lead + ImageOf(a)) && a.kernel.value != [] && a.ramdisk.value != []
    requires |KernelBlob(a)| < MTK_SIZE || |RamdiskBlob(a)| < MTK_SIZE
    ensures !Returns(Unpack(lead + ImageOf(a), 0), a)
  {
    hide Unpack, FoundMtk, KernelBlob, RamdiskBlob, Slice, SkipPadding, ImageUnder, HeaderOf;
    BlobsMarked(a);
    SizesStored(a);
    HeaderRead(lead, HeaderOf(a), a, 0);
  }

  // Without the MTK option the files come back exactly when no place up to 4096 looks like
  // an MTK header.
  lemma PlainReturns(lead: seq<Byte>, a: Args)
    requires Accepted(a) && Leads(lead, a) && a.kernel.value != [] && a.ramdisk.value != [] && !a.mtk
    ensures Returns(Unpack(lead + ImageOf(a), 0), a) <==> forall k :: 0 <= k <= 4096 ==> !PartAt(lead + ImageOf(a), MTK_MAGIC, k)
  {
    hide Unpack, ImageOf, PartAt;
    ReturnsIff(lead, a);
  }

  // With it, pages of at most 4096 bytes are small enough for the reader to see the header
  // of the kernel.
  lemma MtkReturns(a: Args)
    requires Accepted(a) && a.kernel.value != [] && a.ramdisk.value != [] && KernelMarked(a) && RamdiskMarked(a) && a.pageSize <= 4096
    ensures Returns(Unpack(ImageOf(a), 0), a)
  {
    hide Unpack, ImageOf, KernelBlob, Contains, PartAt;
    var d, page := ImageOf(a), a.pageSize;
    assert [] + d == d;
    MagicAtPage(a);
    ReturnsIff([], a);
  }

  lemma MagicAtPage(a: Args)
    requires Accepted(a) && KernelMarked(a)
    ensures PartAt(ImageOf(a), MTK_MAGIC, a.pageSize)
  {
    hide HeaderOf, Encode, MtkHeader, RamdiskBlob, PadLength, Section;
    var page, k := a.pageSize, KernelBlob(a);
    var first := Paged(Encode(HeaderOf(a)), page);
    var rest := Fill(PadLength(|k|, page), 0) + Paged(RamdiskBlob(a), page) + Paged(Section(a.second), page) + Paged(Section(a.dt), page);
    HeaderPage(a);
    assert ImageOf(a) == first + k + rest;
    assert k[..4] == MTK_MAGIC;
    PartInside(first, k, rest, MTK_MAGIC);
  }

  lemma HeaderPage(a: Args)
    requires Accepted(a)
    ensures |Paged(Encode(HeaderOf(a)), a.pageSize)| == a.pageSize
  {
    hide Encode, HeaderOf, PadLength;
    var page, n := a.pageSize, HEADER_SIZE + PadLength(HEADER_SIZE, a.pageSize);
    PadAligns(HEADER_SIZE, page);
    OnePage(n, page);
  }

  lemma OnePage(n: nat, page: nat)
    requires 0 < n < 2 * page && n % page == 0
    ensures n == page
  {
  }

  // A board name that is the magic makes the reader cut a kernel that has no MTK header.
  lemma BoardMisleads(a: Args)
    requires Accepted(a) && a.kernel.value != [] && a.ramdisk.value != [] && !a.mtk && a.board == MTK_MAGIC
    ensures !Returns(Unpack(ImageOf(a), 0), a)
  {
    hide Unpack, Encode, ImageUnder, HeaderOf, PartAt;
    var d, h := ImageOf(a), HeaderOf(a);
    assert [] + d == d;
    EncodeParts(h);
    NameField(a);
    ImageStarts(h, a);
    var e, rest := Encode(h), d[HEADER_SIZE..];
    assert e[48..] == h.name + e[64..];
    PartInside(e[..48], e[48..], rest, MTK_MAGIC);
    assert d == e[..48] + e[48..] + rest;
    PlainReturns([], a);
  }

  lemma NameField(a: Args)
    requires Accepted(a) && |a.board| <= NAME_SIZE
    ensures HeaderOf(a).name[..|a.board|] == a.board
  {
    hide Digest, Contents, KernelBlob, RamdiskBlob;
  }

  // ----- the strings -----

  // Both fields together are the command line, whatever its length.
  lemma CmdlineRebuilt(a: Args)
    requires Accepted(a)
    ensures CString(HeaderOf(a).cmdline) + CString(HeaderOf(a).extraCmdline) == a.cmdline
  {
    hide Digest, Contents, KernelBlob, RamdiskBlob;
    var h, n := HeaderOf(a), ARGS_SIZE - 1;
    if |a.cmdline| >= n {
      CStringIs(h.cmdline, a.cmdline[..n]);
      StrFieldBack(a.cmdline[n..], EXTRA_ARGS_SIZE);
    } else {
      CStringIs(h.cmdline, a.cmdline);
      StrFieldBack([], EXTRA_ARGS_SIZE);
    }
  }

  function FirstPart(line: seq<Byte>): (s: seq<Byte>) {
    if |line| >= ARGS_SIZE - 1 then line[..ARGS_SIZE - 1] else line
  }

  // The reader writes only what is in the first field: a line longer than 511 bytes is cut.
  lemma StringsOut(a: Args)
    requires Accepted(a)
    ensures var h := HeaderOf(a);
            && Printed(h.name, h.cmdline + h.id + h.extraCmdline) == (if a.board == [] then None else Some(a.board))
            && Printed(h.cmdline, h.id + h.extraCmdline) == (if a.cmdline == [] then None else Some(FirstPart(a.cmdline)))
  {
    hide Digest, Contents, KernelBlob, RamdiskBlob;
    var h := HeaderOf(a);
    CStringIs(h.name + (h.cmdline + h.id + h.extraCmdline), a.board);
    CStringIs(h.cmdline + (h.id + h.extraCmdline), FirstPart(a.cmdline));
  }

  lemma CmdlineKeptIff(a: Args)
    requires Accepted(a)
    ensures var h := HeaderOf(a);
            Printed(h.cmdline, h.id + h.extraCmdline) == Some(a.cmdline) <==> 0 < |a.cmdline| <= ARGS_SIZE - 1
  {
    hide HeaderOf, Printed;
    StringsOut(a);
    WholeLine(a.cmdline);
  }

  lemma WholeLine(line: seq<Byte>)
    ensures FirstPart(line) == line <==> |line| <= ARGS_SIZE - 1
  {
    if |line| == ARGS_SIZE - 1 {
      assert line[..|line|] == line;
    }
  }

  // ----- packing again -----

  function OrElse<T>(o: Option<T>, default: T): (t: T) {
    if o.Some? then o.value else default
  }

  // The options for mkbootimg that stand in the files of the reader, and its defaults.
  function Repack(r: Unpacked, output: Option<seq<Byte>>): (a: Args)
    requires r.Files?
  {
    Args(output, r.kernel, r.ramdisk, r.second, r.dt, OrElse(r.cmdline, []), OrElse(r.board, []), OrElse(r.pageSize, 2048), OrElse(r.base, 0x1000_0000),
         OrElse(r.kernelOffset, 0x8000), OrElse(r.ramdiskOffset, 0x100_0000), OrElse(r.secondOffset, 0xF0_0000), OrElse(r.tagsOffset, 0x100), r.mtk)
  }

  // The addresses that the reader can give: its base is 0x8000 below the kernel, and an
  // address whose offset it does not write has to be at the default offset from there.
  predicate AddressesKept(h: Header) {
    var base := Sub32(h.kernelAddr, 0x8000);
    && h.kernelAddr != 0
    && (h.secondSize != 0 || h.secondAddr == Add32(base, 0xF0_0000))
    && (h.tagsAddr != 0 || Add32(base, 0x100) == 0)
  }

  lemma AddressBack(addr: Word, base: Word)
    ensures Add32(base, Sub32(addr, base)) == addr
  {
  }

  // Unpacking an image and packing the result gives the same image, byte for byte.
  lemma RepackSame(lead: seq<Byte>, a: Args)
    requires Accepted(a) && Leads(lead, a) && a.kernel.value != [] && a.ramdisk.value != []
    requires Returns(Unpack(lead + ImageOf(a), 0), a)
    requires |a.cmdline| <= ARGS_SIZE - 1 && a.dt != Some([]) && AddressesKept(HeaderOf(a))
    ensures var b := Repack(Unpack(lead + ImageOf(a), 0), a.output);
            Accepted(b) && ImageOf(b) == ImageOf(a)
  {
    hide Unpack, HeaderOf, ImageOf, KernelBlob, RamdiskBlob, FoundMtk, Printed, Add32, Sub32, Contains;
    var h, m := HeaderOf(a), FoundMtk(lead + ImageOf(a));
    ReturnsIff(lead, a);
    BlobsMarked(a);
    UnpackImage(lead, a);
    SizesStored(a);
    StringsOut(a);
    WholeLine(a.cmdline);
    var b := Repack(Unpack(lead + ImageOf(a), 0), a.output);
    SameBlobs(a, b);
    SameAddresses(a, b);
    SameImage(a, b);
  }

  lemma SameAddresses(a: Args, b: Args)
    requires Accepted(a) && Accepted(b) && AddressesKept(HeaderOf(a))
    requires var h := HeaderOf(a);
             var base := Sub32(h.kernelAddr, 0x8000);
             && b.base == base && b.kernelOffset == Sub32(h.kernelAddr, base) && b.ramdiskOffset == Sub32(h.ramdiskAddr, base)
             && b.secondOffset == (if h.secondSize != 0 then Sub32(h.secondAddr, base) else 0xF0_0000)
             && b.tagsOffset == (if h.tagsAddr != 0 then Sub32(h.tagsAddr, base) else 0x100)
    ensures var h := HeaderOf(a);
            && Add32(b.base, b.kernelOffset) == h.kernelAddr && Add32(b.base, b.ramdiskOffset) == h.ramdiskAddr
            && Add32(b.base, b.secondOffset) == h.secondAddr && Add32(b.base, b.tagsOffset) == h.tagsAddr
  {
    hide HeaderOf, Add32, Sub32;
    var h := HeaderOf(a);
    AddressBack(h.kernelAddr, b.base);
    AddressBack(h.ramdiskAddr, b.base);
    AddressBack(h.secondAddr, b.base);
    AddressBack(h.tagsAddr, b.base);
  }

  lemma SameImage(a: Args, b: Args)
    requires Accepted(a) && Accepted(b) && KernelBlob(b) == KernelBlob(a) && RamdiskBlob(b) == RamdiskBlob(a)
    requires Section(b.second) == Section(a.second) && b.dt == a.dt && b.pageSize == a.pageSize
    requires b.board == a.board && b.cmdline == a.cmdline
    requires var h := HeaderOf(a);
             && Add32(b.base, b.kernelOffset) == h.kernelAddr && Add32(b.base, b.ramdiskOffset) == h.ramdiskAddr
             && Add32(b.base, b.secondOffset) == h.secondAddr && Add32(b.base, b.tagsOffset) == h.tagsAddr
    ensures ImageOf(b) == ImageOf(a)
  {
    hide KernelBlob, RamdiskBlob, Section, Add32, Digest, HashInput, StrField, Encode, Paged;
    assert Contents(b) == Contents(a);
    assert HeaderOf(b) == HeaderOf(a);
  }

  // Unmarked files are stored as they are, so the option makes no difference for them.
  lemma SameBlobs(a: Args, b: Args)
    requires Accepted(a) && Accepted(b) && !RamdiskDropped(a)
    requires b.kernel == a.kernel && b.ramdisk == a.ramdisk && b.output == a.output
    requires b.mtk == KernelMarked(a) == RamdiskMarked(a)
    ensures KernelBlob(b) == KernelBlob(a) && RamdiskBlob(b) == RamdiskBlob(a)
  {
    hide MtkHeader, Contains;
  }
}
