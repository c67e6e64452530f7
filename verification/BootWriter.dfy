/** mkbootimg.c: the image that is written for a kernel, a ramdisk and their options. */
module BootWriter {
  import opened Bits
  import opened BigNum
  import opened Bytes
  import opened BootFormat
  import opened ShaStream
  import opened Wrappers

  // The options and the contents of the named files; output is the base name of the image.
  datatype Args = Args(
    output: Option<seq<Byte>>, kernel: Option<seq<Byte>>, ramdisk: Option<seq<Byte>>, second: Option<seq<Byte>>, dt: Option<seq<Byte>>,
    cmdline: seq<Byte>, board: seq<Byte>, pageSize: nat, base: Word,
    kernelOffset: Word, ramdiskOffset: Word, secondOffset: Word, tagsOffset: Word, mtk: bool)

  datatype Reason = UnsupportedPageSize | NoOutput | NoKernel | NoRamdisk | LongBoard | LongCmdline

  datatype Packed = Image(bytes: seq<Byte>) | Refused(why: Reason)

  // Strings come from the command line, and files have sizes that an int can hold.
  predicate FromCommandLine(a: Args) {
    NoZeros(a.cmdline) && NoZeros(a.board) && FileSized(a.kernel) && FileSized(a.ramdisk) && FileSized(a.second) && FileSized(a.dt)
  }

  predicate FileSized(file: Option<seq<Byte>>) {
    file.Some? ==> |file.value| < 0x7FFF_FE00
  }

  // The first complaint, if there is one.
  function Complaint(a: Args): (c: Option<Reason>) {
    if !PageSize(a.pageSize) then Some(UnsupportedPageSize)
    else if a.output.None? then Some(NoOutput)
    else if a.kernel.None? then Some(NoKernel)
    else if a.ramdisk.None? then Some(NoRamdisk)
    else if |a.board| >= NAME_SIZE then Some(LongBoard)
    else if |a.cmdline| > ARGS_SIZE + EXTRA_ARGS_SIZE - 2 then Some(LongCmdline)
    else None
  }

  predicate Accepted(a: Args) {
    FromCommandLine(a) && Complaint(a) == None
  }

  // ----- MTK headers -----

  const KERNEL: seq<Byte> := [0x4B, 0x45, 0x52, 0x4E, 0x45, 0x4C]
  const ROOTFS: seq<Byte> := [0x52, 0x4F, 0x4F, 0x54, 0x46, 0x53]
  const RECOVERY: seq<Byte> := [0x52, 0x45, 0x43, 0x4F, 0x56, 0x45, 0x52, 0x59]
  const BOOT_PART: seq<Byte> := [0x62, 0x6F, 0x6F, 0x74]
  const RECOVERY_PART: seq<Byte> := [0x72, 0x65, 0x63, 0x6F, 0x76, 0x65, 0x72, 0x79]

  // strstr
  predicate Contains(s: seq<Byte>, part: seq<Byte>) {
    exists i :: 0 <= i <= |s| && PartAt(s, part, i)
  }

  // A file as it goes into an MTK image.
  function MtkBlob(file: seq<Byte>, name: seq<Byte>): (b: seq<Byte>)
    requires |file| < 0x7FFF_FE00 && |name| < 32
    ensures |b| < 0x8000_0000
  {
    if NeedsMtk(file) then MtkHeader(|file|, name) + file else file
  }

  // The ramdisk of an MTK image is named after the image, and dropped when its name is neither.
  function RamdiskName(output: seq<Byte>): (name: Option<seq<Byte>>)
    ensures name.Some? ==> |name.value| < 32
  {
    if Contains(output, BOOT_PART) then Some(ROOTFS) else if Contains(output, RECOVERY_PART) then Some(RECOVERY) else None
  }

  function KernelBlob(a: Args): (b: seq<Byte>)
    requires Accepted(a)
    ensures |b| < 0x8000_0000
  {
    if a.mtk then MtkBlob(a.kernel.value, KERNEL) else a.kernel.value
  }

  function RamdiskBlob(a: Args): (b: seq<Byte>)
    requires Accepted(a)
    ensures |b| < 0x8000_0000
  {
    if !a.mtk then a.ramdisk.value
    else if RamdiskName(a.output.value).Some? then MtkBlob(a.ramdisk.value, RamdiskName(a.output.value).value)
    else []
  }

  // An optional section is empty when its file is not given.
  function Section(file: Option<seq<Byte>>): (b: seq<Byte>)
    requires FileSized(file)
    ensures |b| < 0x8000_0000
  {
    if file.Some? then file.value else []
  }

  // ----- the image -----

  // What the hash in the header is taken of.
  function Contents(a: Args): (m: seq<Byte>)
    requires Accepted(a)
    ensures |m| < 0x2_0000_0010
  {
    HashInput(KernelBlob(a), RamdiskBlob(a), Section(a.second), a.dt)
  }

  // The sections, each followed by its size.
  function HashInput(kernel: seq<Byte>, ramdisk: seq<Byte>, second: seq<Byte>, dt: Option<seq<Byte>>): (m: seq<Byte>)
    requires |kernel| < 0x8000_0000 && |ramdisk| < 0x8000_0000 && |second| < 0x8000_0000 && FileSized(dt)
    ensures |m| < 0x2_0000_0010
  {
    var m := kernel + LittleEndian(|kernel|) + ramdisk + LittleEndian(|ramdisk|) + second + LittleEndian(|second|);
    if dt.Some? then m + dt.value + LittleEndian(|dt.value|) else m
  }

  function Add32(a: Word, b: Word): (s: Word) {
    (a + b) % 0x1_0000_0000
  }

  function HeaderOf(a: Args): (h: Header)
    requires Accepted(a)
    ensures WellSized(h)
  {
    Header(|KernelBlob(a)|, Add32(a.base, a.kernelOffset), |RamdiskBlob(a)|, Add32(a.base, a.ramdiskOffset),
           |Section(a.second)|, Add32(a.base, a.secondOffset), Add32(a.base, a.tagsOffset), a.pageSize, |Section(a.dt)|, 0,
           StrField(a.board, NAME_SIZE),
           StrField(a.cmdline, ARGS_SIZE - 1) + [0],
           Digest(SHA1, Contents(a)) + Fill(ID_SIZE - 20, 0),
           StrField(if |a.cmdline| >= ARGS_SIZE - 1 then a.cmdline[ARGS_SIZE - 1..] else [], EXTRA_ARGS_SIZE))
  }

  // A header, kernel, ramdisk, second stage and device tree, each on whole pages.
  function ImageUnder(h: Header, a: Args): (b: seq<Byte>)
    requires Accepted(a) && WellSized(h)
  {
    Paged(Encode(h), a.pageSize) + Paged(KernelBlob(a), a.pageSize) + Paged(RamdiskBlob(a), a.pageSize)
    + Paged(Section(a.second), a.pageSize) + Paged(Section(a.dt), a.pageSize)
  }

  function ImageOf(a: Args): (b: seq<Byte>)
    requires Accepted(a)
  {
    ImageUnder(HeaderOf(a), a)
  }

  lemma ImageStarts(h: Header, a: Args)
    requires Accepted(a) && WellSized(h)
    ensures |ImageUnder(h, a)| >= HEADER_SIZE && ImageUnder(h, a)[..HEADER_SIZE] == Encode(h)
    ensures ImageUnder(h, a) == Encode(h) + ImageUnder(h, a)[HEADER_SIZE..]
  {
    hide Encode, HeaderOf, KernelBlob, RamdiskBlob, Section, PadLength;
  }

  // ----- the program -----

  // memcpy into a buffer.
  method Store(dst: array<Byte>, at: nat, src: seq<Byte>)
    requires at + |src| <= dst.Length
    modifies dst
    ensures dst[..] == old(dst[..at]) + src + old(dst[at + |src|..])
  {
    var i := 0;
    while i < |src|
      invariant 0 <= i <= |src|
      invariant dst[..at] == old(dst[..at]) && dst[at..at + i] == src[..i] && dst[at + i..] == old(dst[at + i..])
    {
      dst[at + i] := src[i];
      assert dst[at..at + i + 1] == dst[at..at + i] + [src[i]];
      i := i + 1;
    }
    assert dst[..] == dst[..at] + dst[at..at + |src|] + dst[at + |src|..];
  }

  // memset
  method SetAll(dst: array<Byte>, at: nat, n: nat, b: Byte)
    requires at + n <= dst.Length
    modifies dst
    ensures dst[..] == old(dst[..at]) + Fill(n, b) + old(dst[at + n..])
  {
    Store(dst, at, Fill(n, b));
  }

  // strncpy: at most n bytes, zeros after the end of the string.
  method StrNCpy(dst: array<Byte>, src: seq<Byte>, n: nat)
    requires n <= dst.Length
    modifies dst
    ensures dst[..] == StrField(src, n) + old(dst[n..])
  {
    var i := 0;
    while i < n
      invariant 0 <= i <= n && dst[..i] == StrField(src, n)[..i] && dst[n..] == old(dst[n..])
    {
      dst[i] := if i < |src| then src[i] else 0;
      assert dst[..i + 1] == dst[..i] + [StrField(src, n)[i]];
      i := i + 1;
    }
    assert dst[..] == dst[..n] + dst[n..];
  }

  // The same, over a part that is known.
  method StorePart(dst: array<Byte>, at: nat, src: seq<Byte>, ghost p: seq<Byte>, ghost q: seq<Byte>, ghost r: seq<Byte>)
    requires at == |p| && |q| == |src| && dst[..] == p + q + r
    modifies dst
    ensures dst[..] == p + src + r
  {
    Store(dst, at, src);
  }

  // The places of the MTK fields in a block of 0xFF.
  lemma MtkPlaces(le: seq<Byte>, name: seq<Byte>, rest: seq<Byte>)
    requires |le| == 4 && |name| <= 32
    ensures var f, m := Fill(MTK_SIZE - 40, 0xFF), MTK_MAGIC;
            && Fill(MTK_SIZE, 0xFF) + rest == [] + Fill(4, 0xFF) + (Fill(36, 0xFF) + f + rest)
            && [] + m + (Fill(36, 0xFF) + f + rest) == m + Fill(4, 0xFF) + (Fill(32, 0xFF) + f + rest)
            && m + le + (Fill(32, 0xFF) + f + rest) == (m + le) + Fill(32, 0xFF) + (f + rest)
            && (m + le) + Fill(32, 0) + (f + rest) == (m + le) + Fill(|name|, 0) + (Fill(32 - |name|, 0) + f + rest)
            && (m + le) + name + (Fill(32 - |name|, 0) + f + rest) == (m + le + StrField(name, 32) + f) + rest
  {
  }

  // The header fields of load_mtk_file, written over a block of 0xFF.
  method FillMtkHeader(data: array<Byte>, size: Word, name: seq<Byte>)
    requires data.Length >= MTK_SIZE && |name| <= 32
    modifies data
    ensures data[..] == MtkHeader(size, name) + old(data[MTK_SIZE..])
  {
    hide Fill, LittleEndian, StrField;
    ghost var rest, le, f := data[MTK_SIZE..], LittleEndian(size), Fill(MTK_SIZE - 40, 0xFF);
    MtkPlaces(le, name, rest);
    SetAll(data, 0, MTK_SIZE, 0xFF);
    assert data[..] == Fill(MTK_SIZE, 0xFF) + rest;
    StorePart(data, 0, MTK_MAGIC, [], Fill(4, 0xFF), Fill(36, 0xFF) + f + rest);
    StorePart(data, 4, LittleEndian(size), MTK_MAGIC, Fill(4, 0xFF), Fill(32, 0xFF) + f + rest);
    StorePart(data, 8, Fill(32, 0), MTK_MAGIC + le, Fill(32, 0xFF), f + rest);
    StorePart(data, 8, name, MTK_MAGIC + le, Fill(|name|, 0), Fill(32 - |name|, 0) + f + rest);
  }

  // load_mtk_file
  method LoadMtkFile(file: seq<Byte>, name: seq<Byte>) returns (data: array<Byte>)
    requires |file| < 0x7FFF_FE00 && |name| < 32
    ensures fresh(data) && data[..] == MtkBlob(file, name)
  {
    var offset := 0;
    if |file| >= 4 && file[..4] != MTK_MAGIC {
      offset := MTK_SIZE;
    }
    data := new Byte[offset + |file|](i => 0);
    Store(data, offset, file);
    assert data[offset..] == file;
    if offset > 0 {
      FillMtkHeader(data, |file|, name);
    }
  }

  // struct boot_img_hdr
  class BootImgHdr {
    var kernelSize: Word
    var kernelAddr: Word
    var ramdiskSize: Word
    var ramdiskAddr: Word
    var secondSize: Word
    var secondAddr: Word
    var tagsAddr: Word
    var pageSize: Word
    var dtSize: Word
    const name: array<Byte>
    const cmdline: array<Byte>
    const id: array<Byte>
    const extraCmdline: array<Byte>

    ghost predicate Valid() {
      && name.Length == NAME_SIZE && cmdline.Length == ARGS_SIZE && id.Length == ID_SIZE && extraCmdline.Length == EXTRA_ARGS_SIZE
      && name != cmdline && name != id && name != extraCmdline && cmdline != id && cmdline != extraCmdline && id != extraCmdline
    }

    function Value(): (h: Header)
      requires Valid()
      reads this, name, cmdline, id, extraCmdline
      ensures WellSized(h)
    {
      Header(kernelSize, kernelAddr, ramdiskSize, ramdiskAddr, secondSize, secondAddr, tagsAddr, pageSize, dtSize, 0,
             name[..], cmdline[..], id[..], extraCmdline[..])
    }

    // memset(&hdr, 0, sizeof(hdr))
    constructor ()
      ensures Valid() && fresh(name) && fresh(cmdline) && fresh(id) && fresh(extraCmdline)
      ensures Value() == Header(0, 0, 0, 0, 0, 0, 0, 0, 0, 0, Fill(NAME_SIZE, 0), Fill(ARGS_SIZE, 0), Fill(ID_SIZE, 0), Fill(EXTRA_ARGS_SIZE, 0))
    {
      kernelSize, kernelAddr, ramdiskSize, ramdiskAddr, secondSize, secondAddr, tagsAddr, pageSize, dtSize := 0, 0, 0, 0, 0, 0, 0, 0, 0;
      name := new Byte[NAME_SIZE](i => 0);
      cmdline := new Byte[ARGS_SIZE](i => 0);
      id := new Byte[ID_SIZE](i => 0);
      extraCmdline := new Byte[EXTRA_ARGS_SIZE](i => 0);
    }

    // The two command line fields; the second takes what does not fit into the first.
    method SetCmdline(line: seq<Byte>)
      requires Valid() && NoZeros(line) && |line| <= ARGS_SIZE + EXTRA_ARGS_SIZE - 2
      requires extraCmdline[..] == Fill(EXTRA_ARGS_SIZE, 0)
      modifies cmdline, extraCmdline
      ensures cmdline[..] == StrField(line, ARGS_SIZE - 1) + [0]
      ensures extraCmdline[..] == StrField(if |line| >= ARGS_SIZE - 1 then line[ARGS_SIZE - 1..] else [], EXTRA_ARGS_SIZE)
    {
      StrNCpy(cmdline, line, ARGS_SIZE - 1);
      cmdline[ARGS_SIZE - 1] := 0;
      if |line| >= ARGS_SIZE - 1 {
        StrNCpy(extraCmdline, line[ARGS_SIZE - 1..], EXTRA_ARGS_SIZE);
      }
    }
  }

  // The output stream.
  class OutFile {
    var data: seq<Byte>

    constructor ()
      ensures data == []
    {
      data := [];
    }

    // fwrite
    method Write(bytes: seq<Byte>)
      modifies this
      ensures data == old(data) + bytes
    {
      data := data + bytes;
    }

    // write_padding
    method WritePadding(pageSize: nat, itemSize: nat)
      requires pageSize > 0
      modifies this
      ensures data == old(data) + Fill(PadLength(itemSize, pageSize), 0)
    {
      var pageMask := pageSize - 1;
      if And(pageMask, itemSize) == 0 {
        return;
      }
      AndBelow(pageMask, itemSize);
      var count := pageSize - And(pageMask, itemSize);
      Write(Fill(count, 0));
    }

    // An item and its padding.
    method WriteItem(pageSize: nat, item: seq<Byte>)
      requires pageSize > 0
      modifies this
      ensures data == old(data) + Paged(item, pageSize)
    {
      Write(item);
      WritePadding(pageSize, |item|);
    }
  }

  // The hash that tells images apart.
  method HashImage(kernel: seq<Byte>, ramdisk: seq<Byte>, second: seq<Byte>, dt: Option<seq<Byte>>) returns (digest: seq<Byte>)
    requires |kernel| < 0x8000_0000 && |ramdisk| < 0x8000_0000 && |second| < 0x8000_0000 && FileSized(dt)
    ensures digest == Digest(SHA1, HashInput(kernel, ramdisk, second, dt))
  {
    hide Digest, LittleEndian, Context.Valid, Padded;
    var ctx := new Context(SHA1);
    ctx.Update(kernel);
    ctx.Update(LittleEndian(|kernel|));
    ctx.Update(ramdisk);
    ctx.Update(LittleEndian(|ramdisk|));
    ctx.Update(second);
    ctx.Update(LittleEndian(|second|));
    assert ctx.fed == HashInput(kernel, ramdisk, second, None);
    if dt.Some? {
      ctx.Update(dt.value);
      ctx.Update(LittleEndian(|dt.value|));
    }
    digest := ctx.Final();
  }

  // The sections in their order, each filled up to a page.
  method WriteSections(pageSize: nat, header: seq<Byte>, kernel: seq<Byte>, ramdisk: seq<Byte>, second: Option<seq<Byte>>, dt: Option<seq<Byte>>)
    returns (bytes: seq<Byte>)
    requires pageSize > 0 && FileSized(second) && FileSized(dt)
    ensures bytes == Paged(header, pageSize) + Paged(kernel, pageSize) + Paged(ramdisk, pageSize)
                     + Paged(Section(second), pageSize) + Paged(Section(dt), pageSize)
  {
    hide Paged;
    PagedNothing(pageSize);
    var f := new OutFile();
    f.WriteItem(pageSize, header);
    f.WriteItem(pageSize, kernel);
    f.WriteItem(pageSize, ramdisk);
    if second.Some? {
      f.WriteItem(pageSize, second.value);
    }
    if dt.Some? {
      f.WriteItem(pageSize, dt.value);
    }
    bytes := f.data;
  }

  lemma PagedNothing(page: nat)
    requires page > 0
    ensures Paged([], page) == []
  {
  }

  // The files are loaded, hashed and written out behind the header.
  method WriteImage(a: Args, hdr: BootImgHdr) returns (bytes: seq<Byte>)
    requires Accepted(a) && hdr.Valid() && hdr.id[..] == Fill(ID_SIZE, 0)
    requires hdr.Value() == HeaderOf(a).(kernelSize := 0, ramdiskSize := 0, secondSize := 0, dtSize := 0, id := Fill(ID_SIZE, 0))
    modifies hdr, hdr.id
    ensures bytes == ImageOf(a)
  {
    hide Digest, KernelBlob, RamdiskBlob, HashInput, StrField, Encode, Paged;
    var kernel, ramdisk := LoadBoth(a);
    hdr.kernelSize, hdr.ramdiskSize := |kernel|, |ramdisk|;
    var second := if a.second.Some? then a.second.value else [];
    hdr.secondSize := |second|;
    hdr.dtSize := if a.dt.Some? then |a.dt.value| else 0;
    var sha := HashImage(kernel, ramdisk, second, a.dt);
    Store(hdr.id, 0, sha);
    assert hdr.id[..] == sha + Fill(ID_SIZE - 20, 0);
    assert hdr.Value() == HeaderOf(a);
    bytes := WriteSections(a.pageSize, Encode(hdr.Value()), kernel, ramdisk, a.second, a.dt);
  }

  // The kernel and the ramdisk as they are stored.
  method LoadBoth(a: Args) returns (kernel: seq<Byte>, ramdisk: seq<Byte>)
    requires Accepted(a)
    ensures kernel == KernelBlob(a) && ramdisk == RamdiskBlob(a)
  {
    if a.mtk {
      var k := LoadMtkFile(a.kernel.value, KERNEL);
      kernel, ramdisk := k[..], [];
      if Contains(a.output.value, BOOT_PART) {
        var d := LoadMtkFile(a.ramdisk.value, ROOTFS);
        ramdisk := d[..];
      } else if Contains(a.output.value, RECOVERY_PART) {
        var d := LoadMtkFile(a.ramdisk.value, RECOVERY);
        ramdisk := d[..];
      }
    } else {
      kernel, ramdisk := a.kernel.value, a.ramdisk.value;
    }
  }

  // main of mkbootimg, after its options are read.
  method MkBootImg(a: Args) returns (r: Packed)
    requires FromCommandLine(a)
    ensures r == if Complaint(a).Some? then Refused(Complaint(a).value) else Image(ImageOf(a))
  {
    hide Digest, KernelBlob, RamdiskBlob, HashInput, StrField, ImageOf;
    if !PageSize(a.pageSize) {
      return Refused(UnsupportedPageSize);
    }
    var hdr := new BootImgHdr();
    hdr.pageSize := a.pageSize;
    hdr.kernelAddr := Add32(a.base, a.kernelOffset);
    hdr.ramdiskAddr := Add32(a.base, a.ramdiskOffset);
    hdr.secondAddr := Add32(a.base, a.secondOffset);
    hdr.tagsAddr := Add32(a.base, a.tagsOffset);
    if a.output.None? {
      return Refused(NoOutput);
    }
    if a.kernel.None? {
      return Refused(NoKernel);
    }
    if a.ramdisk.None? {
      return Refused(NoRamdisk);
    }
    if |a.board| >= NAME_SIZE {
      return Refused(LongBoard);
    }
    StrNCpy(hdr.name, a.board, NAME_SIZE);
    if |a.cmdline| > ARGS_SIZE + EXTRA_ARGS_SIZE - 2 {
      return Refused(LongCmdline);
    }
    hdr.SetCmdline(a.cmdline);
    var bytes := WriteImage(a, hdr);
    r := Image(bytes);
  }
}
