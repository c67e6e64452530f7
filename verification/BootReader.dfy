/** unpackbootimg.c: the files that are taken out of a boot image. */
module BootReader {
  import opened Bits
  import opened BigNum
  import opened Bytes
  import opened BootFormat
  import opened Wrappers

  // What is written: the numbers and strings in files of their own, and the sections.
  // Undefined stands for what C leaves open: an incomplete header, a page size that is zero
  // or negative as an int, and an MTK section that is shorter than its header.
  datatype Unpacked =
    | NoMagic
    | Undefined
    | Files(pageSize: Option<Word>, base: Option<Word>, mtk: bool,
            kernelOffset: Option<Word>, kernel: Option<seq<Byte>>, ramdiskOffset: Option<Word>, ramdisk: Option<seq<Byte>>,
            secondOffset: Option<Word>, second: Option<seq<Byte>>, tagsOffset: Option<Word>,
            board: Option<seq<Byte>>, cmdline: Option<seq<Byte>>, dt: Option<seq<Byte>>)

  // The bytes that fread delivers: fewer at the end of the file.
  function Slice(d: seq<Byte>, from: nat, n: nat): (s: seq<Byte>)
    ensures |s| <= n
  {
    if from >= |d| then [] else if from + n <= |d| then d[from..from + n] else d[from..]
  }

  // The first of the places 0 to limit where the magic stands, or limit + 1.
  function FirstMatch(d: seq<Byte>, magic: seq<Byte>, i: nat, limit: nat): (j: nat)
    requires i <= limit + 1
    ensures i <= j <= limit + 1 && (j <= limit ==> PartAt(d, magic, j))
    ensures forall k :: i <= k < j ==> !PartAt(d, magic, k)
    decreases limit + 1 - i
  {
    if i > limit || PartAt(d, magic, i) then i else FirstMatch(d, magic, i + 1, limit)
  }

  predicate FoundMtk(d: seq<Byte>) {
    FirstMatch(d, MTK_MAGIC, 0, 4096) <= 4096
  }

  datatype Spot = Spot(file: Option<seq<Byte>>, next: nat)

  // One section: its MTK header is passed over, and the rest is read if the size is not zero.
  function FileAt(d: seq<Byte>, at: nat, size: nat, skip: nat): (s: Spot)
    requires LongEnough(size, skip)
  {
    var from := at + |Slice(d, at, skip)|;
    var file := if size == 0 then [] else Slice(d, from, size - skip);
    Spot(if size == 0 then None else Some(file), from + |file|)
  }

  function SkipPadding(d: seq<Byte>, at: nat, size: nat, page: nat): (next: nat)
    requires page > 0
  {
    at + |Slice(d, at, PadLength(size, page))|
  }

  function Sub32(a: Word, b: Word): (s: Word) {
    (a - b) % 0x1_0000_0000
  }

  // A string is printed from its field on, up to the first zero of the header.
  function Printed(field: seq<Byte>, rest: seq<Byte>): (s: Option<seq<Byte>>) {
    if field != [] && field[0] != 0 then Some(CString(field + rest)) else None
  }

  // All files of the image whose header is at place i; page is what the caller asked for.
  function Unpack(d: seq<Byte>, page: Word): (r: Unpacked) {
    var i := FirstMatch(d, BOOT_MAGIC, 0, 512);
    if i > 512 then NoMagic
    else if |Slice(d, i, HEADER_SIZE)| < HEADER_SIZE then Undefined
    else
      var h := Decode(Slice(d, i, HEADER_SIZE));
      UnpackAt(d, i, h, if page == 0 then h.pageSize else page, FoundMtk(d))
  }

  // An MTK section is as long as its header.
  predicate LongEnough(size: nat, skip: nat) {
    size == 0 || skip <= size
  }

  function UnpackAt(d: seq<Byte>, i: nat, h: Header, page: Word, mtk: bool): (r: Unpacked)
    requires WellSized(h)
  {
    var skip := if mtk then MTK_SIZE else 0;
    if !(0 < page < 0x8000_0000) || !LongEnough(h.kernelSize, skip) || !LongEnough(h.ramdiskSize, skip) then Undefined
    else
      var s := SectionsAt(d, i + HEADER_SIZE, h.kernelSize, h.ramdiskSize, h.secondSize, h.dtSize, skip, page);
      Described(h, mtk, s.kernel, s.ramdisk, s.second, s.dt)
  }

  datatype Sections = Sections(kernel: Option<seq<Byte>>, ramdisk: Option<seq<Byte>>, second: Option<seq<Byte>>, dt: Option<seq<Byte>>, end: nat)

  // The padding of the header and the four sections after it.
  function SectionsAt(d: seq<Byte>, start: nat, kernelSize: nat, ramdiskSize: nat, secondSize: nat, dtSize: nat, skip: nat, page: nat): (s: Sections)
    requires page > 0 && LongEnough(kernelSize, skip) && LongEnough(ramdiskSize, skip)
  {
    var kernel := FileAt(d, SkipPadding(d, start, HEADER_SIZE, page), kernelSize, skip);
    var ramdisk := FileAt(d, SkipPadding(d, kernel.next, kernelSize, page), ramdiskSize, skip);
    var second := FileAt(d, SkipPadding(d, ramdisk.next, ramdiskSize, page), secondSize, 0);
    var dt := FileAt(d, SkipPadding(d, second.next, secondSize, page), dtSize, 0);
    Sections(kernel.file, ramdisk.file, second.file, dt.file, dt.next)
  }

  function Described(h: Header, mtk: bool, kernel: Option<seq<Byte>>, ramdisk: Option<seq<Byte>>, second: Option<seq<Byte>>, dt: Option<seq<Byte>>): (r: Unpacked)
    requires WellSized(h)
  {
    var base := Sub32(h.kernelAddr, 0x8000);
    Files(if h.pageSize != 0 then Some(h.pageSize) else None,
          if h.kernelAddr != 0 then Some(base) else None, mtk,
          if h.kernelSize != 0 then Some(Sub32(h.kernelAddr, base)) else None, kernel,
          if h.ramdiskSize != 0 then Some(Sub32(h.ramdiskAddr, base)) else None, ramdisk,
          if h.secondSize != 0 then Some(Sub32(h.secondAddr, base)) else None, second,
          if h.tagsAddr != 0 then Some(Sub32(h.tagsAddr, base)) else None,
          Printed(h.name, h.cmdline + h.id + h.extraCmdline), Printed(h.cmdline, h.id + h.extraCmdline), dt)
  }

  // ----- the program -----

  // The input stream.
  class InFile {
    const data: seq<Byte>
    var pos: nat

    constructor (d: seq<Byte>)
      ensures data == d && pos == 0
    {
      data, pos := d, 0;
    }

    // fseek
    method Seek(p: nat)
      modifies this
      ensures pos == p
    {
      pos := p;
    }

    // fread
    method Read(n: nat) returns (got: seq<Byte>)
      modifies this
      ensures got == Slice(data, old(pos), n) && pos == old(pos) + |got|
    {
      got := if pos >= |data| then [] else if pos + n <= |data| then data[pos..pos + n] else data[pos..];
      pos := pos + |got|;
    }

    // fread into a buffer, whose bytes behind a short read stay.
    method ReadInto(tmp: array<Byte>, n: nat)
      requires n <= tmp.Length
      modifies this, tmp
      ensures var got := Slice(data, old(pos), n); tmp[..] == got + old(tmp[|got|..])
    {
      var got := Read(n);
      var k := 0;
      while k < |got|
        invariant 0 <= k <= |got| && tmp[..k] == got[..k] && tmp[k..] == old(tmp[k..])
      {
        tmp[k] := got[k];
        assert tmp[..k + 1] == tmp[..k] + [got[k]];
        k := k + 1;
      }
      assert tmp[..] == tmp[..k] + tmp[k..];
    }

    // The search for a magic at the places 0 to limit. Near the end of the file the buffer
    // keeps old bytes; they cannot complete a magic whose last two bytes differ.
    method FindMagic(tmp: array<Byte>, magic: seq<Byte>, limit: nat) returns (j: nat)
      requires 2 <= |magic| <= tmp.Length && magic[|magic| - 1] != magic[|magic| - 2]
      modifies this, tmp
      ensures |data| >= |magic| ==> j == FirstMatch(data, magic, 0, limit)
    {
      j := 0;
      while j <= limit
        invariant 0 <= j <= limit + 1
        invariant |data| >= |magic| && j > 0 ==> tmp[..|magic|] == Window(data, j - 1, |magic|)
        invariant |data| >= |magic| ==> FirstMatch(data, magic, 0, limit) == FirstMatch(data, magic, j, limit)
      {
        Seek(j);
        ghost var was := tmp[..];
        ReadInto(tmp, |magic|);
        if |data| >= |magic| {
          WindowMoves(data, j, |magic|, was, tmp[..]);
          WindowMatch(data, j, magic);
        }
        if tmp[..|magic|] == magic {
          break;
        }
        j := j + 1;
      }
    }

    // read_padding
    method ReadPadding(itemSize: nat, pageSize: nat)
      requires pageSize > 0
      modifies this
      ensures pos == SkipPadding(data, old(pos), itemSize, pageSize)
    {
      var pageMask := pageSize - 1;
      if And(pageMask, itemSize) == 0 {
        return;
      }
      AndBelow(pageMask, itemSize);
      var count := pageSize - And(pageMask, itemSize);
      var _ := Read(count);
    }

    method ReadFile(size: nat, skip: nat) returns (file: Option<seq<Byte>>)
      requires LongEnough(size, skip)
      modifies this
      ensures Spot(file, pos) == FileAt(data, old(pos), size, skip)
    {
      hide Slice;
      EmptySlice(data, pos);
      file := None;
      if skip != 0 {
        var _ := Read(skip);
      }
      if size != 0 {
        var bytes := Read(size - skip);
        file := Some(bytes);
      }
    }
  }

  lemma EmptySlice(d: seq<Byte>, at: nat)
    ensures Slice(d, at, 0) == []
  {
  }

  // main of unpackbootimg. On a file shorter than the magic the search sees the old contents
  // of the buffer, and nothing is promised.
  method UnpackBootImg(d: seq<Byte>, pageOption: Word) returns (r: Unpacked)
    ensures |d| >= |BOOT_MAGIC| ==> r == Unpack(d, pageOption)
  {
    hide And, FirstMatch, Slice, FileAt, SkipPadding, Decode, Described, PartAt;
    var tmp := new Byte[4096];
    var f := new InFile(d);
    var j := f.FindMagic(tmp, MTK_MAGIC, 4096);
    var mtkHeader := if j > 4096 then 0 else MTK_SIZE;
    var i := f.FindMagic(tmp, BOOT_MAGIC, 512);
    if i > 512 {
      return NoMagic;
    }
    f.Seek(i);
    var bytes := f.Read(HEADER_SIZE);
    if |bytes| < HEADER_SIZE {
      return Undefined;
    }
    var h := Decode(bytes);
    var page := if pageOption == 0 then h.pageSize else pageOption;
    if !(0 < page < 0x8000_0000) || !LongEnough(h.kernelSize, mtkHeader) || !LongEnough(h.ramdiskSize, mtkHeader) {
      return Undefined;
    }
    f.ReadPadding(HEADER_SIZE, page);
    var kernel := f.ReadFile(h.kernelSize, mtkHeader);
    f.ReadPadding(h.kernelSize, page);
    var ramdisk := f.ReadFile(h.ramdiskSize, mtkHeader);
    f.ReadPadding(h.ramdiskSize, page);
    var second := f.ReadFile(h.secondSize, 0);
    f.ReadPadding(h.secondSize, page);
    var dt := f.ReadFile(h.dtSize, 0);
    r := Described(h, mtkHeader != 0, kernel, ramdisk, second, dt);
  }

  // The buffer after a read at place j: the last byte of the file stays in what is not read.
  function Window(d: seq<Byte>, j: nat, n: nat): (w: seq<Byte>)
    requires d != []
    ensures |w| == n
  {
    seq(n, i requires 0 <= i < n => d[if j + i < |d| then j + i else |d| - 1])
  }

  lemma WindowMoves(d: seq<Byte>, j: nat, n: nat, was: seq<Byte>, now: seq<Byte>)
    requires 0 < n <= |d| && n <= |was| && (j > 0 ==> was[..n] == Window(d, j - 1, n))
    requires now == Slice(d, j, n) + was[|Slice(d, j, n)|..]
    ensures now[..n] == Window(d, j, n)
  {
    var got := Slice(d, j, n);
    forall i | 0 <= i < n
      ensures now[i] == Window(d, j, n)[i]
    {
      if i >= |got| {
        assert now[i] == was[i] == was[..n][i];
      }
    }
  }

  lemma WindowMatch(d: seq<Byte>, j: nat, magic: seq<Byte>)
    requires 2 <= |magic| <= |d| && magic[|magic| - 1] != magic[|magic| - 2]
    ensures Window(d, j, |magic|) == magic <==> PartAt(d, magic, j)
  {
    var n, w := |magic|, Window(d, j, |magic|);
    if j + n <= |d| {
      assert w == d[j..j + n];
    } else {
      assert w[n - 1] == w[n - 2];
    }
  }
}
