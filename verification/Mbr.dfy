/** The MBR and the chain of extended boot records that the flasher writes (eMMCFlashIo.c). */
module Mbr {
  import opened Words

  const SECTOR: nat := 512
  const TABLE: nat := 446                  // offset of the partition table
  const SHIFT: nat := 20 * 1024 * 1024 / 512
  const MAX_PART_COUNT: nat := 120

  const LINUX: byte := 0x83
  const EXTENDED: byte := 0x05
  const FAT32: byte := 0x0B
  const FAT16: byte := 0x06
  const BOOTABLE: byte := 0x80

  /** One row of the flasher's partition table: low words of address and length, in sectors. */
  datatype Part = Part(addr: nat, len: nat)

  /** A partition record as a reader sees it. */
  datatype Entry = Entry(boot: byte, os: byte, start: nat, size: nat)

  function At(k: nat): nat {
    TABLE + 16 * k
  }

  function ReadEntry(s: seq<byte>, k: nat): Entry
    requires |s| == SECTOR && k < 4
  {
    Entry(s[At(k)], s[At(k) + 4], FromLe32(s[At(k) + 8..At(k) + 12]), FromLe32(s[At(k) + 12..At(k) + 16]))
  }

  predicate Signed(s: seq<byte>) {
    |s| == SECTOR && s[510] == 0x55 && s[511] == 0xAA
  }

  /** The block device behind the flasher. */
  class Disk {
    var sectors: nat -> seq<byte>
    const lastBlock: nat

    constructor (sectors: nat -> seq<byte>, lastBlock: nat)
      ensures this.sectors == sectors && this.lastBlock == lastBlock
    {
      this.sectors, this.lastBlock := sectors, lastBlock;
    }

    /** WriteBlocks of one sector; a failed write leaves anything in that sector. */
    method WriteSector(lba: nat, s: seq<byte>) returns (status: nat)
      modifies this
      ensures status == 0 ==> sectors(lba) == s
      ensures forall b: nat :: b != lba ==> sectors(b) == old(sectors)(b)
    {
      status := *;
      var was, noise: seq<byte> := sectors, *;
      sectors := (b: nat) => if b == lba then (if status == 0 then s else noise) else was(b);
    }
  }

  /** The buffer of one record, zeroed. */
  method NewRecord() returns (buf: array<byte>)
    ensures fresh(buf) && buf.Length == SECTOR && forall i :: 0 <= i < SECTOR ==> buf[i] == 0
  {
    buf := new byte[SECTOR](_ => 0);
  }

  method PutLe32(buf: array<byte>, at: nat, x: nat)
    requires buf.Length == SECTOR && at + 4 <= SECTOR
    modifies buf
    ensures buf[at..at + 4] == Le32(x)
    ensures forall i :: 0 <= i < SECTOR && !(at <= i < at + 4) ==> buf[i] == old(buf[i])
  {
    buf[at], buf[at + 1], buf[at + 2], buf[at + 3] :=
      x % 256, x / 256 % 256, x / 65536 % 256, x / 16777216 % 256;
  }

  /** Fill partition record `k`; the other bytes of the sector stay. */
  method PutEntry(buf: array<byte>, k: nat, boot: byte, os: byte, start: nat, size: nat)
    requires buf.Length == SECTOR && k < 4
    modifies buf
    ensures ReadEntry(buf[..], k) == Entry(boot, os, U32(start), U32(size))
    ensures forall i :: 0 <= i < SECTOR && !(At(k) <= i < At(k) + 16) ==> buf[i] == old(buf[i])
  {
    buf[At(k)] := boot;
    buf[At(k) + 4] := os;
    PutLe32(buf, At(k) + 8, start);
    Le32RoundTrip(start);
    ghost var first := buf[At(k) + 8..At(k) + 12];
    PutLe32(buf, At(k) + 12, size);
    Le32RoundTrip(size);
    assert buf[At(k) + 8..At(k) + 12] == first;
    assert buf[..][At(k) + 8..At(k) + 12] == buf[At(k) + 8..At(k) + 12];
    assert buf[..][At(k) + 12..At(k) + 16] == buf[At(k) + 12..At(k) + 16];
  }

  method Sign(buf: array<byte>)
    requires buf.Length == SECTOR
    modifies buf
    ensures Signed(buf[..])
    ensures forall i :: 0 <= i < 510 ==> buf[i] == old(buf[i])
  {
    buf[510], buf[511] := 0x55, 0xAA;
  }

  const EMPTY := Entry(0, 0, 0, 0)

  /** Sector `i` of the chain for row `i` of the table. */
  predicate IsEbr(s: seq<byte>, table: seq<Part>, i: nat)
    requires 0 < i < |table| - 1
  {
    && Signed(s)
    && ReadEntry(s, 0) == Entry(0, LINUX, U32(table[i].addr + SHIFT - i), U32(table[i].len))
    && ReadEntry(s, 1) == if i == |table| - 2 then EMPTY else Entry(0, EXTENDED, i, U32(table[i].len))
  }

  /** Sectors of the rows from 1 up to `k`. */
  function TotalLen(table: seq<Part>, k: nat): nat
    requires k <= |table|
  {
    if k <= 1 then 0 else TotalLen(table, k - 1) + table[k - 1].len
  }

  /** Sector 0: the last row, row 0, and the chain with its total size. */
  predicate IsMbr(s: seq<byte>, table: seq<Part>, sectors: nat)
    requires |table| > 0
  {
    && Signed(s)
    && ReadEntry(s, 0).boot == BOOTABLE && ReadEntry(s, 0).os == FAT32
    && ReadEntry(s, 0).start == U32(table[|table| - 1].addr + SHIFT)
    && ReadEntry(s, 1) == Entry(0, FAT16, U32(table[0].addr + SHIFT), U32(table[0].len))
    && ReadEntry(s, 2) == Entry(0, EXTENDED, 1, U32(sectors))
    && ReadEntry(s, 3) == EMPTY
  }

  lemma ZeroEntry(s: seq<byte>, k: nat)
    requires |s| == SECTOR && k < 4 && forall i :: At(k) <= i < At(k) + 16 ==> s[i] == 0
    ensures ReadEntry(s, k) == EMPTY
  {
  }

  lemma SameEntry(s: seq<byte>, t: seq<byte>, k: nat)
    requires |s| == |t| == SECTOR && k < 4 && forall i :: At(k) <= i < At(k) + 16 ==> s[i] == t[i]
    ensures ReadEntry(s, k) == ReadEntry(t, k)
  {
    assert s[At(k) + 8..At(k) + 12] == t[At(k) + 8..At(k) + 12];
    assert s[At(k) + 12..At(k) + 16] == t[At(k) + 12..At(k) + 16];
  }

  /** One iteration of the loop of eMMCWriteMbr: the extended boot record of row `i`. */
  method WriteEbr(disk: Disk, table: seq<Part>, i: nat) returns (status: nat)
    requires 0 < i < |table| - 1 && |table| <= MAX_PART_COUNT
    modifies disk
    ensures status == 0 ==> IsEbr(disk.sectors(i), table, i)
    ensures forall b: nat :: b != i ==> disk.sectors(b) == old(disk.sectors)(b)
  {
    var buf := NewRecord();
    PutEntry(buf, 0, 0, LINUX, table[i].addr + SHIFT - i, table[i].len);
    ghost var s0 := buf[..];
    if i != |table| - 2 {
      PutEntry(buf, 1, 0, EXTENDED, i, table[i].len);
    }
    ghost var s1 := buf[..];
    SameEntry(s0, s1, 0);
    if i == |table| - 2 {
      ZeroEntry(s1, 1);
    }
    Sign(buf);
    SameEntry(s1, buf[..], 0);
    SameEntry(s1, buf[..], 1);
    status := disk.WriteSector(i, buf[..]);
  }

  /** The primary records of sector 0. */
  method FillMaster(table: seq<Part>, sectors: nat, unused: nat) returns (buf: array<byte>)
    requires |table| > 0
    ensures fresh(buf) && buf.Length == SECTOR
    ensures ReadEntry(buf[..], 0) == Entry(BOOTABLE, FAT32, U32(table[|table| - 1].addr + SHIFT), U32(unused))
    ensures ReadEntry(buf[..], 1) == Entry(0, FAT16, U32(table[0].addr + SHIFT), U32(table[0].len))
    ensures ReadEntry(buf[..], 2) == Entry(0, EXTENDED, 1, U32(sectors))
    ensures ReadEntry(buf[..], 3) == EMPTY
  {
    buf := FillRows(table, unused);
    ghost var s1 := buf[..];
    PutEntry(buf, 2, 0, EXTENDED, 1, sectors);
    SameEntry(s1, buf[..], 0);
    SameEntry(s1, buf[..], 1);
    ZeroEntry(buf[..], 3);
  }

  /** The first two of them. */
  method FillRows(table: seq<Part>, unused: nat) returns (buf: array<byte>)
    requires |table| > 0
    ensures fresh(buf) && buf.Length == SECTOR
    ensures ReadEntry(buf[..], 0) == Entry(BOOTABLE, FAT32, U32(table[|table| - 1].addr + SHIFT), U32(unused))
    ensures ReadEntry(buf[..], 1) == Entry(0, FAT16, U32(table[0].addr + SHIFT), U32(table[0].len))
    ensures forall i :: At(2) <= i < SECTOR ==> buf[i] == 0
  {
    buf := NewRecord();
    PutEntry(buf, 0, BOOTABLE, FAT32, table[|table| - 1].addr + SHIFT, unused);
    ghost var s0 := buf[..];
    PutEntry(buf, 1, 0, FAT16, table[0].addr + SHIFT, table[0].len);
    SameEntry(s0, buf[..], 0);
  }

  /** The boot record in sector 0. */
  method WriteMaster(disk: Disk, table: seq<Part>, sectors: nat) returns (status: nat)
    requires |table| > 0
    modifies disk
    ensures status == 0 ==> IsMbr(disk.sectors(0), table, sectors)
    ensures forall b: nat :: b != 0 ==> disk.sectors(b) == old(disk.sectors)(b)
  {
    var buf := FillMaster(table, sectors, U32(disk.lastBlock + 1 - SHIFT - sectors));
    ghost var s := buf[..];
    Sign(buf);
    SameEntry(s, buf[..], 0);
    SameEntry(s, buf[..], 1);
    SameEntry(s, buf[..], 2);
    SameEntry(s, buf[..], 3);
    status := disk.WriteSector(0, buf[..]);
  }

  /** eMMCWriteMbr. */
  method WriteMbr(disk: Disk, table: seq<Part>) returns (status: nat)
    requires 0 < |table| <= MAX_PART_COUNT
    modifies disk
    ensures status == 0 ==> OnDisk(disk.sectors, table)
    ensures forall b: nat :: b > 0 && b >= |table| - 1 ==> disk.sectors(b) == old(disk.sectors)(b)
  {
    var sectors: nat := 0;
    var i := 1;
    while i < |table| - 1
      invariant 1 <= i && (i <= |table| - 1 || i == 1)
      invariant sectors == if i < |table| then TotalLen(table, i) else 0
      invariant forall k :: 0 < k < i ==> IsEbr(disk.sectors(k), table, k)
      invariant forall b: nat :: b >= i ==> disk.sectors(b) == old(disk.sectors)(b)
    {
      sectors := sectors + table[i].len;
      status := WriteEbr(disk, table, i);
      if status != 0 {
        return;
      }
      i := i + 1;
    }
    status := WriteMaster(disk, table, sectors);
  }

  ghost predicate OnDisk(d: nat -> seq<byte>, table: seq<Part>)
    requires |table| > 0
  {
    IsMbr(d(0), table, TotalLen(table, |table| - 1)) && ChainOnDisk(d, table)
  }

  ghost predicate ChainOnDisk(d: nat -> seq<byte>, table: seq<Part>) {
    forall i :: 0 < i < |table| - 1 ==> IsEbr(d(i), table, i)
  }

  /** A logical partition: absolute start, size, type. */
  datatype Logical = Logical(start: nat, size: nat, os: byte)

  /** The first two records of a chain sector. */
  datatype Links = Links(own: Entry, next: Entry)

  function ReadLinks(s: seq<byte>): Option<Links> {
    if Signed(s) then Some(Links(ReadEntry(s, 0), ReadEntry(s, 1))) else None
  }

  /** A reader following the chain: a record's partition starts relative to its own sector, the link of record
      1 is relative to the first record of the chain. */
  function ReadChain(view: nat -> Option<Links>, first: nat, lba: nat, fuel: nat): Option<seq<Logical>>
    decreases fuel
  {
    if fuel == 0 || view(lba).None? then None
    else
      var Links(own, next) := view(lba).value;
      var here := Logical(lba + own.start, own.size, own.os);
      if next.os == EXTENDED then
        var rest := ReadChain(view, first, first + next.start, fuel - 1);
        if rest.None? then None else Some([here] + rest.value)
      else Some([here])
  }

  /** The extended record of a master boot record, or 4. */
  function ExtendedIndex(s: seq<byte>): nat
    requires |s| == SECTOR
  {
    if ReadEntry(s, 0).os == EXTENDED then 0
    else if ReadEntry(s, 1).os == EXTENDED then 1
    else if ReadEntry(s, 2).os == EXTENDED then 2
    else if ReadEntry(s, 3).os == EXTENDED then 3
    else 4
  }

  function ReadDisk(d: nat -> seq<byte>, fuel: nat): Option<seq<Logical>> {
    var s := d(0);
    if !Signed(s) then None
    else
      var k := ExtendedIndex(s);
      if k == 4 then Some([]) else
        var first := ReadEntry(s, k).start;
        ReadChain((b: nat) => ReadLinks(d(b)), first, first, fuel)
  }

  /** What rows `i` to the last but one mean: shifted absolute start and length. */
  function Expected(table: seq<Part>, i: nat): (r: seq<Logical>)
    decreases |table| - i
  {
    if i >= |table| - 1 then [] else [Logical(table[i].addr + SHIFT, table[i].len, LINUX)] + Expected(table, i + 1)
  }

  predicate Addressable(table: seq<Part>) {
    forall i :: 0 <= i < |table| ==> table[i].addr + SHIFT < TWO32 && table[i].len < TWO32
  }

  /** Row `i` as the reader should find it. */
  function RowLinks(table: seq<Part>, i: nat): Links
    requires 0 < i < |table| - 1 && |table| <= MAX_PART_COUNT
  {
    Links(Entry(0, LINUX, table[i].addr + SHIFT - i, table[i].len),
          if i == |table| - 2 then EMPTY else Entry(0, EXTENDED, i, table[i].len))
  }

  lemma RowRead(s: seq<byte>, table: seq<Part>, i: nat)
    requires 0 < i < |table| - 1 && |table| <= MAX_PART_COUNT && Addressable(table) && IsEbr(s, table, i)
    ensures ReadLinks(s) == Some(RowLinks(table, i))
  {
    assert table[i].addr + SHIFT < TWO32;
  }

  lemma {:induction false} ChainReads(view: nat -> Option<Links>, table: seq<Part>, i: nat, fuel: nat)
    requires 0 < i < |table| - 1 && |table| <= MAX_PART_COUNT
    requires forall k: nat :: i <= k < |table| - 1 ==> view(k) == Some(RowLinks(table, k))
    requires fuel >= |table| - 1 - i
    ensures ReadChain(view, 1, i, fuel) == Some(Expected(table, i))
    decreases |table| - i
  {
    if i < |table| - 2 {
      ChainReads(view, table, i + 1, fuel - 1);
    } else {
      assert Expected(table, i) == [Logical(table[i].addr + SHIFT, table[i].len, LINUX)];
    }
  }

  /** Round trip: once the writer has succeeded on a table of at least three rows, a reader that starts at
      sector 0 terminates and finds exactly rows 1 to the last but one, in order. */
  lemma MbrRoundTrip(d: nat -> seq<byte>, table: seq<Part>, fuel: nat)
    requires 3 <= |table| <= MAX_PART_COUNT && Addressable(table) && OnDisk(d, table) && fuel >= |table| - 2
    ensures ReadDisk(d, fuel) == Some(Expected(table, 1)) && |Expected(table, 1)| == |table| - 2
    ensures ReadEntry(d(0), 2).size == U32(SizeOf(Expected(table, 1)))
    ensures var e := ReadEntry(d(0), 0); e.start == table[|table| - 1].addr + SHIFT && e.boot == 0x80 && e.os == 0x0B
    ensures ReadEntry(d(0), 1) == Entry(0, 0x06, table[0].addr + SHIFT, table[0].len)
    ensures forall i :: 0 < i < |table| - 2 ==> ReadEntry(d(i), 1) == Entry(0, 0x05, i, table[i].len)
    ensures forall k :: 0 <= k < |table| - 2 ==>
              Expected(table, 1)[k] == Logical(table[k + 1].addr + SHIFT, table[k + 1].len, LINUX)
  {
    var view := (b: nat) => ReadLinks(d(b));
    forall k: nat | 1 <= k < |table| - 1
      ensures view(k) == Some(RowLinks(table, k))
    {
      RowRead(d(k), table, k);
    }
    ChainReads(view, table, 1, fuel);
    ExpectedRows(table);
    TotalIsSize(table, 1);
  }

  /** The sectors of these partitions together. */
  function SizeOf(ls: seq<Logical>): nat {
    if ls == [] then 0 else ls[0].size + SizeOf(ls[1..])
  }

  lemma {:induction false} TotalIsSize(table: seq<Part>, i: nat)
    requires 0 < i < |table|
    ensures TotalLen(table, i) + SizeOf(Expected(table, i)) == TotalLen(table, |table| - 1)
    decreases |table| - i
  {
    if i < |table| - 1 {
      TotalIsSize(table, i + 1);
      assert Expected(table, i)[1..] == Expected(table, i + 1);
    }
  }

  /** The layout of a partition record in bytes: 16 bytes from offset 446 on, boot flag first, type at 4, first sector
      at 8 and number of sectors at 12, both low byte first. */
  lemma EntryLayout(s: seq<byte>, k: nat)
    requires |s| == 512 && k < 4
    ensures var e, at := ReadEntry(s, k), 446 + 16 * k;
            && e.boot == s[at] && e.os == s[at + 4]
            && e.start == Word(s[at + 8], s[at + 9], s[at + 10], s[at + 11])
            && e.size == Word(s[at + 12], s[at + 13], s[at + 14], s[at + 15])
  {
  }

  function Word(a: nat, b: nat, c: nat, d: nat): nat {
    a + 0x100 * b + 0x1_0000 * c + 0x100_0000 * d
  }

  lemma ExpectedRows(table: seq<Part>)
    requires |table| >= 3
    ensures |Expected(table, 1)| == |table| - 2
    ensures forall k :: 0 <= k < |table| - 2 ==>
              Expected(table, 1)[k] == Logical(table[k + 1].addr + SHIFT, table[k + 1].len, LINUX)
  {
    ExpectedRow(table, 1, 0);
    forall k | 0 <= k < |table| - 2
      ensures Expected(table, 1)[k] == Logical(table[k + 1].addr + SHIFT, table[k + 1].len, LINUX)
    {
      ExpectedRow(table, 1, k);
    }
  }

  lemma {:induction false} ExpectedRow(table: seq<Part>, i: nat, k: nat)
    requires i + k < |table|
    ensures |Expected(table, i)| == |table| - 1 - i
    ensures i + k < |table| - 1 ==>
              Expected(table, i)[k] == Logical(table[i + k].addr + SHIFT, table[i + k].len, LINUX)
    decreases |table| - i
  {
    if i < |table| - 1 {
      ExpectedRow(table, i + 1, if k > 0 then k - 1 else 0);
    }
  }

  /** Write, then read back. */
  method WriteThenRead(disk: Disk, table: seq<Part>, fuel: nat) returns (status: nat)
    requires 3 <= |table| <= MAX_PART_COUNT && Addressable(table) && fuel >= |table| - 2
    modifies disk
    ensures status == 0 ==> ReadDisk(disk.sectors, fuel) == Some(Expected(table, 1))
  {
    status := WriteMbr(disk, table);
    if status == 0 {
      MbrRoundTrip(disk.sectors, table, fuel);
    }
  }
}
