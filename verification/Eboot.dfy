/**
  The bootloader: copies a staged image over the running one when it finds a command, clears
  the command, and loads the application.
*/
module Eboot {
  import opened Words
  import opened Flash
  import opened SectorCopy
  import opened EbootCommand
  import opened Image

  // ---------------------------------------------------------------- sectors of a chip

  /** A chip as the sequence of its sectors. */
  function Sectors(f: seq<byte>): (sectors: seq<seq<byte>>)
    requires IsChip(f)
    ensures |sectors| == |f| / 4096
  {
    seq(|f| / 4096, i requires 0 <= i < |f| / 4096 => f[4096 * i..4096 * i + 4096])
  }

  lemma SectorsPut(f: seq<byte>, j: nat, bytes: seq<byte>)
    requires IsChip(f) && 4096 * j + 4096 <= |f| && |bytes| == 4096
    ensures Sectors(Put(f, 4096 * j, bytes)) == Sectors(f)[j := bytes]
  {
    var g := Put(f, 4096 * j, bytes);
    forall i | 0 <= i < |f| / 4096
      ensures Sectors(g)[i] == Sectors(f)[j := bytes][i]
    {
      SectorPut(f, j, bytes, i);
    }
  }

  lemma SectorPut(f: seq<byte>, j: nat, bytes: seq<byte>, i: nat)
    requires IsChip(f) && 4096 * j + 4096 <= |f| && |bytes| == 4096 && 4096 * i + 4096 <= |f|
    ensures Put(f, 4096 * j, bytes)[4096 * i..4096 * i + 4096] ==
            if i == j then bytes else f[4096 * i..4096 * i + 4096]
  {
    if i < j {
      assert 4096 * i + 4096 <= 4096 * j;
    } else if i > j {
      assert 4096 * j + 4096 <= 4096 * i;
    }
  }

  /** Programming a sector that has just been erased stores the data. */
  lemma ProgramAfterErase(f: seq<byte>, a: nat, data: seq<byte>)
    requires a + |data| <= |f|
    ensures var e := Put(f, a, Ones(|data|));
            Put(e, a, Programmed(e[a..a + |data|], data)) == Put(f, a, data)
  {
    var e := Put(f, a, Ones(|data|));
    assert e[a..a + |data|] == Ones(|data|);
    ProgramErased(data);
  }

  // ---------------------------------------------------------------- copy_raw

  function ToInt32(x: u32): int {
    if x >= TWO31 then x - TWO32 else x
  }

  /** The bytes to copy for an image of the given size, in 32-bit arithmetic. */
  function Left(size: u32): int {
    ToInt32((size + 4095) % TWO32 / 4096 * 4096)
  }

  /** The number of sectors the copy loop runs over. */
  function Rounds(left: int): nat {
    if left <= 0 then 0 else (left + 4095) / 4096
  }

  /** Up to 2^31 - 4096 bytes the loop covers the image; above that it does not run at all. */
  lemma RoundsExactly(size: u32)
    ensures Rounds(Left(size)) == if size <= TWO31 - 4096 then (size + 4095) / 4096 else 0
    ensures Rounds(Left(size)) * 4096 >= size <==> size <= TWO31 - 4096
  {
    if size <= TWO31 - 4096 {
      Small(size + 4095);
    } else if size > TWO32 - 4096 {
      assert (size + 4095) % TWO32 < 4096;
    } else {
      Small(size + 4095);
    }
  }

  function IsGzip(f: seq<byte>, a: nat): bool
    requires a + 2 <= |f|
  {
    f[a] == 0x1f && f[a + 1] == 0x8b
  }

  /** What `copy_raw` promises about the chip, for any result. */
  ghost predicate CopyPost(before: seq<byte>, after: seq<byte>, src: u32, dst: u32, verify: bool,
                           result: nat, gzip: bool, n: nat)
    requires IsChip(before)
  {
    && |after| == |before|
    && (result == 1 <==> src % 4096 != 0 || dst % 4096 != 0)
    && (verify || result == 1 ==> after == before)
    && (!verify ==> SameOutside(before, after, dst, dst + 4096 * n))
    && (result == 0 && !gzip && n > 0 ==> src + 4096 * n <= |before| && dst + 4096 * n <= |before|)
    && (result == 0 && !gzip && !verify && n > 0 ==>
        Sectors(after) == Copied(Sectors(before), Ones(4096), src / 4096, dst / 4096, n))
    && (result == 0 && !gzip && !verify && n == 0 ==> after == before)
    && (result == 0 && !gzip && verify && n > 0 ==> SameRange(before, src, dst, n))
  }

  /** Both ranges of the copy lie inside the chip. */
  predicate InChip(f: seq<byte>, src: nat, dst: nat, n: nat) {
    src + 4096 * n <= |f| && dst + 4096 * n <= |f|
  }

  /** Both ranges lie inside the chip and hold the same. */
  ghost predicate SameRange(f: seq<byte>, src: nat, dst: nat, n: nat) {
    InChip(f, src, dst, n) && f[src..src + 4096 * n] == f[dst..dst + 4096 * n]
  }

  lemma OneMoreSame(f: seq<byte>, src: nat, dst: nat, k: nat)
    requires k > 0 ==> SameRange(f, src, dst, k)
    requires SameRange(f, src + 4096 * k, dst + 4096 * k, 1)
    ensures SameRange(f, src, dst, k + 1)
  {
    if k > 0 {
      var i, j := src + 4096 * k, dst + 4096 * k;
      assert f[src..i + 4096] == f[src..i] + f[i..i + 4096];
      assert f[dst..j + 4096] == f[dst..j] + f[j..j + 4096];
    }
  }

  lemma SectorSame(f: seq<byte>, src: nat, dst: nat, n: nat, k: nat)
    requires SameRange(f, src, dst, n) && k < n
    ensures SameRange(f, src + 4096 * k, dst + 4096 * k, 1)
  {
    var i, j := src + 4096 * k, dst + 4096 * k;
    SliceOf(f, src, f[dst..dst + 4096 * n], 4096 * k, 4096 * k + 4096);
    SliceOf(f, dst, f[dst..dst + 4096 * n], 4096 * k, 4096 * k + 4096);
  }

  /** `read_flash_byte`, which ignores a failed read. */
  method ReadFlashByte(chip: Chip, addr: u32) returns (b: byte)
    ensures addr / 4 * 4 + 4 <= |chip.mem| ==> b == chip.mem[addr]
  {
    var _, buff := chip.ReadBytes(addr / 4 * 4, 4);
    b := buff[addr % 4];
  }

  /** The gzip signature test of `copy_raw`. */
  method DetectGzip(chip: Chip, saddr: u32) returns (gzip: bool)
    requires saddr % 4096 == 0
    ensures saddr + 4 <= |chip.mem| ==> gzip == IsGzip(chip.mem, saddr)
  {
    gzip := false;
    var b := ReadFlashByte(chip, saddr);
    if b == 0x1f {
      b := ReadFlashByte(chip, saddr + 1);
      gzip := b == 0x8b;
    }
  }

  /** The unpacked size from the last four bytes of a gzip file. */
  method GzipSize(chip: Chip, saddr: u32, size: u32) returns (left: int)
  {
    var b0 := ReadFlashByte(chip, (saddr + size - 4) % TWO32);
    var b1 := ReadFlashByte(chip, (saddr + size - 3) % TWO32);
    var b2 := ReadFlashByte(chip, (saddr + size - 2) % TWO32);
    var b3 := ReadFlashByte(chip, (saddr + size - 1) % TWO32);
    left := ToInt32(WordOf([b0, b1, b2, b3]));
  }

  /** The decompressor, not modelled further: fails, or yields any bytes of the length asked for. */
  method Uncompress(n: nat) returns (ok: bool, bytes: seq<byte>)
    ensures |bytes| == n
  {
    ok := *;
    bytes := [];
    while |bytes| < n
      invariant |bytes| <= n
    {
      var b: byte := *;
      bytes := bytes + [b];
    }
  }

  /** The next sector for the destination, from flash or from the decompressor. */
  method NextSector(chip: Chip, saddr: u32, gzip: bool, left: int) returns (code: nat, buffer: seq<byte>)
    requires left > 0
    ensures |buffer| == 4096 && (code == 0 || code == 3 || code == 6)
    ensures !gzip ==> (code == 0 <==> saddr + 4096 <= |chip.mem|)
    ensures !gzip && code == 0 ==> buffer == chip.mem[saddr..saddr + 4096]
  {
    if !gzip {
      var ok;
      ok, buffer := chip.ReadBytes(saddr, 4096);
      code := if ok then 0 else 3;
    } else {
      var toRead := if left > 4096 then 4096 else left;
      var ok, bytes := Uncompress(toRead);
      code := if ok then 0 else 6;
      buffer := bytes + Ones(4096 - toRead);
    }
  }

  /** One round of the copy loop without verification: erase, read, program. */
  method CopySector(chip: Chip, saddr: u32, daddr: u32, gzip: bool, left: int) returns (code: nat)
    requires IsChip(chip.mem) && left > 0 && daddr % 4096 == 0 && saddr % 4096 == 0
    modifies chip
    ensures IsChip(chip.mem) && |chip.mem| == |old(chip.mem)| && code != 1
    ensures SameOutside(old(chip.mem), chip.mem, daddr, daddr + 4096)
    ensures code == 0 ==> daddr + 4096 <= |chip.mem|
    ensures chip.reliable && !gzip && InChip(old(chip.mem), saddr, daddr, 1) ==> code == 0
    ensures code == 0 && !gzip ==>
      && saddr + 4096 <= |chip.mem|
      && Sectors(chip.mem) == CopyStep(Sectors(old(chip.mem)), Ones(4096), saddr / 4096, daddr / 4096)
  {
    hide Sectors, SameOutside, CopyStep, Put, Programmed, Ones;
    ghost var f := chip.mem;
    Aligned(daddr);
    var ok := chip.EraseSector(daddr / 4096);
    if !ok {
      return 2;
    }
    ghost var e := chip.mem;
    var buffer;
    code, buffer := NextSector(chip, saddr, gzip, left);
    if code != 0 {
      return;
    }
    ok := chip.Write(daddr, buffer);
    SameTwice(f, e, chip.mem, daddr, daddr + 4096);
    if !ok {
      return 4;
    }
    if !gzip {
      SectorCopied(f, e, saddr, daddr, buffer);
    }
  }

  lemma Aligned(a: nat)
    requires a % 4096 == 0
    ensures 4096 * (a / 4096) == a
  {
  }

  /** Erasing, reading and programming make one step of a copy. */
  lemma SectorCopied(f: seq<byte>, e: seq<byte>, saddr: nat, daddr: nat, buffer: seq<byte>)
    requires IsChip(f) && saddr % 4096 == 0 && daddr % 4096 == 0 && InChip(f, saddr, daddr, 1)
    requires e == Put(f, daddr, Ones(4096)) && buffer == e[saddr..saddr + 4096]
    ensures Sectors(Put(e, daddr, Programmed(e[daddr..daddr + 4096], buffer)))
         == CopyStep(Sectors(f), Ones(4096), saddr / 4096, daddr / 4096)
  {
    var i, j := saddr / 4096, daddr / 4096;
    ProgramAfterErase(f, daddr, buffer);
    SectorsPut(f, j, Ones(4096));
    SectorsPut(f, j, buffer);
    assert buffer == Sectors(e)[i];
  }

  /** One round of the copy loop with verification. */
  method CompareSector(chip: Chip, saddr: u32, daddr: u32, gzip: bool, left: int) returns (code: nat)
    requires left > 0
    ensures code != 1
    ensures code == 0 ==> daddr + 4096 <= |chip.mem|
    ensures !gzip ==> (code == 0 <==> SameRange(chip.mem, saddr, daddr, 1))
  {
    var buffer;
    code, buffer := NextSector(chip, saddr, gzip, left);
    if code != 0 {
      return;
    }
    var ok, buffer2 := chip.ReadBytes(daddr, 4096);
    if !ok {
      return 4;
    }
    code := if buffer != buffer2 then 9 else 0;
  }

  /**
    `copy_raw`.  The ghost results say whether the source was taken for a gzip file and over how
    many sectors the loop runs.
  */
  method CopyRaw(chip: Chip, src: u32, dst: u32, size: u32, verify: bool)
    returns (result: nat, ghost gzip: bool, ghost n: nat)
    requires IsChip(chip.mem)
    modifies chip
    ensures IsChip(chip.mem)
    ensures CopyPost(old(chip.mem), chip.mem, src, dst, verify, result, gzip, n)
    ensures src + 4 <= |old(chip.mem)| && result != 1 ==> gzip == IsGzip(old(chip.mem), src)
    ensures !gzip ==> n == Rounds(Left(size))
    ensures !gzip && n == 0 && result != 1 ==> result == 0
    ensures !gzip && size > TWO31 - 4096 && result != 1 ==> result == 0 && chip.mem == old(chip.mem)
    ensures !gzip && result != 1 && verify && SameRange(old(chip.mem), src, dst, n) ==> result == 0
    ensures !gzip && result != 1 && !verify && chip.reliable && InChip(old(chip.mem), src, dst, n) ==> result == 0
  {
    RoundsExactly(size);
    gzip, n := false, Rounds(Left(size));
    if src % 4096 != 0 || dst % 4096 != 0 {
      return 1, gzip, n;
    }
    var left := Left(size);
    var packed := DetectGzip(chip, src);
    gzip := packed;
    if packed {
      left := GzipSize(chip, src, size);
      n := Rounds(left);
      var headerOk: bool := *;
      if !headerOk {
        return 5, gzip, n;
      }
    }
    if verify {
      result := CompareLoop(chip, src, dst, packed, left);
    } else {
      result := CopyLoop(chip, src, dst, packed, left);
    }
  }

  /** After k rounds of the copy loop. */
  ghost predicate CopyProgress(f: seq<byte>, g: seq<byte>, src: nat, dst: nat, gzip: bool, k: nat) {
    && IsChip(f) && IsChip(g) && |g| == |f|
    && SameOutside(f, g, dst, dst + 4096 * k)
    && (k == 0 ==> g == f)
    && (k > 0 ==> dst + 4096 * k <= |f|)
    && (k > 0 && !gzip ==>
        src + 4096 * k <= |f|
        && Sectors(g) == Copied(Sectors(f), Ones(4096), src / 4096, dst / 4096, k))
  }

  method CopyLoop(chip: Chip, src: u32, dst: u32, gzip: bool, total: int) returns (result: nat)
    requires IsChip(chip.mem) && src % 4096 == 0 && dst % 4096 == 0
    requires !gzip && total > 0 ==> total % 4096 == 0
    modifies chip
    ensures IsChip(chip.mem) && result != 1
    ensures CopyPost(old(chip.mem), chip.mem, src, dst, false, result, gzip, Rounds(total))
    ensures total <= 0 ==> result == 0
    ensures chip.reliable && !gzip && InChip(old(chip.mem), src, dst, Rounds(total)) ==> result == 0
  {
    hide CopyProgress, CopyPost, SameOutside, Sectors, CopyStep;
    ghost var f := chip.mem;
    ghost var k := 0;
    var left, saddr: u32, daddr: u32 := total, src, dst;
    NothingCopied(f, src, dst, gzip);
    while left > 0
      invariant left == total - 4096 * k && k <= Rounds(total)
      invariant daddr == dst + 4096 * k && saddr % 4096 == 0
      invariant !gzip ==> saddr == src + 4096 * k
      invariant IsChip(chip.mem) && |chip.mem| == |f|
      invariant CopyProgress(f, chip.mem, src, dst, gzip, k)
    {
      ghost var g := chip.mem;
      RoundsLeft(total, k);
      result := CopySector(chip, saddr, daddr, gzip, left);
      if result != 0 {
        CopyStopped(f, g, chip.mem, src, dst, result, gzip, Rounds(total), k);
        return;
      }
      RoundCopied(f, g, chip.mem, src, dst, gzip, k);
      NextAddress(f, saddr);
      NextAddress(f, daddr);
      saddr := (saddr + 4096) % TWO32;
      daddr := (daddr + 4096) % TWO32;
      left := left - 4096;
      k := k + 1;
    }
    RoundsDone(total, k);
    CopyDone(f, chip.mem, src, dst, gzip, k);
    result := 0;
  }

  lemma NothingCopied(f: seq<byte>, src: nat, dst: nat, gzip: bool)
    requires IsChip(f)
    ensures CopyProgress(f, f, src, dst, gzip, 0)
  {
  }

  /** After a round that failed. */
  lemma CopyStopped(f: seq<byte>, g: seq<byte>, h: seq<byte>, src: u32, dst: u32, result: nat, gzip: bool,
                    n: nat, k: nat)
    requires CopyProgress(f, g, src, dst, gzip, k) && k < n && result > 1
    requires src % 4096 == 0 && dst % 4096 == 0
    requires SameOutside(g, h, dst + 4096 * k, dst + 4096 * k + 4096)
    ensures CopyPost(f, h, src, dst, false, result, gzip, n)
  {
    Widen(f, g, h, dst, dst + 4096 * k, n);
  }

  /** After a round that succeeded. */
  lemma RoundCopied(f: seq<byte>, g: seq<byte>, h: seq<byte>, src: nat, dst: nat, gzip: bool, k: nat)
    requires CopyProgress(f, g, src, dst, gzip, k) && IsChip(h) && |h| == |f|
    requires src % 4096 == 0 && dst % 4096 == 0 && dst + 4096 * k + 4096 <= |f|
    requires SameOutside(g, h, dst + 4096 * k, dst + 4096 * k + 4096)
    requires !gzip ==>
      && src + 4096 * k + 4096 <= |f|
      && Sectors(h) == CopyStep(Sectors(g), Ones(4096), (src + 4096 * k) / 4096, (dst + 4096 * k) / 4096)
    ensures CopyProgress(f, h, src, dst, gzip, k + 1)
  {
    Widen(f, g, h, dst, dst + 4096 * k, k + 1);
    Advance(f, g, h, src, dst, gzip, k);
  }

  /** After the last round. */
  lemma CopyDone(f: seq<byte>, g: seq<byte>, src: u32, dst: u32, gzip: bool, n: nat)
    requires CopyProgress(f, g, src, dst, gzip, n) && src % 4096 == 0 && dst % 4096 == 0
    ensures CopyPost(f, g, src, dst, false, 0, gzip, n)
  {
  }

  lemma RoundsDone(total: int, k: nat)
    requires total - 4096 * k <= 0 && k <= Rounds(total)
    ensures k == Rounds(total)
  {
  }

  lemma RoundsLeft(total: int, k: nat)
    requires total - 4096 * k > 0
    ensures k + 1 <= Rounds(total)
  {
  }

  /** What one more sector adds to the range that may have changed. */
  lemma Widen(f: seq<byte>, g: seq<byte>, h: seq<byte>, dst: nat, daddr: nat, rounds: nat)
    requires SameOutside(f, g, dst, daddr) && SameOutside(g, h, daddr, daddr + 4096)
    requires dst <= daddr && daddr + 4096 <= dst + 4096 * rounds
    ensures SameOutside(f, h, dst, daddr + 4096) && SameOutside(f, h, dst, dst + 4096 * rounds)
  {
  }

  /** One more sector copied. */
  lemma Advance(f: seq<byte>, g: seq<byte>, h: seq<byte>, src: nat, dst: nat, gzip: bool, k: nat)
    requires CopyProgress(f, g, src, dst, gzip, k) && IsChip(h) && |h| == |f|
    requires src % 4096 == 0 && dst % 4096 == 0 && dst + 4096 * k + 4096 <= |f|
    requires SameOutside(f, h, dst, dst + 4096 * k + 4096)
    requires !gzip ==>
      && src + 4096 * k + 4096 <= |f|
      && Sectors(h) == CopyStep(Sectors(g), Ones(4096), (src + 4096 * k) / 4096, (dst + 4096 * k) / 4096)
    ensures CopyProgress(f, h, src, dst, gzip, k + 1)
  {
    assert (src + 4096 * k) / 4096 == src / 4096 + k;
    assert (dst + 4096 * k) / 4096 == dst / 4096 + k;
  }

  method CompareLoop(chip: Chip, src: u32, dst: u32, gzip: bool, total: int) returns (result: nat)
    requires IsChip(chip.mem) && src % 4096 == 0 && dst % 4096 == 0
    requires !gzip && total > 0 ==> total % 4096 == 0
    ensures result != 1
    ensures CopyPost(chip.mem, chip.mem, src, dst, true, result, gzip, Rounds(total))
    ensures total <= 0 ==> result == 0
    ensures !gzip && SameRange(chip.mem, src, dst, Rounds(total)) ==> result == 0
  {
    hide SameRange;
    ghost var f := chip.mem;
    ghost var k := 0;
    var left, saddr: u32, daddr: u32 := total, src, dst;
    while left > 0
      invariant left == total - 4096 * k && k <= Rounds(total)
      invariant daddr == dst + 4096 * k && (k > 0 ==> daddr <= |f|)
      invariant !gzip ==> saddr == src + 4096 * k && (k > 0 ==> saddr <= |f|)
      invariant !gzip && k > 0 ==> SameRange(f, src, dst, k)
    {
      RoundsLeft(total, k);
      CompareRound(f, src, dst, Rounds(total), k);
      result := CompareSector(chip, saddr, daddr, gzip, left);
      if result != 0 {
        return;
      }
      NextAddress(f, saddr);
      NextAddress(f, daddr);
      saddr := (saddr + 4096) % TWO32;
      daddr := (daddr + 4096) % TWO32;
      left := left - 4096;
      k := k + 1;
    }
    result := 0;
  }

  /** A round that finds no difference extends what is the same, and finds none where all is. */
  lemma CompareRound(f: seq<byte>, src: nat, dst: nat, n: nat, k: nat)
    requires k < n
    ensures SameRange(f, src, dst, n) ==> SameRange(f, src + 4096 * k, dst + 4096 * k, 1)
    ensures SameRange(f, src + 4096 * k, dst + 4096 * k, 1) ==>
      src + 4096 * k + 4096 <= |f| && dst + 4096 * k + 4096 <= |f|
    ensures (k > 0 ==> SameRange(f, src, dst, k)) && SameRange(f, src + 4096 * k, dst + 4096 * k, 1) ==>
      SameRange(f, src, dst, k + 1)
  {
    if SameRange(f, src, dst, n) {
      SectorSame(f, src, dst, n, k);
    }
    if (k > 0 ==> SameRange(f, src, dst, k)) && SameRange(f, src + 4096 * k, dst + 4096 * k, 1) {
      OneMoreSame(f, src, dst, k);
    }
  }

  /** Addresses in the chip do not wrap around. */
  lemma NextAddress(f: seq<byte>, addr: u32)
    requires |f| <= 0x100_0000
    ensures addr + 4096 <= |f| ==> (addr + 4096) % TWO32 == addr + 4096
  {
  }

  // ---------------------------------------------------------------- main

  /** How a boot ends: in the application that was loaded, or in a reset. */
  datatype BootOutcome = Started(entry: u32, loads: seq<Segment>) | Reset

  /** Loading the image at `addr`. */
  function Load(f: seq<byte>, addr: u32): BootOutcome {
    match LoadAt(f, addr)
    case LoadError(_) => Reset
    case Loaded(loads) =>
      var pos := (addr + 4096) % TWO32;
      Started(WordOf(f[pos + 4..pos + 8]), loads)
  }

  /**
    `main`.  A command is cleared whether or not its copy succeeded; the application is loaded
    only after a successful copy or without a copy command; every other way ends in a reset, so
    the closing endless loop is never reached.
  */
  method BootMain(chip: Chip, rtc: array<u32>)
    returns (outcome: BootOutcome, ghost copied: nat, ghost gzip: bool, ghost n: nat)
    requires IsChip(chip.mem) && rtc.Length == 32
    modifies chip, rtc
    ensures IsChip(chip.mem)
    ensures rtc[..] == if Accepted(old(rtc[..])) then Cleared(old(rtc[..])) else old(rtc[..])
    ensures !Accepted(old(rtc[..])) ==> chip.mem == old(chip.mem) && outcome == Load(chip.mem, 0)
    ensures Accepted(old(rtc[..])) && old(rtc[1]) == ACTION_LOAD_APP ==>
      chip.mem == old(chip.mem) && outcome == Load(chip.mem, old(rtc[2]))
    ensures Accepted(old(rtc[..])) && old(rtc[1]) == ACTION_COPY_RAW ==>
      && CopyPost(old(chip.mem), chip.mem, old(rtc[2]), old(rtc[3]), false, copied, gzip, n)
      && (old(rtc[2]) + 4 <= |chip.mem| && copied != 1 ==> gzip == IsGzip(old(chip.mem), old(rtc[2])))
      && (!gzip ==> n == Rounds(Left(old(rtc[4]))))
      && (!gzip && copied != 1 && chip.reliable && InChip(old(chip.mem), old(rtc[2]), old(rtc[3]), n) ==> copied == 0)
      && outcome == if copied == 0 then Load(chip.mem, old(rtc[3])) else Reset
    ensures Accepted(old(rtc[..])) && old(rtc[1]) != ACTION_LOAD_APP && old(rtc[1]) != ACTION_COPY_RAW ==>
      chip.mem == old(chip.mem) && outcome == Reset
  {
    ghost var words := rtc[..];
    var status, cmd := CommandRead(rtc);
    CommandFields(words, cmd);
    var clearCmd := status == 0;
    var action, target: u32 := cmd.action, cmd.args[0];
    if status != 0 {
      action, target := ACTION_LOAD_APP, 0;
    }
    action, target, copied, gzip, n := Install(chip, action, target, cmd.args[1], cmd.args[2]);
    if clearCmd {
      CommandClear(rtc);
    }
    outcome := Reset;
    if action == ACTION_LOAD_APP {
      outcome := Launch(chip, target);
    }
  }

  /** The copy part of `main`: a successful copy turns the command into one to load the copy. */
  method Install(chip: Chip, action: u32, arg0: u32, arg1: u32, arg2: u32)
    returns (next: u32, target: u32, ghost copied: nat, ghost gzip: bool, ghost n: nat)
    requires IsChip(chip.mem)
    modifies chip
    ensures IsChip(chip.mem)
    ensures action != ACTION_COPY_RAW ==> chip.mem == old(chip.mem) && next == action && target == arg0
    ensures action == ACTION_COPY_RAW ==>
      && CopyPost(old(chip.mem), chip.mem, arg0, arg1, false, copied, gzip, n)
      && (arg0 + 4 <= |chip.mem| && copied != 1 ==> gzip == IsGzip(old(chip.mem), arg0))
      && (!gzip ==> n == Rounds(Left(arg2)))
      && (!gzip && copied != 1 && chip.reliable && InChip(old(chip.mem), arg0, arg1, n) ==> copied == 0)
      && (copied == 0 ==> next == ACTION_LOAD_APP && target == arg1)
      && (copied != 0 ==> next == action)
  {
    next, target, copied, gzip, n := action, arg0, 0, false, 0;
    if action == ACTION_COPY_RAW {
      var res;
      res, gzip, n := CopyRaw(chip, arg0, arg1, arg2, false);
      copied := res;
      if res == 0 {
        next, target := ACTION_LOAD_APP, arg1;
      }
    }
  }

  /** The load part of `main`. */
  method Launch(chip: Chip, target: u32) returns (outcome: BootOutcome)
    ensures outcome == Load(chip.mem, target)
  {
    var code, entry, loads := LoadApp(chip, target);
    outcome := if code == 0 then Started(entry, loads) else Reset;
  }

  lemma CommandFields(words: seq<u32>, cmd: Command)
    requires |words| == 32 && |cmd.args| == 29
    requires EbootCommand.Body(cmd.magic, cmd.action, cmd.args) + [cmd.crc32] == words
    ensures cmd.action == words[1] && cmd.args[0] == words[2] && cmd.args[1] == words[3] && cmd.args[2] == words[4]
  {
    var body := EbootCommand.Body(cmd.magic, cmd.action, cmd.args);
    assert words[..31] == body;
    assert words[1] == body[1] && words[2] == body[2] && words[3] == body[3] && words[4] == body[4];
  }
}
