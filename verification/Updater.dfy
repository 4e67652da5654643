/**
  The over-the-air updater: buffers the image as it arrives, stages it in flash above the
  running sketch, and hands it to the bootloader.
*/
module Updater {
  import opened Words
  import opened Flash
  import opened EbootCommand

  const U_FLASH: nat := 0
  const U_FS: nat := 100

  datatype Error =
    | OK | WriteFailed | EraseFailed | ReadFailed | NoSpace | BadSize | BadMd5
    | BadFlashConfig | NewFlashConfig | BadMagic | BadBootMode

  /** What `begin` and `end` ask the chip and the linker script about; offsets are into flash. */
  datatype Environment = Environment(
    bootMode: nat, flashConfigOk: bool, sketchSize: u32, freeHeap: nat,
    fsStart: u32, fsEnd: u32, realFlashSize: u32)

  /** Rounded up to whole sectors, in 32-bit arithmetic. */
  function RoundUp(n: u32): u32 {
    (n + 4095) % TWO32 / 4096 * 4096
  }

  /** Rounded up to whole sectors. */
  function SectorEnd(n: nat): nat {
    (n + 4095) / 4096 * 4096
  }

  // ---------------------------------------------------------------- begin

  const FLASH_BASE: nat := 0x4020_0000

  /** Where `begin` puts an update. */
  function StartFor(newSize: u32, command: nat, env: Environment): nat {
    if command == U_FS then env.fsStart
    else if env.fsStart > RoundUp(newSize) then env.fsStart - RoundUp(newSize)
    else 0
  }

  /** The error `begin` reports, in the order of its checks. */
  function BeginVerdict(newSize: u32, command: nat, env: Environment): Error {
    if env.bootMode == 1 then BadBootMode
    else if newSize == 0 then BadSize
    else if !env.flashConfigOk then BadFlashConfig
    else if command == U_FLASH && StartFor(newSize, command, env) < RoundUp(env.sketchSize) then NoSpace
    else if command == U_FS && (FLASH_BASE + env.fsStart + RoundUp(newSize)) % TWO32 > FLASH_BASE + env.fsEnd
    then NoSpace
    else OK
  }

  /**
    The linker script's layout of a chip: the sketch, then the filesystem from a sector boundary on.
    A sketch size of 0 means that it could not be read.
  */
  predicate Layout(env: Environment, chipSize: nat) {
    && env.sketchSize <= env.fsStart <= env.fsEnd <= chipSize <= 0x100_0000
    && env.fsStart % 4096 == 0
  }

  /** Whether an update keeps to its area: between sketch and filesystem, or in the filesystem. */
  predicate InArea(newSize: u32, command: nat, env: Environment) {
    var start := StartFor(newSize, command, env);
    && start % 4096 == 0
    && if command == U_FS then env.fsStart <= start && start + SectorEnd(newSize) <= env.fsEnd
       else 4096 <= start && SectorEnd(env.sketchSize) <= start && start + SectorEnd(newSize) == env.fsStart
  }

  /**
    An update that `begin` accepts keeps to its area exactly when its rounded size does not wrap
    around in 32-bit arithmetic and, where the size of the sketch could not be read, leaves room
    for one sector.
  */
  lemma AcceptedInArea(newSize: u32, command: nat, env: Environment, chipSize: nat)
    requires Layout(env, chipSize) && (command == U_FLASH || command == U_FS)
    requires BeginVerdict(newSize, command, env).OK?
    ensures InArea(newSize, command, env) <==>
      && newSize <= (if command == U_FLASH then 0xffff_f000 else TWO32 - FLASH_BASE - env.fsStart - 4096)
      && (command == U_FLASH && env.sketchSize == 0 ==> SectorEnd(newSize) + 4096 <= env.fsStart)
    ensures InArea(newSize, command, env) ==> StartFor(newSize, command, env) + SectorEnd(newSize) <= chipSize
  {
    RoundUpFits(env.sketchSize);
    if newSize <= 0xffff_f000 {
      RoundUpFits(newSize);
      if command == U_FS {
        AreaOfFilesystem(newSize, env);
      }
    } else {
      RoundUpWraps(newSize);
    }
  }

  /** There is room for an update: below the filesystem and above the sketch, or in the filesystem. */
  predicate HasRoom(newSize: u32, command: nat, env: Environment) {
    if command == U_FS then env.fsStart + SectorEnd(newSize) <= env.fsEnd
    else (if env.sketchSize == 0 then 4096 else SectorEnd(env.sketchSize)) + SectorEnd(newSize) <= env.fsStart
  }

  /** An update that `begin` is to accept, and that keeps to its area. */
  predicate Welcome(newSize: u32, command: nat, env: Environment) {
    env.bootMode != 1 && newSize > 0 && env.flashConfigOk && HasRoom(newSize, command, env)
  }

  /**
    What `begin` accepts in its area is exactly what there is room for.  Everything else is refused
    for the first reason that applies, but for the sizes that wrap around and for a sketch whose
    size could not be read.
  */
  lemma AcceptedExactly(newSize: u32, command: nat, env: Environment, chipSize: nat)
    requires Layout(env, chipSize) && (command == U_FLASH || command == U_FS)
    ensures var verdict := BeginVerdict(newSize, command, env);
            && (verdict.OK? && InArea(newSize, command, env) <==> Welcome(newSize, command, env))
            && (verdict == BadBootMode <==> env.bootMode == 1)
            && (verdict == BadSize <==> env.bootMode != 1 && newSize == 0)
            && (verdict == BadFlashConfig <==> env.bootMode != 1 && newSize > 0 && !env.flashConfigOk)
            && (verdict == NoSpace ==> !HasRoom(newSize, command, env))
            && (env.bootMode != 1 && 0 < newSize <= 0xbd00_0000 && env.flashConfigOk && env.sketchSize > 0 ==>
                (verdict == NoSpace <==> !HasRoom(newSize, command, env)))
  {
    hide SectorEnd, RoundUp;
    RoundUpFits(env.sketchSize);
    if newSize > 0xffff_f000 {
      RoundUpWraps(newSize);
    } else {
      RoundUpFits(newSize);
      if command == U_FS {
        FilesystemRoom(newSize, env);
      } else {
        SectorEndPositive(env.sketchSize);
        SectorEndPositive(newSize);
      }
    }
  }

  lemma SectorEndPositive(n: nat)
    ensures if n == 0 then SectorEnd(n) == 0 else SectorEnd(n) >= 4096
    ensures SectorEnd(n) % 4096 == 0 && SectorEnd(n) >= n
  {
  }

  /** The check against the end of the filesystem, with and without wrap-around. */
  lemma FilesystemRoom(newSize: u32, env: Environment)
    requires newSize <= 0xffff_f000 && env.fsStart <= env.fsEnd <= 0x100_0000 && env.fsStart % 4096 == 0
    ensures newSize <= TWO32 - FLASH_BASE - env.fsStart - 4096 ==>
      ((FLASH_BASE + env.fsStart + SectorEnd(newSize)) % TWO32 > FLASH_BASE + env.fsEnd <==>
        env.fsStart + SectorEnd(newSize) > env.fsEnd)
    ensures newSize > TWO32 - FLASH_BASE - env.fsStart - 4096 ==> env.fsStart + SectorEnd(newSize) > env.fsEnd
  {
    if newSize <= TWO32 - FLASH_BASE - env.fsStart - 4096 {
      Small(FLASH_BASE + env.fsStart + SectorEnd(newSize));
    }
  }

  /** A size that is accepted although it wraps around: the update would begin in the filesystem. */
  lemma WrappedAccepted()
    ensures var env := Environment(0, true, 0x4_0000, 40000, 0x20_0000, 0x3f_a000, 0x40_0000);
            && Layout(env, 0x40_0000) && BeginVerdict(0xffff_ffff, U_FLASH, env).OK?
            && StartFor(0xffff_ffff, U_FLASH, env) == env.fsStart && !InArea(0xffff_ffff, U_FLASH, env)
  {
    RoundUpWraps(0xffff_ffff);
    RoundUpFits(0x4_0000);
  }

  lemma StartsThere(newSize: u32, command: nat, env: Environment, chipSize: nat)
    requires Layout(env, chipSize) && (command == U_FLASH || command == U_FS)
    ensures command == U_FS ==> StartFor(newSize, command, env) == env.fsStart
    ensures command == U_FLASH && Welcome(newSize, command, env) ==>
      StartFor(newSize, command, env) + SectorEnd(newSize) == env.fsStart
  {
    AcceptedExactly(newSize, command, env, chipSize);
  }

  lemma AreaOfFilesystem(newSize: u32, env: Environment)
    requires newSize <= 0xffff_f000 && RoundUp(newSize) == SectorEnd(newSize)
    requires env.fsStart <= env.fsEnd <= 0x100_0000 && env.fsStart % 4096 == 0
    requires (FLASH_BASE + env.fsStart + SectorEnd(newSize)) % TWO32 <= FLASH_BASE + env.fsEnd
    ensures env.fsStart + SectorEnd(newSize) <= env.fsEnd <==> newSize <= TWO32 - FLASH_BASE - env.fsStart - 4096
  {
    var room := TWO32 - FLASH_BASE - env.fsStart;
    assert room % 4096 == 0;
    if newSize <= room - 4096 {
      assert SectorEnd(newSize) <= room - 4096;
      Small(FLASH_BASE + env.fsStart + SectorEnd(newSize));
    } else {
      assert SectorEnd(newSize) >= room;
    }
  }

  lemma RoundUpFits(n: u32)
    requires n <= 0xffff_f000
    ensures RoundUp(n) == SectorEnd(n)
  {
    Small(n + 4095);
  }

  lemma RoundUpWraps(n: u32)
    requires n > 0xffff_f000
    ensures RoundUp(n) == 0 && SectorEnd(n) == TWO32
  {
    assert (n + 4095) % TWO32 == n + 4095 - TWO32;
  }

  /** `magicFlashChipMode`: anything but the four known modes is 0xff. */
  function MagicMode(b: byte): byte {
    if b > 3 then 255 else b
  }

  /** The mode of the sketch in flash. */
  function FlashMode(f: seq<byte>): byte {
    if |f| >= 4 then MagicMode(f[2]) else 255
  }

  /** `magicFlashChipSize`. */
  function MagicSize(b: nat): u32 {
    match b % 16
    case 0 => 0x8_0000
    case 1 => 0x4_0000
    case 2 => 0x10_0000
    case 3 => 0x20_0000
    case 4 => 0x40_0000
    case 8 => 0x80_0000
    case 9 => 0x100_0000
    case _ => 0
  }

  /** A size code of the image tool, with the chip size it stands for in KiB. */
  predicate SizeCode(kib: nat, code: nat) {
    (kib, code) in {(512, 0), (256, 1), (1024, 2), (2048, 3), (4096, 4), (8192, 8), (16384, 9)}
  }

  /** The size in a header is the one the image tool was given. */
  lemma SizeCodesRead(kib: nat, code: nat, freq: nat)
    requires SizeCode(kib, code) && freq < 16
    ensures freq + 16 * code < 256 && MagicSize((freq + 16 * code) / 16) == 1024 * kib
  {
  }

  /** Whether the flash mode byte of an image is replaced on its way to flash. */
  predicate Patched(data: seq<byte>, mode: byte, command: nat) {
    command == U_FLASH && |data| >= 3 && data[0] != 0x1f && MagicMode(data[2]) != mode
  }

  /** What flash holds of an image. */
  function Staged(data: seq<byte>, mode: byte, command: nat): (bytes: seq<byte>)
    ensures |bytes| == |data|
  {
    if Patched(data, mode, command) then data[2 := mode] else data
  }

  /** What the MD5 sum is computed over. */
  function Hashed(data: seq<byte>, mode: byte, command: nat): (bytes: seq<byte>)
    ensures |bytes| == |data|
  {
    if Patched(data, mode, command) then data[2 := MagicMode(data[2])] else data
  }

  /**
    The mode byte is put back for the MD5 sum by its decoded value, so the sum is over the bytes
    sent exactly when the byte decodes to itself or was not replaced.
  */
  lemma HashedIsSent(data: seq<byte>, mode: byte, command: nat)
    ensures Hashed(data, mode, command) == data <==>
            !Patched(data, mode, command) || data[2] <= 3 || data[2] == 255
  {
    if Patched(data, mode, command) && Hashed(data, mode, command) == data {
      assert data[2 := MagicMode(data[2])][2] == data[2];
    }
  }

  /** An image that is not packed arrives with the mode of the running sketch, and is otherwise what was sent. */
  lemma ModeKept(image: seq<byte>, mode: byte)
    requires mode <= 3 || mode == 255
    ensures var bytes := Staged(image, mode, U_FLASH);
            && (forall i :: 0 <= i < |image| && i != 2 ==> bytes[i] == image[i])
            && (|image| > 3 && image[0] != 0x1f ==> FlashMode(bytes) == mode && (mode <= 3 ==> bytes[2] == mode))
            && (image != [] && image[0] == 0x1f ==> bytes == image)
    ensures Staged(image, mode, U_FS) == image && Hashed(image, mode, U_FS) == image
  {
  }

  /** An image with an unknown mode byte is hashed with another one. */
  lemma HashDiffers()
    ensures Hashed([0xe9, 1, 4, 0x40], 0, U_FLASH) == [0xe9, 1, 255, 0x40]
  {
  }

  lemma StagedGrows(data: seq<byte>, more: seq<byte>, mode: byte, command: nat)
    requires |data| >= 3
    ensures Staged(data + more, mode, command) == Staged(data, mode, command) + more
    ensures Hashed(data + more, mode, command) == Hashed(data, mode, command) + more
  {
  }

  // ---------------------------------------------------------------- pages and sectors

  predicate IsBufferSize(bs: nat) {
    bs == 256 || bs == 4096
  }

  /** A page that starts on a multiple of the buffer size lies in one sector. */
  lemma PageInSector(p: nat, n: nat, bs: nat)
    requires IsBufferSize(bs) && p % bs == 0 && 0 < n <= bs
    ensures n == bs ==> (p + n) % bs == 0
    ensures p % 4096 == 0 ==> SectorEnd(p) == p && SectorEnd(p + n) == p + 4096
    ensures p % 4096 != 0 ==> SectorEnd(p) == SectorEnd(p + n) && p + n <= SectorEnd(p)
  {
    var a, r := p / 4096, p % 4096;
    PageOffset(p, bs);
    SectorEndOf(a, r);
    SectorEndOf(a, r + n);
  }

  lemma PageOffset(p: nat, bs: nat)
    requires IsBufferSize(bs) && p % bs == 0
    ensures p % 4096 + bs <= 4096 && (p + bs) % bs == 0
  {
    if bs == 256 {
      assert p == 256 * (p / 256);
    }
  }

  lemma SectorEndOf(a: nat, r: nat)
    requires r <= 4096
    ensures SectorEnd(4096 * a + r) == if r == 0 then 4096 * a else 4096 * a + 4096
  {
  }

  /** The bytes from a up to b are erased. */
  ghost predicate Blank(f: seq<byte>, a: nat, b: nat) {
    b <= |f| && forall i :: a <= i < b ==> f[i] == 255
  }

  lemma BlankSlice(f: seq<byte>, a: nat, b: nat)
    requires Blank(f, a, b) && a <= b
    ensures f[a..b] == Ones(b - a)
  {
  }

  /** Programming data into a blank range. */
  lemma ProgramBlank(f: seq<byte>, a: nat, data: seq<byte>)
    requires Blank(f, a, a + |data|)
    ensures Put(f, a, Programmed(f[a..a + |data|], data)) == Put(f, a, data)
  {
    BlankSlice(f, a, a + |data|);
    ProgramErased(data);
  }

  // ---------------------------------------------------------------- staged bytes in flash

  /**
    The first p bytes of an update of `size` bytes at `start` are in flash as data, and the rest of
    the last sector begun is erased.
  */
  ghost predicate StagedIn(f: seq<byte>, start: nat, size: nat, p: nat, data: seq<byte>) {
    && IsChip(f) && start % 4096 == 0 && p <= size && start + SectorEnd(size) <= |f|
    && |data| == p && f[start..start + p] == data
    && Blank(f, start + p, start + SectorEnd(p))
  }

  /** The chip before a page is programmed: its sector is erased when it is the first page in it. */
  function Opened(f: seq<byte>, a: nat): (g: seq<byte>)
    ensures |g| == |f|
  {
    if a % 4096 == 0 && a + 4096 <= |f| then Put(f, a, Ones(4096)) else f
  }

  lemma SectorEndMonotone(p: nat, q: nat)
    requires p <= q
    ensures p <= SectorEnd(p) <= SectorEnd(q)
  {
  }

  /** Room for the next page. */
  lemma PageFits(start: nat, size: nat, p: nat, n: nat, bs: nat)
    requires start % 4096 == 0 && IsBufferSize(bs) && p % bs == 0 && 0 < n <= bs && p + n <= size
    ensures (start + p) % 4096 == 0 <==> p % 4096 == 0
    ensures p % 4096 == 0 ==> p + 4096 <= SectorEnd(size)
    ensures p + n <= SectorEnd(p + n) <= SectorEnd(size)
  {
    hide SectorEnd, IsBufferSize;
    AlignedSum(start, p);
    PageInSector(p, n, bs);
    SectorEndMonotone(p + n, size);
  }

  lemma AlignedSum(start: nat, p: nat)
    requires start % 4096 == 0
    ensures (start + p) % 4096 == 0 <==> p % 4096 == 0
  {
  }

  /** Opening the sector of the next page leaves it blank, and the bytes staged before it alone. */
  lemma OpenedBlank(f: seq<byte>, start: nat, size: nat, p: nat, data: seq<byte>, n: nat, bs: nat)
    requires StagedIn(f, start, size, p, data)
    requires IsBufferSize(bs) && p % bs == 0 && 0 < n <= bs && p + n <= size
    ensures var e := Opened(f, start + p);
            && |e| == |f| && e[start..start + p] == data
            && Blank(e, start + p, start + SectorEnd(p + n))
            && SameOutside(f, e, start + p, start + SectorEnd(p + n))
  {
    PageFits(start, size, p, n, bs);
    PageInSector(p, n, bs);
  }

  /** The chip after a page has been written. */
  function WithPage(f: seq<byte>, a: nat, bytes: seq<byte>): (g: seq<byte>)
    requires a + |bytes| <= |f|
    ensures |g| == |f|
  {
    Put(Opened(f, a), a, bytes)
  }

  /** The chip after programming bytes at a. */
  function Burned(e: seq<byte>, a: nat, bytes: seq<byte>): (g: seq<byte>)
    requires a + |bytes| <= |e|
    ensures |g| == |e|
  {
    Put(e, a, Programmed(e[a..a + |bytes|], bytes))
  }

  /** Programming the next page stores it: its range is blank. */
  lemma PageProgrammed(f: seq<byte>, start: nat, size: nat, p: nat, data: seq<byte>, bytes: seq<byte>, bs: nat)
    requires StagedIn(f, start, size, p, data)
    requires IsBufferSize(bs) && p % bs == 0 && 0 < |bytes| <= bs && p + |bytes| <= size
    ensures start + p + |bytes| <= |f|
    ensures var e := Opened(f, start + p);
            Burned(e, start + p, bytes) == WithPage(f, start + p, bytes)
  {
    hide Opened, Blank, Programmed;
    var n := |bytes|;
    PageFits(start, size, p, n, bs);
    OpenedBlank(f, start, size, p, data, n, bs);
    var e := Opened(f, start + p);
    BlankPart(e, start + p, start + p + n, start + SectorEnd(p + n));
    ProgramBlank(e, start + p, bytes);
  }

  /** Writing the next page extends what is staged. */
  lemma PageStaged(f: seq<byte>, start: nat, size: nat, p: nat, data: seq<byte>, bytes: seq<byte>, bs: nat)
    requires StagedIn(f, start, size, p, data)
    requires IsBufferSize(bs) && p % bs == 0 && 0 < |bytes| <= bs && p + |bytes| <= size
    ensures start + p + |bytes| <= |f|
    ensures var g := WithPage(f, start + p, bytes);
            StagedIn(g, start, size, p + |bytes|, data + bytes) && SameOutside(f, g, start, start + SectorEnd(size))
  {
    var n := |bytes|;
    PageFits(start, size, p, n, bs);
    OpenedBlank(f, start, size, p, data, n, bs);
    var e := Opened(f, start + p);
    PutAppends(e, start, p, data, bytes, start + SectorEnd(p + n));
    Joined(f, e, Put(e, start + p, bytes), start, start + p, start + SectorEnd(p + n), start + SectorEnd(size));
  }

  lemma BlankPart(f: seq<byte>, a: nat, b: nat, c: nat)
    requires Blank(f, a, c) && b <= c
    ensures Blank(f, a, b)
  {
  }

  lemma PutAppends(e: seq<byte>, start: nat, p: nat, data: seq<byte>, bytes: seq<byte>, end: nat)
    requires start + p + |bytes| <= end <= |e| && |data| == p && e[start..start + p] == data && Blank(e, start + p, end)
    ensures var g := Put(e, start + p, bytes);
            && g[start..start + p + |bytes|] == data + bytes
            && Blank(g, start + p + |bytes|, end)
            && SameOutside(e, g, start + p, end)
  {
    var g := Put(e, start + p, bytes);
    assert g[start..start + p] == data;
    assert g[start + p..start + p + |bytes|] == bytes;
  }

  lemma Joined(f: seq<byte>, e: seq<byte>, g: seq<byte>, a: nat, b: nat, c: nat, d: nat)
    requires SameOutside(f, e, b, c) && SameOutside(e, g, b, c) && a <= b && c <= d
    ensures SameOutside(f, g, a, d)
  {
  }

  // ---------------------------------------------------------------- the flash mode byte

  /** Whether `_writeBuffer` replaces the mode byte in its buffer. */
  predicate Replaces(buffer: seq<byte>, mode: byte, command: nat)
    requires |buffer| >= 3
  {
    command == U_FLASH && buffer[0] != 0x1f && MagicMode(buffer[2]) != mode
  }

  /** Replacing the byte in the buffer, and putting back its decoded value, seen on the n bytes in use. */
  lemma ReplacedBuffer(buffer: seq<byte>, n: nat, mode: byte, command: nat)
    requires 3 <= |buffer| && 0 < n <= |buffer|
    ensures var r := Replaces(buffer, mode, command);
            && (if r then buffer[2 := mode] else buffer)[..n] == Staged(buffer[..n], mode, command)
            && (if r then buffer[2 := MagicMode(buffer[2])] else buffer)[..n] == Hashed(buffer[..n], mode, command)
  {
  }

  /** What the next n bytes add to the staged and the hashed bytes. */
  lemma NextPage(sent: seq<byte>, p: nat, n: nat, mode: byte, command: nat)
    requires p + n <= |sent| && (p == 0 || p >= 3)
    ensures var page := sent[p..p + n];
            && Staged(sent[..p + n], mode, command)
               == Staged(sent[..p], mode, command) + (if p == 0 then Staged(page, mode, command) else page)
            && Hashed(sent[..p + n], mode, command)
               == Hashed(sent[..p], mode, command) + (if p == 0 then Hashed(page, mode, command) else page)
  {
    var page := sent[p..p + n];
    assert sent[..p + n] == sent[..p] + page;
    if p == 0 {
      assert sent[..0] == [] && sent[..n] == page;
    } else {
      StagedGrows(sent[..p], page, mode, command);
    }
  }

  /** The n buffered bytes as they are written. */
  function Outgoing(buffer: seq<byte>, n: nat, first: bool, mode: byte, command: nat): (bytes: seq<byte>)
    requires 3 <= |buffer| && n <= |buffer|
    ensures |bytes| == n
  {
    (if first && Replaces(buffer, mode, command) then buffer[2 := mode] else buffer)[..n]
  }

  /** The buffer once the mode byte is put back. */
  function PutBack(buffer: seq<byte>, first: bool, mode: byte, command: nat): (b: seq<byte>)
    requires 3 <= |buffer|
    ensures |b| == |buffer|
  {
    if first && Replaces(buffer, mode, command) then buffer[2 := MagicMode(buffer[2])] else buffer
  }

  /** The effect on flash of writing out a page. */
  lemma FlushedFlash(f: seq<byte>, start: nat, size: nat, p: nat, bs: nat, data: seq<byte>, bytes: seq<byte>,
                     staged: seq<byte>)
    requires StagedIn(f, start, size, p, data) && data + bytes == staged
    requires IsBufferSize(bs) && p % bs == 0 && 0 < |bytes| <= bs && p + |bytes| <= size
    ensures start + p + |bytes| <= |f|
    ensures var g := Burned(Opened(f, start + p), start + p, bytes);
            StagedIn(g, start, size, p + |bytes|, staged) && SameOutside(f, g, start, start + SectorEnd(size))
  {
    PageProgrammed(f, start, size, p, data, bytes, bs);
    PageStaged(f, start, size, p, data, bytes, bs);
  }

  lemma FlushedBytes(p: nat, bs: nat, buffer: seq<byte>, n: nat, sent: seq<byte>, mode: byte, command: nat)
    requires IsBufferSize(bs) && p % bs == 0 && |buffer| == bs && 0 < n <= bs
    requires p + n == |sent| && buffer[..n] == sent[p..]
    ensures Staged(sent[..p], mode, command) + Outgoing(buffer, n, p == 0, mode, command) == Staged(sent, mode, command)
    ensures Hashed(sent[..p], mode, command) + PutBack(buffer, p == 0, mode, command)[..n]
         == Hashed(sent, mode, command)
  {
    ReplacedBuffer(buffer, n, mode, command);
    NextPage(sent, p, n, mode, command);
    assert sent[..p + n] == sent && sent[p..p + n] == sent[p..];
  }

  /** Where a failed operation on the next page can have left its marks. */
  lemma FailedPage(f: seq<byte>, g: seq<byte>, start: nat, size: nat, p: nat, n: nat, bs: nat)
    requires start % 4096 == 0 && IsBufferSize(bs) && p % bs == 0 && 0 < n <= bs && p + n <= size
    requires start + SectorEnd(size) <= |f|
    requires (SameOutside(f, g, start + p, start + p + 4096) && (start + p) % 4096 == 0)
          || SameOutside(Opened(f, start + p), g, start + p, start + p + n)
    ensures SameOutside(f, g, start, start + SectorEnd(size))
  {
    PageFits(start, size, p, n, bs);
  }

  // ---------------------------------------------------------------- a running update

  /** The fields of a running update, with the bytes accepted so far and the mode of the running sketch. */
  datatype Update = Update(
    buffer: seq<byte>, bufferLen: nat, bufferSize: nat, size: nat, start: nat, current: nat,
    command: nat, md5: seq<byte>, sent: seq<byte>, mode: byte)

  /** What is buffered and hashed is what was sent. */
  ghost predicate Buffered(u: Update) {
    && u.size > 0 && IsBufferSize(u.bufferSize) && |u.buffer| == u.bufferSize && u.bufferLen <= u.bufferSize
    && (u.command == U_FLASH || u.command == U_FS)
    && u.start <= u.current <= u.start + u.size
    && var p := u.current - u.start;
       && p + u.bufferLen == |u.sent| <= u.size
       && (p < u.size ==> p % u.bufferSize == 0)
       && u.buffer[..u.bufferLen] == u.sent[p..]
       && u.md5 == Hashed(u.sent[..p], u.mode, u.command)
  }

  /** What is staged is what was sent and is not in the buffer. */
  ghost predicate InFlash(u: Update, f: seq<byte>)
    requires Buffered(u)
  {
    var p := u.current - u.start;
    && StagedIn(f, u.start, u.size, p, Staged(u.sent[..p], u.mode, u.command))
    && (u.command == U_FLASH ==> u.start >= 4096 && MagicMode(f[2]) == u.mode)
  }

  ghost predicate Consistent(u: Update, f: seq<byte>) {
    Buffered(u) && InFlash(u, f)
  }

  /** The bytes a flush writes. */
  function FlushBytes(u: Update): (bytes: seq<byte>)
    requires IsBufferSize(u.bufferSize) && |u.buffer| == u.bufferSize && u.bufferLen <= u.bufferSize
    ensures |bytes| == u.bufferLen
  {
    Outgoing(u.buffer, u.bufferLen, u.current == u.start, u.mode, u.command)
  }

  /** The fields after a successful flush. */
  function AfterFlush(u: Update): Update
    requires IsBufferSize(u.bufferSize) && |u.buffer| == u.bufferSize && u.bufferLen <= u.bufferSize
  {
    var b := PutBack(u.buffer, u.current == u.start, u.mode, u.command);
    u.(buffer := b, md5 := u.md5 + b[..u.bufferLen], current := u.current + u.bufferLen, bufferLen := 0)
  }

  /** A flush is due: the buffer is full or the end of the image has been sent. */
  predicate FlushDue(u: Update) {
    u.bufferLen == u.bufferSize || |u.sent| == u.size
  }

  /** A flush of nothing opens the next sector all the same, when the image ends where a sector ends. */
  predicate OpensExtra(u: Update) {
    u.bufferLen == 0 && u.size % 4096 == 0
  }

  /** Where the range that a flush can change ends. */
  function RangeEnd(u: Update): nat {
    u.start + SectorEnd(u.size) + if OpensExtra(u) then 4096 else 0
  }

  /** What an update that is consistent with flash needs of it. */
  lemma Fits(u: Update, f: seq<byte>)
    requires Consistent(u, f)
    ensures IsChip(f) && u.start % 4096 == 0 && |u.buffer| == u.bufferSize >= 256 && IsBufferSize(u.bufferSize)
    ensures 0 < u.size && |u.sent| <= u.size && u.bufferLen <= u.bufferSize
    ensures u.start <= u.current && u.current - u.start + u.bufferLen == |u.sent|
    ensures u.command == U_FLASH || u.command == U_FS
    ensures u.start + u.size <= u.start + SectorEnd(u.size) <= |f| && u.current + u.bufferLen <= |f|
  {
  }

  /** A flush of nothing changes no field, and in flash erases the extra sector. */
  lemma EmptyFlush(u: Update, f: seq<byte>)
    requires Consistent(u, f) && FlushDue(u) && u.bufferLen == 0
    ensures u.current == u.start + u.size && AfterFlush(u) == u
    ensures u.current <= |f| && FlashAfterFlush(u, f) == Opened(f, u.current)
    ensures u.current % 4096 == 0 <==> OpensExtra(u)
    ensures OpensExtra(u) ==> u.current == u.start + SectorEnd(u.size)
    ensures SameOutside(f, Opened(f, u.current), u.start + SectorEnd(u.size), RangeEnd(u))
  {
    hide StagedIn, Hashed, Staged, Burned, Opened;
    assert u.buffer[..0] == [];
    Fits(u, f);
    BurnedNothing(Opened(f, u.current), u.current);
    ExtraSector(u.start, u.size, f);
  }

  lemma BurnedNothing(e: seq<byte>, a: nat)
    requires a <= |e|
    ensures Burned(e, a, []) == e
  {
    assert Programmed(e[a..a], []) == [];
  }

  lemma ExtraSector(start: nat, size: nat, f: seq<byte>)
    requires start % 4096 == 0
    ensures (start + size) % 4096 == 0 <==> size % 4096 == 0
    ensures size % 4096 == 0 ==> SectorEnd(size) == size
    ensures SameOutside(f, Opened(f, start + size), start + SectorEnd(size),
                        start + SectorEnd(size) + if size % 4096 == 0 then 4096 else 0)
  {
  }

  lemma KeptOutside(u: Update, f: seq<byte>, g: seq<byte>, hi: nat)
    requires Consistent(u, f) && SameOutside(f, g, u.start + SectorEnd(u.size), hi)
    ensures Consistent(u, g) && SameOutside(f, g, u.start, hi)
  {
    var p := u.current - u.start;
    SectorEndMonotone(p, u.size);
    assert g[u.start..u.start + p] == f[u.start..u.start + p];
  }

  lemma FlushBuffered(u: Update)
    requires Buffered(u) && FlushDue(u) && u.bufferLen > 0
    ensures Buffered(AfterFlush(u))
  {
    hide Hashed, Staged, Outgoing, PutBack;
    var p := u.current - u.start;
    FlushedBytes(p, u.bufferSize, u.buffer, u.bufferLen, u.sent, u.mode, u.command);
    assert u.sent[..|u.sent|] == u.sent;
    if |u.sent| < u.size {
      PageInSector(p, u.bufferLen, u.bufferSize);
    }
  }

  /** The chip after a successful flush. */
  function FlashAfterFlush(u: Update, f: seq<byte>): (g: seq<byte>)
    requires IsBufferSize(u.bufferSize) && |u.buffer| == u.bufferSize && u.bufferLen <= u.bufferSize
    requires u.current + u.bufferLen <= |f|
    ensures |g| == |f|
  {
    Burned(Opened(f, u.current), u.current, FlushBytes(u))
  }

  lemma FlushFits(u: Update, f: seq<byte>)
    requires Consistent(u, f) && FlushDue(u)
    ensures u.current + u.bufferLen <= |f|
  {
    SectorEndMonotone(u.size, u.size);
  }

  /** A page to be flushed, and the sector it opens, lie inside the chip. */
  lemma PageInside(u: Update, f: seq<byte>)
    requires Consistent(u, f) && FlushDue(u)
    ensures u.bufferLen > 0 && u.current % 4096 == 0 ==> u.current + 4096 <= |f|
  {
    if u.bufferLen > 0 {
      PageFits(u.start, u.size, u.current - u.start, u.bufferLen, u.bufferSize);
    }
  }

  lemma FlushStages(f: seq<byte>, start: nat, size: nat, p: nat, bs: nat, buffer: seq<byte>, n: nat,
                    sent: seq<byte>, mode: byte, command: nat)
    requires IsBufferSize(bs) && p % bs == 0 && |buffer| == bs && 0 < n <= bs
    requires p + n == |sent| <= size && buffer[..n] == sent[p..]
    requires StagedIn(f, start, size, p, Staged(sent[..p], mode, command))
    ensures start + p + n <= |f|
    ensures var g := Burned(Opened(f, start + p), start + p, Outgoing(buffer, n, p == 0, mode, command));
            && StagedIn(g, start, size, |sent|, Staged(sent, mode, command))
            && SameOutside(f, g, start, start + SectorEnd(size))
  {
    FlushedBytes(p, bs, buffer, n, sent, mode, command);
    FlushedFlash(f, start, size, p, bs, Staged(sent[..p], mode, command), Outgoing(buffer, n, p == 0, mode, command),
                 Staged(sent, mode, command));
  }

  /** A flush keeps the update consistent and stays in the range of the update. */
  lemma FlushStep(u: Update, f: seq<byte>)
    requires Consistent(u, f) && FlushDue(u)
    ensures u.current + u.bufferLen <= |f|
    ensures Consistent(AfterFlush(u), FlashAfterFlush(u, f))
    ensures SameOutside(f, FlashAfterFlush(u, f), u.start, RangeEnd(u))
  {
    FlushFits(u, f);
    if u.bufferLen == 0 {
      EmptyFlush(u, f);
      KeptOutside(u, f, Opened(f, u.current), RangeEnd(u));
    } else {
      PageFlushed(u, f);
    }
  }

  lemma SameBelow(f: seq<byte>, g: seq<byte>, lo: nat, hi: nat, i: nat)
    requires SameOutside(f, g, lo, hi) && i < lo && i < |f|
    ensures g[i] == f[i]
  {
  }

  lemma PageFlushed(u: Update, f: seq<byte>)
    requires Consistent(u, f) && FlushDue(u) && u.bufferLen > 0 && u.current + u.bufferLen <= |f|
    ensures Consistent(AfterFlush(u), FlashAfterFlush(u, f))
    ensures SameOutside(f, FlashAfterFlush(u, f), u.start, u.start + SectorEnd(u.size))
  {
    hide StagedIn, Hashed, Staged, Burned, Opened, Outgoing, PutBack, SectorEnd, SameOutside;
    Fits(u, f);
    FlushStages(f, u.start, u.size, u.current - u.start, u.bufferSize, u.buffer, u.bufferLen, u.sent,
                u.mode, u.command);
    FlushBuffered(u);
    var v, g := AfterFlush(u), FlashAfterFlush(u, f);
    assert v.current - v.start == |u.sent| && u.sent[..|u.sent|] == u.sent;
    if u.command == U_FLASH {
      SameBelow(f, g, u.start, u.start + SectorEnd(u.size), 2);
    }
    assert InFlash(v, g);
  }

  /** The erase of the next page leaves the running sketch, and so the mode it asks for, alone. */
  lemma SameMode(u: Update, f: seq<byte>)
    requires Consistent(u, f) && FlushDue(u)
    ensures var e := Opened(f, u.current);
            var first := u.current == u.start;
            && |e| == |f| >= 4096
            && Outgoing(u.buffer, u.bufferLen, first, MagicMode(e[2]), u.command) == FlushBytes(u)
            && PutBack(u.buffer, first, MagicMode(e[2]), u.command) == PutBack(u.buffer, first, u.mode, u.command)
  {
    hide SectorEnd, Hashed, Staged;
    Fits(u, f);
    if u.command == U_FLASH {
      assert Opened(f, u.current)[2] == f[2];
    }
  }

  /** The range of the page a flush writes, in which a failed flush can have left its marks. */
  lemma FlushRange(u: Update, f: seq<byte>, g: seq<byte>)
    requires Consistent(u, f) && FlushDue(u)
    requires (SameOutside(f, g, u.current, u.current + 4096) && u.current % 4096 == 0)
          || SameOutside(Opened(f, u.current), g, u.current, u.current + u.bufferLen)
    ensures SameOutside(f, g, u.start, RangeEnd(u))
  {
    if u.bufferLen > 0 {
      FailedPage(f, g, u.start, u.size, u.current - u.start, u.bufferLen, u.bufferSize);
    } else {
      EmptyFlush(u, f);
    }
  }

  /** The fields once a chunk has been copied to the buffer. */
  function WithMore(u: Update, chunk: seq<byte>): (v: Update)
    requires u.bufferLen + |chunk| <= |u.buffer|
  {
    var n := u.bufferLen + |chunk|;
    u.(buffer := u.buffer[..u.bufferLen] + chunk + u.buffer[n..], bufferLen := n, sent := u.sent + chunk)
  }

  lemma FilledConsistent(u: Update, f: seq<byte>, chunk: seq<byte>)
    requires Consistent(u, f) && u.bufferLen + |chunk| <= u.bufferSize && |u.sent| + |chunk| <= u.size
    ensures Consistent(WithMore(u, chunk), f)
  {
    var p := u.current - u.start;
    var v := WithMore(u, chunk);
    assert v.sent[..p] == u.sent[..p];
    assert v.sent[p..] == u.sent[p..] + chunk;
    assert v.buffer[..v.bufferLen] == u.buffer[..u.bufferLen] + chunk;
  }

  /** v is a later stage of the update u, with `data` sent in between. */
  predicate Continues(u: Update, v: Update, data: seq<byte>) {
    && v.size == u.size && v.start == u.start && v.bufferSize == u.bufferSize
    && v.command == u.command && v.mode == u.mode
    && v.sent == u.sent + data
  }

  /** Where the range that a call of `write` can change ends. */
  function RestEnd(u: Update, nothing: bool): nat {
    u.start + SectorEnd(u.size) + if nothing && |u.sent| == u.size && u.size % 4096 == 0 then 4096 else 0
  }

  lemma RestRange(u: Update, f: seq<byte>, rest: seq<byte>)
    requires Consistent(u, f) && u.bufferLen + |rest| <= u.bufferSize && |u.sent| + |rest| == u.size
    requires |u.sent| == u.size ==> u.bufferLen == 0
    ensures RangeEnd(WithMore(u, rest)) == RestEnd(u, rest == [])
    ensures u.current + u.bufferLen + |rest| <= |f|
    ensures rest == [] && |u.sent| == u.size && u.size % 4096 == 0 ==>
      FlashAfterFlush(WithMore(u, rest), f) == Opened(f, u.start + SectorEnd(u.size))
  {
    hide InFlash, Hashed, Staged, FlashAfterFlush, Opened;
    FilledConsistent(u, f, rest);
    var v := WithMore(u, rest);
    FlushFits(v, f);
    if rest == [] && |u.sent| == u.size {
      assert v == u;
      EmptyFlush(u, f);
    }
  }

  lemma Widened(f: seq<byte>, g: seq<byte>, lo: nat, mid: nat, hi: nat)
    requires SameOutside(f, g, lo, mid) && mid <= hi
    ensures SameOutside(f, g, lo, hi)
  {
  }

  lemma WriteRange(u: Update, f: seq<byte>, g: seq<byte>, nothing: bool)
    requires SameOutside(f, g, u.start, u.start + SectorEnd(u.size))
    ensures SameOutside(f, g, u.start, RestEnd(u, nothing))
  {
  }

  lemma SameRest(u: Update, v: Update, nothing: bool)
    requires v.start == u.start && v.size == u.size && (nothing ==> v == u)
    ensures RestEnd(v, nothing) == RestEnd(u, nothing)
  {
  }

  lemma SameAnywhere(f: seq<byte>, lo: nat, hi: nat)
    ensures SameOutside(f, f, lo, hi)
  {
  }

  // ---------------------------------------------------------------- begin and end of an update

  /** An update that does not keep to its area is not a consistent one. */
  lemma OutsideInconsistent(u: Update, f: seq<byte>, env: Environment)
    requires 0 < u.size < TWO32 && (u.command == U_FLASH || u.command == U_FS) && Layout(env, |f|)
    requires u.start == StartFor(u.size, u.command, env) && BeginVerdict(u.size, u.command, env).OK?
    requires !InArea(u.size, u.command, env)
    ensures !Consistent(u, f)
  {
    AcceptedInArea(u.size, u.command, env, |f|);
    if u.size <= 0xffff_f000 {
      RoundUpFits(u.size);
    }
  }

  /** The freshly allocated buffer has any contents. */
  lemma StartsConsistent(u: Update, f: seq<byte>, env: Environment)
    requires 0 < u.size < TWO32 && IsChip(f) && Layout(env, |f|) && InArea(u.size, u.command, env)
    requires (u.command == U_FLASH || u.command == U_FS)
    requires u.start == u.current == StartFor(u.size, u.command, env)
    requires IsBufferSize(u.bufferSize) && |u.buffer| == u.bufferSize && u.bufferLen == 0
    requires u.sent == [] && u.md5 == [] && u.mode == FlashMode(f)
    ensures Consistent(u, f)
  {
    assert f[u.start..u.start] == [];
  }

  /** An update that is cut to the bytes sent. */
  lemma CutConsistent(u: Update, f: seq<byte>)
    requires Consistent(u, f) && u.sent != []
    ensures Consistent(u.(size := |u.sent|), f) && FlushDue(u.(size := |u.sent|))
  {
    SectorEndMonotone(|u.sent|, u.size);
  }

  /** A complete update: all that was sent is staged and summed. */
  lemma AllStaged(u: Update, f: seq<byte>)
    requires Consistent(u, f) && u.current == u.start + u.size
    ensures |u.sent| == u.size && u.start + u.size <= |f|
    ensures f[u.start..u.start + u.size] == Staged(u.sent, u.mode, u.command)
    ensures u.md5 == Hashed(u.sent, u.mode, u.command)
  {
    assert u.sent[..u.size] == u.sent;
  }

  lemma FlushedAll(u: Update)
    requires IsBufferSize(u.bufferSize) && |u.buffer| == u.bufferSize && u.bufferLen <= u.bufferSize
    ensures var v := AfterFlush(u);
            v.start == u.start && v.size == u.size && v.current == u.current + u.bufferLen && v.sent == u.sent
            && v.command == u.command && v.mode == u.mode
  {
  }

  /** Cutting an update changes neither its place nor what was sent. */
  lemma CutKeeps(u: Update)
    requires IsBufferSize(u.bufferSize) && |u.buffer| == u.bufferSize && u.bufferLen <= u.bufferSize
    ensures var v := Cut(u);
            v.start == u.start && v.size == |u.sent| && v.sent == u.sent && v.command == u.command && v.mode == u.mode
  {
  }

  /** The fields and the flash once such an update has been flushed. */
  function Cut(u: Update): Update
    requires IsBufferSize(u.bufferSize) && |u.buffer| == u.bufferSize && u.bufferLen <= u.bufferSize
  {
    if u.bufferLen > 0 then AfterFlush(u.(size := |u.sent|)) else u.(size := |u.sent|)
  }

  function FlashAfterCut(u: Update, f: seq<byte>): seq<byte>
    requires IsBufferSize(u.bufferSize) && |u.buffer| == u.bufferSize && u.bufferLen <= u.bufferSize
    requires u.current + u.bufferLen <= |f|
  {
    if u.bufferLen > 0 then FlashAfterFlush(u.(size := |u.sent|), f) else f
  }

  /** `_verifyEnd`. */
  function VerifyVerdict(f: seq<byte>, start: nat, command: nat, realFlashSize: nat): Error {
    if command != U_FLASH then OK
    else if start + 4 > |f| then ReadFailed
    else if f[start] == 0x1f && f[start + 1] == 0x8b then OK
    else if f[start] != 0xe9 then BadMagic
    else if MagicSize(f[start + 3] / 16) > realFlashSize then NewFlashConfig
    else OK
  }

  /** An image that `_verifyEnd` lets pass: packed, or with the magic byte and a size that fits the chip. */
  predicate GoodHeader(image: seq<byte>, realFlashSize: nat) {
    && image != []
    && if image[0] == 0x1f then |image| > 1 && image[1] == 0x8b
       else image[0] == 0xe9 && (|image| > 3 ==> MagicSize(image[3] / 16) <= realFlashSize)
  }

  /** An image of the image tool passes exactly when the size it was made for fits the chip. */
  lemma ToolImagePasses(image: seq<byte>, kib: nat, code: nat, freq: nat, realFlashSize: nat)
    requires |image| > 3 && SizeCode(kib, code) && freq < 16 && image[3] == freq + 16 * code
    ensures image[0] == 0xe9 ==> (GoodHeader(image, realFlashSize) <==> 1024 * kib <= realFlashSize)
    ensures image[0] == 0x1f ==> (GoodHeader(image, realFlashSize) <==> image[1] == 0x8b)
    ensures image[0] != 0xe9 && image[0] != 0x1f ==> !GoodHeader(image, realFlashSize)
  {
    SizeCodesRead(kib, code, freq);
  }

  /**
    The verdict on what is staged is one on the image sent: neither the replaced mode byte nor
    what follows a short image in flash can change it, and the header can always be read.
  */
  lemma HeaderDecides(f: seq<byte>, start: nat, image: seq<byte>, mode: byte, realFlashSize: nat)
    requires image != [] && StagedIn(f, start, |image|, |image|, Staged(image, mode, U_FLASH))
    ensures var verdict := VerifyVerdict(f, start, U_FLASH, realFlashSize);
            && !verdict.ReadFailed? && (verdict.OK? <==> GoodHeader(image, realFlashSize))
  {
    var bytes := f[start..start + |image|];
    assert f[start] == bytes[0] == image[0];
    if |image| > 1 {
      assert f[start + 1] == bytes[1] == image[1];
    }
    if |image| > 3 {
      assert f[start + 3] == bytes[3] == image[3];
    }
  }

  function LowerCase(c: char): char {
    if 'A' <= c <= 'Z' then c - 'A' + 'a' else c
  }

  /** `strcasecmp` finds no difference. */
  predicate SameIgnoringCase(a: string, b: string) {
    |a| == |b| && forall i :: 0 <= i < |a| ==> LowerCase(a[i]) == LowerCase(b[i])
  }

  /** Only digits and lower-case letters, as in a digest. */
  predicate IsLower(s: string) {
    forall i :: 0 <= i < |s| ==> '0' <= s[i] <= '9' || 'a' <= s[i] <= 'z'
  }

  /** The comparison is equality for digits and lower-case letters, and the case of a letter never matters. */
  lemma IgnoringCase(a: string, b: string, i: nat)
    requires i < |a|
    ensures SameIgnoringCase(a, b) <==> |a| == |b| && forall j :: 0 <= j < |a| ==>
              a[j] == b[j] || ('A' <= a[j] <= 'Z' && b[j] == a[j] - 'A' + 'a')
              || ('A' <= b[j] <= 'Z' && a[j] == b[j] - 'A' + 'a')
    ensures IsLower(a) && IsLower(b) ==> (SameIgnoringCase(a, b) <==> a == b)
    ensures SameIgnoringCase(a, b) <==> SameIgnoringCase(b, a)
    ensures 'a' <= a[i] <= 'z' ==> (SameIgnoringCase(a[i := a[i] - 'a' + 'A'], b) <==> SameIgnoringCase(a, b))
  {
    if 'a' <= a[i] <= 'z' {
      var c := a[i := a[i] - 'a' + 'A'];
      assert forall j :: 0 <= j < |a| ==> LowerCase(c[j]) == LowerCase(a[j]);
    }
  }

  /** The error `end` reports for a complete update. */
  function EndVerdict(u: Update, f: seq<byte>, target: string, digest: seq<byte> -> string, realFlashSize: nat): Error {
    if target != "" && !SameIgnoringCase(target, digest(u.md5)) then BadMd5
    else VerifyVerdict(f, u.start, u.command, realFlashSize)
  }

  lemma VerdictParts(u: Update, f: seq<byte>, target: string, digest: seq<byte> -> string, realFlashSize: nat)
    ensures EndVerdict(u, f, target, digest, realFlashSize).OK? <==>
      && (target == "" || SameIgnoringCase(target, digest(u.md5)))
      && VerifyVerdict(f, u.start, u.command, realFlashSize).OK?
  {
  }

  /** The words ask the bootloader to copy `size` bytes from `start` to the beginning of flash. */
  predicate Handed(words: seq<u32>, start: nat, size: nat) {
    && |words| == 32 && words == Sealed(ACTION_COPY_RAW, words[2..31])
    && words[2] == start && words[3] == 0 && words[4] == size
  }

  // ---------------------------------------------------------------- the updater

  lemma RoundKept(u: Update, v: Update, got: seq<byte>, f: seq<byte>, g: seq<byte>, h: seq<byte>)
    requires Continues(u, v, got) && (|v.sent| == v.size ==> got == [])
    requires SameOutside(f, g, u.start, RestEnd(u, true)) && SameOutside(g, h, v.start, RestEnd(v, true))
    ensures SameOutside(f, h, u.start, RestEnd(u, true))
  {
  }

  /** Where the template `write` takes its bytes from: more may have arrived at every look. */
  class Source {
    var pending: seq<byte>
    ghost var taken: seq<byte>

    method Available() returns (n: nat)
      modifies `pending
      ensures n == |pending|
    {
      var more: bool := *;
      while more
        decreases if more then 1 else 0
      {
        var b: byte := *;
        pending := pending + [b];
        more := false;
      }
      n := |pending|;
    }

    method Read(n: nat) returns (bytes: seq<byte>)
      requires n <= |pending|
      modifies this
      ensures |bytes| == n && taken == old(taken) + bytes
    {
      bytes := pending[..n];
      pending := pending[n..];
      taken := taken + bytes;
    }
  }

  class Updater {
    const chip: Chip
    const rtc: array<u32>
    var error: Error
    var buffer: seq<byte>
    var bufferLen: nat
    var bufferSize: nat
    var size: nat
    var startAddress: nat
    var currentAddress: nat
    var command: nat
    var targetMd5: string
    // What has been fed to the MD5 sum.
    var md5: seq<byte>
    // The bytes accepted in this update, and the decoded flash mode of the running sketch.
    ghost var sent: seq<byte>
    ghost var mode: byte

    constructor (flash: Chip, rtcMemory: array<u32>)
      requires IsChip(flash.mem) && rtcMemory.Length == 32
      ensures Valid() && Stopped() && error.OK? && chip == flash && rtc == rtcMemory
    {
      chip, rtc := flash, rtcMemory;
      error, buffer, bufferLen, bufferSize := OK, [], 0, 0;
      size, startAddress, currentAddress, command := 0, 0, 0, U_FLASH;
      targetMd5, md5, sent, mode := "", [], [], 0;
    }

    /** No update is running. */
    ghost predicate Stopped()
      reads this
    {
      size == 0 && buffer == [] && bufferLen == 0 && startAddress == 0 && currentAddress == 0 && command == U_FLASH
    }

    /** The fields of the update. */
    ghost function View(): Update
      reads this
    {
      Update(buffer, bufferLen, bufferSize, size, startAddress, currentAddress, command, md5, sent, mode)
    }

    /** The fields, with `goal` for the size of the image. */
    ghost function Until(goal: nat): Update
      reads this
    {
      View().(size := goal)
    }

    ghost predicate Valid()
      reads this, chip
    {
      && IsChip(chip.mem) && rtc.Length == 32
      && (Stopped() || (error.OK? && Consistent(View(), chip.mem) && (|sent| == size ==> IsFinished())))
    }

    predicate IsFinished()
      reads this
    {
      currentAddress == startAddress + size
    }

    predicate IsRunning()
      reads this
    {
      size > 0
    }

    predicate HasError()
      reads this
    {
      !error.OK?
    }

    function Progress(): int
      reads this
    {
      currentAddress - startAddress
    }

    function Remaining(): int
      reads this
    {
      size - (currentAddress - startAddress)
    }

    /** `_reset`. */
    method ResetUpdate()
      modifies `buffer, `bufferLen, `startAddress, `currentAddress, `size, `command
      ensures Stopped()
    {
      buffer := [];
      bufferLen := 0;
      startAddress := 0;
      currentAddress := 0;
      size := 0;
      command := U_FLASH;
    }

    /** `_setError`: any error ends the update. */
    method SetError(e: Error)
      modifies `error, `buffer, `bufferLen, `startAddress, `currentAddress, `size, `command
      ensures Stopped() && error == e
    {
      error := e;
      ResetUpdate();
    }

    /** `getFlashChipMode`. */
    method FlashChipMode() returns (m: byte)
      ensures m == FlashMode(chip.mem)
    {
      var ok, bytes := chip.ReadBytes(0, 4);
      m := if ok then MagicMode(bytes[2]) else 255;
    }

    /** A running update has taken at most its size, and is finished when it has taken all. */
    lemma SentFits()
      requires Valid()
      ensures size > 0 ==> error.OK? && Consistent(View(), chip.mem) && |sent| <= size
      ensures size > 0 ==> (IsFinished() <==> |sent| == size)
    {
    }

    /** `begin`. */
    method Begin(newSize: u32, cmd: nat, env: Environment) returns (ok: bool)
      requires Valid() && Layout(env, |chip.mem|)
      modifies this
      ensures ok <==> old(size == 0) && BeginVerdict(newSize, cmd, env).OK? && (cmd == U_FLASH || cmd == U_FS)
      ensures old(size > 0) ==> View() == old(View()) && error == old(error)
      ensures old(size == 0) ==> error == BeginVerdict(newSize, cmd, env)
      ensures targetMd5 == old(targetMd5)
      ensures ok && cmd == U_FS ==> startAddress == env.fsStart
      ensures ok && cmd == U_FLASH && Welcome(newSize, cmd, env) ==> startAddress + SectorEnd(newSize) == env.fsStart
      ensures ok ==> size == newSize > 0 && startAddress == StartFor(newSize, cmd, env) && command == cmd
                     && sent == [] && mode == FlashMode(chip.mem)
      ensures Valid() <==> !ok || InArea(newSize, cmd, env)
    {
      hide Consistent, BeginVerdict, StartFor, InArea, Layout, IsChip;
      ok := false;
      if size > 0 {
        return;
      }
      var verdict, updateStart := CheckBegin(newSize, cmd, env);
      if !verdict.OK? {
        SetError(verdict);
        return;
      }
      ResetUpdate();
      error := OK;
      if cmd == U_FLASH || cmd == U_FS {
        Initialize(newSize, cmd, updateStart, env.freeHeap);
        Started(env);
        StartsThere(newSize, cmd, env, |chip.mem|);
        ok := true;
      }
    }

    lemma Started(env: Environment)
      requires IsChip(chip.mem) && rtc.Length == 32 && Layout(env, |chip.mem|)
      requires 0 < size < TWO32 && (command == U_FLASH || command == U_FS) && BeginVerdict(size, command, env).OK?
      requires startAddress == currentAddress == StartFor(size, command, env)
      requires IsBufferSize(bufferSize) && |buffer| == bufferSize && bufferLen == 0
      requires sent == [] && md5 == [] && error.OK?
      requires mode == FlashMode(chip.mem)
      ensures Valid() <==> InArea(size, command, env)
    {
      AcceptedInArea(size, command, env, |chip.mem|);
      if InArea(size, command, env) {
        StartsConsistent(View(), chip.mem, env);
      } else if Valid() {
        OutsideInconsistent(View(), chip.mem, env);
      }
    }

    /** The checks of `begin`, and where the update is to start. */
    method CheckBegin(newSize: u32, cmd: nat, env: Environment) returns (verdict: Error, updateStart: nat)
      ensures verdict == BeginVerdict(newSize, cmd, env)
      ensures verdict.OK? ==> newSize > 0
      ensures verdict.OK? && (cmd == U_FLASH || cmd == U_FS) ==> updateStart == StartFor(newSize, cmd, env)
    {
      updateStart := 0;
      if env.bootMode == 1 {
        return BadBootMode, 0;
      }
      if newSize == 0 {
        return BadSize, 0;
      }
      if !env.flashConfigOk {
        return BadFlashConfig, 0;
      }
      var currentSketchSize, roundedSize := RoundUp(env.sketchSize), RoundUp(newSize);
      if cmd == U_FLASH {
        updateStart := if env.fsStart > roundedSize then env.fsStart - roundedSize else 0;
        if updateStart < currentSketchSize {
          return NoSpace, 0;
        }
      } else if cmd == U_FS {
        if (FLASH_BASE + env.fsStart + roundedSize) % TWO32 > FLASH_BASE + env.fsEnd {
          return NoSpace, 0;
        }
        updateStart := env.fsStart;
      }
      verdict := OK;
    }

    /** The end of `begin`. */
    method Initialize(newSize: u32, cmd: nat, updateStart: nat, freeHeap: nat)
      modifies this
      ensures size == newSize && startAddress == currentAddress == updateStart && command == cmd
      ensures IsBufferSize(bufferSize) && |buffer| == bufferSize && bufferLen == old(bufferLen)
      ensures sent == [] && md5 == [] && error == old(error) && targetMd5 == old(targetMd5)
      ensures mode == FlashMode(chip.mem)
    {
      hide Consistent;
      startAddress := updateStart;
      currentAddress := startAddress;
      size := newSize;
      bufferSize := if freeHeap > 8192 then 4096 else 256;
      assert |Ones(bufferSize)| == bufferSize;
      var memory: seq<byte> :| |memory| == bufferSize;
      buffer := memory;
      command := cmd;
      md5, sent := [], [];
      mode := FlashMode(chip.mem);
    }

    /** `setMD5`. */
    method SetMd5(expected: string) returns (ok: bool)
      modifies `targetMd5
      ensures ok <==> |expected| == 32
      ensures targetMd5 == if ok then expected else old(targetMd5)
    {
      ok := |expected| == 32;
      if ok {
        targetMd5 := expected;
      }
    }

    /** The erase at the head of `_writeBuffer`. */
    method OpenSector() returns (ok: bool)
      requires IsChip(chip.mem)
      modifies chip
      ensures IsChip(chip.mem)
      ensures ok ==> (currentAddress % 4096 == 0 ==> currentAddress + 4096 <= |chip.mem|)
                     && chip.mem == Opened(old(chip.mem), currentAddress)
      ensures currentAddress % 4096 != 0 ==> ok
      ensures chip.reliable && currentAddress + 4096 <= old(|chip.mem|) ==> ok
      ensures currentAddress % 4096 == 0 ==> SameOutside(old(chip.mem), chip.mem, currentAddress, currentAddress + 4096)
    {
      ok := true;
      if currentAddress % 4096 == 0 {
        ok := chip.EraseSector(currentAddress / 4096);
      }
    }

    /** The mode byte part of `_writeBuffer`: 256 when the buffer is left alone, else the value to put back. */
    method ReplaceMode() returns (putBack: nat)
      requires |buffer| >= 3 && |chip.mem| >= 4
      modifies `buffer
      ensures var r := currentAddress == startAddress && Replaces(old(buffer), MagicMode(chip.mem[2]), command);
              && buffer == (if r then old(buffer)[2 := MagicMode(chip.mem[2])] else old(buffer))
              && putBack == (if r then MagicMode(old(buffer[2])) else 256)
    {
      putBack := 256;
      if currentAddress == startAddress && buffer[0] != 0x1f && command == U_FLASH {
        var flashMode := FlashChipMode();
        var bufferFlashMode := MagicMode(buffer[2]);
        if bufferFlashMode != flashMode {
          buffer := buffer[2 := flashMode];
          putBack := bufferFlashMode;
        }
      }
    }

    /** The write in `_writeBuffer`, with the mode byte replaced for it and put back after it. */
    method ProgramPage() returns (ok: bool)
      requires IsChip(chip.mem) && |chip.mem| >= 4 && 3 <= |buffer| && bufferLen <= |buffer|
      modifies chip, `buffer
      ensures IsChip(chip.mem)
      ensures SameOutside(old(chip.mem), chip.mem, currentAddress, currentAddress + bufferLen)
      ensures buffer == PutBack(old(buffer), currentAddress == startAddress, MagicMode(old(chip.mem)[2]), command)
      ensures ok ==> currentAddress + bufferLen <= |chip.mem|
      ensures chip.reliable && currentAddress + bufferLen <= old(|chip.mem|) ==> ok
      ensures ok ==>
        chip.mem == Burned(old(chip.mem), currentAddress,
                           Outgoing(old(buffer), bufferLen, currentAddress == startAddress,
                                    MagicMode(old(chip.mem)[2]), command))
    {
      var putBack := ReplaceMode();
      ok := chip.Write(currentAddress, buffer[..bufferLen]);
      if putBack < 256 {
        buffer := buffer[2 := putBack];
      }
    }

    /** The erase and the write of `_writeBuffer`. */
    method StorePage(ghost goal: nat) returns (erased: bool, written: bool)
      requires Consistent(Until(goal), chip.mem) && FlushDue(Until(goal))
      modifies chip, `buffer
      ensures IsChip(chip.mem)
      ensures SameOutside(old(chip.mem), chip.mem, startAddress, RangeEnd(Until(goal)))
      ensures chip.reliable && bufferLen > 0 ==> erased && written
      ensures erased && written ==>
        var u := old(Until(goal));
        && u.current + u.bufferLen <= old(|chip.mem|)
        && chip.mem == FlashAfterFlush(u, old(chip.mem))
        && buffer == PutBack(u.buffer, u.current == u.start, u.mode, u.command)
    {
      hide Consistent, Opened, Burned, Outgoing, PutBack, SameOutside, SectorEnd;
      ghost var f, u := chip.mem, Until(goal);
      Fits(u, f);
      FlushFits(u, f);
      PageInside(u, f);
      written := false;
      erased := OpenSector();
      if erased {
        SameMode(u, f);
        written := ProgramPage();
      }
      FlushRange(u, f, chip.mem);
    }

    /** `_writeBuffer`, when a flush is due; `end(true)` flushes as if the image ended with the bytes sent. */
    method WriteBuffer(ghost goal: nat) returns (ok: bool)
      requires error.OK? && Consistent(Until(goal), chip.mem) && FlushDue(Until(goal))
      modifies chip, `error, `buffer, `bufferLen, `startAddress, `currentAddress, `size, `command, `md5
      ensures IsChip(chip.mem)
      ensures ok ==> error.OK? && size == old(size) && Until(goal) == AfterFlush(old(Until(goal)))
      ensures ok ==> Consistent(Until(goal), chip.mem)
      ensures ok ==> old(currentAddress + bufferLen) <= old(|chip.mem|)
                     && chip.mem == FlashAfterFlush(old(Until(goal)), old(chip.mem))
      ensures chip.reliable && old(bufferLen) > 0 ==> ok
      ensures !ok ==> Stopped() && (error.EraseFailed? || error.WriteFailed?) && md5 == old(md5)
      ensures SameOutside(old(chip.mem), chip.mem, old(startAddress), RangeEnd(old(Until(goal))))
    {
      hide InFlash, Hashed, Staged, SectorEnd, Opened, FlashAfterFlush, PutBack, SameOutside;
      ghost var u := Until(goal);
      FlushStep(u, chip.mem);
      var erased, written := StorePage(goal);
      ok := erased && written;
      if ok {
        assert chip.mem == FlashAfterFlush(u, old(chip.mem));
        Advance();
        assert Until(goal) == AfterFlush(u);
      } else {
        currentAddress := startAddress + size;
        SetError(if erased then WriteFailed else EraseFailed);
      }
    }

    /** The bookkeeping at the end of `_writeBuffer`. */
    method Advance()
      requires bufferLen <= |buffer|
      modifies `md5, `currentAddress, `bufferLen
      ensures md5 == old(md5) + buffer[..old(bufferLen)]
      ensures currentAddress == old(currentAddress) + old(bufferLen) && bufferLen == 0
    {
      md5 := md5 + buffer[..bufferLen];
      currentAddress := currentAddress + bufferLen;
      bufferLen := 0;
    }

    /** The `memcpy` into the buffer. */
    method Fill(chunk: seq<byte>)
      requires bufferLen + |chunk| <= |buffer|
      modifies `buffer, `bufferLen, `sent
      ensures View() == WithMore(old(View()), chunk)
    {
      var n := bufferLen + |chunk|;
      buffer := buffer[..bufferLen] + chunk + buffer[n..];
      bufferLen := n;
      sent := sent + chunk;
    }

    /** A chunk that makes a flush due. */
    method FillAndFlush(chunk: seq<byte>) returns (ok: bool)
      requires error.OK? && Consistent(View(), chip.mem)
      requires bufferLen + |chunk| <= bufferSize && |sent| + |chunk| <= size
      requires FlushDue(WithMore(View(), chunk))
      modifies chip, `error, `buffer, `bufferLen, `startAddress, `currentAddress, `size, `command, `md5, `sent
      ensures IsChip(chip.mem)
      ensures ok ==> error.OK? && Consistent(View(), chip.mem)
      ensures ok ==> bufferLen == 0 && Continues(old(View()), View(), chunk)
      ensures ok ==> old(currentAddress + bufferLen) + |chunk| <= old(|chip.mem|)
                     && chip.mem == FlashAfterFlush(WithMore(old(View()), chunk), old(chip.mem))
      ensures chip.reliable && old(bufferLen) + |chunk| > 0 ==> ok
      ensures !ok ==> Stopped() && (error.EraseFailed? || error.WriteFailed?)
      ensures SameOutside(old(chip.mem), chip.mem, old(startAddress), RangeEnd(WithMore(old(View()), chunk)))
    {
      FilledConsistent(View(), chip.mem, chunk);
      ghost var v := WithMore(View(), chunk);
      Fill(chunk);
      assert Until(size) == v;
      ok := WriteBuffer(size);
      if ok {
        assert View() == AfterFlush(v);
      }
    }

    /** The loop of `write`: flushes as long as more than the buffer holds is left. */
    method WriteFull(data: seq<byte>) returns (left: int, ok: bool)
      requires error.OK? && Consistent(View(), chip.mem) && |sent| + |data| <= size
      requires IsChip(chip.mem) && (|sent| == size ==> bufferLen == 0)
      modifies chip, `error, `buffer, `bufferLen, `startAddress, `currentAddress, `size, `command, `md5, `sent
      ensures IsChip(chip.mem)
      ensures 0 <= left <= |data| && (data != [] ==> left > 0)
      ensures ok ==> error.OK? && Consistent(View(), chip.mem) && bufferLen + left <= bufferSize
      ensures ok ==> Continues(old(View()), View(), data[..|data| - left])
      ensures ok && data == [] ==> View() == old(View()) && chip.mem == old(chip.mem)
      ensures chip.reliable ==> ok
      ensures !ok ==> data != [] && Stopped() && (error.EraseFailed? || error.WriteFailed?)
      ensures SameOutside(old(chip.mem), chip.mem, old(startAddress), old(startAddress) + SectorEnd(old(size)))
    {
      hide Consistent, Opened, FlashAfterFlush, SectorEnd, SameOutside;
      left, ok := |data|, true;
      SameAnywhere(chip.mem, startAddress, startAddress + SectorEnd(size));
      Fits(View(), chip.mem);
      ghost var u, f := View(), chip.mem;
      while bufferLen + left > bufferSize
        invariant 0 <= left <= |data| && (data != [] ==> left > 0)
        invariant error.OK? && Consistent(View(), chip.mem) && IsChip(chip.mem)
        invariant Continues(u, View(), data[..|data| - left])
        invariant SameOutside(f, chip.mem, startAddress, startAddress + SectorEnd(size))
        invariant data == [] ==> View() == u && chip.mem == f
      {
        ghost var v, g := View(), chip.mem;
        Fits(v, g);
        var at, toBuff := |data| - left, bufferSize - bufferLen;
        var chunk := data[at..at + toBuff];
        assert data[..at] + chunk == data[..at + toBuff];
        ok := FillAndFlush(chunk);
        SameTwice(f, g, chip.mem, u.start, u.start + SectorEnd(u.size));
        if !ok {
          return;
        }
        left := left - toBuff;
      }
    }

    /** The end of `write`: the rest goes to the buffer, and to flash when it ends the image. */
    method WriteRest(rest: seq<byte>) returns (ok: bool)
      requires error.OK? && Consistent(View(), chip.mem) && IsChip(chip.mem)
      requires bufferLen + |rest| <= bufferSize && |sent| + |rest| <= size
      requires |sent| == size ==> bufferLen == 0
      modifies chip, `error, `buffer, `bufferLen, `startAddress, `currentAddress, `size, `command, `md5, `sent
      ensures IsChip(chip.mem)
      ensures ok ==> error.OK? && Consistent(View(), chip.mem) && Continues(old(View()), View(), rest)
      ensures ok && |sent| == size ==> bufferLen == 0
      ensures chip.reliable && rest != [] ==> ok
      ensures !ok ==> Stopped() && (error.EraseFailed? || error.WriteFailed?)
      ensures SameOutside(old(chip.mem), chip.mem, old(startAddress), RestEnd(old(View()), rest == []))
      ensures ok && rest == [] && ErasesBeyond() ==> chip.mem == Opened(old(chip.mem), startAddress + SectorEnd(size))
    {
      hide InFlash, Hashed, Staged, SectorEnd, FlashAfterFlush, SameOutside, Opened;
      ghost var u, f := View(), chip.mem;
      FilledConsistent(u, f, rest);
      ok := true;
      if bufferLen + |rest| == Remaining() {
        RestRange(u, f, rest);
        ok := FillAndFlush(rest);
      } else {
        SameAnywhere(f, u.start, RestEnd(u, rest == []));
        Fill(rest);
      }
    }

    /** The part of `write` for bytes that there is room for. */
    method WriteAccepted(data: seq<byte>) returns (n: nat)
      requires error.OK? && Consistent(View(), chip.mem) && IsChip(chip.mem) && rtc.Length == 32
      requires |sent| == size ==> bufferLen == 0
      requires |sent| + |data| <= size
      modifies chip, `error, `buffer, `bufferLen, `startAddress, `currentAddress, `size, `command, `md5, `sent
      ensures Valid()
      ensures error.OK? ==> n == |data| && Continues(old(View()), View(), data)
      ensures chip.reliable && data != [] ==> error.OK?
      ensures !error.OK? ==> Stopped() && (error.EraseFailed? || error.WriteFailed?) && (n < |data| || data == [])
      ensures SameOutside(old(chip.mem), chip.mem, old(startAddress), RestEnd(old(View()), data == []))
      ensures error.OK? && data == [] && old(ErasesBeyond()) ==>
        chip.mem == Opened(old(chip.mem), startAddress + SectorEnd(size))
    {
      hide Consistent, Opened, SectorEnd, SameOutside, RestEnd, FlashAfterFlush, InFlash, Hashed, Staged;
      ghost var u, f := View(), chip.mem;
      Fits(u, f);
      var left, ok := WriteFull(data);
      WriteRange(u, f, chip.mem, data == []);
      if !ok {
        return |data| - left;
      }
      ghost var v, g := View(), chip.mem;
      Fits(v, g);
      var rest := data[|data| - left..];
      assert data[..|data| - left] + rest == data;
      ok := WriteRest(rest);
      SameRest(u, v, data == []);
      SameTwice(f, g, chip.mem, u.start, RestEnd(u, data == []));
      if ok {
        Fits(View(), chip.mem);
      }
      n := if ok then |data| else |data| - left;
    }

    /**
      `write`: how the bytes are split over calls, and how large the buffer is, makes no difference
      to what is staged and hashed.  An empty write after the end of the image erases one sector
      above the update when the image ends where a sector ends.
    */
    method Write(data: seq<byte>) returns (n: nat)
      requires Valid() && |data| < TWO31
      modifies chip, `error, `buffer, `bufferLen, `startAddress, `currentAddress, `size, `command, `md5, `sent
      ensures Valid()
      ensures !old(error.OK? && size > 0) ==>
        n == 0 && View() == old(View()) && error == old(error) && chip.mem == old(chip.mem)
      ensures old(error.OK? && size > 0) && |old(sent)| + |data| > old(size) ==>
        n == 0 && Stopped() && error == NoSpace && chip.mem == old(chip.mem)
      ensures old(error.OK? && size > 0) && |old(sent)| + |data| <= old(size) ==>
        && (error.OK? ==> n == |data| && Continues(old(View()), View(), data))
        && (chip.reliable && data != [] ==> error.OK?)
        && (!error.OK? ==> Stopped() && (error.EraseFailed? || error.WriteFailed?) && (n < |data| || data == []))
        && SameOutside(old(chip.mem), chip.mem, old(startAddress), RestEnd(old(View()), data == []))
        && (error.OK? && data == [] && old(ErasesBeyond()) ==>
            chip.mem == Opened(old(chip.mem), startAddress + SectorEnd(size)))
    {
      hide Consistent, Opened, SectorEnd, SameOutside, RestEnd;
      if HasError() || !IsRunning() {
        return 0;
      }
      Fits(View(), chip.mem);
      if Progress() + bufferLen + |data| > size {
        SetError(NoSpace);
        return 0;
      }
      n := WriteAccepted(data);
    }

    /** One round of the template `write`. */
    method WriteRound(source: Source, available: nat) returns (written: nat, ok: bool, ghost chunk: seq<byte>)
      requires error.OK? && Consistent(View(), chip.mem) && IsChip(chip.mem) && (|sent| == size ==> bufferLen == 0)
      requires 0 < available <= |source.pending|
      modifies source, chip, `error, `buffer, `bufferLen, `startAddress, `currentAddress, `size, `command, `md5, `sent
      ensures IsChip(chip.mem) && source.taken == old(source.taken) + chunk
      ensures ok ==> error.OK? && Consistent(View(), chip.mem) && (|sent| == size ==> bufferLen == 0)
      ensures ok ==> written == |chunk| && Continues(old(View()), View(), chunk)
      ensures ok && old(|sent| < size) ==> |chunk| > 0 || bufferLen < old(bufferLen)
      ensures chip.reliable && old(|sent| < size) ==> ok
      ensures !ok ==> Stopped() && (error.EraseFailed? || error.WriteFailed?)
      ensures SameOutside(old(chip.mem), chip.mem, old(startAddress), RestEnd(old(View()), true))
    {
      hide Consistent, Opened, FlashAfterFlush, SectorEnd, SameOutside;
      written := 0;
      ghost var u, f := View(), chip.mem;
      Fits(u, f);
      var count := if bufferLen + available > Remaining() then Remaining() - bufferLen else available;
      if bufferLen + count > bufferSize {
        var toBuff := bufferSize - bufferLen;
        var bytes := source.Read(toBuff);
        chunk := bytes;
        ok := FillAndFlush(bytes);
        if ok {
          written := toBuff;
        }
      } else {
        var bytes := source.Read(count);
        chunk := bytes;
        written := count;
        ok := WriteRest(bytes);
      }
    }

    /** The template `write`: it stages a prefix of what the source yields, and never more than is missing. */
    method WriteFrom(source: Source) returns (written: nat, ghost got: seq<byte>)
      requires Valid()
      modifies source, chip, `error, `buffer, `bufferLen, `startAddress, `currentAddress, `size, `command, `md5, `sent
      ensures Valid() && source.taken == old(source.taken) + got
      ensures !old(error.OK? && size > 0) ==>
        written == 0 && got == [] && View() == old(View()) && error == old(error) && chip.mem == old(chip.mem)
      ensures old(error.OK? && size > 0) && error.OK? ==>
        written == |got| && Continues(old(View()), View(), got) && (source.pending == [] || |sent| == size)
      ensures old(error.OK? && size > 0) && chip.reliable && old(|sent| < size) ==> error.OK?
      ensures old(error.OK? && size > 0) && !error.OK? ==> Stopped() && (error.EraseFailed? || error.WriteFailed?)
      ensures SameOutside(old(chip.mem), chip.mem, old(startAddress), RestEnd(old(View()), true))
    {
      hide Consistent, Opened, FlashAfterFlush, SectorEnd, SameOutside;
      written, got := 0, [];
      ghost var u, f := View(), chip.mem;
      SameAnywhere(f, u.start, RestEnd(u, true));
      if HasError() || !IsRunning() {
        return;
      }
      Fits(u, f);
      var available := source.Available();
      while available > 0
        invariant source.taken == old(source.taken) + got && written == |got|
        invariant available == |source.pending|
        invariant error.OK? && Consistent(View(), chip.mem) && IsChip(chip.mem)
        invariant |sent| == size ==> bufferLen == 0
        invariant |sent| <= size && size - |sent| == Remaining() - bufferLen && (|sent| == size ==> got == [])
        invariant Continues(u, View(), got)
        invariant SameOutside(f, chip.mem, u.start, RestEnd(u, true))
        decreases size - |sent|, bufferLen
      {
        ghost var v, g := View(), chip.mem;
        var n, ok;
        ghost var chunk;
        n, ok, chunk := WriteRound(source, available);
        RoundKept(u, v, got, f, g, chip.mem);
        got := got + chunk;
        if !ok {
          return;
        }
        Fits(View(), chip.mem);
        written := written + n;
        if Remaining() == 0 {
          return;
        }
        available := source.Available();
      }
    }

    /** `_verifyEnd`, without the changes to `_currentAddress` that the reset undoes. */
    method VerifyEnd(realFlashSize: u32) returns (verdict: Error)
      ensures verdict == VerifyVerdict(chip.mem, startAddress, command, realFlashSize)
    {
      if command != U_FLASH {
        return OK;
      }
      var ok, buf := chip.ReadBytes(startAddress, 4);
      if !ok {
        return ReadFailed;
      }
      if buf[0] == 0x1f && buf[1] == 0x8b {
        return OK;
      }
      if buf[0] != 0xe9 {
        return BadMagic;
      }
      verdict := if MagicSize(buf[3] / 16) > realFlashSize then NewFlashConfig else OK;
    }

    static lemma SumDecides(target: string, sum: string)
      ensures target == sum ==> SameIgnoringCase(target, sum)
      ensures target != "" && IsLower(target) && IsLower(sum) && SameIgnoringCase(target, sum) ==> target == sum
    {
      if target != "" {
        IgnoringCase(target, sum, 0);
      }
    }

    /** The checks of `end` and the handover to the bootloader. */
    method Conclude(realFlashSize: u32, digest: seq<byte> -> string) returns (ok: bool)
      requires rtc.Length == 32 && startAddress < TWO32 && size < TWO32
      modifies rtc, `error, `buffer, `bufferLen, `startAddress, `currentAddress, `size, `command
      ensures Stopped()
      ensures var verdict := EndVerdict(old(View()), chip.mem, targetMd5, digest, realFlashSize);
              && (ok <==> verdict.OK?)
              && error == if ok then old(error) else verdict
      ensures ok && IsLower(targetMd5) && IsLower(digest(old(md5))) ==> targetMd5 == "" || targetMd5 == digest(old(md5))
      ensures !ok && error == BadMd5 ==> targetMd5 != "" && targetMd5 != digest(old(md5))
      ensures if ok && old(command) == U_FLASH then Handed(rtc[..], old(startAddress), old(size))
              else rtc[..] == old(rtc[..])
    {
      SumDecides(targetMd5, digest(md5));
      if targetMd5 != "" && !SameIgnoringCase(targetMd5, digest(md5)) {
        SetError(BadMd5);
        return false;
      }
      var verdict := VerifyEnd(realFlashSize);
      if !verdict.OK? {
        SetError(verdict);
        return false;
      }
      if command == U_FLASH {
        Handover();
      }
      ResetUpdate();
      ok := true;
    }

    /** The command for the bootloader; its unused arguments are not initialized. */
    method Handover()
      requires rtc.Length == 32 && startAddress < TWO32 && size < TWO32
      modifies rtc
      ensures Handed(rtc[..], startAddress, size)
    {
      var start: u32, count: u32 := startAddress, size;
      var rest: seq<u32>;
      assert |seq(26, _ => 0 as u32)| == 26;
      rest :| |rest| == 26;
      var args := [start, 0, count] + rest;
      CommandWrite(rtc, ACTION_COPY_RAW, args);
      assert rtc[..][2..31] == args;
    }

    /** The part of `end` for an incomplete image that is to be taken as it is. */
    method CutOff() returns (flushed: bool)
      requires Valid() && size > 0
      modifies chip, `error, `buffer, `bufferLen, `startAddress, `currentAddress, `size, `command, `md5
      ensures IsChip(chip.mem) && startAddress + size <= |chip.mem|
      ensures SameOutside(old(chip.mem), chip.mem, old(startAddress), old(startAddress) + SectorEnd(old(size)))
      ensures old(IsFinished()) ==> flushed && View() == old(View()) && chip.mem == old(chip.mem) && error.OK?
      ensures old(currentAddress + bufferLen) <= old(|chip.mem|)
      ensures flushed ==> View() == Cut(old(View())) && error.OK?
      ensures flushed ==> chip.mem == FlashAfterCut(old(View()), old(chip.mem))
      ensures flushed && old(sent) != [] ==> Consistent(View(), chip.mem) && currentAddress == startAddress + size
      ensures flushed ==> sent == old(sent)
      ensures chip.reliable || old(bufferLen) == 0 ==> flushed
      ensures !flushed ==> Stopped() && (error.EraseFailed? || error.WriteFailed?) && md5 == old(md5)
    {
      hide Consistent, AfterFlush, FlashAfterFlush, SectorEnd, SameOutside;
      ghost var u, f := View(), chip.mem;
      SentFits();
      Fits(u, f);
      flushed := true;
      SameAnywhere(f, u.start, u.start + SectorEnd(u.size));
      if sent != [] {
        CutConsistent(u, f);
      }
      if bufferLen > 0 {
        ghost var goal := |sent|;
        FlushedAll(u.(size := goal));
        SectorEndMonotone(goal, size);
        flushed := WriteBuffer(goal);
        Widened(f, chip.mem, u.start, u.start + SectorEnd(goal), u.start + SectorEnd(u.size));
      }
      size := Progress();
      if flushed && sent != [] {
        Fits(View(), chip.mem);
      }
    }

    /**
      `end`.  A complete update ends by its verdict alone, with nothing written to flash; an
      incomplete one is dropped, or with `evenIfRemaining` cut to the bytes sent.  When the flush
      this takes fails, `end` goes on with an empty update, and can succeed all the same.
    */
    method End(evenIfRemaining: bool, realFlashSize: u32, digest: seq<byte> -> string)
      returns (ok: bool, ghost flushed: bool)
      requires Valid()
      modifies chip, rtc, `error, `buffer, `bufferLen, `startAddress, `currentAddress, `size, `command, `md5
      ensures Valid() && Stopped()
      ensures old(size == 0 || (!IsFinished() && !evenIfRemaining)) ==>
        !ok && error == old(error) && chip.mem == old(chip.mem) && rtc[..] == old(rtc[..])
      ensures old(size > 0 && IsFinished()) ==>
        var verdict := EndVerdict(old(View()), chip.mem, targetMd5, digest, realFlashSize);
        && chip.mem == old(chip.mem) && (ok <==> verdict.OK?) && error == verdict
        && if ok && old(command) == U_FLASH then Handed(rtc[..], old(startAddress), old(size))
           else rtc[..] == old(rtc[..])
      ensures old(size > 0 && !IsFinished() && evenIfRemaining) && flushed ==>
        var u := Cut(old(View()));
        var verdict := EndVerdict(u, chip.mem, targetMd5, digest, realFlashSize);
        && old(currentAddress + bufferLen) <= old(|chip.mem|)
        && chip.mem == FlashAfterCut(old(View()), old(chip.mem)) && (ok <==> verdict.OK?) && error == verdict
        && if ok && u.command == U_FLASH then Handed(rtc[..], u.start, |u.sent|) else rtc[..] == old(rtc[..])
      ensures chip.reliable || old(bufferLen) == 0 ==> flushed
      ensures old(size > 0 && !IsFinished() && evenIfRemaining) && !flushed ==>
        && (ok <==> (targetMd5 == "" || SameIgnoringCase(targetMd5, digest(old(md5))))
                    && VerifyVerdict(chip.mem, 0, U_FLASH, realFlashSize).OK?)
        && !error.OK? && if ok then Handed(rtc[..], 0, 0) else rtc[..] == old(rtc[..])
      ensures ok && flushed && old(sent) != [] ==>
        var n := old(startAddress) + |old(sent)|;
        && n <= |chip.mem| && chip.mem[old(startAddress)..n] == Staged(old(sent), mode, old(command))
        && var sum := digest(Hashed(old(sent), mode, old(command)));
           (IsLower(targetMd5) && IsLower(sum) ==> targetMd5 == "" || targetMd5 == sum)
      ensures SameOutside(old(chip.mem), chip.mem, old(startAddress), old(startAddress) + SectorEnd(old(size)))
    {
      hide Consistent, Staged, Hashed, VerifyVerdict, SameIgnoringCase, Cut, FlashAfterCut, SectorEnd, SameOutside,
           Handed, EndVerdict, IsLower;
      flushed := true;
      ghost var u, f := View(), chip.mem;
      SameAnywhere(f, u.start, u.start + SectorEnd(u.size));
      SentFits();
      if size == 0 {
        ResetUpdate();
        return false, true;
      }
      if HasError() || (!IsFinished() && !evenIfRemaining) {
        ResetUpdate();
        return false, true;
      }
      Fits(u, f);
      CutKeeps(u);
      if evenIfRemaining {
        flushed := CutOff();
      }
      VerdictParts(View(), chip.mem, targetMd5, digest, realFlashSize);
      if flushed && sent != [] {
        AllStaged(View(), chip.mem);
      }
      ok := Conclude(realFlashSize, digest);
    }

    /** The image has ended where a sector ends: an empty write erases the sector above it. */
    predicate ErasesBeyond()
      reads this
    {
      size > 0 && IsFinished() && size % 4096 == 0
    }
  }
}
