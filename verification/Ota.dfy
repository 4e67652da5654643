/**
  An over-the-air update from the first byte received to the application that starts: updater,
  command in RTC memory, bootloader and image together.
*/
module Ota {
  import opened Words
  import opened Flash
  import opened SectorCopy
  import opened EbootCommand
  import opened Updater
  import Crc
  import Image
  import Eboot
  import Reboot

  // ---------------------------------------------------------------- receiving

  function Flat(chunks: seq<seq<byte>>): seq<byte> {
    if chunks == [] then [] else Flat(chunks[..|chunks| - 1]) + chunks[|chunks| - 1]
  }

  /** Flash and RTC memory are ready for the bootloader to install an image. */
  ghost predicate Ready(m: Reboot.Machine, start: nat, image: seq<byte>, mode: byte) {
    && IsChip(m.flash) && start >= 4096 && image != []
    && StagedIn(m.flash, start, |image|, |image|, Staged(image, mode, U_FLASH))
    && Handed(m.rtc, start, |image|)
  }

  /**
    Everything outside the area of an update is as it was: the space between the running sketch and
    the filesystem, or the filesystem.
  */
  ghost predicate OnlyArea(f: seq<byte>, g: seq<byte>, command: nat, env: Environment) {
    if command == U_FS then SameOutside(f, g, env.fsStart, env.fsEnd)
    else SameOutside(f, g, SectorEnd(env.sketchSize), env.fsStart)
  }

  lemma AreaCovers(f: seq<byte>, g: seq<byte>, newSize: u32, command: nat, env: Environment)
    requires InArea(newSize, command, env)
    ensures var start := StartFor(newSize, command, env);
            SameOutside(f, g, start, start + SectorEnd(newSize)) ==> OnlyArea(f, g, command, env)
  {
  }

  lemma Nothing(f: seq<byte>, command: nat, env: Environment)
    ensures OnlyArea(f, f, command, env)
  {
  }

  lemma AreaJoined(f: seq<byte>, g: seq<byte>, h: seq<byte>, command: nat, env: Environment)
    requires OnlyArea(f, g, command, env) && OnlyArea(g, h, command, env)
    ensures OnlyArea(f, h, command, env)
  {
  }

  lemma FlatStep(chunks: seq<seq<byte>>, i: nat)
    requires i < |chunks|
    ensures Flat(chunks[..i + 1]) == Flat(chunks[..i]) + chunks[i]
  {
    assert chunks[..i + 1][..i] == chunks[..i];
  }

  /** The update has taken the bytes so far, or has been given up. */
  ghost predicate Receiving(v: Update, stopped: bool, error: Error, newSize: nat, start: nat, command: nat,
                            mode: byte, sent: seq<byte>) {
    if stopped then !error.OK?
    else
      && error.OK? && v.size == newSize && v.start == start
      && v.command == command && v.mode == mode && v.sent == sent
  }

  lemma ReceivedReady(v: Update, f: seq<byte>, rtc: seq<u32>, newSize: nat, start: nat, mode: byte, sent: seq<byte>)
    requires Receiving(v, false, OK, newSize, start, U_FLASH, mode, sent) && Consistent(v, f)
    requires v.current == v.start + v.size && Handed(rtc, start, newSize)
    ensures |sent| == newSize && Ready(Reboot.Machine(f, rtc), start, sent, mode)
    ensures v.md5 == Hashed(sent, mode, U_FLASH)
  {
    assert sent[..newSize] == sent;
  }

  /** One chunk.  On a reliable chip only a chunk too many ends the update. */
  method ReceiveChunk(u: Updater, chunk: seq<byte>, newSize: u32, ghost command: nat, ghost env: Environment,
                      ghost mode: byte, ghost sent: seq<byte>)
    requires u.Valid() && 0 < |chunk| < TWO31
    requires InArea(newSize, command, env)
    requires Receiving(u.View(), u.size == 0, u.error, newSize, StartFor(newSize, command, env), command, mode, sent)
    modifies u.chip, u`error, u`buffer, u`bufferLen, u`startAddress, u`currentAddress, u`size, u`command, u`md5, u`sent
    ensures u.Valid()
    ensures Receiving(u.View(), u.size == 0, u.error, newSize, StartFor(newSize, command, env), command, mode,
                      sent + chunk)
    ensures OnlyArea(old(u.chip.mem), u.chip.mem, command, env)
    ensures old(u.size) == 0 ==> u.size == 0
    ensures u.chip.reliable && old(u.size) > 0 && |sent| + |chunk| <= newSize ==> u.size > 0
    ensures u.size > 0 ==> |sent| + |chunk| <= newSize
  {
    hide Consistent, SectorEnd, InArea, OnlyArea, SameOutside;
    ghost var f := u.chip.mem;
    Nothing(f, command, env);
    ghost var running := u.size > 0;
    var _ := u.Write(chunk);
    if running {
      AreaCovers(f, u.chip.mem, newSize, command, env);
    }
    u.SentFits();
  }

  /** The beginning of an update and all its chunks. */
  method ReceiveAll(u: Updater, newSize: u32, command: nat, chunks: seq<seq<byte>>, env: Environment)
    returns (begun: bool)
    requires u.Valid() && u.Stopped() && Layout(env, |u.chip.mem|) && (command == U_FLASH || command == U_FS)
    requires BeginVerdict(newSize, command, env).OK? ==> InArea(newSize, command, env)
    requires forall i :: 0 <= i < |chunks| ==> 0 < |chunks[i]| < TWO31
    modifies u, u.chip
    ensures u.Valid() && OnlyArea(old(u.chip.mem), u.chip.mem, command, env)
    ensures u.targetMd5 == old(u.targetMd5)
    ensures begun <==> Welcome(newSize, command, env)
    ensures begun ==> InArea(newSize, command, env)
    ensures begun ==>
      && Receiving(u.View(), u.size == 0, u.error, newSize, StartFor(newSize, command, env), command,
                   FlashMode(old(u.chip.mem)), Flat(chunks))
      && (u.chip.reliable && |Flat(chunks)| <= newSize ==> u.size > 0)
  {
    hide Consistent, SectorEnd, InArea, OnlyArea, BeginVerdict, StartFor, Welcome;
    ghost var f := u.chip.mem;
    Nothing(f, command, env);
    AcceptedExactly(newSize, command, env, |f|);
    begun := u.Begin(newSize, command, env);
    if !begun {
      return;
    }
    ghost var mode := FlashMode(f);
    for i := 0 to |chunks|
      invariant u.Valid() && u.targetMd5 == old(u.targetMd5)
      invariant Receiving(u.View(), u.size == 0, u.error, newSize, StartFor(newSize, command, env), command, mode,
                          Flat(chunks[..i]))
      invariant u.chip.reliable && |Flat(chunks[..i])| <= newSize ==> u.size > 0
      invariant OnlyArea(f, u.chip.mem, command, env)
    {
      ghost var g := u.chip.mem;
      FlatStep(chunks, i);
      ReceiveChunk(u, chunks[i], newSize, command, env, mode, Flat(chunks[..i]));
      AreaJoined(f, g, u.chip.mem, command, env);
    }
    assert chunks[..|chunks|] == chunks;
  }

  /** What `end` asks of an image, besides that it is as long as was announced. */
  predicate Sound(image: seq<byte>, mode: byte, target: string, digest: seq<byte> -> string, realFlashSize: nat) {
    && (target != "" ==> SameIgnoringCase(target, digest(Hashed(image, mode, U_FLASH))))
    && GoodHeader(image, realFlashSize)
  }

  /**
    A whole update up to the reboot, however the image is split into chunks.  `end` returns true
    only when `begin` accepted the size, exactly that many bytes were sent and the image is sound;
    on a reliable chip it then does.  It leaves flash and RTC memory ready for the installation, or
    else asks the bootloader for nothing; the running sketch and the filesystem are untouched.
  */
  method Receive(u: Updater, newSize: u32, chunks: seq<seq<byte>>, env: Environment, realFlashSize: u32,
                 digest: seq<byte> -> string) returns (ok: bool)
    requires u.Valid() && u.Stopped() && Layout(env, |u.chip.mem|)
    requires BeginVerdict(newSize, U_FLASH, env).OK? ==> InArea(newSize, U_FLASH, env)
    requires forall i :: 0 <= i < |chunks| ==> 0 < |chunks[i]| < TWO31
    modifies u, u.chip, u.rtc
    ensures u.Valid() && OnlyArea(old(u.chip.mem), u.chip.mem, U_FLASH, env) && u.targetMd5 == old(u.targetMd5)
    ensures !ok ==> u.rtc[..] == old(u.rtc[..])
    ensures ok ==> Welcome(newSize, U_FLASH, env) && InArea(newSize, U_FLASH, env) && |Flat(chunks)| == newSize
    ensures ok ==>
      var image, mode := Flat(chunks), FlashMode(old(u.chip.mem));
      && Ready(Reboot.Machine(u.chip.mem, u.rtc[..]), StartFor(newSize, U_FLASH, env), image, mode)
      && Sound(image, mode, u.targetMd5, digest, realFlashSize)
    ensures ok && IsLower(u.targetMd5) && IsLower(digest(Hashed(Flat(chunks), FlashMode(old(u.chip.mem)), U_FLASH))) ==>
      u.targetMd5 == "" || u.targetMd5 == digest(Hashed(Flat(chunks), FlashMode(old(u.chip.mem)), U_FLASH))
    ensures u.chip.reliable && Welcome(newSize, U_FLASH, env) && |Flat(chunks)| == newSize
            && Sound(Flat(chunks), FlashMode(old(u.chip.mem)), u.targetMd5, digest, realFlashSize)
            ==> ok
  {
    hide Consistent, SectorEnd, InArea, Ready, Sound, OnlyArea, BeginVerdict, StartFor, Welcome, IsLower, Hashed;
    ok := ReceiveAll(u, newSize, U_FLASH, chunks, env);
    if ok {
      ghost var mode := FlashMode(old(u.chip.mem));
      SoundSum(Flat(chunks), mode, u.targetMd5, digest, realFlashSize);
      ok := Finish(u, newSize, env, mode, Flat(chunks), realFlashSize, digest);
    }
  }

  lemma SoundSum(image: seq<byte>, mode: byte, target: string, digest: seq<byte> -> string, realFlashSize: nat)
    ensures var sum := digest(Hashed(image, mode, U_FLASH));
            Sound(image, mode, target, digest, realFlashSize) && IsLower(target) && IsLower(sum) ==>
            target == "" || target == sum
  {
    Updater.SumDecides(target, digest(Hashed(image, mode, U_FLASH)));
  }

  /**
    A whole update of the filesystem.  Nothing below the filesystem or behind it is ever changed,
    and the bootloader is asked for nothing; `end` returns true only when exactly the announced
    bytes were sent and match the sum set, and they then are the beginning of the filesystem.  On a
    reliable chip it does so whenever the filesystem has room for them.
  */
  method ReceiveFilesystem(u: Updater, newSize: u32, chunks: seq<seq<byte>>, env: Environment, realFlashSize: u32,
                           digest: seq<byte> -> string) returns (ok: bool)
    requires u.Valid() && u.Stopped() && Layout(env, |u.chip.mem|)
    requires BeginVerdict(newSize, U_FS, env).OK? ==> InArea(newSize, U_FS, env)
    requires forall i :: 0 <= i < |chunks| ==> 0 < |chunks[i]| < TWO31
    modifies u, u.chip, u.rtc
    ensures u.Valid() && u.targetMd5 == old(u.targetMd5) && u.rtc[..] == old(u.rtc[..])
    ensures SameOutside(old(u.chip.mem), u.chip.mem, env.fsStart, env.fsEnd)
    ensures ok ==>
      && |Flat(chunks)| == newSize && env.fsStart + newSize <= env.fsEnd <= |u.chip.mem|
      && u.chip.mem[env.fsStart..env.fsStart + newSize] == Flat(chunks)
    ensures ok && IsLower(u.targetMd5) && IsLower(digest(Flat(chunks))) ==>
      u.targetMd5 == "" || u.targetMd5 == digest(Flat(chunks))
    ensures u.chip.reliable && env.bootMode != 1 && newSize > 0 && env.flashConfigOk
            && env.fsStart + SectorEnd(newSize) <= env.fsEnd && |Flat(chunks)| == newSize
            && (u.targetMd5 == "" || u.targetMd5 == digest(Flat(chunks)))
            ==> ok
  {
    hide Consistent, SectorEnd, BeginVerdict, Welcome, IsLower, StartFor, InArea, SameIgnoringCase;
    WelcomeIs(newSize, env);
    ok := ReceiveAll(u, newSize, U_FS, chunks, env);
    if ok {
      InFilesystem(newSize, env, |u.chip.mem|);
      Updater.SumDecides(u.targetMd5, digest(Flat(chunks)));
      ok := FinishFilesystem(u, newSize, env, FlashMode(old(u.chip.mem)), Flat(chunks), realFlashSize, digest);
    }
  }

  lemma WelcomeIs(newSize: u32, env: Environment)
    ensures Welcome(newSize, U_FS, env) <==>
      env.bootMode != 1 && newSize > 0 && env.flashConfigOk && env.fsStart + SectorEnd(newSize) <= env.fsEnd
    ensures Welcome(newSize, U_FLASH, env) <==>
      && env.bootMode != 1 && newSize > 0 && env.flashConfigOk
      && (if env.sketchSize == 0 then 4096 else SectorEnd(env.sketchSize)) + SectorEnd(newSize) <= env.fsStart
  {
  }

  lemma InFilesystem(newSize: u32, env: Environment, chipSize: nat)
    requires Layout(env, chipSize) && Welcome(newSize, U_FS, env)
    ensures StartFor(newSize, U_FS, env) == env.fsStart && env.fsStart + newSize <= env.fsEnd <= chipSize
  {
  }

  /** The end of a filesystem update. */
  method FinishFilesystem(u: Updater, newSize: u32, ghost env: Environment, ghost mode: byte, ghost sent: seq<byte>,
                          realFlashSize: u32, digest: seq<byte> -> string) returns (ok: bool)
    requires u.Valid()
    requires Receiving(u.View(), u.size == 0, u.error, newSize, StartFor(newSize, U_FS, env), U_FS, mode, sent)
    modifies u, u.chip, u.rtc
    ensures u.Valid() && u.targetMd5 == old(u.targetMd5) && u.chip.mem == old(u.chip.mem)
    ensures u.rtc[..] == old(u.rtc[..])
    ensures ok <==>
      old(u.size) > 0 && |sent| == newSize && (u.targetMd5 == "" || SameIgnoringCase(u.targetMd5, digest(sent)))
    ensures ok ==>
      var start := StartFor(newSize, U_FS, env);
      start + newSize <= |u.chip.mem| && u.chip.mem[start..start + newSize] == sent
  {
    hide Consistent, StartFor, SameIgnoringCase, Handed, Hashed;
    ghost var v, flushed := u.View(), true;
    u.SentFits();
    if u.size > 0 && |sent| == newSize {
      CompleteFilesystem(v, u.chip.mem, newSize, StartFor(newSize, U_FS, env), mode, sent);
    }
    ok, flushed := u.End(false, realFlashSize, digest);
  }

  lemma CompleteFilesystem(v: Update, f: seq<byte>, newSize: nat, start: nat, mode: byte, sent: seq<byte>)
    requires Receiving(v, false, OK, newSize, start, U_FS, mode, sent) && Consistent(v, f) && |sent| == newSize
    requires v.current == v.start + v.size
    ensures v.md5 == sent && start + newSize <= |f| && f[start..start + newSize] == sent
  {
    assert sent[..newSize] == sent;
  }

  /** The end of an update: it succeeds exactly for a complete and sound image. */
  method Finish(u: Updater, newSize: u32, ghost env: Environment, ghost mode: byte, ghost sent: seq<byte>,
                realFlashSize: u32, digest: seq<byte> -> string) returns (ok: bool)
    requires u.Valid()
    requires Receiving(u.View(), u.size == 0, u.error, newSize, StartFor(newSize, U_FLASH, env), U_FLASH, mode, sent)
    modifies u, u.chip, u.rtc
    ensures u.Valid() && u.targetMd5 == old(u.targetMd5) && u.chip.mem == old(u.chip.mem)
    ensures !ok ==> u.rtc[..] == old(u.rtc[..])
    ensures ok <==>
      old(u.size) > 0 && |sent| == newSize && Sound(sent, mode, u.targetMd5, digest, realFlashSize)
    ensures ok ==> Ready(Reboot.Machine(u.chip.mem, u.rtc[..]), StartFor(newSize, U_FLASH, env), sent, mode)
  {
    hide Consistent, StartFor, Ready, SameIgnoringCase, Handed, VerifyVerdict, GoodHeader, Hashed;
    ghost var v, flushed := u.View(), true;
    u.SentFits();
    if u.size > 0 && |sent| == newSize {
      CompleteVerdict(v, u.chip.mem, newSize, StartFor(newSize, U_FLASH, env), mode, sent, realFlashSize);
    }
    ok, flushed := u.End(false, realFlashSize, digest);
    if ok {
      ReceivedReady(v, u.chip.mem, u.rtc[..], newSize, StartFor(newSize, U_FLASH, env), mode, sent);
    }
  }

  lemma CompleteVerdict(v: Update, f: seq<byte>, newSize: nat, start: nat, mode: byte, sent: seq<byte>,
                        realFlashSize: nat)
    requires Receiving(v, false, OK, newSize, start, U_FLASH, mode, sent) && Consistent(v, f) && |sent| == newSize
    requires v.current == v.start + v.size
    ensures v.md5 == Hashed(sent, mode, U_FLASH)
    ensures VerifyVerdict(f, start, U_FLASH, realFlashSize).OK? <==> GoodHeader(sent, realFlashSize)
  {
    assert sent[..newSize] == sent;
    HeaderDecides(f, start, sent, mode, realFlashSize);
  }

  // ---------------------------------------------------------------- installing

  /** The bootloader takes neither the image nor what was erased behind it for a gzip file. */
  predicate Plain(image: seq<byte>) {
    |image| > 1 && image[0] == 0x1f ==> image[1] != 0x8b
  }

  lemma PlainExactly(image: seq<byte>)
    ensures Plain(image) <==> |image| < 2 || image[..2] != [0x1f, 0x8b]
  {
    if |image| >= 2 {
      assert image[..2] == [image[0], image[1]];
    }
  }

  function SectorsOf(image: seq<byte>): nat {
    SectorEnd(|image|) / 4096
  }

  /** What `end` leaves is a command that `copy_raw` carries out. */
  lemma ReadyCommanded(m: Reboot.Machine, start: nat, image: seq<byte>, mode: byte)
    requires Ready(m, start, image, mode) && Plain(image)
    ensures Reboot.Commanded(m, start / 4096, 0, SectorsOf(image))
    ensures start >= 4096 && start % 4096 == 0
  {
    SealedFields(m.rtc);
    Eboot.RoundsExactly(|image|);
    FirstBytes(m.flash, start, image, mode);
  }

  lemma SealedFields(words: seq<u32>)
    requires |words| == 32 && words == Sealed(ACTION_COPY_RAW, words[2..31])
    ensures Accepted(words) && words[1] == ACTION_COPY_RAW
  {
    SealedAccepted(ACTION_COPY_RAW, words[2..31]);
  }

  lemma FirstBytes(f: seq<byte>, start: nat, image: seq<byte>, mode: byte)
    requires StagedIn(f, start, |image|, |image|, Staged(image, mode, U_FLASH)) && Plain(image) && image != []
    ensures start + 2 <= |f| && !Eboot.IsGzip(f, start)
  {
    var bytes := f[start..start + |image|];
    assert f[start] == bytes[0] == image[0];
    if |image| > 1 {
      assert f[start + 1] == bytes[1] == image[1];
    }
  }

  /** Sectors that were copied, seen as bytes. */
  lemma CopiedBytes(f: seq<byte>, g: seq<byte>, s: nat, n: nat)
    requires IsChip(f) && IsChip(g) && |g| == |f| && s > 0 && 4096 * (s + n) <= |f|
    requires Eboot.Sectors(g) == Copied(Eboot.Sectors(f), Ones(4096), s, 0, n)
    ensures g[..4096 * n] == f[4096 * s..4096 * (s + n)]
    ensures g[4096 * n..] == f[4096 * n..]
  {
    forall a | 0 <= a < |f|
      ensures MovedAt(f, g, 4096 * s, 4096 * n, a)
    {
      CopiedByte(f, g, s, n, a / 4096, a % 4096);
    }
    Moved(f, g, 4096 * s, 4096 * n);
  }

  lemma Moved(f: seq<byte>, g: seq<byte>, from: nat, n: nat)
    requires |g| == |f| && from + n <= |f|
    requires forall a :: 0 <= a < |f| ==> MovedAt(f, g, from, n, a)
    ensures g[..n] == f[from..from + n] && g[n..] == f[n..]
  {
    forall a | 0 <= a < n
      ensures g[..n][a] == f[from..from + n][a]
    {
      assert MovedAt(f, g, from, n, a);
    }
    forall a | 0 <= a < |f| - n
      ensures g[n..][a] == f[n..][a]
    {
      assert MovedAt(f, g, from, n, n + a);
    }
  }

  predicate MovedAt(f: seq<byte>, g: seq<byte>, from: nat, n: nat, a: nat)
    requires |g| == |f| && from + n <= |f| && a < |f|
  {
    g[a] == if a < n then f[from + a] else f[a]
  }

  lemma CopiedByte(f: seq<byte>, g: seq<byte>, s: nat, n: nat, i: nat, k: nat)
    requires IsChip(f) && IsChip(g) && |g| == |f| && s > 0 && 4096 * (s + n) <= |f|
    requires Eboot.Sectors(g) == Copied(Eboot.Sectors(f), Ones(4096), s, 0, n)
    requires 4096 * i + 4096 <= |f| && k < 4096
    ensures g[4096 * i + k] == if i < n then f[4096 * (s + i) + k] else f[4096 * i + k]
  {
    assert g[4096 * i + k] == Eboot.Sectors(g)[i][k];
    if i < n {
      CopiedInside(Eboot.Sectors(f), Ones(4096), s, 0, n, i);
      assert f[4096 * (s + i) + k] == Eboot.Sectors(f)[s + i][k];
    } else {
      CopiedOutside(Eboot.Sectors(f), Ones(4096), s, 0, n, i);
      assert f[4096 * i + k] == Eboot.Sectors(f)[i][k];
    }
  }

  /** The image is in its final place and the rest of the chip is as it was. */
  ghost predicate Installed(f: seq<byte>, g: seq<byte>, image: seq<byte>, mode: byte) {
    && |g| == |f| && |image| <= SectorEnd(|image|) <= |f|
    && g[..|image|] == Staged(image, mode, U_FLASH)
    && g[SectorEnd(|image|)..] == f[SectorEnd(|image|)..]
  }

  lemma CopiedInstalled(m: Reboot.Machine, g: seq<byte>, start: nat, image: seq<byte>, mode: byte)
    requires Ready(m, start, image, mode) && Plain(image) && IsChip(g) && |g| == |m.flash|
    requires Reboot.Commanded(m, start / 4096, 0, SectorsOf(image)) && start / 4096 > 0
    requires Eboot.Sectors(g) == Copied(Eboot.Sectors(m.flash), Ones(4096), start / 4096, 0, SectorsOf(image))
    ensures Installed(m.flash, g, image, mode)
  {
    hide Staged, Eboot.Sectors, Copied, Handed, Reboot.Commanded;
    var n := SectorEnd(|image|);
    CopiedBytes(m.flash, g, start / 4096, SectorsOf(image));
    assert n == 4096 * SectorsOf(image) && start == 4096 * (start / 4096);
    Prefix(m.flash, g, start, n, |image|);
  }

  lemma Prefix(f: seq<byte>, g: seq<byte>, from: nat, n: nat, k: nat)
    requires |g| == |f| && from + n <= |f| && k <= n && g[..n] == f[from..from + n]
    ensures g[..k] == f[from..from + k]
  {
    assert g[..k] == g[..n][..k] && f[from..from + k] == f[from..from + n][..k];
  }

  /** Whether power may fail during the installation: the image is staged clear of its final place. */
  predicate PowerSafe(start: nat, image: seq<byte>) {
    SectorEnd(|image|) <= start
  }

  lemma PowerSafeExactly(start: nat, image: seq<byte>)
    requires start >= 4096 && start % 4096 == 0 && image != []
    ensures PowerSafe(start, image) <==> Restartable(start / 4096, 0, SectorsOf(image))
  {
  }

  /** What `begin` is given decides: the image has to fit twice below the filesystem. */
  lemma PowerSafeAtBegin(newSize: u32, env: Environment, image: seq<byte>)
    requires InArea(newSize, U_FLASH, env) && |image| == newSize
    ensures PowerSafe(StartFor(newSize, U_FLASH, env), image) <==> 2 * SectorEnd(newSize) <= env.fsStart
  {
    if newSize <= 0xffff_f000 {
      RoundUpFits(newSize);
    } else {
      RoundUpWraps(newSize);
    }
  }

  /** A size that `begin` accepts although the update is not power-safe. */
  lemma UnsafeAccepted(image: seq<byte>)
    requires |image| == 0xa_0000
    ensures var env := Environment(0, true, 0x4_0000, 40000, 0x10_0000, 0x10_0000, 0x10_0000);
            && Layout(env, 0x10_0000) && BeginVerdict(0xa_0000, U_FLASH, env).OK? && InArea(0xa_0000, U_FLASH, env)
            && !PowerSafe(StartFor(0xa_0000, U_FLASH, env), image)
  {
    RoundUpFits(0xa_0000);
    RoundUpFits(0x4_0000);
  }

  /**
    An update that is not power-safe can be spoilt by one reset: unless the two sectors happen to
    be equal, a boot cut short leaves a machine whose next complete copy is not the image.
  */
  lemma PowerUnsafe(m: Reboot.Machine, start: nat, image: seq<byte>, mode: byte)
    requires Ready(m, start, image, mode) && Plain(image) && !PowerSafe(start, image)
    requires 2 * start + 4096 <= |m.flash| && !Eboot.IsGzip(m.flash, 2 * start)
    requires m.flash[start..start + 4096] != m.flash[2 * start..2 * start + 4096]
    ensures exists now ::
      && Reboot.Resets(m, now, start / 4096, 0, SectorsOf(image), 1)
      && Reboot.Commanded(now, start / 4096, 0, SectorsOf(image))
      && forall g :: IsChip(g) && |g| == |m.flash|
           && Eboot.Sectors(g) == Copied(Eboot.Sectors(now.flash), Ones(4096), start / 4096, 0, SectorsOf(image))
           ==> !Installed(m.flash, g, image, mode)
  {
    hide StagedIn, Staged, Handed, Installed, Copied, Eboot.Sectors, Eboot.IsGzip, Reboot.Resets, Accepted,
         PowerSafe, Plain, Eboot.Left, Eboot.Rounds;
    var s, n := start / 4096, SectorsOf(image);
    ReadyCommanded(m, start, image, mode);
    PowerSafeExactly(start, image);
    assert 4096 * (s + s) == 2 * start;
    Reboot.RebootUnsafe(m, s, n);
    var now :| Reboot.Resets(m, now, s, 0, n, 1) && Reboot.Commanded(now, s, 0, n)
            && Copied(Eboot.Sectors(now.flash), Ones(4096), s, 0, n)[0] == Eboot.Sectors(m.flash)[s + s];
    forall g | IsChip(g) && |g| == |m.flash|
               && Eboot.Sectors(g) == Copied(Eboot.Sectors(now.flash), Ones(4096), s, 0, n)
      ensures !Installed(m.flash, g, image, mode)
    {
      WrongStart(m.flash, g, start, image, mode);
    }
  }

  lemma WrongStart(f: seq<byte>, g: seq<byte>, start: nat, image: seq<byte>, mode: byte)
    requires StagedIn(f, start, |image|, |image|, Staged(image, mode, U_FLASH)) && start >= 4096
    requires IsChip(g) && |g| == |f| && !PowerSafe(start, image) && 2 * start + 4096 <= |f|
    requires Eboot.Sectors(g)[0] == Eboot.Sectors(f)[start / 4096 + start / 4096]
    requires f[start..start + 4096] != f[2 * start..2 * start + 4096]
    ensures !Installed(f, g, image, mode)
  {
    var s := start / 4096;
    assert start == 4096 * s && 2 * start == 4096 * (s + s);
    assert |image| >= 4096;
    assert g[..4096] == Eboot.Sectors(g)[0] == f[2 * start..2 * start + 4096];
    InstalledStart(f, g, start, image, Staged(image, mode, U_FLASH));
  }

  lemma InstalledStart(f: seq<byte>, g: seq<byte>, start: nat, image: seq<byte>, staged: seq<byte>)
    requires 4096 <= |image| == |staged| <= |g| == |f| && start + |image| <= |f|
    requires f[start..start + |image|] == staged
    ensures g[..|image|] == staged ==> g[..4096] == f[start..start + 4096]
  {
    assert g[..4096] == g[..|image|][..4096];
    assert f[start..start + 4096] == f[start..start + |image|][..4096];
  }

  /**
    From flash and RTC memory as `end` left them, one complete boot after any number of boots that
    were cut short installs the image and starts it, when its copy succeeds, as it does on a
    reliable chip.  Without resets this holds wherever the image is staged, even overlapping its
    final place.
  */
  method Install(chip: Chip, rtc: array<u32>, ghost m: Reboot.Machine, ghost start: nat, ghost image: seq<byte>,
                 ghost mode: byte, ghost resets: nat) returns (outcome: Eboot.BootOutcome, ghost installed: bool)
    requires IsChip(chip.mem) && rtc.Length == 32
    requires Ready(m, start, image, mode) && Plain(image) && (resets == 0 || PowerSafe(start, image))
    requires Reboot.Resets(m, Reboot.Machine(chip.mem, rtc[..]), start / 4096, 0, SectorsOf(image), resets)
    modifies chip, rtc
    ensures IsChip(chip.mem) && |chip.mem| == |m.flash| && !Accepted(rtc[..])
    ensures chip.reliable || old(!Accepted(rtc[..])) ==> installed
    ensures installed ==> Installed(m.flash, chip.mem, image, mode) && outcome == Eboot.Load(chip.mem, 0)
  {
    hide Eboot.Sectors, Copied, Eboot.Load, Reboot.Resets, Installed, StagedIn, Staged, Handed, Plain,
         Reboot.Commanded, Accepted;
    ReadyCommanded(m, start, image, mode);
    PowerSafeExactly(start, image);
    ghost var cleared, copied := !Accepted(rtc[..]), 0;
    outcome, copied := Reboot.BootAfterResets(chip, rtc, m, start / 4096, SectorsOf(image), resets);
    installed := cleared || copied == 0;
    if installed {
      CopiedInstalled(m, chip.mem, start, image, mode);
    }
  }

  /** The same with an outage before it: where the image is power-safe, boots may be cut short. */
  method InstallAfterOutage(chip: Chip, rtc: array<u32>, outage: bool, ghost start: nat, ghost image: seq<byte>,
                            ghost mode: byte)
    returns (outcome: Eboot.BootOutcome, ghost installed: bool)
    requires IsChip(chip.mem) && rtc.Length == 32 && Plain(image)
    requires Ready(Reboot.Machine(chip.mem, rtc[..]), start, image, mode) && (outage ==> PowerSafe(start, image))
    modifies chip, rtc
    ensures |chip.mem| == old(|chip.mem|) && !Accepted(rtc[..])
    ensures chip.reliable ==> installed
    ensures installed ==> Installed(old(chip.mem), chip.mem, image, mode) && outcome == Eboot.Load(chip.mem, 0)
  {
    hide Eboot.Load, Reboot.Resets, Installed, StagedIn, Staged, Handed, Plain, Reboot.Commanded, Accepted, PowerSafe;
    ghost var m, resets := Reboot.Machine(chip.mem, rtc[..]), 0;
    NoResets(m, start / 4096, SectorsOf(image));
    if outage {
      ReadyCommanded(m, start, image, mode);
      PowerSafeExactly(start, image);
      resets := Reboot.Outage(chip, rtc, start / 4096, 0, SectorsOf(image));
    }
    outcome, installed := Install(chip, rtc, m, start, image, mode, resets);
  }

  lemma NoResets(m: Reboot.Machine, s: nat, n: nat)
    ensures Reboot.Resets(m, m, s, 0, n, 0)
  {
  }

  lemma Arrived(f: seq<byte>, m: seq<byte>, g: seq<byte>, newSize: u32, env: Environment, image: seq<byte>, mode: byte)
    requires |image| == newSize && InArea(newSize, U_FLASH, env)
    requires OnlyArea(f, m, U_FLASH, env) && Installed(m, g, image, mode)
    requires env.fsStart <= |f|
    ensures newSize <= env.fsStart && g[..newSize] == Staged(image, mode, U_FLASH)
    ensures g[env.fsStart..] == f[env.fsStart..]
  {
    var n := SectorEnd(newSize);
    assert g[env.fsStart..] == g[n..][env.fsStart - n..] == m[n..][env.fsStart - n..] == m[env.fsStart..];
  }

  // ---------------------------------------------------------------- what starts, and what the core says of it

  /** What the image tool is given: the boot part of the file, and the application. */
  datatype Firmware = Firmware(boot: seq<byte>, entry: u32, mode: byte, freqSize: byte, segments: seq<Image.Segment>)

  ghost predicate IsFirmware(image: seq<byte>, fw: Firmware) {
    && |fw.boot| == 4096 && |fw.segments| <= 255
    && image == fw.boot + Image.AppImage(fw.entry, fw.mode, fw.freqSize, fw.segments)
  }

  lemma FirmwareIs(fw: Firmware)
    requires |fw.boot| == 4096 && |fw.segments| <= 255
    ensures IsFirmware(fw.boot + Image.AppImage(fw.entry, fw.mode, fw.freqSize, fw.segments), fw)
  {
  }

  /** Sealing changes the boot part alone. */
  lemma SealedFirmware(raw: seq<byte>, fw: Firmware)
    requires IsFirmware(raw, fw) && |raw| < TWO32
    ensures IsFirmware(Image.WithCrc(raw), fw.(boot := Image.WithCrc(raw)[..4096]))
  {
    SealedKeeps(raw);
    var image := Image.WithCrc(raw);
    assert image == image[..4096] + raw[4096..];
  }

  /**
    An image of a 4096-byte boot part and an application part as the image tool writes it starts
    with exactly its loadable segments at their addresses, and the core measures it exactly; the
    mode byte that was replaced on the way makes no difference to either.
  */
  lemma BootsInto(g: seq<byte>, boot: seq<byte>, entry: u32, mode: byte, freqSize: byte, segments: seq<Image.Segment>,
                  image: seq<byte>, current: byte)
    requires |boot| == 4096 && |segments| <= 255 && image == boot + Image.AppImage(entry, mode, freqSize, segments)
    requires |image| <= |g| <= 0x100_0000 && g[..|image|] == Staged(image, current, U_FLASH)
    ensures Eboot.Load(g, 0) == Eboot.Started(entry, Image.Selected(segments))
    ensures Image.SketchSize(g) == |image|
  {
    var app := Image.AppImage(entry, mode, freqSize, segments);
    assert g[4096..|image|] == g[..|image|][4096..] == app;
    Image.ImageRoundTrip(g, entry, mode, freqSize, segments);
  }

  lemma ByteBurst(a: seq<byte>, k: nat, b: byte)
    requires k < |a| && b != a[k]
    ensures Crc.Burst(a[k := b], a, 8 * k)
  {
    var c := a[k := b];
    assert a == a[..k] + [a[k]] + a[k + 1..] && c == a[..k] + [b] + a[k + 1..];
    Crc.BitsAppend(a[..k] + [a[k]], a[k + 1..]);
    Crc.BitsAppend(a[..k], [a[k]]);
    Crc.BitsAppend(a[..k] + [b], a[k + 1..]);
    Crc.BitsAppend(a[..k], [b]);
    assert c[k] != a[k];
  }

  lemma FirmwareStarts(g: seq<byte>, image: seq<byte>, current: byte)
    requires |image| <= |g| <= 0x100_0000 && g[..|image|] == Staged(image, current, U_FLASH)
    ensures forall fw: Firmware :: IsFirmware(image, fw) ==>
      Eboot.Load(g, 0) == Eboot.Started(fw.entry, Image.Selected(fw.segments)) && Image.SketchSize(g) == |image|
  {
    forall fw: Firmware | IsFirmware(image, fw)
      ensures Eboot.Load(g, 0) == Eboot.Started(fw.entry, Image.Selected(fw.segments))
      ensures Image.SketchSize(g) == |image|
    {
      BootsInto(g, fw.boot, fw.entry, fw.mode, fw.freqSize, fw.segments, image, current);
    }
  }

  /**
    Once an image sealed by the image tool has been installed over the air, the core's own check
    of the flash against its CRC succeeds exactly when the mode byte was not replaced.
  */
  lemma FlashCrcAfterUpdate(raw: seq<byte>, rest: seq<byte>, current: byte)
    requires 4096 <= |raw| < TWO32 && (current <= 3 || current == 255)
    ensures var image := Image.WithCrc(raw);
            var g := Staged(image, current, U_FLASH) + rest;
            && Image.StoredLength(g) == |raw|
            && (Image.CrcMatches(g) <==> !Patched(image, current, U_FLASH))
  {
    var image := Image.WithCrc(raw);
    if Patched(image, current, U_FLASH) {
      SealedKeeps(raw);
      var found := image[2 := current];
      ByteBurst(Image.Blanked(raw), 2, current);
      assert Image.Blanked(found) == Image.Blanked(raw)[2 := current];
      Image.CorruptImageRefused(raw, found, 16);
      CrcOfPrefix(found, rest);
    } else {
      Image.SealedImageAccepted(raw, rest);
    }
  }

  lemma SealedKeeps(raw: seq<byte>)
    requires 4096 <= |raw| < TWO32
    ensures var image := Image.WithCrc(raw);
            image[..4088] == raw[..4088] && image[4096..] == raw[4096..]
  {
    var once := Image.StoredWord(raw, 4088, |raw|);
    assert once[..4088] == raw[..4088] && once[4096..] == raw[4096..];
  }

  lemma CrcOfPrefix(found: seq<byte>, rest: seq<byte>)
    requires |found| >= 4096 && Image.StoredLength(found) == |found|
    ensures Image.StoredLength(found + rest) == |found|
    ensures Image.CrcMatches(found + rest) <==> Image.CrcMatches(found)
  {
    var f := found + rest;
    assert f[4088..4092] == found[4088..4092] && f[4092..4096] == found[4092..4096];
    assert f[..|found|] == found == found[..|found|];
  }

  // ---------------------------------------------------------------- the whole way

  /**
    The whole way from the chunks received to the segments that start, for an image that is not
    packed and with power failing as often as it may during the installation: on a reliable chip an
    accepted, complete and sound image is installed at the start of flash, the filesystem is as it
    was, and what was linked is what starts.
  */
  method UpdateAndBoot(u: Updater, newSize: u32, chunks: seq<seq<byte>>, env: Environment, realFlashSize: u32,
                       digest: seq<byte> -> string, outage: bool)
    returns (ok: bool, outcome: Eboot.BootOutcome, ghost installed: bool)
    requires u.Valid() && u.Stopped() && Layout(env, |u.chip.mem|)
    requires BeginVerdict(newSize, U_FLASH, env).OK? ==> InArea(newSize, U_FLASH, env)
    requires forall i :: 0 <= i < |chunks| ==> 0 < |chunks[i]| < TWO31
    requires Plain(Flat(chunks)) && (outage ==> PowerSafe(StartFor(newSize, U_FLASH, env), Flat(chunks)))
    modifies u, u.chip, u.rtc
    ensures |u.chip.mem| == old(|u.chip.mem|) && u.targetMd5 == old(u.targetMd5)
    ensures !ok ==> u.rtc[..] == old(u.rtc[..]) && OnlyArea(old(u.chip.mem), u.chip.mem, U_FLASH, env)
    ensures u.chip.reliable && env.bootMode != 1 && newSize > 0 && env.flashConfigOk
            && 0 < env.sketchSize && SectorEnd(env.sketchSize) + SectorEnd(newSize) <= env.fsStart
            && |Flat(chunks)| == newSize
            && Sound(Flat(chunks), FlashMode(old(u.chip.mem)), u.targetMd5, digest, realFlashSize)
            ==> ok && installed
    ensures ok ==> !Accepted(u.rtc[..]) && |Flat(chunks)| == newSize <= env.fsStart <= |u.chip.mem|
    ensures ok && installed ==>
      && u.chip.mem[..newSize] == Staged(Flat(chunks), FlashMode(old(u.chip.mem)), U_FLASH)
      && u.chip.mem[env.fsStart..] == old(u.chip.mem)[env.fsStart..]
      && (|Flat(chunks)| > 3 && Flat(chunks)[0] != 0x1f && old(u.chip.mem)[2] <= 3 ==>
            u.chip.mem[2] == old(u.chip.mem)[2])
      && (forall i :: 0 <= i < newSize && i != 2 ==> u.chip.mem[i] == Flat(chunks)[i])
      && outcome == Eboot.Load(u.chip.mem, 0)
      && forall fw: Firmware :: IsFirmware(Flat(chunks), fw) ==>
           outcome == Eboot.Started(fw.entry, Image.Selected(fw.segments)) && Image.SketchSize(u.chip.mem) == newSize
  {
    hide Eboot.Load, Staged, Plain, Accepted, Consistent, SectorEnd, Ready, Installed, Sound, InArea, PowerSafe,
         IsFirmware, OnlyArea, BeginVerdict, Welcome, IsLower, Hashed, FlashMode, StartFor,
         Image.SketchSize, Image.Selected;
    ghost var f := u.chip.mem;
    outcome, installed := Eboot.Reset, false;
    WelcomeIs(newSize, env);
    ok := Receive(u, newSize, chunks, env, realFlashSize, digest);
    Nothing(f, U_FLASH, env);
    SizeFits(f, u.chip.mem, newSize, env);
    if !ok {
      return;
    }
    ghost var g, image, mode := u.chip.mem, Flat(chunks), FlashMode(f);
    outcome, installed := InstallAfterOutage(u.chip, u.rtc, outage, StartFor(newSize, U_FLASH, env), image, mode);
    if installed {
      Arrived(f, g, u.chip.mem, newSize, env, image, mode);
      FirmwareStarts(u.chip.mem, image, mode);
      SentArrived(f, u.chip.mem, image);
    }
  }

  /** What was sent, but for the mode byte, which is as it was. */
  lemma SentArrived(f: seq<byte>, g: seq<byte>, image: seq<byte>)
    requires |image| <= |g| && g[..|image|] == Staged(image, FlashMode(f), U_FLASH)
    ensures |image| > 3 && image[0] != 0x1f ==>
      FlashMode(g) == FlashMode(f) && (|f| > 3 && f[2] <= 3 ==> g[2] == f[2])
    ensures forall i :: 0 <= i < |image| && i != 2 ==> g[i] == image[i]
  {
    ModeKept(image, FlashMode(f));
    forall i | 0 <= i < |image|
      ensures g[i] == Staged(image, FlashMode(f), U_FLASH)[i]
    {
      assert g[..|image|][i] == g[i];
    }
  }

  lemma SizeFits(f: seq<byte>, g: seq<byte>, newSize: u32, env: Environment)
    requires Layout(env, |f|) && OnlyArea(f, g, U_FLASH, env)
    ensures |g| == |f|
    ensures InArea(newSize, U_FLASH, env) ==>
      newSize <= env.fsStart <= |f|
  {
  }
}
