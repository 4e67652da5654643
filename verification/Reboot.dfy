/**
  Booting when the power may fail: a boot that finds a copy command can be cut short at any
  point, any number of times, before one boot runs to its end.
*/
module Reboot {
  import opened Words
  import opened Flash
  import opened SectorCopy
  import opened EbootCommand
  import opened Image
  import opened Eboot

  /** What survives a reset. */
  datatype Machine = Machine(flash: seq<byte>, rtc: seq<u32>)

  /** A command to copy n sectors from sector s on to sector d on, from a source that is not a gzip file. */
  predicate Commanded(m: Machine, s: nat, d: nat, n: nat) {
    && IsChip(m.flash) && |m.rtc| == 32 && Accepted(m.rtc) && m.rtc[1] == ACTION_COPY_RAW
    && m.rtc[2] == 4096 * s && m.rtc[3] == 4096 * d && Rounds(Left(m.rtc[4])) == n > 0
    && 4096 * (s + n) <= |m.flash| && 4096 * (d + n) <= |m.flash|
    && !IsGzip(m.flash, 4096 * s)
  }

  ghost predicate SameSize(m: Machine, next: Machine) {
    IsChip(next.flash) && |next.flash| == |m.flash| && |next.rtc| == 32
  }

  /** A boot that is cut short while it copies. */
  ghost predicate CutInCopy(m: Machine, next: Machine, s: nat, d: nat, n: nat)
    requires Commanded(m, s, d, n)
  {
    && SameSize(m, next) && next.rtc == m.rtc
    && CutShort(Sectors(m.flash), Sectors(next.flash), Ones(4096), s, d, n)
  }

  /** A boot that is cut short after the copy: neither, one or both stores that clear the command are done. */
  ghost predicate CutAfterCopy(m: Machine, next: Machine, s: nat, d: nat, n: nat)
    requires Commanded(m, s, d, n)
  {
    && SameSize(m, next) && (next.rtc == m.rtc || next.rtc == m.rtc[0 := 0] || next.rtc == Cleared(m.rtc))
    && Sectors(next.flash) == Copied(Sectors(m.flash), Ones(4096), s, d, n)
  }

  /** Boots that find no command change nothing before they load the application. */
  ghost predicate BootCut(m: Machine, next: Machine, s: nat, d: nat, n: nat) {
    if Commanded(m, s, d, n) then CutInCopy(m, next, s, d, n) || CutAfterCopy(m, next, s, d, n)
    else next == m
  }

  /** `resets` boots in a row were cut short. */
  ghost predicate Resets(m: Machine, now: Machine, s: nat, d: nat, n: nat, resets: nat)
    decreases resets
  {
    if resets == 0 then now == m
    else exists next :: BootCut(m, next, s, d, n) && Resets(next, now, s, d, n, resets - 1)
  }

  /** The command is still there with a flash some cut copies can leave, or it is gone and the copy complete. */
  ghost predicate OnTheWay(m: Machine, now: Machine, s: nat, d: nat, n: nat)
    requires Commanded(m, s, d, n)
  {
    && SameSize(m, now)
    && if now.rtc == m.rtc then
         SameSectors(Sectors(m.flash), Sectors(now.flash), d, n) && !IsGzip(now.flash, 4096 * s)
       else !Accepted(now.rtc) && Sectors(now.flash) == Copied(Sectors(m.flash), Ones(4096), s, d, n)
  }

  /** The gzip signature is read from the first source sector. */
  lemma SignatureKept(f: seq<byte>, g: seq<byte>, s: nat)
    requires IsChip(f) && IsChip(g) && |g| == |f| && 4096 * s + 4096 <= |f|
    requires Sectors(g)[s] == Sectors(f)[s]
    ensures IsGzip(g, 4096 * s) <==> IsGzip(f, 4096 * s)
  {
    SignatureMoved(f, g, s, s);
  }

  lemma CopiedSame(f: seq<seq<byte>>, g: seq<seq<byte>>, s: nat, d: nat, n: nat)
    requires s + n <= |f| && d + n <= |f| && g == Copied(f, Ones(4096), s, d, n)
    ensures SameSectors(f, g, d, n)
  {
    forall i | 0 <= i < |f| && !(d <= i < d + n)
      ensures f[i] == g[i]
    {
      CopiedOutside(f, Ones(4096), s, d, n, i);
    }
  }

  lemma OneReset(m: Machine, next: Machine, s: nat, d: nat, n: nat)
    requires Commanded(m, s, d, n) && BootCut(m, next, s, d, n) && Restartable(s, d, n) && s != d
    ensures OnTheWay(m, next, s, d, n)
    ensures next.rtc == m.rtc ==> Commanded(next, s, d, n)
  {
    var f, g := Sectors(m.flash), Sectors(next.flash);
    if CutInCopy(m, next, s, d, n) {
      CutShortOutside(f, g, Ones(4096), s, d, n);
    } else {
      CopiedSame(f, g, s, d, n);
      ClearedRefused(m.rtc);
    }
    SignatureKept(m.flash, next.flash, s);
  }

  lemma {:induction false} NothingLeft(m: Machine, now: Machine, s: nat, d: nat, n: nat, resets: nat)
    requires !Commanded(m, s, d, n) && Resets(m, now, s, d, n, resets)
    ensures now == m
    decreases resets
  {
    if resets > 0 {
      var next :| BootCut(m, next, s, d, n) && Resets(next, now, s, d, n, resets - 1);
      NothingLeft(m, now, s, d, n, resets - 1);
    }
  }

  lemma Joined(m: Machine, next: Machine, now: Machine, s: nat, d: nat, n: nat)
    requires Commanded(m, s, d, n) && OnTheWay(m, next, s, d, n) && next.rtc == m.rtc && Restartable(s, d, n)
    requires Commanded(next, s, d, n) && OnTheWay(next, now, s, d, n)
    ensures OnTheWay(m, now, s, d, n)
  {
    CopyForgetsDestination(Sectors(m.flash), Sectors(next.flash), Ones(4096), s, d, n);
  }

  lemma Unmoved(m: Machine, s: nat, d: nat, n: nat)
    requires Commanded(m, s, d, n)
    ensures OnTheWay(m, m, s, d, n)
  {
  }

  /** Whatever the number of resets, and wherever they hit, the machine stays on the way. */
  lemma {:induction false} ResetsOnTheWay(m: Machine, now: Machine, s: nat, d: nat, n: nat, resets: nat)
    requires Commanded(m, s, d, n) && Restartable(s, d, n) && s != d
    requires Resets(m, now, s, d, n, resets)
    ensures OnTheWay(m, now, s, d, n)
    decreases resets
  {
    hide Sectors, IsGzip, Accepted, CutInCopy, CutAfterCopy, Copied, SameSectors;
    if resets > 0 {
      var next :| BootCut(m, next, s, d, n) && Resets(next, now, s, d, n, resets - 1);
      OneReset(m, next, s, d, n);
      if next.rtc == m.rtc {
        ResetsOnTheWay(next, now, s, d, n, resets - 1);
        Joined(m, next, now, s, d, n);
      } else {
        NothingLeft(next, now, s, d, n, resets - 1);
      }
    } else {
      Unmoved(m, s, d, n);
    }
  }

  lemma NoReset(m: Machine, now: Machine, s: nat, d: nat, n: nat)
    requires Commanded(m, s, d, n) && Resets(m, now, s, d, n, 0)
    ensures now == m && OnTheWay(m, now, s, d, n)
  {
  }

  /** The last copy makes up for all that were cut short. */
  lemma LastCopy(m: Machine, now: Machine, after: seq<byte>, s: nat, d: nat, n: nat, copied: nat, gzip: bool)
    requires Commanded(m, s, d, n) && OnTheWay(m, now, s, d, n) && (Restartable(s, d, n) || now == m)
    requires now.rtc == m.rtc && IsChip(after) && !gzip
    requires CopyPost(now.flash, after, now.rtc[2], now.rtc[3], false, copied, gzip, n)
    ensures |after| == |m.flash|
    ensures copied == 0 ==> Sectors(after) == Copied(Sectors(m.flash), Ones(4096), s, d, n)
  {
    if now != m {
      CopyForgetsDestination(Sectors(m.flash), Sectors(now.flash), Ones(4096), s, d, n);
    }
    assert now.rtc[2] / 4096 == s && now.rtc[3] / 4096 == d;
  }

  /**
    The boot that follows any number of resets ends with the flash of a boot without any reset,
    if its own copy, where one is left to do, succeeds.  On a reliable chip it does.
  */
  method BootAfterResets(chip: Chip, rtc: array<u32>, ghost start: Machine, ghost s: nat, ghost n: nat,
                          ghost resets: nat)
    returns (outcome: BootOutcome, ghost copied: nat)
    requires IsChip(chip.mem) && rtc.Length == 32
    requires Commanded(start, s, 0, n) && s > 0 && (resets == 0 || Restartable(s, 0, n))
    requires Resets(start, Machine(chip.mem, rtc[..]), s, 0, n, resets)
    modifies chip, rtc
    ensures IsChip(chip.mem) && |chip.mem| == |start.flash|
    ensures !Accepted(rtc[..])
    ensures chip.reliable && old(Accepted(rtc[..])) ==> copied == 0
    ensures old(!Accepted(rtc[..])) || copied == 0 ==>
      && Sectors(chip.mem) == Copied(Sectors(start.flash), Ones(4096), s, 0, n)
      && outcome == Load(chip.mem, 0)
  {
    hide CopyPost, Copied, Sectors, Load, Resets, SameSectors;
    ghost var now := Machine(chip.mem, rtc[..]);
    if resets > 0 {
      ResetsOnTheWay(start, now, s, 0, n, resets);
    } else {
      NoReset(start, now, s, 0, n);
    }
    ghost var gzip, sectors;
    outcome, copied, gzip, sectors := BootMain(chip, rtc);
    if now.rtc == start.rtc {
      ClearedRefused(now.rtc);
      SourceAligned(start, now, chip.mem, s, n, copied, gzip, sectors);
      LastCopy(start, now, chip.mem, s, 0, n, copied, gzip);
    }
  }

  lemma SourceAligned(m: Machine, now: Machine, after: seq<byte>, s: nat, n: nat, copied: nat, gzip: bool, sectors: nat)
    requires Commanded(m, s, 0, n) && now.rtc == m.rtc && IsChip(now.flash)
    requires CopyPost(now.flash, after, now.rtc[2], now.rtc[3], false, copied, gzip, sectors)
    ensures copied != 1
  {
    hide Sectors, Copied, SameOutside, IsGzip, Accepted;
  }

  // ---------------------------------------------------------------- what can be cut short

  /**
    Why cut copies are modelled as they are: after k rounds the copy loop has copied k sectors,
    and until the next round is complete only its destination sector can be different.
  */
  lemma InterruptedIsCutShort(f: seq<byte>, g: seq<byte>, h: seq<byte>, src: nat, dst: nat, n: nat, k: nat)
    requires src % 4096 == 0 && dst % 4096 == 0 && src + 4096 * n <= |f| && dst + 4096 * n <= |f|
    requires k < n && CopyProgress(f, g, src, dst, false, k)
    requires IsChip(h) && SameOutside(g, h, dst + 4096 * k, dst + 4096 * k + 4096)
    ensures CutShort(Sectors(f), Sectors(h), Ones(4096), src / 4096, dst / 4096, n)
  {
    var j := dst / 4096 + k;
    assert Sectors(g) == Copied(Sectors(f), Ones(4096), src / 4096, dst / 4096, k);
    SameSectorsOutside(g, h, j);
    assert Sectors(h) == Sectors(g)[j := Sectors(h)[j]];
    assert CutShortAt(Sectors(f), Sectors(h), Ones(4096), src / 4096, dst / 4096, n, k, Sectors(h)[j]);
  }

  lemma SameSectorsOutside(g: seq<byte>, h: seq<byte>, j: nat)
    requires IsChip(g) && IsChip(h) && 4096 * j + 4096 <= |g|
    requires SameOutside(g, h, 4096 * j, 4096 * j + 4096)
    ensures forall i :: 0 <= i < |g| / 4096 && i != j ==> Sectors(h)[i] == Sectors(g)[i]
  {
    forall i | 0 <= i < |g| / 4096 && i != j
      ensures Sectors(h)[i] == Sectors(g)[i]
    {
      assert h[4096 * i..4096 * i + 4096] == g[4096 * i..4096 * i + 4096] by {
        if i < j { assert 4096 * i + 4096 <= 4096 * j; } else { assert 4096 * j + 4096 <= 4096 * i; }
      }
    }
  }

  /** A copy that runs until power fails, or to its end; an operation that fails counts as the moment of failure. */
  method CutCopy(chip: Chip, src: u32, dst: u32, n: nat) returns (complete: bool)
    requires IsChip(chip.mem) && src % 4096 == 0 && dst % 4096 == 0 && InChip(chip.mem, src, dst, n)
    modifies chip
    ensures IsChip(chip.mem) && |chip.mem| == |old(chip.mem)|
    ensures !complete ==> CutShort(Sectors(old(chip.mem)), Sectors(chip.mem), Ones(4096), src / 4096, dst / 4096, n)
    ensures complete ==>
      Sectors(chip.mem) == Copied(Sectors(old(chip.mem)), Ones(4096), src / 4096, dst / 4096, n)
  {
    hide CopyProgress, SameOutside, Sectors, CopyStep, Copied, CutShort;
    ghost var f := chip.mem;
    var k := 0;
    NothingCopied(f, src, dst, false);
    while k < n
      invariant k <= n && IsChip(chip.mem) && |chip.mem| == |f|
      invariant CopyProgress(f, chip.mem, src, dst, false, k)
    {
      ghost var g := chip.mem;
      var powerFails: bool := *;
      if powerFails {
        chip.Disturb(dst + 4096 * k, 4096);
        InterruptedIsCutShort(f, g, chip.mem, src, dst, n, k);
        return false;
      }
      var code := CopySector(chip, src + 4096 * k, dst + 4096 * k, false, 4096 * (n - k));
      if code != 0 {
        InterruptedIsCutShort(f, g, chip.mem, src, dst, n, k);
        return false;
      }
      RoundCopied(f, g, chip.mem, src, dst, false, k);
      k := k + 1;
    }
    AllCopied(f, chip.mem, src, dst, n);
    complete := true;
  }

  lemma AllCopied(f: seq<byte>, g: seq<byte>, src: nat, dst: nat, n: nat)
    requires CopyProgress(f, g, src, dst, false, n)
    requires src % 4096 == 0 && dst % 4096 == 0 && InChip(f, src, dst, n)
    ensures Sectors(g) == Copied(Sectors(f), Ones(4096), src / 4096, dst / 4096, n)
  {
  }

  /** A boot that power fails in, anywhere up to the end of the clearing of the command. */
  method CutBoot(chip: Chip, rtc: array<u32>, ghost s: nat, ghost d: nat, ghost n: nat)
    requires IsChip(chip.mem) && rtc.Length == 32
    requires Commanded(Machine(chip.mem, rtc[..]), s, d, n) || !Accepted(rtc[..])
    modifies chip, rtc
    ensures BootCut(Machine(old(chip.mem), old(rtc[..])), Machine(chip.mem, rtc[..]), s, d, n)
    ensures IsChip(chip.mem)
  {
    hide CutShort, Sectors, Copied, IsGzip, Accepted, Cleared;
    ghost var m := Machine(chip.mem, rtc[..]);
    var status, cmd := CommandRead(rtc);
    CommandFields(m.rtc, cmd);
    if status == 0 && cmd.action == ACTION_COPY_RAW {
      var complete := CutCopy(chip, cmd.args[0], cmd.args[1], Rounds(Left(cmd.args[2])));
      if complete {
        CutClear(rtc);
      }
    }
  }

  /** The command is cleared with none, one or both of the stores. */
  method CutClear(rtc: array<u32>)
    requires rtc.Length == 32
    modifies rtc
    ensures rtc[..] == old(rtc[..]) || rtc[..] == old(rtc[..])[0 := 0] || rtc[..] == Cleared(old(rtc[..]))
  {
    var stores: nat := *;
    if stores > 0 {
      rtc[0] := 0;
    }
    if stores > 1 {
      rtc[31] := 0;
    }
  }

  lemma {:induction false} OneMoreReset(m: Machine, now: Machine, next: Machine, s: nat, d: nat, n: nat, resets: nat)
    requires Resets(m, now, s, d, n, resets) && BootCut(now, next, s, d, n)
    ensures Resets(m, next, s, d, n, resets + 1)
    decreases resets
  {
    if resets == 0 {
      assert Resets(next, next, s, d, n, 0);
    } else {
      var first :| BootCut(m, first, s, d, n) && Resets(first, now, s, d, n, resets - 1);
      OneMoreReset(first, now, next, s, d, n, resets - 1);
    }
  }

  lemma StillCommanded(m: Machine, now: Machine, s: nat, d: nat, n: nat)
    requires Commanded(m, s, d, n) && OnTheWay(m, now, s, d, n)
    ensures Commanded(now, s, d, n) || !Accepted(now.rtc)
  {
  }

  /** An outage: any number of boots that power fails in. */
  method Outage(chip: Chip, rtc: array<u32>, ghost s: nat, ghost d: nat, ghost n: nat) returns (ghost resets: nat)
    requires IsChip(chip.mem) && rtc.Length == 32
    requires Commanded(Machine(chip.mem, rtc[..]), s, d, n) && Restartable(s, d, n) && s != d
    modifies chip, rtc
    ensures IsChip(chip.mem)
    ensures Resets(Machine(old(chip.mem), old(rtc[..])), Machine(chip.mem, rtc[..]), s, d, n, resets)
  {
    hide Commanded, BootCut, OnTheWay, Accepted;
    ghost var m := Machine(chip.mem, rtc[..]);
    resets := 0;
    var more: nat := *;
    while more > 0
      invariant IsChip(chip.mem) && Resets(m, Machine(chip.mem, rtc[..]), s, d, n, resets)
      invariant Commanded(Machine(chip.mem, rtc[..]), s, d, n) || !Accepted(rtc[..])
    {
      ghost var now := Machine(chip.mem, rtc[..]);
      CutBoot(chip, rtc, s, d, n);
      OneMoreReset(m, now, Machine(chip.mem, rtc[..]), s, d, n, resets);
      resets := resets + 1;
      ResetsOnTheWay(m, Machine(chip.mem, rtc[..]), s, d, n, resets);
      StillCommanded(m, Machine(chip.mem, rtc[..]), s, d, n);
      more := more - 1;
    }
  }

  // ---------------------------------------------------------------- where a reset is not safe

  /** The chip after k sectors have been copied. */
  function CopiedChip(f: seq<byte>, s: nat, d: nat, k: nat): (g: seq<byte>)
    requires IsChip(f) && InChip(f, 4096 * s, 4096 * d, k)
    ensures |g| == |f|
    decreases k
  {
    if k == 0 then f
    else
      var e := CopiedChip(f, s, d, k - 1);
      Put(e, 4096 * (d + k - 1), if s == d then Ones(4096) else e[4096 * (s + k - 1)..4096 * (s + k)])
  }

  lemma {:induction false} CopiedChipSectors(f: seq<byte>, s: nat, d: nat, k: nat)
    requires IsChip(f) && InChip(f, 4096 * s, 4096 * d, k)
    ensures Sectors(CopiedChip(f, s, d, k)) == Copied(Sectors(f), Ones(4096), s, d, k)
    decreases k
  {
    if k > 0 {
      CopiedChipSectors(f, s, d, k - 1);
      var e := CopiedChip(f, s, d, k - 1);
      var bytes := if s == d then Ones(4096) else e[4096 * (s + k - 1)..4096 * (s + k)];
      SectorsPut(e, d + k - 1, bytes);
      assert s != d ==> bytes == Sectors(e)[s + k - 1];
    }
  }

  /**
    Where the source begins inside the destination, above its start, one boot that is cut short
    once the first source sector has been overwritten leaves a command that will be carried out,
    and a first sector that comes out wrong: it is the one twice as far in the source.
  */
  lemma RebootUnsafe(m: Machine, s: nat, n: nat)
    requires Commanded(m, s, 0, n) && 0 < s < n && !IsGzip(m.flash, 4096 * (s + s))
    ensures exists now ::
      && Resets(m, now, s, 0, n, 1) && Commanded(now, s, 0, n)
      && Copied(Sectors(now.flash), Ones(4096), s, 0, n)[0] == Sectors(m.flash)[s + s]
  {
    var f, k := Sectors(m.flash), s + 1;
    var now := Machine(CopiedChip(m.flash, s, 0, k), m.rtc);
    CopiedChipSectors(m.flash, s, 0, k);
    var g := Sectors(now.flash);
    assert CutShortAt(f, g, Ones(4096), s, 0, n, k, Ones(4096));
    assert BootCut(m, now, s, 0, n);
    assert Resets(now, now, s, 0, n, 0);
    assert Resets(m, now, s, 0, n, 1);
    CopiedInside(f, Ones(4096), s, 0, k, s);
    CopiedInside(g, Ones(4096), s, 0, n, 0);
    SignatureMoved(m.flash, now.flash, s + s, s);
  }

  lemma SignatureMoved(f: seq<byte>, g: seq<byte>, from: nat, to: nat)
    requires IsChip(f) && IsChip(g) && |g| == |f| && 4096 * from + 4096 <= |f| && 4096 * to + 4096 <= |f|
    requires Sectors(g)[to] == Sectors(f)[from]
    ensures IsGzip(g, 4096 * to) <==> IsGzip(f, 4096 * from)
  {
    var a, b := 4096 * from, 4096 * to;
    assert f[a] == Sectors(f)[from][0] && g[b] == Sectors(g)[to][0];
    assert f[a + 1] == Sectors(f)[from][1] && g[b + 1] == Sectors(g)[to][1];
  }
}
