/**
  The SPI flash: sectors of 4096 bytes that erase to 0xff, and bytes that programming can only
  clear bits of.  Reading fails exactly outside the chip.  On a reliable chip so do erasing and
  programming; on others they may fail anywhere and then leave anything in their range.
*/
module Flash {
  import opened Words

  /** Contents of a chip with whole sectors. */
  predicate IsChip(f: seq<byte>) {
    |f| % 4096 == 0 && |f| <= 0x100_0000
  }

  function Ones(n: nat): (bytes: seq<byte>)
    ensures |bytes| == n
  {
    seq(n, _ => 255)
  }

  /** What programming data over old leaves: bits can only go from one to zero. */
  function Programmed(old_: seq<byte>, data: seq<byte>): (bytes: seq<byte>)
    requires |old_| == |data|
    ensures |bytes| == |data|
  {
    seq(|data|, i requires 0 <= i < |data| => AndByte(old_[i], data[i]))
  }

  function AndByte(a: byte, b: byte): byte {
    Powers();
    AndFits(a, b, 8);
    And(a, b)
  }

  /** Programming an erased range stores the data. */
  lemma ProgramErased(data: seq<byte>)
    ensures Programmed(Ones(|data|), data) == data
  {
    forall i | 0 <= i < |data|
      ensures AndByte(255, data[i]) == data[i]
    {
      AndOnes(data[i], 8);
    }
  }

  lemma {:induction false} AndOnes(b: nat, k: nat)
    requires b < Pow2(k)
    ensures And(Pow2(k) - 1, b) == b
    decreases k
  {
    if k > 0 {
      assert (Pow2(k) - 1) / 2 == Pow2(k - 1) - 1;
      AndOnes(b / 2, k - 1);
    } else {
      assert b == 0;
    }
  }

  /** Programming leaves a bit set exactly where it was set and is to be. */
  lemma ProgrammedBits(old_: seq<byte>, data: seq<byte>, i: nat, t: nat)
    requires |old_| == |data| && i < |data|
    ensures Programmed(old_, data)[i] / Pow2(t) % 2 == 1 <==>
            old_[i] / Pow2(t) % 2 == 1 && data[i] / Pow2(t) % 2 == 1
  {
    AndBit(old_[i], data[i], t);
    HalfIsQuotient(And(old_[i], data[i]), t);
    HalfIsQuotient(old_[i], t);
    HalfIsQuotient(data[i], t);
  }

  /** f and g are chips of the same size that agree outside [lo, hi). */
  ghost predicate SameOutside(f: seq<byte>, g: seq<byte>, lo: nat, hi: nat) {
    |f| == |g| && forall a :: 0 <= a < |f| && !(lo <= a < hi) ==> f[a] == g[a]
  }

  lemma SameSlices(f: seq<byte>, g: seq<byte>, lo: nat, hi: nat)
    requires SameOutside(f, g, lo, hi) && lo <= hi
    ensures |f| == |g| && (lo <= |f| ==> f[..lo] == g[..lo]) && (hi <= |f| ==> f[hi..] == g[hi..])
  {
  }

  lemma SameTwice(f: seq<byte>, g: seq<byte>, h: seq<byte>, lo: nat, hi: nat)
    requires SameOutside(f, g, lo, hi) && SameOutside(g, h, lo, hi)
    ensures SameOutside(f, h, lo, hi)
  {
  }

  class Chip {
    const reliable: bool
    var mem: seq<byte>

    /** `SPIEraseSector` and `flashEraseSector`. */
    method EraseSector(sector: nat) returns (ok: bool)
      requires IsChip(mem)
      modifies this
      ensures IsChip(mem) && |mem| == |old(mem)|
      ensures ok ==> 4096 * sector + 4096 <= |mem| && mem == Put(old(mem), 4096 * sector, Ones(4096))
      ensures reliable && 4096 * sector + 4096 <= |mem| ==> ok
      ensures SameOutside(old(mem), mem, 4096 * sector, 4096 * sector + 4096)
    {
      ok := *;
      if 4096 * sector + 4096 > |mem| {
        return false;
      }
      if ok || reliable {
        ok := true;
        mem := Put(mem, 4096 * sector, Ones(4096));
      } else {
        Disturb(4096 * sector, 4096);
      }
    }

    /** `SPIWrite` and `flashWrite`. */
    method Write(addr: nat, data: seq<byte>) returns (ok: bool)
      requires IsChip(mem)
      modifies this
      ensures IsChip(mem) && |mem| == |old(mem)|
      ensures ok ==> addr + |data| <= |mem|
                     && mem == Put(old(mem), addr, Programmed(old(mem)[addr..addr + |data|], data))
      ensures reliable && addr + |data| <= |mem| ==> ok
      ensures SameOutside(old(mem), mem, addr, addr + |data|)
    {
      ok := *;
      if addr + |data| > |mem| {
        return false;
      }
      if ok || reliable {
        ok := true;
        mem := Put(mem, addr, Programmed(mem[addr..addr + |data|], data));
      } else {
        Disturb(addr, |data|);
      }
    }

    /** A failed operation: the range may hold anything. */
    method Disturb(addr: nat, n: nat)
      requires IsChip(mem) && addr + n <= |mem|
      modifies this
      ensures |mem| == |old(mem)| && SameOutside(old(mem), mem, addr, addr + n)
    {
      var i := 0;
      while i < n
        invariant i <= n && |mem| == |old(mem)|
        invariant SameOutside(old(mem), mem, addr, addr + n)
      {
        var b: byte := *;
        mem := mem[addr + i := b];
        i := i + 1;
      }
    }

    /** `SPIRead` and `flashRead`; after a failure the destination holds anything. */
    method ReadBytes(addr: nat, n: nat) returns (ok: bool, data: seq<byte>)
      ensures ok <==> addr + n <= |mem|
      ensures |data| == n && (ok ==> data == mem[addr..addr + n])
    {
      ok := addr + n <= |mem|;
      if ok {
        data := mem[addr..addr + n];
      } else {
        data := [];
        while |data| < n
          invariant |data| <= n
        {
          var b: byte := *;
          data := data + [b];
        }
      }
    }
  }
}
