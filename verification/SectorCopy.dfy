/**
  Copying flash sectors the way the bootloader does: erase the destination sector, read the
  source sector, program, move on.

  A chip is seen as the sequence of its sectors.  The lemmas say what a complete copy leaves,
  for every position of source and destination, and exactly when a copy that was cut short by
  resets can simply be started again.
*/
module SectorCopy {

  /** One sector copied from i to j: the source is read after the destination has been erased. */
  function CopyStep<T>(f: seq<T>, blank: T, i: nat, j: nat): (g: seq<T>)
    requires i < |f| && j < |f|
    ensures |g| == |f|
  {
    f[j := if i == j then blank else f[i]]
  }

  /** n sectors copied from sector s on to sector d on, in ascending order. */
  function Copied<T>(f: seq<T>, blank: T, s: nat, d: nat, n: nat): (g: seq<T>)
    requires s + n <= |f| && d + n <= |f|
    ensures |g| == |f|
    decreases n
  {
    if n == 0 then f else CopyStep(Copied(f, blank, s, d, n - 1), blank, s + n - 1, d + n - 1)
  }

  /** Only the destination sectors change. */
  lemma {:induction false} CopiedOutside<T>(f: seq<T>, blank: T, s: nat, d: nat, n: nat, i: nat)
    requires s + n <= |f| && d + n <= |f| && i < |f|
    requires !(d <= i < d + n)
    ensures Copied(f, blank, s, d, n)[i] == f[i]
    decreases n
  {
    if n > 0 {
      CopiedOutside(f, blank, s, d, n - 1, i);
    }
  }

  /** i modulo g. */
  function Wrap(i: nat, g: nat): (w: nat)
    requires g > 0
    ensures w < g && w <= i
  {
    if i < g then i else Wrap(i - g, g)
  }

  /** The sector that destination sector i finally gets its contents from. */
  function Origin(s: nat, d: nat, i: nat): (o: nat)
    requires s != d
    ensures o <= s + i
  {
    if d < s then s + i else s + Wrap(i, d - s)
  }

  /** What a complete copy leaves in destination sector i. */
  function Outcome<T>(f: seq<T>, blank: T, s: nat, d: nat, i: nat): T
    requires s + i < |f|
  {
    if s == d then blank else f[Origin(s, d, i)]
  }

  /**
    Copying downwards is exact even when the ranges overlap; copying upwards over itself repeats
    the sectors before d; copying onto itself erases.
  */
  lemma {:induction false} CopiedInside<T>(f: seq<T>, blank: T, s: nat, d: nat, n: nat, i: nat)
    requires s + n <= |f| && d + n <= |f| && i < n
    ensures Copied(f, blank, s, d, n)[d + i] == Outcome(f, blank, s, d, i)
    decreases n, 0
  {
    if i < n - 1 {
      CopiedInside(f, blank, s, d, n - 1, i);
    } else if s != d {
      SourceOfLast(f, blank, s, d, i);
    }
  }

  /** The sector read in step i, when i sectors have been copied. */
  lemma SourceOfLast<T>(f: seq<T>, blank: T, s: nat, d: nat, i: nat)
    requires s + i < |f| && d + i < |f| && s != d
    ensures Copied(f, blank, s, d, i)[s + i] == f[Origin(s, d, i)]
    decreases i, 1
  {
    if d < s || i < d - s {
      CopiedOutside(f, blank, s, d, i, s + i);
    } else {
      CopiedInside(f, blank, s, d, i, i - (d - s));
    }
  }

  // ---------------------------------------------------------------- resets

  /** f and g agree in every sector outside the destination. */
  ghost predicate SameSectors<T>(f: seq<T>, g: seq<T>, d: nat, n: nat) {
    |f| == |g| && forall i :: 0 <= i < |f| && !(d <= i < d + n) ==> f[i] == g[i]
  }

  /** g is what a reset during a copy leaves: k sectors done, and the next one in any state. */
  ghost predicate CutShortAt<T>(f: seq<T>, g: seq<T>, blank: T, s: nat, d: nat, n: nat, k: nat, torn: T)
    requires s + n <= |f| && d + n <= |f|
  {
    && k <= n
    && (g == Copied(f, blank, s, d, k) || (k < n && g == Copied(f, blank, s, d, k)[d + k := torn]))
  }

  ghost predicate CutShort<T(!new)>(f: seq<T>, g: seq<T>, blank: T, s: nat, d: nat, n: nat)
    requires s + n <= |f| && d + n <= |f|
  {
    exists k: nat, torn: T :: CutShortAt(f, g, blank, s, d, n, k, torn)
  }

  /** g is reachable from f by any number of copies that were all cut short. */
  ghost predicate AfterResets<T(!new)>(f: seq<T>, g: seq<T>, blank: T, s: nat, d: nat, n: nat, resets: nat)
    requires s + n <= |f| && d + n <= |f|
    decreases resets
  {
    if resets == 0 then f == g
    else exists h :: |h| == |f| && CutShort(f, h, blank, s, d, n) && AfterResets(h, g, blank, s, d, n, resets - 1)
  }

  /** Whether a copy may be started over: the source must not begin inside the destination, above its start. */
  predicate Restartable(s: nat, d: nat, n: nat) {
    !(d < s < d + n)
  }

  lemma CutShortOutside<T(!new)>(f: seq<T>, g: seq<T>, blank: T, s: nat, d: nat, n: nat)
    requires s + n <= |f| && d + n <= |f| && CutShort(f, g, blank, s, d, n)
    ensures SameSectors(f, g, d, n)
  {
    var k: nat, torn: T :| CutShortAt(f, g, blank, s, d, n, k, torn);
    forall i | 0 <= i < |f| && !(d <= i < d + n)
      ensures f[i] == g[i]
    {
      CopiedOutside(f, blank, s, d, k, i);
    }
  }

  lemma OriginOutside(s: nat, d: nat, n: nat, i: nat)
    requires s != d && i < n && Restartable(s, d, n)
    ensures !(d <= Origin(s, d, i) < d + n)
  {
  }

  /** A restartable copy depends only on the sectors outside its destination. */
  lemma CopyForgetsDestination<T>(f: seq<T>, g: seq<T>, blank: T, s: nat, d: nat, n: nat)
    requires s + n <= |f| && d + n <= |f| && Restartable(s, d, n)
    requires SameSectors(f, g, d, n)
    ensures Copied(g, blank, s, d, n) == Copied(f, blank, s, d, n)
  {
    forall i | 0 <= i < |f|
      ensures Copied(g, blank, s, d, n)[i] == Copied(f, blank, s, d, n)[i]
    {
      if d <= i < d + n {
        CopiedInside(f, blank, s, d, n, i - d);
        CopiedInside(g, blank, s, d, n, i - d);
        if s != d {
          OriginOutside(s, d, n, i - d);
        }
      } else {
        CopiedOutside(f, blank, s, d, n, i);
        CopiedOutside(g, blank, s, d, n, i);
      }
    }
  }

  /**
    Restart safety: after any number of resets at any step of a restartable copy, one copy that
    runs to its end leaves the same chip as if there had been no reset.
  */
  lemma {:induction false} RestartSafe<T(!new)>(f: seq<T>, g: seq<T>, blank: T, s: nat, d: nat, n: nat, resets: nat)
    requires s + n <= |f| && d + n <= |f| && Restartable(s, d, n)
    requires AfterResets(f, g, blank, s, d, n, resets)
    ensures |g| == |f| && Copied(g, blank, s, d, n) == Copied(f, blank, s, d, n)
    decreases resets
  {
    if resets > 0 {
      var h :| |h| == |f| && CutShort(f, h, blank, s, d, n) && AfterResets(h, g, blank, s, d, n, resets - 1);
      RestartSafe(h, g, blank, s, d, n, resets - 1);
      CutShortOutside(f, h, blank, s, d, n);
      CopyForgetsDestination(f, h, blank, s, d, n);
    }
  }

  /**
    The condition is exact: when the source begins inside the destination, a single reset once
    the first source sector has been overwritten makes the restarted copy put a wrong first
    sector, unless the two sectors happened to be equal.
  */
  lemma RestartUnsafe<T(!new)>(f: seq<T>, blank: T, s: nat, d: nat, n: nat)
    requires s + n <= |f| && d + n <= |f| && !Restartable(s, d, n)
    requires f[s] != f[s + (s - d)]
    ensures exists g :: |g| == |f| && AfterResets(f, g, blank, s, d, n, 1)
                        && Copied(g, blank, s, d, n) != Copied(f, blank, s, d, n)
  {
    var k := s - d + 1;
    var g := Copied(f, blank, s, d, k);
    assert CutShortAt(f, g, blank, s, d, n, k, blank);
    assert AfterResets(g, g, blank, s, d, n, 0);
    assert AfterResets(f, g, blank, s, d, n, 1);
    CopiedInside(f, blank, s, d, k, s - d);
    CopiedInside(g, blank, s, d, n, 0);
    CopiedInside(f, blank, s, d, n, 0);
    assert Copied(g, blank, s, d, n)[d] == g[s] == f[s + (s - d)];
    assert Copied(f, blank, s, d, n)[d] == f[s];
  }

  /** On chips of `size` sectors that can hold two different sectors, the condition decides. */
  lemma RestartExactly<T(!new)>(size: nat, blank: T, other: T, s: nat, d: nat, n: nat)
    requires s + n <= size && d + n <= size && blank != other
    ensures Restartable(s, d, n) <==>
      forall f: seq<T>, g: seq<T>, resets: nat ::
        |f| == size && |g| == size && AfterResets(f, g, blank, s, d, n, resets)
        ==> Copied(g, blank, s, d, n) == Copied(f, blank, s, d, n)
  {
    if Restartable(s, d, n) {
      forall f: seq<T>, g: seq<T>, resets: nat
        | |f| == size && |g| == size && AfterResets(f, g, blank, s, d, n, resets)
        ensures Copied(g, blank, s, d, n) == Copied(f, blank, s, d, n)
      {
        RestartSafe(f, g, blank, s, d, n, resets);
      }
    } else {
      var f := seq(size, i requires 0 <= i < size => if i == s then other else blank);
      RestartUnsafe(f, blank, s, d, n);
    }
  }
}
