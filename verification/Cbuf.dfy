/**
  The circular character buffer: one place always stays free, so that begin and end are equal
  only when it is empty.
*/
module Cbuf {
  import opened Words

  /** The characters from begin up to end, around the end of the storage where begin is behind end. */
  function Window(s: seq<byte>, begin: nat, end: nat): seq<byte>
    requires begin < |s| && end < |s|
  {
    if begin <= end then s[begin..end] else s[begin..] + s[..end]
  }

  /** The first n characters, or all of them. */
  function Take(s: seq<byte>, n: nat): (t: seq<byte>)
    ensures |t| == Min(n, |s|) && t <= s
  {
    s[..Min(n, |s|)]
  }

  function Drop(s: seq<byte>, n: nat): (t: seq<byte>)
    ensures |t| == |s| - Min(n, |s|) && Take(s, n) + t == s
  {
    s[Min(n, |s|)..]
  }

  function Wrapped(p: nat, size: nat): nat {
    if p == size then 0 else p
  }

  /** Characters stored at the end in one piece extend the window. */
  lemma WindowGrows(s: seq<byte>, begin: nat, end: nat, src: seq<byte>)
    requires begin < |s| && end < |s| && end + |src| <= |s|
    requires if begin <= end then end + |src| == |s| ==> begin > 0 else end + |src| < begin
    ensures Window(Put(s, end, src), begin, Wrapped(end + |src|, |s|)) == Window(s, begin, end) + src
  {
    var t, n := Put(s, end, src), end + |src|;
    PutParts(s, end, src);
    hide Put;
    if begin <= end {
      assert t[begin..n] == t[..end][begin..] + t[end..n];
      assert s[begin..end] == s[..end][begin..];
    } else {
      assert t[begin..] == t[n..][begin - n..] && s[begin..] == s[n..][begin - n..];
      assert t[..n] == t[..end] + t[end..n];
    }
  }

  lemma PutParts(s: seq<byte>, at: nat, src: seq<byte>)
    requires at + |src| <= |s|
    ensures var t := Put(s, at, src);
            t[..at] == s[..at] && t[at..at + |src|] == src && t[at + |src|..] == s[at + |src|..]
  {
  }

  /** Moving begin forward drops characters. */
  lemma WindowShrinks(s: seq<byte>, begin: nat, end: nat, n: nat)
    requires begin < |s| && end < |s| && begin + n <= if begin <= end then end else |s|
    ensures n <= |Window(s, begin, end)|
    ensures Window(s, begin, Wrapped(begin + n, |s|)) == Window(s, begin, end)[..n]
    ensures Window(s, Wrapped(begin + n, |s|), end) == Window(s, begin, end)[n..]
  {
  }

  /** The first characters are one slice of the storage, or two. */
  lemma WindowPrefix(s: seq<byte>, begin: nat, end: nat, n: nat)
    requires begin < |s| && end < |s| && n <= |Window(s, begin, end)|
    ensures if end < begin && n > |s| - begin then s[begin..] + s[..n - (|s| - begin)] == Window(s, begin, end)[..n]
            else begin + n <= |s| && s[begin..begin + n] == Window(s, begin, end)[..n]
  {
  }

  lemma Pieces(s: seq<byte>, m: nat, n: nat)
    requires m <= n <= |s|
    ensures s[..m] + s[m..][..n - m] == s[..n] && s[m..][n - m..] == s[n..]
  {
  }

  class Buffer {
    var buf: array<byte>
    var size: nat
    var begin: nat
    var end: nat

    constructor (capacity: nat)
      requires capacity > 0
      ensures Valid() && fresh(buf) && size == capacity && Contents() == []
    {
      buf := new byte[capacity];
      size, begin, end := capacity, 0, 0;
    }

    ghost predicate Valid()
      reads this
    {
      buf.Length == size && begin < size && end < size
    }

    ghost function Contents(): (s: seq<byte>)
      reads this, buf
      requires Valid()
      ensures |s| < size
    {
      Window(buf[..], begin, end)
    }

    predicate Empty()
      reads this
    {
      begin == end
    }

    predicate Full()
      reads this
    {
      WrapIfBufend(end + 1) == begin
    }

    function WrapIfBufend(p: nat): nat
      reads this
    {
      Wrapped(p, size)
    }

    method Available() returns (n: nat)
      requires Valid()
      ensures n == |Contents()|
    {
      n := if end >= begin then end - begin else size - (begin - end);
    }

    method Room() returns (n: nat)
      requires Valid()
      ensures n == size - 1 - |Contents()|
    {
      n := if end >= begin then size - (end - begin) - 1 else begin - end - 1;
    }

    lemma EmptyAndFull()
      requires Valid()
      ensures Empty() <==> Contents() == []
      ensures Full() <==> |Contents()| == size - 1
    {
    }

    /** The next character, or -1. */
    method Peek() returns (c: int)
      requires Valid()
      ensures c == if Contents() == [] then -1 else Contents()[0]
    {
      EmptyAndFull();
      c := if Empty() then -1 else buf[begin];
    }

    /** `peek` of several characters. */
    method PeekMany(count: nat) returns (dst: seq<byte>)
      requires Valid()
      ensures dst == Take(Contents(), count)
    {
      var available := Available();
      var toRead := if count < available then count else available;
      WindowPrefix(buf[..], begin, end, toRead);
      var from := begin;
      dst := [];
      if end < begin && toRead > size - begin {
        dst := buf[begin..];
        from := 0;
        toRead := toRead - (size - begin);
      }
      dst := dst + buf[from..from + toRead];
    }

    /** `read`: the next character, which is taken out, or -1. */
    method Read() returns (c: int)
      requires Valid()
      modifies `begin
      ensures Valid() && c == (if old(Contents()) == [] then -1 else old(Contents())[0])
      ensures Contents() == Drop(old(Contents()), 1)
    {
      EmptyAndFull();
      if Empty() {
        return -1;
      }
      WindowShrinks(buf[..], begin, end, 1);
      c := buf[begin];
      begin := WrapIfBufend(begin + 1);
    }

    /** One piece of a `read`. */
    method ReadPiece(n: nat) returns (dst: seq<byte>)
      requires Valid() && begin + n <= if begin <= end then end else size
      modifies `begin
      ensures Valid() && n <= |old(Contents())|
      ensures dst == old(Contents())[..n] && Contents() == old(Contents())[n..]
      ensures begin == WrapIfBufend(old(begin) + n)
    {
      WindowShrinks(buf[..], begin, end, n);
      dst := buf[begin..begin + n];
      begin := WrapIfBufend(begin + n);
    }

    /** `read` of several characters, in two pieces when they go around the end. */
    method ReadMany(count: nat) returns (dst: seq<byte>)
      requires Valid()
      modifies `begin
      ensures Valid() && dst == Take(old(Contents()), count) && Contents() == Drop(old(Contents()), count)
    {
      ghost var all := Contents();
      var available := Available();
      var toRead := if count < available then count else available;
      dst := [];
      if end < begin && toRead > size - begin {
        var topSize := size - begin;
        Pieces(all, topSize, toRead);
        dst := ReadPiece(topSize);
        toRead := toRead - topSize;
      }
      hide Window;
      OnePiece(toRead);
      var rest := ReadPiece(toRead);
      dst := dst + rest;
    }

    lemma OnePiece(n: nat)
      requires Valid() && n <= |Contents()| && (end < begin ==> n <= size - begin)
      ensures begin + n <= if begin <= end then end else size
    {
    }

    /** `memcpy` to the storage. */
    method Store(at: nat, src: seq<byte>)
      requires at + |src| <= buf.Length
      modifies buf
      ensures buf[..] == Put(old(buf[..]), at, src)
    {
      for i := 0 to |src|
        invariant buf[..] == Put(old(buf[..]), at, src[..i])
      {
        buf[at + i] := src[i];
        assert src[..i + 1] == src[..i] + [src[i]];
      }
      assert src[..|src|] == src;
    }

    /** `write` of one character. */
    method Write(c: byte) returns (n: nat)
      requires Valid()
      modifies `end, buf
      ensures Valid() && n == (if |old(Contents())| < size - 1 then 1 else 0)
      ensures Contents() == if n == 1 then old(Contents()) + [c] else old(Contents())
    {
      EmptyAndFull();
      if Full() {
        return 0;
      }
      WindowGrows(buf[..], begin, end, [c]);
      ghost var stored := Put(buf[..], end, [c]);
      buf[end] := c;
      assert buf[..] == stored;
      end := WrapIfBufend(end + 1);
      n := 1;
    }

    /** One piece of a `write`. */
    method WritePiece(src: seq<byte>)
      requires Valid() && end + |src| <= size
      requires if begin <= end then end + |src| == size ==> begin > 0 else end + |src| < begin
      modifies `end, buf
      ensures Valid() && Contents() == old(Contents()) + src && end == WrapIfBufend(old(end) + |src|)
    {
      WindowGrows(buf[..], begin, end, src);
      Store(end, src);
      end := WrapIfBufend(end + |src|);
    }

    /** `write` of several characters: as many as there is room for, in two pieces around the end. */
    method WriteMany(src: seq<byte>) returns (n: nat)
      requires Valid()
      modifies `end, buf
      ensures Valid() && n == Min(|src|, size - 1 - |old(Contents())|)
      ensures Contents() == old(Contents()) + src[..n]
    {
      var room := Room();
      n := if |src| < room then |src| else room;
      var from := 0;
      if end >= begin && n > size - end {
        from := size - end;
        WritePiece(src[..from]);
      }
      assert src[..from] + src[from..n] == src[..n];
      WritePiece(src[from..n]);
    }

    method Flush()
      requires Valid()
      modifies `begin, `end
      ensures Valid() && Contents() == []
    {
      begin, end := 0, 0;
    }

    /** `remove`: drops characters, and tells how many are left. */
    method Remove(count: nat) returns (left: nat)
      requires Valid()
      modifies `begin, `end
      ensures Valid() && Contents() == Drop(old(Contents()), count) && left == |Contents()|
    {
      ghost var all := Contents();
      var available := Available();
      if count >= available {
        Flush();
        return 0;
      }
      var toRemove := count;
      if end < begin && toRemove > size - begin {
        var topSize := size - begin;
        WindowShrinks(buf[..], begin, end, topSize);
        begin := 0;
        toRemove := toRemove - topSize;
      }
      WindowShrinks(buf[..], begin, end, toRemove);
      begin := WrapIfBufend(begin + toRemove);
      left := Available();
    }

    /** `resize`: never loses a character; a size that would is refused. */
    method Resize(newSize: nat) returns (s: nat)
      requires Valid()
      modifies this
      ensures Valid() && s == size == (if newSize <= |old(Contents())| then old(size) else newSize)
      ensures Contents() == old(Contents()) && (buf == old(buf) || fresh(buf))
    {
      ghost var all := Contents();
      var available := Available();
      if newSize <= available || newSize == size {
        return size;
      }
      var newbuf := new byte[newSize];
      var moved := ReadMany(available);
      assert moved == all;
      var i := 0;
      while i < newSize
        invariant i <= newSize
        invariant forall j :: 0 <= j < i ==> newbuf[j] == if j < available then moved[j] else 0
        invariant buf == old(buf) && Valid() && newbuf != buf
      {
        newbuf[i] := if i < available then moved[i] else 0;
        i := i + 1;
      }
      begin, end, size, buf := 0, available, newSize, newbuf;
      assert buf[..available] == all;
      s := size;
    }

    /** `resizeAdd`. */
    method ResizeAdd(addSize: nat) returns (s: nat)
      requires Valid()
      modifies this
      ensures Valid() && s == size == old(size) + addSize && Contents() == old(Contents())
    {
      s := Resize(size + addSize);
    }
  }
}
