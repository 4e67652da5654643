/**
  The firmware image: written by the image tool, measured by the application core and loaded by
  the bootloader.
*/
module Image {
  import opened Words
  import opened Crc
  import Flash

  /** Contents whose length fits the 32-bit size field. */
  type Chunk = b: seq<byte> | |b| < TWO32 witness []

  datatype Segment = Segment(address: u32, bytes: Chunk)

  datatype WriteResult = Written(file: seq<byte>) | Failed

  /** What the bootloader does with an image. */
  datatype LoadResult = Loaded(loads: seq<Segment>) | LoadError(code: nat)

  // ---------------------------------------------------------------- layout

  function Header(count: byte, mode: byte, freqSize: byte, entry: u32): (bytes: seq<byte>)
    ensures |bytes| == 8
  {
    [0xe9, count, mode, freqSize] + WordBytes(entry)
  }

  function SegmentBytes(s: Segment): (bytes: seq<byte>)
    ensures |bytes| == 8 + |s.bytes|
  {
    WordBytes(s.address) + WordBytes(|s.bytes|) + s.bytes
  }

  function Body(segments: seq<Segment>): seq<byte>
  {
    if segments == [] then [] else SegmentBytes(segments[0]) + Body(segments[1..])
  }

  lemma {:induction false} BodyAppend(segments: seq<Segment>, last: Segment)
    ensures Body(segments + [last]) == Body(segments) + SegmentBytes(last)
    decreases |segments|
  {
    if segments == [] {
      assert [] + [last] == [last] && [last][1..] == [];
      assert Body([last]) == SegmentBytes(last) + [] == [] + SegmentBytes(last);
    } else {
      assert (segments + [last])[1..] == segments[1..] + [last];
      BodyAppend(segments[1..], last);
      assert SegmentBytes(segments[0]) + (Body(segments[1..]) + SegmentBytes(last))
          == Body(segments) + SegmentBytes(last);
    }
  }

  function XorAll(seed: byte, bytes: seq<byte>): byte {
    if bytes == [] then seed else XorByte(XorAll(seed, bytes[..|bytes| - 1]), bytes[|bytes| - 1])
  }

  function XorByte(a: byte, b: byte): byte {
    Powers();
    XorFits(a, b, 8);
    Xor(a, b)
  }

  function Data(segments: seq<Segment>): seq<byte> {
    if segments == [] then [] else Data(segments[..|segments| - 1]) + segments[|segments| - 1].bytes
  }

  /** n rounded up to a multiple of 16. */
  function RoundUp16(n: nat): nat {
    (n + 15) / 16 * 16
  }

  function Zeros(n: nat): (bytes: seq<byte>)
    ensures |bytes| == n
  {
    seq(n, _ => 0)
  }

  /** Header, segments, zeros up to the last byte of a 16-byte line, and there the checksum. */
  function AppImage(entry: u32, mode: byte, freqSize: byte, segments: seq<Segment>): (image: seq<byte>)
    requires |segments| <= 255
    ensures |image| == RoundUp16(9 + |Body(segments)|)
  {
    var front := Header(|segments|, mode, freqSize, entry) + Body(segments);
    front + Zeros(RoundUp16(|front| + 1) - |front| - 1) + [XorAll(0xef, Data(segments))]
  }

  /** How many of the bytes have bit t set. */
  function CountBit(bytes: seq<byte>, t: nat): nat {
    if bytes == [] then 0
    else CountBit(bytes[..|bytes| - 1], t) + bytes[|bytes| - 1] / Pow2(t) % 2
  }

  lemma {:induction false} ChecksumBit(seed: byte, bytes: seq<byte>, t: nat)
    ensures XorAll(seed, bytes) / Pow2(t) % 2 == (seed / Pow2(t) + CountBit(bytes, t)) % 2
    decreases |bytes|
  {
    if bytes != [] {
      var n := |bytes| - 1;
      ChecksumBit(seed, bytes[..n], t);
      var x := XorAll(seed, bytes[..n]);
      BitOfXor(x, bytes[n], t);
      Parity(XorByte(x, bytes[n]) / Pow2(t), x / Pow2(t), bytes[n] / Pow2(t), seed / Pow2(t), CountBit(bytes[..n], t));
    }
  }

  lemma BitOfXor(a: byte, b: byte, t: nat)
    ensures XorByte(a, b) / Pow2(t) % 2 == (a / Pow2(t) + b / Pow2(t)) % 2
  {
    XorBit(a, b, t);
    HalfIsQuotient(Xor(a, b), t);
    HalfIsQuotient(a, t);
    HalfIsQuotient(b, t);
  }

  lemma Parity(h: int, a: int, b: int, s: int, c: int)
    requires h % 2 == (a + b) % 2 && a % 2 == (s + c) % 2
    ensures h % 2 == (s + (c + b % 2)) % 2
  {
  }

  /**
    The bytes of a written image that other programs read: the magic byte, the segment count, the
    mode, the size and frequency, and the entry point; it is made of lines of 16 bytes.
  */
  lemma ImageBytes(entry: u32, mode: byte, freqSize: byte, segments: seq<Segment>)
    requires |segments| <= 255
    ensures var image := AppImage(entry, mode, freqSize, segments);
            && |image| % 16 == 0 && |image| >= 16
            && image[0] == 0xe9 && image[1] == |segments| && image[2] == mode && image[3] == freqSize
            && WordOf(image[4..8]) == entry
  {
    hide XorAll, Data, Body, WordBytes;
    var image := AppImage(entry, mode, freqSize, segments);
    assert image[..8] == Header(|segments|, mode, freqSize, entry);
    assert image[4..8] == image[..8][4..] == WordBytes(entry);
    WordRoundTrip(entry);
  }

  /** The checksum is the last byte: with all data bytes it makes 0xef, bit by bit. */
  lemma ImageChecksum(entry: u32, mode: byte, freqSize: byte, segments: seq<Segment>, t: nat)
    requires |segments| <= 255
    ensures var image := AppImage(entry, mode, freqSize, segments);
            |image| > 0 && (image[|image| - 1] / Pow2(t) + CountBit(Data(segments), t)) % 2 == 0xef / Pow2(t) % 2
  {
    hide XorAll, CountBit, Data, Pow2, Body, WordBytes;
    var image := AppImage(entry, mode, freqSize, segments);
    var sum := XorAll(0xef, Data(segments));
    assert image[|image| - 1] == sum;
    ChecksumBit(0xef, Data(segments), t);
    Closes(sum / Pow2(t), 0xef / Pow2(t), CountBit(Data(segments), t));
  }

  lemma Closes(a: int, s: int, c: int)
    requires a % 2 == (s + c) % 2
    ensures (a + c) % 2 == s % 2
  {
  }

  // ---------------------------------------------------------------- writer

  /** `write_bin`, appending to `file`; a segment count over 255 does not fit its byte. */
  method WriteBin(file: seq<byte>, entry: u32, mode: byte, freqSize: byte, segments: seq<Segment>, toAddr: nat)
    returns (result: WriteResult)
    ensures result.Written? <==>
      |segments| <= 255 && (toAddr != 0 ==> |AppImage(entry, mode, freqSize, segments)| + 8 <= toAddr)
    ensures result.Written? ==>
      var image := AppImage(entry, mode, freqSize, segments);
      result.file == file + image + seq(if toAddr == 0 then 0 else toAddr - |image|, _ => 0xaa)
  {
    if |segments| > 255 {
      return Failed;
    }
    ghost var front := Header(|segments|, mode, freqSize, entry) + Body(segments);
    var out := file + Header(|segments|, mode, freqSize, entry);
    var totalSize, checksum;
    out, totalSize, checksum := WriteSegments(out, segments);
    assert out == file + front;
    out, totalSize := Pad(out, totalSize);
    out := out + [checksum];
    assert out == file + AppImage(entry, mode, freqSize, segments);
    result := Fill(out, totalSize, toAddr);
    assert toAddr == 0 ==> out == out + seq(0, _ => 0xaa);
  }

  /** The segment loop of `write_bin`. */
  method WriteSegments(file: seq<byte>, segments: seq<Segment>) returns (out: seq<byte>, totalSize: nat, checksum: byte)
    ensures out == file + Body(segments) && totalSize == 8 + |Body(segments)|
    ensures checksum == XorAll(0xef, Data(segments))
  {
    hide Body, Data, XorAll, SegmentBytes;
    out, totalSize, checksum := file, 8, 0xef;
    NoSegments();
    for i := 0 to |segments|
      invariant totalSize == 8 + |Body(segments[..i])|
      invariant out == file + Body(segments[..i])
      invariant checksum == XorAll(0xef, Data(segments[..i]))
    {
      var segment := segments[i];
      OneSegment(segment);
      DataAppend(segments[..i], segment);
      assert segments[..i + 1][..i] == segments[..i];
      assert segments[..i + 1] == segments[..i] + [segment];
      BodyAppend(segments[..i], segment);
      out := out + WordBytes(segment.address) + WordBytes(|segment.bytes|);
      totalSize := totalSize + 8;
      out := out + segment.bytes;
      totalSize := totalSize + |segment.bytes|;
      checksum := Checksum(checksum, segment.bytes, Data(segments[..i]));
    }
    assert segments[..|segments|] == segments;
  }

  lemma NoSegments()
    ensures Body([]) == [] && Data([]) == [] && XorAll(0xef, []) == 0xef
  {
  }

  lemma OneSegment(s: Segment)
    ensures SegmentBytes(s) == WordBytes(s.address) + WordBytes(|s.bytes|) + s.bytes
  {
  }

  lemma DataAppend(segments: seq<Segment>, last: Segment)
    ensures Data(segments + [last]) == Data(segments) + last.bytes
  {
    assert (segments + [last])[..|segments|] == segments;
  }

  /** The padding loop of `write_bin`: zeros until one more byte completes a line of 16. */
  method Pad(file: seq<byte>, size: nat) returns (out: seq<byte>, totalSize: nat)
    ensures totalSize == RoundUp16(size + 1) && out == file + Zeros(totalSize - size - 1)
  {
    out, totalSize := file, size + 1;
    while totalSize % 16 != 0
      invariant size + 1 <= totalSize <= RoundUp16(size + 1)
      invariant out == file + Zeros(totalSize - size - 1)
      decreases RoundUp16(size + 1) - totalSize
    {
      totalSize := totalSize + 1;
      out := out + [0];
      assert Zeros(totalSize - size - 1) == Zeros(totalSize - size - 2) + [0];
    }
  }

  /** The checksum loop over one segment. */
  method Checksum(start: byte, raw: seq<byte>, ghost before: seq<byte>) returns (checksum: byte)
    requires start == XorAll(0xef, before)
    ensures checksum == XorAll(0xef, before + raw)
  {
    checksum := start;
    assert before + raw[..0] == before;
    for i := 0 to |raw|
      invariant checksum == XorAll(0xef, before + raw[..i])
    {
      checksum := XorByte(checksum, raw[i]);
      assert (before + raw[..i + 1])[..|before| + i] == before + raw[..i];
    }
    assert raw[..|raw|] == raw;
  }

  /** The last part of `write_bin`: a fixed-size part is filled up with 0xaa. */
  method Fill(file: seq<byte>, size: nat, toAddr: nat) returns (result: WriteResult)
    ensures result == if toAddr == 0 then Written(file)
                      else if size + 8 > toAddr then Failed
                      else Written(file + seq(toAddr - size, _ => 0xaa))
  {
    if toAddr != 0 {
      if size + 8 > toAddr {
        return Failed;
      }
      var out, totalSize := file, size;
      while totalSize < toAddr
        invariant size <= totalSize <= toAddr
        invariant out == file + seq(totalSize - size, _ => 0xaa)
      {
        out := out + [0xaa];
        totalSize := totalSize + 1;
        assert seq(totalSize - size, _ => 0xaa) == seq(totalSize - size - 1, _ => 0xaa) + [0xaa];
      }
      return Written(out);
    }
    result := Written(file);
  }

  // ---------------------------------------------------------------- readers

  /** Position after n sections from pos on, or None where a section header cannot be read. */
  function ScanEnd(f: seq<byte>, pos: u32, n: nat): Option<u32>
    decreases n
  {
    if n == 0 then Some(pos)
    else if pos + 8 > |f| then None
    else ScanEnd(f, ((pos + 8) % TWO32 + WordOf(f[pos + 4..pos + 8])) % TWO32, n - 1)
  }

  /** The size the core reports for the image at 4096. */
  function SketchSize(f: seq<byte>): u32 {
    if 4096 + 8 > |f| then 0
    else match ScanEnd(f, 4104, f[4097])
      case None => 0
      case Some(pos) => (pos + 16) % TWO32 / 16 * 16
  }

  class Esp {
    var cachedSize: u32

    /** `getSketchSize`: a result other than 0 is computed once. */
    method GetSketchSize(chip: Flash.Chip) returns (size: u32)
      modifies this
      ensures size == if old(cachedSize) != 0 then old(cachedSize) else SketchSize(chip.mem)
      ensures cachedSize == size
    {
      if cachedSize != 0 {
        return cachedSize;
      }
      var pos: u32 := 4096;
      var ok, header := chip.ReadBytes(pos, 8);
      if !ok {
        return 0;
      }
      var end := ScanSections(chip, pos + 8, header[1]);
      if end.None? {
        return 0;
      }
      cachedSize := (end.value + 16) % TWO32 / 16 * 16;
      size := cachedSize;
    }
  }

  /** The loop of `getSketchSize` over the section headers. */
  method ScanSections(chip: Flash.Chip, start: u32, count: nat) returns (end: Option<u32>)
    ensures end == ScanEnd(chip.mem, start, count)
  {
    var pos: u32 := start;
    for i := 0 to count
      invariant ScanEnd(chip.mem, pos, count - i) == ScanEnd(chip.mem, start, count)
    {
      var ok, section := chip.ReadBytes(pos, 8);
      if !ok {
        return None;
      }
      assert section[4..8] == chip.mem[pos + 4..pos + 8];
      pos := (pos + 8) % TWO32;
      pos := (pos + WordOf(section[4..8])) % TWO32;
    }
    end := Some(pos);
  }

  /** The address windows the bootloader copies to. */
  predicate Loadable(address: u32) {
    address < 0x4000_0000 || 0x4010_0000 <= address < 0x4010_8000 || address >= 0x6000_0000
  }

  /**
    What is copied, by the memory map: data RAM and everything else below the boot ROM, instruction
    RAM, and the RTC and peripheral memories from 0x6000_0000 on.  The boot ROM, the flash mapped at
    0x4020_0000 and what lies between is never written to.
  */
  lemma MemoryMap(address: u32)
    ensures 0x3ffe_8000 <= address < 0x4000_0000 ==> Loadable(address)
    ensures 0x4010_0000 <= address < 0x4010_8000 ==> Loadable(address)
    ensures 0x6000_0000 <= address ==> Loadable(address)
    ensures 0x4000_0000 <= address < 0x4010_0000 ==> !Loadable(address)
    ensures 0x4010_8000 <= address < 0x6000_0000 ==> !Loadable(address)
  {
  }

  function Selected(segments: seq<Segment>): seq<Segment> {
    if segments == [] then []
    else (if Loadable(segments[0].address) then [segments[0]] else []) + Selected(segments[1..])
  }

  /** The segments copied are exactly those that begin in one of the three windows, in order. */
  lemma {:induction false} SelectedStep(segments: seq<Segment>, last: Segment)
    ensures Selected([]) == []
    ensures var a := last.address;
            Selected(segments + [last]) == Selected(segments) +
              if a < 0x4000_0000 || 0x4010_0000 <= a < 0x4010_8000 || 0x6000_0000 <= a then [last] else []
    decreases |segments|
  {
    if segments == [] {
      assert [] + [last] == [last] && [last][1..] == [];
    } else {
      assert (segments + [last])[1..] == segments[1..] + [last];
      SelectedStep(segments[1..], last);
    }
  }

  /** The sections that loading n sections from pos on puts in memory. */
  function LoadFrom(f: seq<byte>, pos: u32, n: nat): LoadResult
    decreases n
  {
    if n == 0 then Loaded([])
    else if pos + 8 > |f| then LoadError(2)
    else
      var address, size := WordOf(f[pos..pos + 4]), WordOf(f[pos + 4..pos + 8]);
      var at := (pos + 8) % TWO32;
      if Loadable(address) && at + size > |f| then LoadError(3)
      else
        Prepend(if Loadable(address) then [Segment(address, f[at..at + size])] else [],
                LoadFrom(f, (at + size) % TWO32, n - 1))
  }

  /** What loading the image at `addr` does. */
  function LoadAt(f: seq<byte>, addr: u32): LoadResult {
    var pos := (addr + 4096) % TWO32;
    if pos + 8 > |f| then LoadError(1)
    else LoadFrom(f, (pos + 8) % TWO32, f[pos + 1])
  }

  /**
    `load_app_from_flash_raw`.  When every section is loaded the entry point is jumped to, which
    is returned here with code 0 and the sections in the order they were loaded.
  */
  method LoadApp(chip: Flash.Chip, flashAddr: u32) returns (code: nat, entry: u32, loads: seq<Segment>)
    ensures match LoadAt(chip.mem, flashAddr)
            case LoadError(c) => code == c && c > 0
            case Loaded(l) =>
              var pos := (flashAddr + 4096) % TWO32;
              code == 0 && loads == l && entry == WordOf(chip.mem[pos + 4..pos + 8])
  {
    entry, loads := 0, [];
    var pos: u32 := (flashAddr + 4096) % TWO32;
    var ok, header := chip.ReadBytes(pos, 8);
    if !ok {
      return 1, 0, [];
    }
    assert header[4..8] == chip.mem[pos + 4..pos + 8];
    entry := WordOf(header[4..8]);
    code, loads := LoadSections(chip, (pos + 8) % TWO32, header[1]);
  }

  /** The loop of `load_app_from_flash_raw` over the sections. */
  method LoadSections(chip: Flash.Chip, start: u32, count: nat) returns (code: nat, loads: seq<Segment>)
    ensures match LoadFrom(chip.mem, start, count)
            case LoadError(c) => code == c && c > 0
            case Loaded(l) => code == 0 && loads == l
  {
    hide LoadFrom, Prepend, WordOf, Loadable;
    StartLoading(LoadFrom(chip.mem, start, count));
    loads := [];
    var pos: u32 := start;
    for i := 0 to count
      invariant LoadFrom(chip.mem, start, count) == Prepend(loads, LoadFrom(chip.mem, pos, count - i))
    {
      LoadStep(chip.mem, pos, count - i, loads);
      var ok, section := chip.ReadBytes(pos, 8);
      if !ok {
        return 2, loads;
      }
      assert section[0..4] == chip.mem[pos..pos + 4] && section[4..8] == chip.mem[pos + 4..pos + 8];
      var address, size := WordOf(section[0..4]), WordOf(section[4..8]);
      var at: u32 := (pos + 8) % TWO32;
      if Loadable(address) {
        var loadOk, bytes := chip.ReadBytes(at, size);
        if !loadOk {
          return 3, loads;
        }
        loads := loads + [Segment(address, bytes)];
      }
      pos := (at + size) % TWO32;
    }
    AllLoaded(chip.mem, pos, loads);
    code := 0;
  }

  lemma StartLoading(rest: LoadResult)
    ensures Prepend([], rest) == rest
  {
    PrependNothing(rest);
  }

  /** What one section adds to the ones loaded, or how it ends the loading. */
  lemma LoadStep(f: seq<byte>, pos: u32, n: nat, loads: seq<Segment>)
    requires n > 0
    ensures pos + 8 > |f| ==> Prepend(loads, LoadFrom(f, pos, n)) == LoadError(2)
    ensures pos + 8 <= |f| ==>
      var address, size := WordOf(f[pos..pos + 4]), WordOf(f[pos + 4..pos + 8]);
      var at: u32 := (pos + 8) % TWO32;
      var rest := LoadFrom(f, (at + size) % TWO32, n - 1);
      Prepend(loads, LoadFrom(f, pos, n)) ==
        if !Loadable(address) then Prepend(loads, rest)
        else if at + size > |f| then LoadError(3)
        else Prepend(loads + [Segment(address, f[at..at + size])], rest)
  {
    if pos + 8 <= |f| {
      var address, size := WordOf(f[pos..pos + 4]), WordOf(f[pos + 4..pos + 8]);
      var at: u32 := (pos + 8) % TWO32;
      var rest := LoadFrom(f, (at + size) % TWO32, n - 1);
      if !Loadable(address) {
        PrependNothing(rest);
      } else if at + size <= |f| {
        PrependMore(loads, Segment(address, f[at..at + size]), rest);
      }
    }
  }

  /** After the last section. */
  lemma AllLoaded(f: seq<byte>, pos: u32, loads: seq<Segment>)
    ensures Prepend(loads, LoadFrom(f, pos, 0)) == Loaded(loads)
  {
    assert loads + [] == loads;
  }

  function Prepend(loads: seq<Segment>, rest: LoadResult): LoadResult {
    match rest
    case LoadError(code) => LoadError(code)
    case Loaded(more) => Loaded(loads + more)
  }

  lemma PrependMore(loads: seq<Segment>, s: Segment, rest: LoadResult)
    ensures Prepend(loads, Prepend([s], rest)) == Prepend(loads + [s], rest)
  {
    if rest.Loaded? {
      assert loads + ([s] + rest.loads) == loads + [s] + rest.loads;
    }
  }

  lemma PrependNothing(rest: LoadResult)
    ensures Prepend([], rest) == rest
  {
    if rest.Loaded? {
      assert [] + rest.loads == rest.loads;
    }
  }

  // ---------------------------------------------------------------- what was written is what is read

  /** Scanning and loading find the segments of a body one by one. */
  lemma {:induction false} ReadBody(f: seq<byte>, pos: nat, segments: seq<Segment>)
    requires pos + |Body(segments)| <= |f| < TWO32
    requires f[pos..pos + |Body(segments)|] == Body(segments)
    ensures ScanEnd(f, pos, |segments|) == Some(pos + |Body(segments)|)
    ensures LoadFrom(f, pos, |segments|) == Loaded(Selected(segments))
    decreases |segments|
  {
    hide SegmentBytes, Loadable;
    if segments != [] {
      ReadFirst(f, pos, segments[0], Body(segments[1..]), |segments| - 1);
      ReadBody(f, pos + 8 + |segments[0].bytes|, segments[1..]);
      OneSelected(segments);
    }
  }

  lemma ReadFirst(f: seq<byte>, pos: nat, s: Segment, rest: seq<byte>, n: nat)
    requires pos + |SegmentBytes(s) + rest| <= |f| < TWO32
    requires f[pos..pos + |SegmentBytes(s) + rest|] == SegmentBytes(s) + rest
    ensures var next := pos + 8 + |s.bytes|;
            && f[next..next + |rest|] == rest
            && ScanEnd(f, pos, n + 1) == ScanEnd(f, next, n)
            && LoadFrom(f, pos, n + 1) == Prepend(if Loadable(s.address) then [s] else [], LoadFrom(f, next, n))
  {
    Halves(f, pos, SegmentBytes(s), rest);
    SectionFields(f, pos, s);
    ReadSection(f, pos, s, n);
  }

  lemma OneSelected(segments: seq<Segment>)
    requires segments != []
    ensures Loaded(Selected(segments)) ==
            Prepend(if Loadable(segments[0].address) then [segments[0]] else [], Loaded(Selected(segments[1..])))
  {
  }

  lemma Halves(f: seq<byte>, pos: nat, first: seq<byte>, rest: seq<byte>)
    requires pos + |first| + |rest| <= |f|
    requires f[pos..pos + |first + rest|] == first + rest
    ensures f[pos..pos + |first|] == first
    ensures f[pos + |first|..pos + |first| + |rest|] == rest
  {
    SliceOf(f, pos, first + rest, 0, |first|);
    SliceOf(f, pos, first + rest, |first|, |first| + |rest|);
  }

  lemma SectionFields(f: seq<byte>, pos: nat, s: Segment)
    requires pos + 8 + |s.bytes| <= |f|
    requires f[pos..pos + 8 + |s.bytes|] == SegmentBytes(s)
    ensures WordOf(f[pos..pos + 4]) == s.address && WordOf(f[pos + 4..pos + 8]) == |s.bytes|
    ensures f[pos + 8..pos + 8 + |s.bytes|] == s.bytes
  {
    var a, b := WordBytes(s.address), WordBytes(|s.bytes|);
    assert a + b + s.bytes == a + (b + s.bytes);
    Halves(f, pos, a, b + s.bytes);
    Halves(f, pos + 4, b, s.bytes);
    WordRoundTrip(s.address);
    WordRoundTrip(|s.bytes|);
  }

  /** One segment is scanned and loaded. */
  lemma ReadSection(f: seq<byte>, pos: nat, s: Segment, n: nat)
    requires pos + 8 + |s.bytes| <= |f| < TWO32
    requires WordOf(f[pos..pos + 4]) == s.address && WordOf(f[pos + 4..pos + 8]) == |s.bytes|
    requires f[pos + 8..pos + 8 + |s.bytes|] == s.bytes
    ensures ScanEnd(f, pos, n + 1) == ScanEnd(f, pos + 8 + |s.bytes|, n)
    ensures LoadFrom(f, pos, n + 1) ==
            Prepend(if Loadable(s.address) then [s] else [], LoadFrom(f, pos + 8 + |s.bytes|, n))
  {
    Small(pos + 8);
    Small(pos + 8 + |s.bytes|);
    assert Segment(s.address, f[pos + 8..pos + 8 + |s.bytes|]) == s;
  }

  lemma Rounding(n: nat)
    ensures (n + 16) / 16 * 16 == RoundUp16(n + 1)
  {
  }

  /**
    A chip that holds an application image at 4096: the core measures exactly the length of the
    file, and the bootloader loads exactly the segments in its three address windows, in order,
    and jumps to the entry point that was written.
  */
  lemma ImageRoundTrip(f: seq<byte>, entry: u32, mode: byte, freqSize: byte, segments: seq<Segment>)
    requires |segments| <= 255
    requires 4096 + |AppImage(entry, mode, freqSize, segments)| + 16 <= |f| + 16 < TWO32
    requires f[4096..4096 + |AppImage(entry, mode, freqSize, segments)|] == AppImage(entry, mode, freqSize, segments)
    ensures SketchSize(f) == 4096 + |AppImage(entry, mode, freqSize, segments)|
    ensures LoadAt(f, 0) == Loaded(Selected(segments))
    ensures WordOf(f[4100..4104]) == entry
  {
    ImageFields(f, entry, mode, freqSize, segments);
    ReadBody(f, 4104, segments);
    SizeOf(f, |Body(segments)|);
    RoundUpShift(|Body(segments)|);
    assert LoadAt(f, 0) == LoadFrom(f, 4104, |segments|);
  }

  lemma SizeOf(f: seq<byte>, n: nat)
    requires 4104 <= |f| && 4120 + n < TWO32
    requires ScanEnd(f, 4104, f[4097]) == Some(4104 + n)
    ensures SketchSize(f) == RoundUp16(4105 + n)
  {
    Small(4104 + n + 16);
    Rounding(4104 + n);
  }

  lemma RoundUpShift(n: nat)
    ensures RoundUp16(4105 + n) == 4096 + RoundUp16(9 + n)
  {
  }

  lemma ImageFields(f: seq<byte>, entry: u32, mode: byte, freqSize: byte, segments: seq<Segment>)
    requires |segments| <= 255
    requires 4096 + |AppImage(entry, mode, freqSize, segments)| <= |f|
    requires f[4096..4096 + |AppImage(entry, mode, freqSize, segments)|] == AppImage(entry, mode, freqSize, segments)
    ensures var n := |Body(segments)|;
            && 4104 + n <= |f| && f[4104..4104 + n] == Body(segments)
            && f[4097] == |segments| && WordOf(f[4100..4104]) == entry
  {
    var header, body := Header(|segments|, mode, freqSize, entry), Body(segments);
    var tail := Zeros(RoundUp16(|header + body| + 1) - |header + body| - 1) + [XorAll(0xef, Data(segments))];
    assert AppImage(entry, mode, freqSize, segments) == header + (body + tail);
    Halves(f, 4096, header, body + tail);
    Halves(f, 4104, body, tail);
    HeaderFields(f, |segments|, mode, freqSize, entry);
  }

  lemma HeaderFields(f: seq<byte>, count: byte, mode: byte, freqSize: byte, entry: u32)
    requires |f| >= 4104 && f[4096..4104] == Header(count, mode, freqSize, entry)
    ensures f[4097] == count && WordOf(f[4100..4104]) == entry
  {
    Halves(f, 4096, [0xe9, count, mode, freqSize], WordBytes(entry));
    assert f[4097] == f[4096..4100][1];
    WordRoundTrip(entry);
  }

  // ---------------------------------------------------------------- image CRC

  function StoredWord(raw: seq<byte>, offset: nat, w: u32): (r: seq<byte>)
    requires offset + 4 <= |raw|
    ensures |r| == |raw|
  {
    raw[..offset] + WordBytes(w) + raw[offset + 4..]
  }

  /** The image with its eight bytes of length and CRC zeroed. */
  function Blanked(raw: seq<byte>): (r: seq<byte>)
    requires |raw| >= 4096
    ensures |r| == |raw|
  {
    raw[..4088] + Zeros(8) + raw[4096..]
  }

  /** The CRC is over all bytes but the eight of length and CRC, which count as zeros. */
  lemma BlankedExactly(raw: seq<byte>, i: nat)
    requires 4096 <= |raw| && i < |raw|
    ensures Blanked(raw)[i] == if 4088 <= i < 4096 then 0 else raw[i]
  {
  }

  function WithCrc(raw: seq<byte>): (r: seq<byte>)
    requires 4096 <= |raw| < TWO32
    ensures |r| == |raw|
  {
    StoredWord(StoredWord(raw, 4088, |raw|), 4092, Crc32(SEED, Blanked(raw)))
  }

  /** `store_word`. */
  method StoreWord(raw: array<byte>, offset: nat, val: u32)
    requires offset + 4 <= raw.Length
    modifies raw
    ensures raw[..] == StoredWord(old(raw[..]), offset, val)
  {
    raw[offset] := val % 256;
    raw[offset + 1] := val / 256 % 256;
    raw[offset + 2] := val / 0x1_0000 % 256;
    raw[offset + 3] := val / 0x100_0000 % 256;
  }

  /** `add_crc` on the bytes of the file. */
  method AddCrc(raw: array<byte>)
    requires 4096 <= raw.Length < TWO32
    modifies raw
    ensures raw[..] == WithCrc(old(raw[..]))
  {
    ghost var before := raw[..];
    StoreWord(raw, 4088, 0);
    StoreWord(raw, 4092, 0);
    BlankWords(before);
    var crc := Crc8266(raw[..]);
    StoreWord(raw, 4088, raw.Length);
    StoreWord(raw, 4092, crc);
    SealBlanked(before, raw.Length, crc);
  }

  /** Both words are zero when the CRC is computed. */
  lemma BlankWords(raw: seq<byte>)
    requires |raw| >= 4096
    ensures StoredWord(StoredWord(raw, 4088, 0), 4092, 0) == Blanked(raw)
  {
    assert WordBytes(0) == [0, 0, 0, 0];
    var once := StoredWord(raw, 4088, 0);
    assert once[..4092] == raw[..4088] + [0, 0, 0, 0] && once[4096..] == raw[4096..];
    assert Zeros(8) == [0, 0, 0, 0] + [0, 0, 0, 0];
  }

  lemma SealBlanked(raw: seq<byte>, n: u32, crc: u32)
    requires |raw| >= 4096
    ensures StoredWord(StoredWord(Blanked(raw), 4088, n), 4092, crc) == StoredWord(StoredWord(raw, 4088, n), 4092, crc)
  {
    var a, b := StoredWord(Blanked(raw), 4088, n), StoredWord(raw, 4088, n);
    assert a[..4092] == raw[..4088] + WordBytes(n) == b[..4092];
    assert a[4096..] == raw[4096..] == b[4096..];
  }

  /** The image length stored at 4088. */
  function StoredLength(f: seq<byte>): u32
    requires |f| >= 4096
  {
    WordOf(f[4088..4092])
  }

  /** What `checkFlashCRC` compares. */
  predicate CrcMatches(f: seq<byte>)
    requires |f| >= 4096 && 4096 <= StoredLength(f) <= |f|
  {
    Crc32(SEED, Blanked(f[..StoredLength(f)])) == WordOf(f[4092..4096])
  }

  /** `checkFlashCRC`: the CRC of the flash with the two words skipped, in three chained calls. */
  method CheckFlashCRC(flash: seq<byte>) returns (ok: bool)
    requires |flash| >= 4096 && 4096 <= StoredLength(flash) <= |flash|
    ensures ok == CrcMatches(flash)
  {
    var flashsize := WordOf(flash[4088..4092]);
    var flashcrc := WordOf(flash[4092..4096]);
    var z: seq<byte> := [0, 0, 0, 0, 0, 0, 0, 0];
    var crc := CrcUpdate(0xffff_ffff, flash[..4088]);
    crc := CrcUpdate(crc, z);
    crc := CrcUpdate(crc, flash[4096..flashsize]);
    Chaining(SEED, flash[..4088], z);
    Chaining(SEED, flash[..4088] + z, flash[4096..flashsize]);
    var whole := flash[..flashsize];
    assert z == Zeros(8);
    assert whole[..4088] == flash[..4088] && whole[4096..] == flash[4096..flashsize];
    assert Blanked(whole) == flash[..4088] + z + flash[4096..flashsize];
    ok := crc == flashcrc;
  }

  lemma StoredWords(raw: seq<byte>)
    requires 4096 <= |raw| < TWO32
    ensures var r := WithCrc(raw);
            && r[4088..4092] == WordBytes(|raw|)
            && r[4092..4096] == WordBytes(Crc32(SEED, Blanked(raw)))
            && Blanked(r) == Blanked(raw)
  {
    var r := WithCrc(raw);
    assert r[..4088] == raw[..4088] && r[4096..] == raw[4096..];
  }

  /** The core accepts what the tool has sealed, whatever follows it in flash, and sealing twice changes nothing. */
  lemma SealedImageAccepted(raw: seq<byte>, rest: seq<byte>)
    requires 4096 <= |raw| < TWO32
    ensures StoredLength(WithCrc(raw) + rest) == |raw| && CrcMatches(WithCrc(raw) + rest)
    ensures WithCrc(WithCrc(raw)) == WithCrc(raw)
  {
    StoredWords(raw);
    WordRoundTrip(|raw|);
    WordRoundTrip(Crc32(SEED, Blanked(raw)));
    var r, f := WithCrc(raw), WithCrc(raw) + rest;
    assert f[4088..4092] == r[4088..4092] && f[4092..4096] == r[4092..4096];
    assert f[..|raw|] == r;
    StoredWords(r);
    assert WithCrc(r)[4088..4092] == r[4088..4092] && WithCrc(r)[4092..4096] == r[4092..4096];
    assert WithCrc(r)[..4088] == r[..4088] && WithCrc(r)[4096..] == r[4096..];
    assert WithCrc(r) == WithCrc(r)[..4088] + WithCrc(r)[4088..4092] + WithCrc(r)[4092..4096] + WithCrc(r)[4096..];
    assert r == r[..4088] + r[4088..4092] + r[4092..4096] + r[4096..];
  }

  /** The core refuses a sealed image with a burst of at most 32 corrupted bits outside the two words. */
  lemma CorruptImageRefused(raw: seq<byte>, found: seq<byte>, i: nat)
    requires 4096 <= |raw| < TWO32 && |found| == |raw|
    requires found[4088..4096] == WithCrc(raw)[4088..4096]
    requires Burst(Blanked(found), Blanked(raw), i)
    ensures StoredLength(found) == |raw| && !CrcMatches(found)
  {
    StoredWords(raw);
    WordRoundTrip(|raw|);
    WordRoundTrip(Crc32(SEED, Blanked(raw)));
    assert found[4088..4092] == found[4088..4096][..4] == WithCrc(raw)[4088..4092];
    assert found[4092..4096] == found[4088..4096][4..] == WithCrc(raw)[4092..4096];
    assert found[..|raw|] == found;
    BurstDetected(SEED, Blanked(found), Blanked(raw), i);
  }
}
