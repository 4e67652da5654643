/**
  The command the application leaves for the bootloader in 32 words of RTC memory.

  The application's writer and the bootloader's reader are separate copies of the same code;
  the methods model both.
*/
module EbootCommand {
  import opened Words
  import opened Crc

  const ACTION_COPY_RAW: u32 := 1
  const ACTION_LOAD_APP: u32 := 0xffff_ffff
  const EBOOT_MAGIC: u32 := 0xeb00_1000

  datatype Command = Command(magic: u32, action: u32, args: seq<u32>, crc32: u32)

  type ArgumentWords = a: seq<u32> | |a| == 29 witness seq(29, _ => 0)

  /** The 124 bytes before the CRC, as words. */
  function Body(magic: u32, action: u32, args: seq<u32>): (words: seq<u32>)
    ensures |words| == 2 + |args|
  {
    [magic, action] + args
  }

  /** The bytes of a structure of words in memory, least significant byte first. */
  function Bytes(words: seq<u32>): (bytes: seq<byte>)
    ensures |bytes| == 4 * |words|
  {
    if words == [] then [] else WordBytes(words[0]) + Bytes(words[1..])
  }

  lemma WordBytesInjective(v: u32, w: u32)
    requires WordBytes(v) == WordBytes(w)
    ensures v == w
  {
    WordRoundTrip(v);
    WordRoundTrip(w);
  }

  lemma {:induction false} BytesInjective(v: seq<u32>, w: seq<u32>)
    requires |v| == |w| && Bytes(v) == Bytes(w)
    ensures v == w
    decreases |v|
  {
    if v != [] {
      var x, y := Bytes(v), Bytes(w);
      assert x[..4] == WordBytes(v[0]) && y[..4] == WordBytes(w[0]);
      assert x[4..] == Bytes(v[1..]) && y[4..] == Bytes(w[1..]);
      WordBytesInjective(v[0], w[0]);
      BytesInjective(v[1..], w[1..]);
    }
  }

  /** `eboot_command_calculate_crc32` over the first 31 words. */
  function BodyCrc(body: seq<u32>): u32 {
    Crc32(SEED, Bytes(body))
  }

  /** What `eboot_command_read` accepts. */
  predicate Accepted(words: seq<u32>)
    requires |words| == 32
  {
    words[0] / 0x1000 == EBOOT_MAGIC / 0x1000 && words[31] == BodyCrc(words[..31])
  }

  function Sealed(action: u32, args: ArgumentWords): (words: seq<u32>)
    ensures |words| == 32
  {
    var body := Body(EBOOT_MAGIC, action, args);
    body + [BodyCrc(body)]
  }

  function Cleared(words: seq<u32>): (w: seq<u32>)
    requires |words| == 32
    ensures |w| == 32
  {
    words[0 := 0][31 := 0]
  }

  /** `eboot_command_write`. */
  method CommandWrite(rtc: array<u32>, action: u32, args: ArgumentWords)
    requires rtc.Length == 32
    modifies rtc
    ensures rtc[..] == Sealed(action, args)
  {
    var body := Body(EBOOT_MAGIC, action, args);
    var bytes := Bytes(body);
    var crc := CrcUpdate(SEED, bytes);
    var src := body + [crc];
    for i := 0 to 32
      invariant rtc[..i] == src[..i]
    {
      rtc[i] := src[i];
    }
    assert rtc[..] == src;
  }

  /** `eboot_command_read`: 0 and the command, or 1. */
  method CommandRead(rtc: array<u32>) returns (result: nat, cmd: Command)
    requires rtc.Length == 32
    ensures result == if Accepted(rtc[..]) then 0 else 1
    ensures result == 0 ==> 0xeb00_1000 <= rtc[0] <= 0xeb00_1fff
    ensures |cmd.args| == 29 && Body(cmd.magic, cmd.action, cmd.args) + [cmd.crc32] == rtc[..]
  {
    var dst: seq<u32> := [];
    for i := 0 to 32
      invariant dst == rtc[..i]
    {
      dst := dst + [rtc[i]];
    }
    assert dst == rtc[..];
    cmd := Command(dst[0], dst[1], dst[2..31], dst[31]);
    assert Body(cmd.magic, cmd.action, cmd.args) == dst[..31];
    var crc := CrcUpdate(SEED, Bytes(dst[..31]));
    result := if cmd.magic / 0x1000 != EBOOT_MAGIC / 0x1000 || cmd.crc32 != crc then 1 else 0;
  }

  /** `eboot_command_clear`. */
  method CommandClear(rtc: array<u32>)
    requires rtc.Length == 32
    modifies rtc
    ensures rtc[..] == Cleared(old(rtc[..]))
  {
    rtc[0] := 0;
    rtc[31] := 0;
  }

  /** A written command is accepted, and it is the only one with those words. */
  lemma SealedAccepted(action: u32, args: ArgumentWords)
    ensures Accepted(Sealed(action, args))
    ensures forall c: Command ::
      |c.args| == 29 && Body(c.magic, c.action, c.args) + [c.crc32] == Sealed(action, args)
      ==> c.action == action && c.args == args
  {
    var words := Sealed(action, args);
    assert words[..31] == Body(EBOOT_MAGIC, action, args);
    forall c: Command | |c.args| == 29 && Body(c.magic, c.action, c.args) + [c.crc32] == words
      ensures c.action == action && c.args == args
    {
      assert c.args == words[2..31] == args;
      assert c.action == words[1];
    }
  }

  /** Nothing is accepted once the command is cleared, and the first of the two stores is enough. */
  lemma ClearedRefused(words: seq<u32>)
    requires |words| == 32
    ensures !Accepted(Cleared(words)) && !Accepted(words[0 := 0])
  {
  }

  /**
    A burst of at most 32 corrupted bits in the first 124 bytes of a written command makes the
    bootloader refuse it.
  */
  lemma CorruptionRefused(action: u32, args: ArgumentWords, found: seq<u32>, i: nat)
    requires |found| == 32 && found[31] == Sealed(action, args)[31]
    requires found[..31] != Sealed(action, args)[..31]
    requires forall j :: 0 <= j < 992 && !(i <= j < i + 32) ==>
      Bits(Bytes(found[..31]))[j] == Bits(Bytes(Sealed(action, args)[..31]))[j]
    ensures !Accepted(found)
  {
    var body := Sealed(action, args)[..31];
    assert body == Body(EBOOT_MAGIC, action, args);
    if Bytes(found[..31]) == Bytes(body) {
      BytesInjective(found[..31], body);
      assert false;
    }
    BurstDetected(SEED, Bytes(found[..31]), Bytes(body), i);
  }
}
