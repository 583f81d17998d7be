/** Frames of the communication protocol: a preamble, a head of 20 bytes, and a body. */
module PqbFrame {
  import opened Bytes

  const HEADSZ: nat := 20       // size of the packed head, with a 4-byte checksum
  const RXMAX: nat := 2048      // RxMaxNum, the longest body

  /** Adler-32 of RFC 1950, section 8.2: two sums modulo 65521. */
  function AdlerSums(s: seq<Byte>): (nat, nat) {
    if s == [] then (1, 0) else
      var (a, b) := AdlerSums(s[..|s| - 1]);
      var a' := (a + s[|s| - 1]) % 65521;
      (a', (b + a') % 65521)
  }

  function Adler32(s: seq<Byte>): nat {
    AdlerSums(s).1 * 0x1_0000 + AdlerSums(s).0
  }

  function Word16(low: Byte, high: Byte): nat {
    low + 256 * high
  }

  function Word32(s: seq<Byte>): nat
    requires |s| == 4
  {
    Word16(s[0], s[1]) + 0x1_0000 * Word16(s[2], s[3])
  }

  // ---- Fields of the head, which starts a payload ----

  function AdlerSum(p: seq<Byte>): nat
    requires |p| >= HEADSZ
  {
    Word32(p[0..4])
  }

  function DevNum(p: seq<Byte>): nat
    requires |p| >= HEADSZ
  {
    Word16(p[4], p[5])
  }

  function BodyLen(p: seq<Byte>): nat
    requires |p| >= HEADSZ
  {
    Word16(p[9], p[10])
  }

  function Compressed(p: seq<Byte>): bool
    requires |p| >= HEADSZ
  {
    p[11] != 0
  }

  // ---- Frames ----

  /** A payload is a head and a body of the length that the head states. */
  predicate WellFormed(p: seq<Byte>) {
    |p| >= HEADSZ && BodyLen(p) <= RXMAX && |p| == HEADSZ + BodyLen(p)
  }

  function Preamble(): (s: seq<Byte>)
    ensures |s| == 4
  {
    [0x5c, 0x7c, 0x3b, 0xcf]
  }

  /** A frame on the line. */
  function Wire(p: seq<Byte>): (s: seq<Byte>)
    ensures |s| == 4 + |p|
  {
    Preamble() + p
  }

  /** What the checksum covers: the head behind the checksum, and the body unless it is compressed. */
  function Covered(p: seq<Byte>): seq<Byte>
    requires |p| >= HEADSZ
  {
    if Compressed(p) then p[4..HEADSZ] else p[4..]
  }

  /** The frame is for this device, or for all, and its checksum is right. */
  predicate Accepts(p: seq<Byte>, dev: nat) {
    |p| >= HEADSZ && (DevNum(p) == dev || DevNum(p) == 0) && Adler32(Covered(p)) == AdlerSum(p)
  }
}
