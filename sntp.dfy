/** The SNTP exchange of the sketch (the packet layout of section 4 of RFC 4330):
    a fixed 48-byte client request, the size gate on the reply, and the
    conversion of the reply's Transmit Timestamp seconds into local Unix time
    with 32-bit unsigned arithmetic. */
module Sntp {

  newtype uint32 = x: int | 0 <= x < 0x1_0000_0000

  const TWO_32: int := 0x1_0000_0000

  /** Size of an NTP packet without extensions, of the request and of the read. */
  const NTP_PACKET_SIZE: nat := 48

  /** Offset of the seconds part of the Transmit Timestamp. */
  const TRANSMIT_SECONDS: nat := 40

  /** Seconds from 1900-01-01 to 1970-01-01. */
  const SEVENTY_YEARS: int := 2208988800

  const SECS_PER_HOUR: int := 3600

  /** The configured offset from UTC, in hours. */
  const TIME_ZONE: int := 8

  datatype Option<T> = None | Some(value: T)

  // ---------------------------------------------------------------- request

  /** The request datagram: LI/VN/Mode, stratum, poll, precision, then zeros. */
  function RequestPacket(): (r: seq<bv8>)
    ensures |r| == NTP_PACKET_SIZE
    ensures r[0] == 0xE3 && r[1] == 0 && r[2] == 6 && r[3] == 0xEC
    ensures forall i :: 4 <= i < |r| ==> r[i] == 0
  {
    [0xE3, 0, 6, 0xEC] + seq(NTP_PACKET_SIZE - 4, _ => 0)
  }

  /** The fields of the first header octet (section 4 of RFC 4330). */
  function LeapIndicator(b: bv8): nat { (b >> 6) as nat }
  function VersionNumber(b: bv8): nat { ((b >> 3) & 7) as nat }
  function Mode(b: bv8): nat { (b & 7) as nat }

  /** An octet read as a two's-complement signed 8-bit integer. */
  function SignedByte(b: bv8): int { if b < 0x80 then b as int else b as int - 256 }

  /** The request asks as an NTP version 4 client (mode 3) with leap indicator 3
      ("clock not synchronised"), stratum 0, a poll interval of 2^6 seconds and
      a precision of 2^-20 seconds. */
  lemma RequestHeaderFields()
    ensures LeapIndicator(RequestPacket()[0]) == 3
    ensures VersionNumber(RequestPacket()[0]) == 4
    ensures Mode(RequestPacket()[0]) == 3
    ensures RequestPacket()[1] == 0 && RequestPacket()[2] as int == 6
    ensures SignedByte(RequestPacket()[3]) == -20
  {
  }

  // ----------------------------------------------------------------- decode

  /** Unsigned big-endian value of a byte string: the reference reading. */
  function BigEndian(s: seq<bv8>): nat
  {
    if s == [] then 0 else BigEndian(s[..|s| - 1]) * 256 + s[|s| - 1] as nat
  }

  /** Four bytes assembled with 32-bit shifts and ORs, as the sketch does. */
  function ShiftOr32(b0: bv8, b1: bv8, b2: bv8, b3: bv8): (r: bv32)
    ensures (r >> 24) & 0xFF == b0 as bv32 && (r >> 16) & 0xFF == b1 as bv32
    ensures (r >> 8) & 0xFF == b2 as bv32 && r & 0xFF == b3 as bv32
  {
    (b0 as bv32 << 24) | (b1 as bv32 << 16) | (b2 as bv32 << 8) | (b3 as bv32)
  }

  /** Two bytes joined into 16 bits are their big-endian value. */
  lemma Join16(hi: bv8, lo: bv8)
    ensures ((hi as bv16 << 8) | lo as bv16) as int == hi as int * 0x100 + lo as int
  {
  }

  /** Two 16-bit halves joined into 32 bits are their big-endian value. */
  lemma Join32(hi: bv16, lo: bv16)
    ensures ((hi as bv32 << 16) | lo as bv32) as int == hi as int * 0x1_0000 + lo as int
  {
  }

  /** The 32-bit assembly is the join of the two 16-bit halves. */
  lemma ShiftOrHalves(b0: bv8, b1: bv8, b2: bv8, b3: bv8)
    ensures ShiftOr32(b0, b1, b2, b3) ==
      (((b0 as bv16 << 8) | b1 as bv16) as bv32 << 16) | ((b2 as bv16 << 8) | b3 as bv16) as bv32
  {
  }

  /** The reference reading of four bytes, written out. */
  lemma BigEndianFour(b0: bv8, b1: bv8, b2: bv8, b3: bv8)
    ensures BigEndian([b0, b1, b2, b3]) ==
      (b0 as nat * 0x100 + b1 as nat) * 0x1_0000 + (b2 as nat * 0x100 + b3 as nat)
  {
    assert [b0][..0] == [];
    assert [b0, b1][..1] == [b0];
    assert [b0, b1, b2][..2] == [b0, b1];
    assert [b0, b1, b2, b3][..3] == [b0, b1, b2];
    var x0, x1, x2, x3 := b0 as nat, b1 as nat, b2 as nat, b3 as nat;
    calc {
      BigEndian([b0, b1, b2, b3]);
      BigEndian([b0, b1, b2]) * 0x100 + x3;
      (BigEndian([b0, b1]) * 0x100 + x2) * 0x100 + x3;
      ((BigEndian([b0]) * 0x100 + x1) * 0x100 + x2) * 0x100 + x3;
      ((x0 * 0x100 + x1) * 0x100 + x2) * 0x100 + x3;
      (x0 * 0x100 + x1) * 0x1_0000 + (x2 * 0x100 + x3);
    }
  }

  /** Shifting each byte into its own octet and OR-ing them is the big-endian value. */
  lemma ShiftOrIsBigEndian(b0: bv8, b1: bv8, b2: bv8, b3: bv8)
    ensures ShiftOr32(b0, b1, b2, b3) as int == BigEndian([b0, b1, b2, b3])
  {
    var hi := (b0 as bv16 << 8) | b1 as bv16;
    var lo := (b2 as bv16 << 8) | b3 as bv16;
    ShiftOrHalves(b0, b1, b2, b3);
    Join32(hi, lo);
    Join16(b0, b1);
    Join16(b2, b3);
    BigEndianFour(b0, b1, b2, b3);
  }

  /** The Transmit Timestamp seconds of a packet held in the 48-byte buffer. */
  function SecsSince1900(buf: seq<bv8>): (r: uint32)
    requires |buf| == NTP_PACKET_SIZE
    ensures r as int == BigEndian(buf[TRANSMIT_SECONDS..TRANSMIT_SECONDS + 4])
  {
    var w := ShiftOr32(buf[40], buf[41], buf[42], buf[43]);
    ShiftOrIsBigEndian(buf[40], buf[41], buf[42], buf[43]);
    assert buf[TRANSMIT_SECONDS..TRANSMIT_SECONDS + 4] == [buf[40], buf[41], buf[42], buf[43]];
    w as int as uint32
  }

  /** The four bytes a server puts at offsets 40..43 for the 32-bit seconds
      value `w`, most significant first. */
  function EncodeBE32(w: bv32): (r: seq<bv8>)
    ensures |r| == 4
  {
    [((w >> 24) & 0xFF) as bv8, ((w >> 16) & 0xFF) as bv8, ((w >> 8) & 0xFF) as bv8, (w & 0xFF) as bv8]
  }

  /** Reading back the encoded seconds gives the seconds, both as the sketch
      assembles them and as the reference reading. */
  lemma EncodeBE32RoundTrip(w: bv32)
    ensures ShiftOr32(EncodeBE32(w)[0], EncodeBE32(w)[1], EncodeBE32(w)[2], EncodeBE32(w)[3]) == w
    ensures BigEndian(EncodeBE32(w)) == w as int
  {
    var e := EncodeBE32(w);
    assert e == [e[0], e[1], e[2], e[3]];
    ShiftOrIsBigEndian(e[0], e[1], e[2], e[3]);
  }

  /** `p` with its Transmit Timestamp seconds replaced by `w`. */
  function WithTransmitSeconds(p: seq<bv8>, w: bv32): (r: seq<bv8>)
    requires |p| == NTP_PACKET_SIZE
    ensures |r| == NTP_PACKET_SIZE
    ensures r[TRANSMIT_SECONDS..TRANSMIT_SECONDS + 4] == EncodeBE32(w)
    ensures forall i :: 0 <= i < |r| && !(TRANSMIT_SECONDS <= i < TRANSMIT_SECONDS + 4) ==> r[i] == p[i]
  {
    p[..TRANSMIT_SECONDS] + EncodeBE32(w) + p[TRANSMIT_SECONDS + 4..]
  }

  /** Whatever else a reply holds, its seconds field decodes to what the server wrote. */
  lemma DecodeWrittenSeconds(p: seq<bv8>, w: bv32)
    requires |p| == NTP_PACKET_SIZE
    ensures SecsSince1900(WithTransmitSeconds(p, w)) as int == w as int
  {
    EncodeBE32RoundTrip(w);
  }

  // ------------------------------------------------------ epoch and offset

  /** `secs - 2208988800UL + tz * SECS_PER_HOUR` in 32-bit unsigned arithmetic:
      the NTP seconds as local Unix time, modulo 2^32. */
  function LocalTime(secs: uint32, tz: int): (r: uint32)
    ensures (r as int - (secs as int - SEVENTY_YEARS + tz * SECS_PER_HOUR)) % TWO_32 == 0
    ensures 0 <= secs as int - SEVENTY_YEARS + tz * SECS_PER_HOUR < TWO_32 ==>
              r as int == secs as int - SEVENTY_YEARS + tz * SECS_PER_HOUR
  {
    var sinceUnix := (secs as int - SEVENTY_YEARS) % TWO_32;
    var x := secs as int - SEVENTY_YEARS + tz * SECS_PER_HOUR;
    ModAddLeft(secs as int - SEVENTY_YEARS, tz * SECS_PER_HOUR);
    ModShift(0, -(x / TWO_32));
    assert x % TWO_32 - x == -(x / TWO_32) * TWO_32;
    ((sinceUnix + tz * SECS_PER_HOUR) % TWO_32) as uint32
  }

  /** The seconds field a server must send for the sketch to compute `t`. */
  function FieldFor(t: uint32, tz: int): uint32
  {
    ((t as int + SEVENTY_YEARS - tz * SECS_PER_HOUR) % TWO_32) as uint32
  }

  /** Modulo 2^32, LocalTime is a bijection on seconds fields; FieldFor is its inverse. */
  lemma LocalTimeInverse(t: uint32, f: uint32, tz: int)
    ensures LocalTime(FieldFor(t, tz), tz) == t
    ensures FieldFor(LocalTime(f, tz), tz) == f
  {
    var d := SEVENTY_YEARS - tz * SECS_PER_HOUR;
    var g := FieldFor(t, tz) as int;
    ModAddLeft(g - SEVENTY_YEARS, tz * SECS_PER_HOUR);
    assert LocalTime(FieldFor(t, tz), tz) as int == (g - d) % TWO_32;
    ModCancel(t as int, d);
    ModAddLeft(f as int - SEVENTY_YEARS, tz * SECS_PER_HOUR);
    assert LocalTime(f, tz) as int == (f as int - d) % TWO_32;
    ModCancel(f as int, -d);
  }

  /** Adding a multiple of 2^32 does not change a residue. */
  lemma ModShift(x: int, q: int)
    ensures (x + q * TWO_32) % TWO_32 == x % TWO_32
  {
  }

  /** Reducing the left operand first does not change the residue of a sum. */
  lemma ModAddLeft(a: int, b: int)
    ensures (a % TWO_32 + b) % TWO_32 == (a + b) % TWO_32
  {
    ModShift(a + b, -(a / TWO_32));
    assert a % TWO_32 + b == (a + b) + (-(a / TWO_32)) * TWO_32;
  }

  /** Adding then taking away `d` modulo 2^32 leaves a value in range alone. */
  lemma ModCancel(x: int, d: int)
    requires 0 <= x < TWO_32
    ensures ((x + d) % TWO_32 - d) % TWO_32 == x
  {
    ModShift(x, -((x + d) / TWO_32));
    assert (x + d) % TWO_32 - d == x + (-((x + d) / TWO_32)) * TWO_32;
  }

  /** 1900-based 2208988800 is the Unix epoch; with an offset of 0 it gives 0,
      and 2208988800 + 3600 at UTC+8 gives 3600 + 8 * 3600. */
  lemma EpochExamples()
    ensures LocalTime(2208988800, 0) == 0
    ensures LocalTime(2208988800 + 3600, 8) == 32400
  {
  }

  /** At the configured offset exactly one seconds field decodes to the timeout
      sentinel 0: 2208988800 - 8 * 3600, i.e. 1969-12-31T16:00:00 UTC. */
  lemma SentinelField(f: uint32)
    ensures LocalTime(f, TIME_ZONE) == 0 <==> f as int == SEVENTY_YEARS - TIME_ZONE * SECS_PER_HOUR
  {
    LocalTimeInverse(0, f, TIME_ZONE);
  }

  // ------------------------------------------------------- reply and wait

  /** Index of the first datagram of at least 48 bytes among those the poll
      loop sees before its one-second deadline; shorter ones are skipped. */
  function FirstReply(polls: seq<seq<bv8>>): (r: Option<nat>)
    ensures r.None? <==> forall j :: 0 <= j < |polls| ==> |polls[j]| < NTP_PACKET_SIZE
    ensures r.Some? ==> r.value < |polls| && |polls[r.value]| >= NTP_PACKET_SIZE
    ensures r.Some? ==> forall j :: 0 <= j < r.value ==> |polls[j]| < NTP_PACKET_SIZE
  {
    if polls == [] then None
    else if |polls[0]| >= NTP_PACKET_SIZE then Some(0)
    else match FirstReply(polls[1..])
         case None => None
         case Some(k) => Some(k + 1)
  }

  /** What `getNtpTime` returns for the datagrams `polls`: 0 on timeout, else
      the local time decoded from the first 48 bytes of the first long-enough one. */
  function NtpTime(polls: seq<seq<bv8>>): uint32
  {
    match FirstReply(polls)
    case None => 0
    case Some(k) => LocalTime(SecsSince1900(polls[k][..NTP_PACKET_SIZE]), TIME_ZONE)
  }

  /** The first qualifying datagram is determined by the sizes alone. */
  lemma FirstReplyAt(polls: seq<seq<bv8>>, k: nat)
    requires k < |polls| && |polls[k]| >= NTP_PACKET_SIZE
    requires forall j :: 0 <= j < k ==> |polls[j]| < NTP_PACKET_SIZE
    ensures FirstReply(polls) == Some(k)
  {
    var r := FirstReply(polls);
    assert r.Some?;
    assert !(r.value < k);
    assert !(k < r.value);
  }

  /** With no datagram of 48 bytes or more, the result is the sentinel 0. */
  lemma TimeoutGivesZero(polls: seq<seq<bv8>>)
    requires forall j :: 0 <= j < |polls| ==> |polls[j]| < NTP_PACKET_SIZE
    ensures NtpTime(polls) == 0
  {
  }

  /** A datagram shorter than 48 bytes, wherever it arrives, is never read:
      it changes neither which reply is taken nor the time. */
  lemma ShortDatagramIgnored(polls: seq<seq<bv8>>, i: nat, d: seq<bv8>)
    requires i <= |polls| && |d| < NTP_PACKET_SIZE
    ensures NtpTime(polls[..i] + [d] + polls[i..]) == NtpTime(polls)
  {
    var q := polls[..i] + [d] + polls[i..];
    assert |q| == |polls| + 1;
    match FirstReply(polls)
    case None =>
      forall j | 0 <= j < |q| ensures |q[j]| < NTP_PACKET_SIZE {
        InsertedAt(polls, i, d, j);
      }
    case Some(k) =>
      var k' := if k < i then k else k + 1;
      InsertedAt(polls, i, d, k');
      forall j | 0 <= j < k' ensures |q[j]| < NTP_PACKET_SIZE {
        InsertedAt(polls, i, d, j);
      }
      FirstReplyAt(q, k');
  }

  /** Element `j` of `s` with `x` inserted at position `i`. */
  lemma InsertedAt<T>(s: seq<T>, i: nat, x: T, j: nat)
    requires i <= |s| && j <= |s|
    ensures (s[..i] + [x] + s[i..])[j] == if j < i then s[j] else if j == i then x else s[j - 1]
  {
  }

  /** Only the first 48 bytes of the accepted reply, and of those only bytes
      40..43, decide the time: the header flags are not checked. */
  lemma OnlyTransmitSecondsRead(polls: seq<seq<bv8>>, k: nat, d: seq<bv8>)
    requires FirstReply(polls) == Some(k)
    requires |d| >= NTP_PACKET_SIZE
    requires d[TRANSMIT_SECONDS..TRANSMIT_SECONDS + 4] == polls[k][TRANSMIT_SECONDS..TRANSMIT_SECONDS + 4]
    ensures NtpTime(polls[k := d]) == NtpTime(polls)
  {
    FirstReplyAt(polls[k := d], k);
    assert d[..NTP_PACKET_SIZE][TRANSMIT_SECONDS..TRANSMIT_SECONDS + 4]
        == d[TRANSMIT_SECONDS..TRANSMIT_SECONDS + 4];
    assert polls[k][..NTP_PACKET_SIZE][TRANSMIT_SECONDS..TRANSMIT_SECONDS + 4]
        == polls[k][TRANSMIT_SECONDS..TRANSMIT_SECONDS + 4];
    assert polls[k := d][k] == d;
  }

  /** Any accepted datagram whose bytes 40..43 hold 2208960000 yields 0, the
      timeout value: the sentinel is ambiguous. */
  lemma SentinelAmbiguous(polls: seq<seq<bv8>>, k: nat)
    requires FirstReply(polls) == Some(k)
    requires BigEndian(polls[k][TRANSMIT_SECONDS..TRANSMIT_SECONDS + 4]) == SEVENTY_YEARS - TIME_ZONE * SECS_PER_HOUR
    ensures NtpTime(polls) == 0
  {
    var buf := polls[k][..NTP_PACKET_SIZE];
    assert buf[TRANSMIT_SECONDS..TRANSMIT_SECONDS + 4] == polls[k][TRANSMIT_SECONDS..TRANSMIT_SECONDS + 4];
    SentinelField(SecsSince1900(buf));
  }

  /** Such a datagram exists: the request itself with 2208960000 written at
      offsets 40..43 is accepted and decodes to 0. */
  lemma SentinelExample()
    ensures var polls := [WithTransmitSeconds(RequestPacket(), 0x83AA0E00)];
            FirstReply(polls).Some? && NtpTime(polls) == 0
  {
    var p := WithTransmitSeconds(RequestPacket(), 0x83AA0E00);
    DecodeWrittenSeconds(RequestPacket(), 0x83AA0E00);
    assert (0x83AA0E00 as bv32) as int == 2208960000;
    assert [p][0][..NTP_PACKET_SIZE] == p;
    SentinelField(2208960000);
  }

  // ------------------------------------------------------------ the client

  /** The sketch's UDP client state: the shared 48-byte `packetBuffer` and the
      datagrams handed to the network so far. */
  class NtpClient {
    var packetBuffer: array<bv8>
    var sent: seq<seq<bv8>>

    ghost predicate Valid()
      reads this
    {
      packetBuffer.Length == NTP_PACKET_SIZE
    }

    /** The buffer is a zero-initialised global; nothing has been sent. */
    constructor ()
      ensures Valid() && fresh(packetBuffer)
      ensures packetBuffer[..] == seq(NTP_PACKET_SIZE, _ => 0) && sent == []
    {
      packetBuffer := new bv8[NTP_PACKET_SIZE](_ => 0);
      sent := [];
    }

    /** `sendNtpPacket`: clear the buffer, fill in the four header octets and
        send the 48 bytes to the server. */
    method SendNtpPacket()
      requires Valid()
      modifies this, packetBuffer
      ensures Valid() && packetBuffer == old(packetBuffer)
      ensures packetBuffer[..] == RequestPacket()
      ensures sent == old(sent) + [RequestPacket()]
    {
      forall i | 0 <= i < NTP_PACKET_SIZE {
        packetBuffer[i] := 0;
      }
      packetBuffer[0] := 0xE3;
      packetBuffer[1] := 0;
      packetBuffer[2] := 6;
      packetBuffer[3] := 0xEC;
      assert packetBuffer[..] == RequestPacket();
      sent := sent + [packetBuffer[..]];
    }

    /** `getNtpTime`: send a request, then poll; `polls` holds, in order, the
        datagrams the polls find before the one-second deadline. The first one
        of at least 48 bytes is read into the buffer and decoded; if there is
        none, the result is 0. */
    method GetNtpTime(polls: seq<seq<bv8>>) returns (t: uint32)
      requires Valid()
      modifies this, packetBuffer
      ensures Valid() && packetBuffer == old(packetBuffer)
      ensures sent == old(sent) + [RequestPacket()]
      ensures FirstReply(polls).None? ==> t == 0 && packetBuffer[..] == RequestPacket()
      ensures FirstReply(polls).Some? ==>
                packetBuffer[..] == polls[FirstReply(polls).value][..NTP_PACKET_SIZE] &&
                t == LocalTime(SecsSince1900(packetBuffer[..]), TIME_ZONE)
      ensures t == NtpTime(polls)
    {
      SendNtpPacket();
      var i := 0;
      while i < |polls|
        invariant 0 <= i <= |polls|
        invariant Valid() && packetBuffer == old(packetBuffer)
        invariant packetBuffer[..] == RequestPacket()
        invariant sent == old(sent) + [RequestPacket()]
        invariant forall j :: 0 <= j < i ==> |polls[j]| < NTP_PACKET_SIZE
      {
        if |polls[i]| >= NTP_PACKET_SIZE {
          var datagram := polls[i];
          forall j | 0 <= j < NTP_PACKET_SIZE {
            packetBuffer[j] := datagram[j];
          }
          assert packetBuffer[..] == datagram[..NTP_PACKET_SIZE];
          FirstReplyAt(polls, i);
          var secs := SecsSince1900(packetBuffer[..]);
          t := LocalTime(secs, TIME_ZONE);
          return;
        }
        i := i + 1;
      }
      t := 0;
    }
  }
}
