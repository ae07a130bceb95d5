/** The 32-byte command frame the PC sends, and what each command makes the controller do. */
module CommandFormat {
  import opened MachineTypes

  const FRAME_SIZE: nat := 32
  const DOFS: nat := 6

  datatype PcCommand = PcCommand(cmd: int32, rsv: int32, params: seq<int32>)

  predicate WellFormed(c: PcCommand) {
    |c.params| == DOFS
  }

  /** The int stored in four bytes, least significant first, in two's complement. */
  function DecodeInt(b: seq<byte>): int32
    requires |b| == 4
  {
    var u := b[0] as int + 0x100 * b[1] as int + 0x1_0000 * b[2] as int + 0x100_0000 * b[3] as int;
    (if u < 0x8000_0000 then u else u - 0x1_0000_0000) as int32
  }

  function EncodeInt(x: int32): (b: seq<byte>)
    ensures |b| == 4
  {
    var u := if x < 0 then x as int + 0x1_0000_0000 else x as int;
    [(u % 0x100) as byte, (u / 0x100 % 0x100) as byte, (u / 0x1_0000 % 0x100) as byte, (u / 0x100_0000) as byte]
  }

  /** One digit to the base 0x100 taken off a number. */
  lemma Digit(u: nat)
    ensures u == u % 0x100 + 0x100 * (u / 0x100)
  {
  }

  lemma DigitsApart(u: nat)
    ensures u / 0x100 / 0x100 == u / 0x1_0000 && u / 0x1_0000 / 0x100 == u / 0x100_0000
  {
  }

  lemma FourDigits(u: nat)
    ensures u == u % 0x100 + 0x100 * (u / 0x100 % 0x100) + 0x1_0000 * (u / 0x1_0000 % 0x100)
               + 0x100_0000 * (u / 0x100_0000)
  {
    DigitsApart(u);
    Digit(u);
    Digit(u / 0x100);
    Digit(u / 0x1_0000);
  }

  lemma DecodeEncodeInt(x: int32)
    ensures DecodeInt(EncodeInt(x)) == x
  {
    FourDigits(if x < 0 then x as int + 0x1_0000_0000 else x as int);
  }

  function DecodeInts(b: seq<byte>, n: nat): (r: seq<int32>)
    requires |b| == 4 * n
    ensures |r| == n
  {
    if n == 0 then [] else [DecodeInt(b[..4])] + DecodeInts(b[4..], n - 1)
  }

  function EncodeInts(xs: seq<int32>): (b: seq<byte>)
    ensures |b| == 4 * |xs|
  {
    if xs == [] then [] else EncodeInt(xs[0]) + EncodeInts(xs[1..])
  }

  lemma {:induction false} DecodeEncodeInts(xs: seq<int32>)
    ensures DecodeInts(EncodeInts(xs), |xs|) == xs
    decreases |xs|
  {
    if xs != [] {
      var b := EncodeInts(xs);
      assert b[..4] == EncodeInt(xs[0]) && b[4..] == EncodeInts(xs[1..]);
      DecodeEncodeInt(xs[0]);
      DecodeEncodeInts(xs[1..]);
    }
  }

  /** Reading a received frame as a command structure. */
  function Decode(frame: seq<byte>): (c: PcCommand)
    requires |frame| == FRAME_SIZE
    ensures WellFormed(c)
  {
    var w := DecodeInts(frame, 2 + DOFS);
    PcCommand(w[0], w[1], w[2..])
  }

  function Encode(c: PcCommand): (frame: seq<byte>)
    requires WellFormed(c)
    ensures |frame| == FRAME_SIZE
  {
    EncodeInts([c.cmd, c.rsv] + c.params)
  }

  /** A command survives the wire: the controller reads back the structure the PC wrote. */
  lemma DecodeEncode(c: PcCommand)
    requires WellFormed(c)
    ensures Decode(Encode(c)) == c
  {
    DecodeEncodeInts([c.cmd, c.rsv] + c.params);
    assert ([c.cmd, c.rsv] + c.params)[2..] == c.params;
  }

  // ---------------------------------------------------------------------------------------
  // The layout of a frame
  // ---------------------------------------------------------------------------------------

  /** The four bytes from `at` hold `x`: least significant first, in two's complement. */
  predicate Stored(frame: seq<byte>, at: nat, x: int32)
    requires at + 4 <= |frame|
  {
    x as int == frame[at] as int + 0x100 * frame[at + 1] as int
              + 0x1_0000 * frame[at + 2] as int + 0x100_0000 * frame[at + 3] as int
              - (if frame[at + 3] as int >= 0x80 then 0x1_0000_0000 else 0)
  }

  /** A frame carries a command: the code, the reserved word, then the six parameters. */
  predicate Carries(frame: seq<byte>, c: PcCommand) {
    && |frame| == 32 && |c.params| == 6
    && Stored(frame, 0, c.cmd) && Stored(frame, 4, c.rsv)
    && forall k :: 0 <= k < 6 ==> Stored(frame, 8 + 4 * k, c.params[k])
  }

  lemma SliceBehind(b: seq<byte>, d: nat, i: nat, n: nat)
    requires d + i + n <= |b|
    ensures b[d..][i..i + n] == b[d + i..d + i + n]
  {
  }

  lemma {:induction false} DecodedAt(b: seq<byte>, n: nat, k: nat)
    requires |b| == 4 * n && k < n
    ensures DecodeInts(b, n)[k] == DecodeInt(b[4 * k..4 * k + 4])
    decreases n
  {
    if k > 0 {
      DecodedAt(b[4..], n - 1, k - 1);
      SliceBehind(b, 4, 4 * (k - 1), 4);
    }
  }

  lemma DecodedIsStored(frame: seq<byte>, n: nat, k: nat)
    requires |frame| == 4 * n && k < n
    ensures Stored(frame, 4 * k, DecodeInts(frame, n)[k])
  {
    DecodedAt(frame, n, k);
    var b := frame[4 * k..4 * k + 4];
    assert b[0] == frame[4 * k] && b[1] == frame[4 * k + 1] && b[2] == frame[4 * k + 2] && b[3] == frame[4 * k + 3];
  }

  lemma DecodedIsCarried(frame: seq<byte>)
    requires |frame| == 32
    ensures Carries(frame, Decode(frame))
  {
    DecodedIsStored(frame, 8, 0);
    DecodedIsStored(frame, 8, 1);
    forall k | 0 <= k < 6
      ensures Stored(frame, 8 + 4 * k, Decode(frame).params[k])
    {
      DecodedIsStored(frame, 8, 2 + k);
    }
  }

  lemma CarriesOne(frame: seq<byte>, c: PcCommand, d: PcCommand)
    requires Carries(frame, c) && Carries(frame, d)
    ensures c == d
  {
    forall k | 0 <= k < 6
      ensures c.params[k] == d.params[k]
    {
      assert Stored(frame, 8 + 4 * k, c.params[k]) && Stored(frame, 8 + 4 * k, d.params[k]);
    }
    assert c.params == d.params;
  }

  /** What the controller reads out of 32 bytes is the command they carry, and no other. */
  lemma DecodeIff(frame: seq<byte>, c: PcCommand)
    requires |frame| == 32
    ensures Decode(frame) == c <==> Carries(frame, c)
  {
    DecodedIsCarried(frame);
    if Carries(frame, c) {
      CarriesOne(frame, Decode(frame), c);
    }
  }

  /** What the PC writes for a command carries it. */
  lemma EncodeCarries(c: PcCommand)
    requires WellFormed(c)
    ensures Carries(Encode(c), c)
  {
    DecodeEncode(c);
    DecodedIsCarried(Encode(c));
  }

  // ---------------------------------------------------------------------------------------
  // What a command means
  // ---------------------------------------------------------------------------------------

  const CMD_WORKING: int32 := 1
  const CMD_IDLE: int32 := 2
  const CMD_SET_FAULT: int32 := 3
  const CMD_RESET_FAULT: int32 := 4

  /** A write into the force core's command block, or a call that offers it a force vector. */
  datatype Effect = Command(code: int32) | Download(force: seq<int32>)

  function Image(c: PcCommand): seq<Effect> {
    match c.cmd
    case 11 => [Command(CMD_RESET_FAULT)]
    case 12 => [Command(CMD_IDLE)]
    case 13 => [Command(CMD_WORKING)]
    case 14 => [Command(CMD_SET_FAULT)]
    case 15 => [Download(c.params)]
    case 16 => [Download(c.params)]
    case _ => []
  }

  function Images(cs: seq<PcCommand>): seq<Effect> {
    if cs == [] then [] else Image(cs[0]) + Images(cs[1..])
  }
}
