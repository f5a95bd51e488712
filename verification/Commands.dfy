/** Bootloader commands of a BeBoB device: a 16-bit id from a counter, the request header and how a
    reply is told to belong to a command. */
module Commands {
  import opened Basics

  type Quadlet = x: int | 0 <= x < 0x1_0000_0000

  const ID_RANGE := 0x1_0000

  const DOWNLOAD_START := 0x04
  const DOWNLOAD_BLOCK := 0x05
  const DOWNLOAD_END := 0x06

  function Le32(q: Quadlet): (b: seq<Byte>) {
    [q % 0x100, q / 0x100 % 0x100, q / 0x1_0000 % 0x100, q / 0x100_0000]
  }

  function FromLe32(b: seq<Byte>, at: nat): (q: Quadlet)
    requires at + 4 <= |b|
  {
    var b0: int, b1: int, b2: int, b3: int := b[at], b[at + 1], b[at + 2], b[at + 3];
    b0 + 0x100 * b1 + 0x1_0000 * b2 + 0x100_0000 * b3
  }

  /** A quadlet lies at this offset, its low byte first. */
  predicate Holds(b: seq<Byte>, at: nat, q: Quadlet) {
    && at + 4 <= |b| && b[at] == q % 0x100 && b[at + 1] == q / 0x100 % 0x100
    && b[at + 2] == q / 0x1_0000 % 0x100 && b[at + 3] == q / 0x100_0000
  }

  lemma HoldsFromLe32(b: seq<Byte>, at: nat, q: Quadlet)
    requires at + 4 <= |b|
    ensures Holds(b, at, q) <==> FromLe32(b, at) == q
  {
    var b0: int, b1: int, b2: int, b3: int := b[at], b[at + 1], b[at + 2], b[at + 3];
    if Holds(b, at, q) { Digits(q); }
    if FromLe32(b, at) == q {
      LowDigit(b0, b1 + 0x100 * b2 + 0x1_0000 * b3);
      LowDigit(b1, b2 + 0x100 * b3);
      LowDigit(b2, b3);
      HighDigits(q);
    }
  }

  lemma LowDigit(low: Byte, rest: nat)
    ensures var q := low + 0x100 * rest;
      q % 0x100 == low && q / 0x100 == rest
  {}

  lemma HighDigits(q: Quadlet)
    ensures q / 0x1_0000 == q / 0x100 / 0x100 && q / 0x100_0000 == q / 0x100 / 0x100 / 0x100
  {}

  datatype Header = Header(version: Quadlet, id: int, code: Byte, operands: Byte) {
    predicate Valid() { 0 <= id < ID_RANGE }
  }

  function Serialize(h: Header): (b: seq<Byte>)
    requires h.Valid()
  {
    Le32(h.version) + [h.id % 0x100, h.id / 0x100, h.code, h.operands]
  }

  function Deserialize(b: seq<Byte>): (h: Header)
    requires |b| >= 8
    ensures h.Valid()
  {
    var low: int, high: int := b[4], b[5];
    Header(FromLe32(b, 0), low + 0x100 * high, b[6], b[7])
  }

  lemma Digits(q: Quadlet)
    ensures q == q % 0x100 + 0x100 * (q / 0x100 % 0x100) + 0x1_0000 * (q / 0x1_0000 % 0x100)
               + 0x100_0000 * (q / 0x100_0000)
  {}

  lemma QuadletRoundTrip(q: Quadlet, before: seq<Byte>, after: seq<Byte>)
    ensures FromLe32(before + Le32(q) + after, |before|) == q
  {
    var b := before + Le32(q) + after;
    assert b[|before|] == Le32(q)[0] && b[|before| + 1] == Le32(q)[1];
    assert b[|before| + 2] == Le32(q)[2] && b[|before| + 3] == Le32(q)[3];
    Digits(q);
  }

  /** A request starts with these eight bytes: version, id, code and number of operands. */
  predicate Starts(b: seq<Byte>, version: Quadlet, number: nat, code: Byte, operands: Byte) {
    && |b| >= 8 && Holds(b, 0, version) && b[4] == number % 0x100 && b[5] == number / 0x100 % 0x100
    && b[6] == code && b[7] == operands
  }

  lemma SerializeStarts(cmd: Command, rest: seq<Byte>)
    ensures Starts(Serialize(cmd.Request()) + rest, cmd.version, cmd.number, cmd.code, cmd.request)
  {
    var n, r := cmd.number, cmd.Id();
    assert n == n / 0x1_0000 * 0x1_0000 + r && 0 <= r < 0x1_0000;
    IdBytes(n);
    var b := Serialize(cmd.Request()) + rest;
    assert b == Le32(cmd.version) + ([r % 0x100, r / 0x100, cmd.code, cmd.request] + rest);
  }

  lemma IdBytes(n: nat)
    ensures n % 0x1_0000 % 0x100 == n % 0x100 && n % 0x1_0000 / 0x100 == n / 0x100 % 0x100
  {}

  /** The id split into two bytes, and all the rest of a header, survive the wire. */
  lemma HeaderRoundTrip(h: Header, operands: seq<Byte>)
    requires h.Valid()
    ensures Deserialize(Serialize(h) + operands) == h
  {
    var tail := [h.id % 0x100, h.id / 0x100, h.code, h.operands] + operands;
    assert Serialize(h) + operands == [] + Le32(h.version) + tail;
    QuadletRoundTrip(h.version, [], tail);
  }

  /** The number-th command object ever made, counting from 0. */
  datatype Command = Command(number: nat, version: Quadlet, code: Byte, request: Byte, response: Byte) {
    function Id(): (id: int) { number % ID_RANGE }

    function Request(): (h: Header) { Header(version, Id(), code, request) }
  }

  /** The driver's test; it compares the version truncated to a byte. */
  predicate Answers(raw: seq<Byte>, cmd: Command)
    requires |raw| >= 8
  {
    var h := Deserialize(raw);
    cmd.version % 0x100 == h.version && cmd.Id() == h.id && cmd.code == h.code
  }

  /** A reply whose header repeats version, id and code of a command, as the device sends it. */
  predicate Echoes(raw: seq<Byte>, cmd: Command) {
    |raw| >= 8 && raw[..7] == Serialize(cmd.Request())[..7]
  }

  lemma EchoHeader(raw: seq<Byte>, cmd: Command)
    requires Echoes(raw, cmd)
    ensures Deserialize(raw) == cmd.Request().(operands := raw[7])
  {
    var h := cmd.Request().(operands := raw[7]);
    assert Serialize(h) == Serialize(cmd.Request())[..7] + [raw[7]];
    assert raw == raw[..7] + [raw[7]] + raw[8..] == Serialize(h) + raw[8..];
    HeaderRoundTrip(h, raw[8..]);
  }

  /** The echo of a command is taken as its answer exactly when its version fits a byte. */
  lemma EchoAnswers(raw: seq<Byte>, cmd: Command)
    requires Echoes(raw, cmd)
    ensures Answers(raw, cmd) <==> cmd.version < 0x100
  {
    EchoHeader(raw, cmd);
  }

  /** Ids repeat exactly every 65536 commands. */
  lemma IdsDistinct(a: nat, b: nat)
    requires a < b
    ensures b - a < ID_RANGE ==> a % ID_RANGE != b % ID_RANGE
    ensures a % ID_RANGE == b % ID_RANGE <==> (b - a) % ID_RANGE == 0
  {}

  /** A reply to another command made fewer than 65536 commands away is never taken as the answer. */
  lemma StaleReplyRejected(raw: seq<Byte>, cmd: Command, other: Command)
    requires Echoes(raw, other) && cmd.number != other.number
    requires -ID_RANGE < cmd.number - other.number < ID_RANGE
    ensures !Answers(raw, cmd)
  {
    EchoHeader(raw, other);
    if cmd.number < other.number {
      IdsDistinct(cmd.number, other.number);
    } else {
      IdsDistinct(other.number, cmd.number);
    }
  }
}
