/** The session block of a Fireworks device: kept in flash, protected by a CRC. Quadlets are
    little-endian in memory. */
module Session {
  import opened Basics
  import opened Crc32
  import opened SessionTable
  import opened Flash

  const MAX_PHY_AUDIO := 40
  const CHANNEL_MAP_QUADS := 70
  const HEADER_QUADS := 8 + MAX_PHY_AUDIO * MAX_PHY_AUDIO + 2 * MAX_PHY_AUDIO + 2 * CHANNEL_MAP_QUADS
  const SUBSESSION_BYTES := 3 * 24 * MAX_PHY_AUDIO + 2 * MAX_PHY_AUDIO * MAX_PHY_AUDIO
  const SUBSESSION_QUADS := SUBSESSION_BYTES / 4
  const SESSION_QUADS := HEADER_QUADS + SUBSESSION_QUADS
  const CRC_START_OFFSET_BYTES := 8

  // ---- quadlets and bytes ----

  function ByteAt(q: bv32, k: nat): (b: bv8)
    requires k < 4
  {
    match k
    case 0 => (q & 0xff) as bv8
    case 1 => ((q >> 8) & 0xff) as bv8
    case 2 => ((q >> 16) & 0xff) as bv8
    case _ => ((q >> 24) & 0xff) as bv8
  }

  lemma BytesOfQuadlet(b0: bv8, b1: bv8, b2: bv8, b3: bv8)
    ensures var q := LittleEndian(b0, b1, b2, b3);
      ByteAt(q, 0) == b0 && ByteAt(q, 1) == b1 && ByteAt(q, 2) == b2 && ByteAt(q, 3) == b3
  {
    QuadletBits(b0, b1, b2, b3);
    ExtractBytes(b0, b1, b2, b3, LittleEndian(b0, b1, b2, b3));
  }

  lemma ExtractBytes(b0: bv8, b1: bv8, b2: bv8, b3: bv8, q: bv32)
    requires q == (b0 as bv32) | (b1 as bv32 << 8) | (b2 as bv32 << 16) | (b3 as bv32 << 24)
    ensures ByteAt(q, 0) == b0 && ByteAt(q, 1) == b1 && ByteAt(q, 2) == b2 && ByteAt(q, 3) == b3
  {}

  function ToBytes(quads: seq<bv32>): (bytes: seq<bv8>)
    ensures |bytes| == 4 * |quads|
  {
    seq(4 * |quads|, i requires 0 <= i < 4 * |quads| => ByteAt(quads[i / 4], i % 4))
  }

  function ToQuads(bytes: seq<bv8>): (quads: seq<bv32>)
    requires |bytes| % 4 == 0
    ensures |quads| == |bytes| / 4
  {
    seq(|bytes| / 4, i requires 0 <= i < |bytes| / 4 =>
      LittleEndian(bytes[4 * i], bytes[4 * i + 1], bytes[4 * i + 2], bytes[4 * i + 3]))
  }

  lemma QuadsKeepBytes(bytes: seq<bv8>)
    requires |bytes| % 4 == 0
    ensures ToBytes(ToQuads(bytes)) == bytes
  {
    hide ByteAt, LittleEndian;
    var r := ToBytes(ToQuads(bytes));
    forall i | 0 <= i < |bytes| ensures r[i] == bytes[i] {
      var j := 4 * (i / 4);
      BytesOfQuadlet(bytes[j], bytes[j + 1], bytes[j + 2], bytes[j + 3]);
      assert r[i] == ByteAt(ToQuads(bytes)[i / 4], i % 4);
    }
  }

  // ---- the block ----

  datatype SessionHeader = SessionHeader(
    sizeQuads: bv32, crc: bv32, version: bv32, flags: bv32,
    mirrorChannel: bv32, digitalMode: bv32, clock: bv32, rate: bv32,
    monitorGains: seq<bv32>, playbackGains: seq<bv32>, outputGains: seq<bv32>,
    channelMap2X: seq<bv32>, channelMap4X: seq<bv32>)
  {
    predicate Valid() {
      && |monitorGains| == MAX_PHY_AUDIO * MAX_PHY_AUDIO
      && |playbackGains| == |outputGains| == MAX_PHY_AUDIO
      && |channelMap2X| == |channelMap4X| == CHANNEL_MAP_QUADS
    }
  }

  function HeaderFields(h: SessionHeader): (quads: seq<bv32>)
    ensures |quads| == 8
  {
    [h.sizeQuads, h.crc, h.version, h.flags, h.mirrorChannel, h.digitalMode, h.clock, h.rate]
  }

  function HeaderQuads(h: SessionHeader): (quads: seq<bv32>) {
    HeaderFields(h) + h.monitorGains + h.playbackGains + h.outputGains + h.channelMap2X + h.channelMap4X
  }

  function HeaderFrom(q: seq<bv32>): (h: SessionHeader)
    requires |q| == HEADER_QUADS
    ensures h.Valid()
  {
    var gains := 8 + MAX_PHY_AUDIO * MAX_PHY_AUDIO;
    var maps := gains + 2 * MAX_PHY_AUDIO;
    SessionHeader(q[0], q[1], q[2], q[3], q[4], q[5], q[6], q[7],
      q[8..gains], q[gains..gains + MAX_PHY_AUDIO], q[gains + MAX_PHY_AUDIO..maps],
      q[maps..maps + CHANNEL_MAP_QUADS], q[maps + CHANNEL_MAP_QUADS..])
  }

  lemma QuadletOfBytes(q: bv32)
    ensures LittleEndian(ByteAt(q, 0), ByteAt(q, 1), ByteAt(q, 2), ByteAt(q, 3)) == q
  {
    QuadletBits(ByteAt(q, 0), ByteAt(q, 1), ByteAt(q, 2), ByteAt(q, 3));
    JoinBytes(q);
  }

  lemma JoinBytes(q: bv32)
    ensures q == (ByteAt(q, 0) as bv32) | (ByteAt(q, 1) as bv32 << 8)
               | (ByteAt(q, 2) as bv32 << 16) | (ByteAt(q, 3) as bv32 << 24)
  {}

  lemma BytesOfQuad(quads: seq<bv32>, i: nat, k: nat)
    requires i < |quads| && k < 4
    ensures ToBytes(quads)[4 * i + k] == ByteAt(quads[i], k)
  {
    hide ByteAt;
    assert (4 * i + k) / 4 == i && (4 * i + k) % 4 == k;
  }

  lemma BytesKeepQuads(quads: seq<bv32>)
    ensures ToQuads(ToBytes(quads)) == quads
  {
    hide ByteAt, LittleEndian, ToBytes;
    var r := ToQuads(ToBytes(quads));
    forall i | 0 <= i < |quads| ensures r[i] == quads[i] {
      BytesOfQuad(quads, i, 0);
      BytesOfQuad(quads, i, 1);
      BytesOfQuad(quads, i, 2);
      BytesOfQuad(quads, i, 3);
      QuadletOfBytes(quads[i]);
    }
  }

  lemma HeaderRoundTrip(h: SessionHeader)
    requires h.Valid()
    ensures |HeaderQuads(h)| == HEADER_QUADS && HeaderFrom(HeaderQuads(h)) == h
  {
    var q := HeaderQuads(h);
    assert q[8..1608] == h.monitorGains;
    assert q[1608..1648] == h.playbackGains;
    assert q[1648..1688] == h.outputGains;
    assert q[1688..1758] == h.channelMap2X;
    assert q[1758..] == h.channelMap4X;
  }

  lemma HeaderKeepsQuads(q: seq<bv32>)
    requires |q| == HEADER_QUADS
    ensures HeaderQuads(HeaderFrom(q)) == q
  {}

  /** The block as it is laid out in flash. */
  function Image(h: SessionHeader, s: seq<bv8>): (quads: seq<bv32>)
    requires |s| % 4 == 0
  {
    HeaderQuads(h) + ToQuads(s)
  }

  predicate LiesAt(q: seq<bv32>, at: nat, s: seq<bv32>) {
    at + |s| <= |q| && forall k :: 0 <= k < |s| ==> q[at + k] == s[k]
  }

  predicate FieldsLieAt(q: seq<bv32>, h: SessionHeader)
    requires |q| == 3348
  {
    && q[0] == h.sizeQuads && q[1] == h.crc && q[2] == h.version && q[3] == h.flags
    && q[4] == h.mirrorChannel && q[5] == h.digitalMode && q[6] == h.clock && q[7] == h.rate
  }

  /** Where everything lies in a block of quadlets. */
  predicate HeaderLaidOut(q: seq<bv32>, h: SessionHeader) {
    && |q| == 3348 && h.Valid()
    && FieldsLieAt(q, h)
    && LiesAt(q, 8, h.monitorGains) && LiesAt(q, 1608, h.playbackGains) && LiesAt(q, 1648, h.outputGains)
    && LiesAt(q, 1688, h.channelMap2X) && LiesAt(q, 1758, h.channelMap4X)
  }

  predicate SubsessionLaidOut(q: seq<bv32>, s: seq<bv8>) {
    && |q| == 3348 && |s| == 6080
    && forall k :: 0 <= k < 1520 ==>
         q[1828 + k] == (s[4 * k] as bv32) | (s[4 * k + 1] as bv32 << 8)
                      | (s[4 * k + 2] as bv32 << 16) | (s[4 * k + 3] as bv32 << 24)
  }

  predicate LaidOut(q: seq<bv32>, h: SessionHeader, s: seq<bv8>) {
    HeaderLaidOut(q, h) && SubsessionLaidOut(q, s)
  }

  lemma Peel(q: seq<bv32>, n: nat, a: seq<bv32>, b: seq<bv32>)
    requires |a| + |b| == n <= |q|
    ensures q[..n] == a + b <==> q[..|a|] == a && q[|a|..n] == b
  {
    assert q[..n] == q[..|a|] + q[|a|..n];
    if q[..n] == a + b {
      assert q[..n][..|a|] == a && q[..n][|a|..] == b;
    }
  }

  /** The pieces a header is laid out as lie where they should. */
  lemma HeaderPieces(q: seq<bv32>, h: SessionHeader)
    requires |q| == 3348 && h.Valid()
    ensures q[..1828] == HeaderQuads(h) <==>
      && q[..8] == HeaderFields(h)
      && q[8..1608] == h.monitorGains && q[1608..1648] == h.playbackGains && q[1648..1688] == h.outputGains
      && q[1688..1758] == h.channelMap2X && q[1758..1828] == h.channelMap4X
  {
    var f := HeaderFields(h);
    hide HeaderFields;
    Peel(q, 1828, f + h.monitorGains + h.playbackGains + h.outputGains + h.channelMap2X, h.channelMap4X);
    Peel(q, 1758, f + h.monitorGains + h.playbackGains + h.outputGains, h.channelMap2X);
    Peel(q, 1688, f + h.monitorGains + h.playbackGains, h.outputGains);
    Peel(q, 1648, f + h.monitorGains, h.playbackGains);
    Peel(q, 1608, f, h.monitorGains);
  }

  lemma FieldsPiece(q: seq<bv32>, h: SessionHeader)
    requires |q| == 3348
    ensures q[..8] == HeaderFields(h) <==> FieldsLieAt(q, h)
  {
    assert q[..8] == [q[0], q[1], q[2], q[3], q[4], q[5], q[6], q[7]];
  }

  lemma HeaderQuadsLaidOut(q: seq<bv32>, h: SessionHeader)
    requires |q| == SESSION_QUADS && h.Valid()
    ensures HeaderLaidOut(q, h) <==> q[..HEADER_QUADS] == HeaderQuads(h)
  {
    hide HeaderQuads, LiesAt, FieldsLieAt, HeaderFields;
    HeaderPieces(q, h);
    FieldsPiece(q, h);
    SliceAt(q, 8, h.monitorGains);
    SliceAt(q, 1608, h.playbackGains);
    SliceAt(q, 1648, h.outputGains);
    SliceAt(q, 1688, h.channelMap2X);
    SliceAt(q, 1758, h.channelMap4X);
  }

  lemma SliceAt(q: seq<bv32>, at: nat, s: seq<bv32>)
    requires at + |s| <= |q|
    ensures q[at..at + |s|] == s <==> LiesAt(q, at, s)
  {
    var r := q[at..at + |s|];
    forall k | 0 <= k < |s| ensures r[k] == q[at + k] {}
  }

  lemma QuadOfBytes(s: seq<bv8>, k: nat)
    requires |s| % 4 == 0 && k < |s| / 4
    ensures ToQuads(s)[k] == (s[4 * k] as bv32) | (s[4 * k + 1] as bv32 << 8)
                           | (s[4 * k + 2] as bv32 << 16) | (s[4 * k + 3] as bv32 << 24)
  {
    hide LittleEndian;
    QuadletBits(s[4 * k], s[4 * k + 1], s[4 * k + 2], s[4 * k + 3]);
  }

  lemma ToQuadsLaidOut(q: seq<bv32>, s: seq<bv8>)
    requires |q| == SESSION_QUADS && |s| == SUBSESSION_BYTES
    ensures SubsessionLaidOut(q, s) <==> q[HEADER_QUADS..] == ToQuads(s)
  {
    hide ToQuads;
    var back := ToQuads(s);
    forall k | 0 <= k < SUBSESSION_QUADS ensures q[HEADER_QUADS + k] == q[HEADER_QUADS..][k] {}
    forall k | 0 <= k < SUBSESSION_QUADS
      ensures back[k] == (s[4 * k] as bv32) | (s[4 * k + 1] as bv32 << 8)
                       | (s[4 * k + 2] as bv32 << 16) | (s[4 * k + 3] as bv32 << 24)
    {
      QuadOfBytes(s, k);
    }
  }

  /** The image is the one block with this layout. */
  lemma ImageLaidOut(q: seq<bv32>, h: SessionHeader, s: seq<bv8>)
    requires |q| == SESSION_QUADS && h.Valid() && |s| == SUBSESSION_BYTES
    ensures LaidOut(q, h, s) <==> q == Image(h, s)
  {
    hide HeaderLaidOut, SubsessionLaidOut, HeaderQuads, ToQuads;
    HeaderRoundTrip(h);
    HeaderQuadsLaidOut(q, h);
    ToQuadsLaidOut(q, s);
    assert q == q[..HEADER_QUADS] + q[HEADER_QUADS..];
    if q == Image(h, s) {
      assert q[..HEADER_QUADS] == HeaderQuads(h) && q[HEADER_QUADS..] == ToQuads(s);
    }
  }

  /** CRC-32 of everything after the size and CRC fields. */
  function SessionCrc(h: SessionHeader, s: seq<bv8>): (crc: bv32) {
    Crc(ToBytes(HeaderQuads(h)[2..]) + s)
  }

  /** In terms of the block: the CRC of all its bytes from the third quadlet on. */
  lemma CrcOfBlock(q: seq<bv32>, h: SessionHeader, s: seq<bv8>)
    requires LaidOut(q, h, s)
    ensures SessionCrc(h, s) == Crc(ToBytes(q[2..]))
  {
    hide LaidOut, HeaderQuads, ToQuads, Crc;
    assert |q| == SESSION_QUADS && h.Valid() && |s| == SUBSESSION_BYTES by { LaidOutSizes(q, h, s); }
    ImageLaidOut(q, h, s);
    HeaderRoundTrip(h);
    QuadsKeepBytes(s);
    assert q[2..] == HeaderQuads(h)[2..] + ToQuads(s);
    BytesJoin(HeaderQuads(h)[2..], ToQuads(s));
  }

  /** Quadlet 1 is the CRC of all the bytes behind it. */
  predicate Checks(q: seq<bv32>) {
    |q| == 3348 && q[1] == Crc(ToBytes(q[2..]))
  }

  lemma LaidOutChecks(q: seq<bv32>, h: SessionHeader, s: seq<bv8>)
    requires LaidOut(q, h, s)
    ensures Checks(q) <==> h.crc == SessionCrc(h, s)
  {
    hide SessionCrc, SubsessionLaidOut, Crc, ToBytes;
    CrcOfBlock(q, h, s);
  }

  lemma LaidOutSizes(q: seq<bv32>, h: SessionHeader, s: seq<bv8>)
    requires LaidOut(q, h, s)
    ensures |q| == SESSION_QUADS && h.Valid() && |s| == SUBSESSION_BYTES
  {}

  lemma BytesJoin(a: seq<bv32>, b: seq<bv32>)
    ensures ToBytes(a + b) == ToBytes(a) + ToBytes(b)
  {
    hide ByteAt;
    var r := ToBytes(a) + ToBytes(b);
    forall i | 0 <= i < |r| ensures ToBytes(a + b)[i] == r[i] {
      if i >= 4 * |a| {
        assert i / 4 == |a| + (i - 4 * |a|) / 4;
      }
    }
  }

  lemma CrcIgnoresItself(h: SessionHeader, s: seq<bv8>, crc: bv32)
    ensures SessionCrc(h.(crc := crc), s) == SessionCrc(h, s)
  {
    hide Crc, ToBytes, HeaderFields;
    TailOfHeader(h);
    TailOfHeader(h.(crc := crc));
    assert HeaderFields(h.(crc := crc))[2..] == HeaderFields(h)[2..] by { FieldsIgnoreCrc(h, crc); }
  }

  lemma FieldsIgnoreCrc(h: SessionHeader, crc: bv32)
    ensures HeaderFields(h.(crc := crc))[2..] == HeaderFields(h)[2..]
  {}

  lemma TailOfHeader(h: SessionHeader)
    ensures HeaderQuads(h)[2..] == HeaderFields(h)[2..] + h.monitorGains + h.playbackGains + h.outputGains
                                 + h.channelMap2X + h.channelMap4X
  {
    var f := HeaderFields(h);
    hide HeaderFields;
    DropTwo(f, h.monitorGains);
    DropTwo(f + h.monitorGains, h.playbackGains);
    DropTwo(f + h.monitorGains + h.playbackGains, h.outputGains);
    DropTwo(f + h.monitorGains + h.playbackGains + h.outputGains, h.channelMap2X);
    DropTwo(f + h.monitorGains + h.playbackGains + h.outputGains + h.channelMap2X, h.channelMap4X);
  }

  lemma DropTwo(a: seq<bv32>, b: seq<bv32>)
    requires |a| >= 2
    ensures (a + b)[2..] == a[2..] + b
  {}

  lemma LookupIndex(remainder: bv32, b: bv8)
    ensures (remainder ^ (b as bv32)) & 0xff == Xor(remainder & 0xff, b as bv32)
    ensures (remainder ^ (b as bv32)) & 0xff < 256
  {}

  method Lookup(index: bv32) returns (entry: bv32)
    requires index < 256
    ensures entry == Shifts(index, 8)
  {
    hide Table;
    ByteIndex(index);
    TableCorrect(index as int);
    entry := Table(index as int);
  }

  method NextRemainder(remainder: bv32, data: bv8) returns (r: bv32)
    ensures r == Absorb(remainder, data)
  {
    var b := (remainder ^ (data as bv32)) & 0xff;
    LookupIndex(remainder, data);
    ByteStep(remainder, data);
    var entry := Lookup(b);
    r := SwapXor(entry, remainder >> 8);
  }

  method SwapXor(a: bv32, b: bv32) returns (r: bv32)
    ensures r == Xor(b, a)
  {
    r := a ^ b;
  }

  /** The table-driven loop over a session block computes the bit-serial CRC-32 of what follows
      its first two fields; a block that is too short has CRC 0. */
  method CalculateCRC(memblock: seq<bv8>) returns (crc: bv32)
    ensures |memblock| < 13392 ==> crc == 0
    ensures |memblock| >= 13392 ==> crc == Crc(memblock[8..13392])
  {
    hide Absorb, Xor;
    if |memblock| < 4 * SESSION_QUADS { return 0; }
    var remainder: bv32 := 0xffff_ffff;
    var data, bytecount := CRC_START_OFFSET_BYTES, 4 * SESSION_QUADS - CRC_START_OFFSET_BYTES;
    ghost var text := memblock[CRC_START_OFFSET_BYTES..4 * SESSION_QUADS];
    while bytecount > 0
      invariant 0 <= bytecount <= |text| && data + bytecount == 4 * SESSION_QUADS
      invariant remainder == Register(0xffff_ffff, text[..|text| - bytecount])
    {
      FoldStep(Absorb, 0xffff_ffff, text, |text| - bytecount);
      remainder := NextRemainder(remainder, memblock[data]);
      data := data + 1;
      bytecount := bytecount - 1;
    }
    assert text[..|text|] == text;
    crc := Xor(remainder, 0xffff_ffff);
  }

  lemma SkipFields(quads: seq<bv32>, s: seq<bv8>)
    requires |quads| >= 2
    ensures (ToBytes(quads) + s)[CRC_START_OFFSET_BYTES..] == ToBytes(quads[2..]) + s
  {
    assert ToBytes(quads)[8..] == ToBytes(quads[2..]);
  }

  class Session {
    var h: SessionHeader
    var s: seq<bv8>

    ghost predicate Valid()
      reads this
    {
      h.Valid() && |s| == SUBSESSION_BYTES
    }

    constructor (header: SessionHeader, subSession: seq<bv8>)
      requires header.Valid() && |subSession| == SUBSESSION_BYTES
      ensures Valid() && h == header && s == subSession
    {
      h, s := header, subSession;
    }

    method CurrentCRC() returns (crc: bv32)
      requires Valid()
      ensures crc == SessionCrc(h, s)
    {
      var block := ToBytes(HeaderQuads(h)) + s;
      HeaderRoundTrip(h);
      crc := CalculateCRC(block);
      assert block[..4 * SESSION_QUADS] == block;
      SkipFields(HeaderQuads(h), s);
    }

    /** Refuses a buffer that is too small; otherwise fills its front and leaves the rest alone. */
    method SaveToMemory(buff: array<bv32>) returns (ok: bool)
      requires Valid()
      modifies buff
      ensures ok <==> buff.Length >= SESSION_QUADS
      ensures ok ==> LaidOut(buff[..SESSION_QUADS], h, s) && buff[SESSION_QUADS..] == old(buff[SESSION_QUADS..])
      ensures !ok ==> buff[..] == old(buff[..])
    {
      if buff.Length < SESSION_QUADS { return false; }
      ghost var was := buff[SESSION_QUADS..];
      ImageLoads(h, s);
      var raw := Image(h, s);
      forall i | 0 <= i < SESSION_QUADS { buff[i] := raw[i]; }
      assert buff[SESSION_QUADS..] == was && buff[..SESSION_QUADS] == raw;
      ImageLaidOut(raw, h, s);
      return true;
    }

    method LoadFromMemory(data: seq<bv32>) returns (ok: bool)
      modifies this
      ensures ok <==> |data| == SESSION_QUADS
      ensures ok ==> Valid() && LaidOut(data, h, s)
      ensures !ok ==> h == old(h) && s == old(s)
    {
      hide LaidOut;
      if |data| != SESSION_QUADS { return false; }
      h := HeaderFrom(data[..HEADER_QUADS]);
      s := ToBytes(data[HEADER_QUADS..]);
      LoadedImage(data);
      ImageLaidOut(data, h, s);
      return true;
    }

    method LoadFromDevice(d: Device) returns (ok: bool)
      requires d.Valid()
      modifies this, d.trace
      ensures ok ==> Valid()
      ensures !ok ==> h == old(h) && s == old(s)
      ensures ok && d.responsive ==> Stored(d, h, s)
      ensures d.trace.failures >= old(d.trace.failures)
      ensures d.responsive && d.trace.failures == old(d.trace.failures) && Placed(d) ==> ok
    {
      hide LaidOut;
      var start := d.GetSessionBase();
      if start == 0 { return false; }
      var data := new bv32[SESSION_QUADS];
      var good, _, _ := d.ReadFlash(start, SESSION_QUADS, data);
      if !good { return false; }
      assert data[..] == data[..SESSION_QUADS];
      ok := LoadFromMemory(data[..]);
    }

    /** On a device in order it succeeds unless a command fails. A true result means the flash holds
        exactly this block, its CRC field being the CRC of the rest, if erasing prepares for it; no
        other erase block changes. A failure after erasing has begun leaves the flash locked, unless it
        is the unlocking that fails. */
    method SaveToDevice(d: Device) returns (ok: bool)
      requires Valid() && d.Valid()
      modifies this`h, d`flash, d`locked, d`exposed, d`erases, d`erasesFailed, d`lockCommands, d.trace
      ensures Valid() && d.Valid() && h == old(h).(crc := h.crc)
      ensures d.exposed == old(d.exposed)
      ensures ok ==> d.hasDSP || !d.locked
      ensures ok ==> h.crc == SessionCrc(h, s)
      ensures ok && d.responsive && LeftZero(d.sessionBase, Image(h, s), d.erasesWell) ==>
        Stored(d, h, s) && Checks(d.Quads(d.sessionBase, SESSION_QUADS))
      ensures BlocksOnly(d.flash, old(d.flash), BlockStart(d.sessionBase), Reach(d.sessionBase, SESSION_QUADS))
      ensures Locking(d, old(d.lockCommands), old(d.erases), ok)
      ensures d.trace.failures >= old(d.trace.failures)
      ensures d.trace.failures == old(d.trace.failures) && InOrder(d) ==> ok
    {
      hide Image, SessionCrc, BlockStart, LeftZero, LaidOut, Checks;
      var start := d.GetSessionBase();
      if start == 0 { return false; }
      var crc := CurrentCRC();
      CrcIgnoresItself(h, s, crc);
      h := h.(crc := crc);
      ImageLoads(h, s);
      var data := new bv32[SESSION_QUADS];
      var good := SaveToMemory(data);
      if !good { return false; }
      assert data[..] == data[..SESSION_QUADS];
      ImageLaidOut(data[..], h, s);
      LaidOutChecks(data[..], h, s);
      ok := StoreImage(d, start, data[..]);
    }
  }

  // ---- what erasing prepares for ----

  /** Quadlet k of data stored from start on lies behind what erasing from the block start on reaches:
      behind the blocks it erases as a whole, or behind the quadlets it reads back. */
  predicate Behind(start: nat, len: nat, whole: bool, k: nat) {
    (if whole then BlockStart(start + 4 * k) else start + 4 * k) >= BlockStart(start) + 4 * len
  }

  /** All the data erasing does not prepare for is zero. */
  predicate LeftZero(start: nat, data: seq<bv32>, whole: bool) {
    forall k :: 0 <= k < |data| && Behind(start, |data|, whole, k) ==> data[k] == 0
  }

  /** From a block start erasing prepares for everything. */
  lemma AlignedPrepared(start: nat, data: seq<bv32>, whole: bool)
    requires BlockAligned(start)
    ensures LeftZero(start, data, whole)
  {
    NextBlock(start);
    forall k | 0 <= k < |data| ensures !Behind(start, |data|, whole, k) { StartAligned(start + 4 * k); }
  }

  /** What a successful erase guarantees: whole blocks, or the quadlets that were read back. */
  predicate Prepared(blank: seq<bv32>, start: nat, len: nat, whole: bool) {
    if whole then BlocksErased(blank, BlockStart(start), len) else ErasedFrom(blank, BlockStart(start), len)
  }

  predicate Lands(blank: seq<bv32>, start: nat, data: seq<bv32>) {
    && start / 4 + |data| <= |blank|
    && Programmed(blank, start / 4, data)[start / 4..start / 4 + |data|] == data
  }

  lemma StartsInOrder(a: nat, b: nat)
    requires a <= b
    ensures BlockStart(a) <= BlockStart(b)
  {
    StartAligned(a);
    NotBefore(BlockStart(a), b);
  }

  lemma PreparedAt(blank: seq<bv32>, start: nat, data: seq<bv32>, whole: bool, k: nat)
    requires start % 4 == 0 && start / 4 + |data| <= |blank| && k < |data|
    requires Prepared(blank, start, |data|, whole) && !Behind(start, |data|, whole, k)
    ensures blank[start / 4 + k] == ERASED
  {
    hide BlockStart;
    StartsInOrder(start, start + 4 * k);
    StartAligned(start);
    assert 4 * (start / 4 + k) == start + 4 * k;
  }

  lemma PreparedLands(blank: seq<bv32>, start: nat, data: seq<bv32>, whole: bool)
    requires start % 4 == 0 && start / 4 + |data| <= |blank|
    requires Prepared(blank, start, |data|, whole) && LeftZero(start, data, whole)
    ensures Lands(blank, start, data)
  {
    hide Prepared, Behind;
    var r := Programmed(blank, start / 4, data)[start / 4..start / 4 + |data|];
    forall k | 0 <= k < |data| ensures r[k] == data[k] {
      if Behind(start, |data|, whole, k) {
        ProgramZero(blank[start / 4 + k]);
      } else {
        PreparedAt(blank, start, data, whole, k);
        ProgramErased(data[k]);
      }
    }
  }

  lemma ProgramZero(q: bv32)
    ensures Program(q, 0) == 0 && Program(0, q) == 0
  {}

  /** A flash erased as far as erasing reaches, with a zero where quadlet k goes. */
  function Spoiler(start: nat, k: nat): (blank: seq<bv32>)
    ensures |blank| == FLASH_SIZE_QUADS
  {
    seq(FLASH_SIZE_QUADS, i => if i == start / 4 + k then 0 else ERASED)
  }

  lemma SpoilerSpoils(start: nat, data: seq<bv32>, whole: bool, k: nat)
    requires start % 4 == 0 && start / 4 + |data| <= FLASH_SIZE_QUADS && k < |data|
    requires Behind(start, |data|, whole, k) && data[k] != 0
    ensures Prepared(Spoiler(start, k), start, |data|, whole) && !Lands(Spoiler(start, k), start, data)
  {
    hide BlockStart;
    var blank := Spoiler(start, k);
    StartAligned(start);
    NextBlock(BlockStart(start));
    assert 4 * (start / 4 + k) == start + 4 * k;
    ProgramZero(data[k]);
    var now := Programmed(blank, start / 4, data);
    assert now[start / 4..start / 4 + |data|][k] == now[start / 4 + k] == Program(0, data[k]);
  }

  /** Erasing is enough for the data, whatever the flash held before, exactly if all it does not prepare
      for is zero: behind the erased blocks on a device that erases whole blocks, behind the quadlets
      read back on any other. */
  lemma ErasingSuffices(start: nat, data: seq<bv32>, whole: bool)
    requires start % 4 == 0 && start / 4 + |data| <= FLASH_SIZE_QUADS
    ensures LeftZero(start, data, whole) <==>
      forall blank :: |blank| == FLASH_SIZE_QUADS && Prepared(blank, start, |data|, whole) ==> Lands(blank, start, data)
  {
    hide Prepared, Lands, Behind;
    if LeftZero(start, data, whole) {
      forall blank | |blank| == FLASH_SIZE_QUADS && Prepared(blank, start, |data|, whole)
        ensures Lands(blank, start, data)
      {
        PreparedLands(blank, start, data, whole);
      }
    } else {
      var k :| 0 <= k < |data| && Behind(start, |data|, whole, k) && data[k] != 0;
      SpoilerSpoils(start, data, whole, k);
    }
  }

  // ---- storing ----

  /** Quadlets from the block start on that storing some from start on can touch. */
  function Reach(start: nat, len: nat): (n: nat) {
    StartAligned(start);
    (start - BlockStart(start)) / 4 + len
  }

  /** A device that needs the lock is sent one or two lock commands; with two it was to be unlocked in
      the end, with one it is still locked if erasing has begun. */
  ghost predicate Locking(d: Device, lockCommands: nat, erases: nat, ok: bool)
    reads d
  {
    && (ok ==> d.hasDSP || (!d.locked && d.lockCommands == lockCommands + 2))
    && lockCommands <= d.lockCommands <= lockCommands + 2
    && (!d.hasDSP && d.erases != erases && d.lockCommands < lockCommands + 2 ==> d.locked)
  }

  /** Lock, erase, program, unlock: on success the flash reads as the data if erasing prepares for it. */
  method StoreImage(d: Device, start: nat, data: seq<bv32>) returns (ok: bool)
    requires d.Valid() && start < WORD && |data| == SESSION_QUADS
    modifies d`flash, d`locked, d`exposed, d`erases, d`erasesFailed, d`lockCommands, d.trace
    ensures d.Valid() && d.exposed == old(d.exposed)
    ensures Locking(d, old(d.lockCommands), old(d.erases), ok)
    ensures ok ==> start % 4 == 0 && start / 4 + |data| <= |d.flash|
    ensures ok && d.responsive && LeftZero(start, data, d.erasesWell) ==> d.Quads(start, |data|) == data
    ensures BlocksOnly(d.flash, old(d.flash), BlockStart(start), Reach(start, |data|))
    ensures d.trace.failures >= old(d.trace.failures)
    ensures d.trace.failures == old(d.trace.failures) && InOrder(d) && start == d.sessionBase ==> ok
  {
    hide BlockStart, BlocksOnly, BlocksErased, ErasedFrom, LeftZero, SameOutside;
    ghost var was := d.flash;
    BlocksOnlySame(was, BlockStart(start), Reach(start, |data|));
    StartAligned(start);
    var locked := d.LockFlash(true);
    if !locked { return false; }
    var erased, _, _ := d.EraseFlashBlocks(start, |data|);
    ErasedInReach(d.flash, was, start, |data|);
    if !erased { return false; }
    ghost var blank := d.flash;
    var written := d.WriteFlash(start, data);
    WriteInReach(d.flash, blank, was, start, |data|);
    if !written { return false; }
    if d.responsive && LeftZero(start, data, d.erasesWell) {
      PreparedLands(blank, start, data, d.erasesWell);
    }
    ok := d.LockFlash(false);
  }

  lemma BlocksOnlySame(f: seq<bv32>, first: nat, len: nat)
    ensures BlocksOnly(f, f, first, len)
  {}

  lemma ErasedInReach(f: seq<bv32>, g: seq<bv32>, start: nat, len: nat)
    requires BlocksOnly(f, g, BlockStart(start), len)
    ensures BlocksOnly(f, g, BlockStart(start), Reach(start, len))
  {
    hide BlockStart;
    StartAligned(start);
    assert Reach(start, len) >= len;
  }

  lemma WriteInReach(f: seq<bv32>, g: seq<bv32>, h: seq<bv32>, start: nat, len: nat)
    requires SameOutside(f, g, start / 4, len) && BlocksOnly(g, h, BlockStart(start), Reach(start, len))
    ensures BlocksOnly(f, h, BlockStart(start), Reach(start, len))
  {
    hide BlockStart;
    var first := BlockStart(start);
    StartAligned(start);
    NextBlock(first);
    forall i | 0 <= i < |f| && f[i] != h[i]
      ensures first <= BlockStart(4 * i)
      ensures BlockStart(4 * i) < first + 4 * Reach(start, len) || BlockStart(4 * i) == first
    {
      if f[i] != g[i] {
        NotBefore(first, 4 * i);
        StartAligned(4 * i);
      }
    }
  }

  lemma NotBefore(start: nat, x: nat)
    requires BlockAligned(start) && start <= x
    ensures start <= BlockStart(x)
  {}

  /** Saving and then loading, whatever the device answered on the way, restores the block; both
      succeed on a device in order unless a command fails. */
  method SaveThenLoad(d: Device, from: Session, into: Session) returns (saved: bool, loaded: bool)
    requires from != into && from.Valid() && d.Valid()
    modifies from, into, d, d.trace
    ensures d.trace.failures == old(d.trace.failures) && InOrder(d) ==> saved && loaded
    ensures saved && loaded && d.responsive && Storable(d, from.h, from.s) ==>
      && into.h == from.h == old(from.h).(crc := into.h.crc) && into.s == from.s == old(from.s)
      && into.h.crc == SessionCrc(into.h, into.s)
  {
    hide SessionCrc, BlockAligned, BlocksOnly, LeftZero, BlockStart, Reach, LaidOut;
    loaded := false;
    saved := from.SaveToDevice(d);
    if saved {
      ghost var h, s := from.h, from.s;
      if BlockAligned(d.sessionBase) { AlignedPrepared(d.sessionBase, Image(h, s), d.erasesWell); }
      ghost var stored := Stored(d, h, s);
      loaded := into.LoadFromDevice(d);
      assert stored ==> Stored(d, h, s);
      if loaded && stored && d.responsive { StoredUnique(d, h, s, into.h, into.s); }
    }
  }

  lemma ImageLoads(h: SessionHeader, s: seq<bv8>)
    requires h.Valid() && |s| == SUBSESSION_BYTES
    ensures |Image(h, s)| == SESSION_QUADS
    ensures HeaderFrom(Image(h, s)[..HEADER_QUADS]) == h && ToBytes(Image(h, s)[HEADER_QUADS..]) == s
  {
    HeaderRoundTrip(h);
    QuadsKeepBytes(s);
    assert Image(h, s)[..HEADER_QUADS] == HeaderQuads(h);
    assert Image(h, s)[HEADER_QUADS..] == ToQuads(s);
  }

  /** Whatever is loaded is stored back unchanged. */
  lemma LoadedImage(data: seq<bv32>)
    requires |data| == SESSION_QUADS
    ensures Image(HeaderFrom(data[..HEADER_QUADS]), ToBytes(data[HEADER_QUADS..])) == data
  {
    HeaderKeepsQuads(data[..HEADER_QUADS]);
    BytesKeepQuads(data[HEADER_QUADS..]);
  }

  lemma StoredUnique(d: Device, h: SessionHeader, s: seq<bv8>, h': SessionHeader, s': seq<bv8>)
    requires Stored(d, h, s) && Stored(d, h', s')
    ensures h == h' && s == s'
  {
    hide LaidOut;
    var q := d.Quads(d.sessionBase, SESSION_QUADS);
    LaidOutSizes(q, h, s);
    LaidOutSizes(q, h', s');
    ImageLaidOut(q, h, s);
    ImageLaidOut(q, h', s');
    ImageLoads(h, s);
    ImageLoads(h', s');
  }

  /** The session area has an address and lies in the flash. */
  ghost predicate Placed(d: Device)
    reads d
  {
    d.sessionBase > 0 && d.sessionBase % 4 == 0 && d.sessionBase / 4 + SESSION_QUADS <= |d.flash|
  }

  /** Erasing prepares for this block, in particular if the session starts an erase block. */
  ghost predicate Storable(d: Device, h: SessionHeader, s: seq<bv8>)
    reads d
  {
    || BlockAligned(d.sessionBase)
    || (|s| % 4 == 0 && LeftZero(d.sessionBase, Image(h, s), d.erasesWell))
  }

  /** The device answers and erases as it should and keeps its session in the flash. */
  ghost predicate InOrder(d: Device)
    reads d
  {
    d.responsive && d.erasesWell && Placed(d)
  }

  /** The flash of d holds this block at the session base. */
  ghost predicate Stored(d: Device, h: SessionHeader, s: seq<bv8>)
    reads d
  {
    Placed(d) && LaidOut(d.Quads(d.sessionBase, SESSION_QUADS), h, s)
  }
}
