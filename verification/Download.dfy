/** Downloading an object to the bootloader of a BeBoB device, block by block. The device may answer
    anything, also with what an earlier command left in its response register. */
module Download {
  import opened Basics
  import opened Commands

  const WRAP := 0x1_0000_0000

  /** One block command with its reply: the number and address its request carried and the bytes in
      the request buffer at that time. */
  datatype Block = Block(seqNumber: int, address: int, data: seq<Byte>, cmd: Command, reply: seq<Byte>)

  /** One read of the response register: what the device held in its registers and what it replied. */
  datatype Exchange = Exchange(request: seq<Byte>, buffer: seq<Byte>, reply: seq<Byte>)

  /** The block is what this exchange was about: the request register held its command with its
      number, address and size, the buffer its bytes. */
  predicate Carried(e: Exchange, b: Block) {
    && e.buffer == b.data && e.reply == b.reply && |e.request| == 20 && e.request[..8] == Serialize(b.cmd.Request())
    && FromLe32(e.request, 8) == b.seqNumber && FromLe32(e.request, 12) == b.address
    && FromLe32(e.request, 16) == |b.data|
  }

  /** The blocks are, one by one, what the exchanges from this one on were about. */
  predicate AllCarried(log: seq<Exchange>, from: nat, blocks: seq<Block>) {
    from + |blocks| <= |log| && forall k :: 0 <= k < |blocks| ==> Carried(log[from + k], blocks[k])
  }

  lemma CarriedLonger(log: seq<Exchange>, longer: seq<Exchange>, from: nat, blocks: seq<Block>)
    requires AllCarried(log, from, blocks) && log <= longer
    ensures AllCarried(longer, from, blocks)
  {}

  /** The reply answers this very command, repeats its sequence number and reports no error. */
  predicate Acknowledged(b: Block) {
    && |b.reply| == 16 && Answers(b.reply, b.cmd) && b.cmd.code == 0x05
    && FromLe32(b.reply, 8) == b.seqNumber && FromLe32(b.reply, 12) == 0
  }

  /** The reply answers the start command and does not report an error. */
  predicate StartAccepted(e: Exchange, start: Command) {
    |e.reply| == 12 && Answers(e.reply, start) && FromLe32(e.reply, 8) < 0x8000_0000
  }

  /** The start command as the device holds it: kind, date, time, id and version of the software, where
      the object goes, its length and its CRC. */
  predicate Announces(request: seq<Byte>, version: Quadlet, number: nat, kind: Quadlet, software: seq<Byte>,
                      base: Quadlet, length: Quadlet, crc: Quadlet)
  {
    && |request| == 48 && Starts(request, version, number, 0x04, 10) && Holds(request, 8, kind)
    && request[12..36] == software && Holds(request, 36, base) && Holds(request, 40, length) && Holds(request, 44, crc)
  }

  /** The device held the end command, padded to a quadlet, when this reply was read. */
  predicate Carries(e: Exchange, end: Command, reply: seq<Byte>) {
    e.request == Serialize(end.Request()) + [0, 0, 0, 0] && e.reply == reply
  }

  /** The driver's comparison at the end: the object is reported valid, with this CRC. */
  predicate EndAccepted(reply: seq<Byte>, crc: Quadlet) {
    |reply| == 16 && FromLe32(reply, 8) == crc && FromLe32(reply, 12) == 0
  }

  /** The report is about this download: it is the answer to its end command. */
  predicate Genuine(reply: seq<Byte>, end: Command, crc: Quadlet) {
    EndAccepted(reply, crc) && Answers(reply, end)
  }

  /** The acknowledgement of a block, left in the response register because the end command did not
      get through, passes the comparison exactly when the sequence number is the CRC, and is never
      genuine. */
  lemma AcknowledgementPasses(b: Block, end: Command, crc: Quadlet)
    requires Acknowledged(b) && end.code == DOWNLOAD_END
    ensures EndAccepted(b.reply, crc) <==> b.seqNumber == crc
    ensures !Genuine(b.reply, end, crc)
  {}

  /** So a CRC not below the number of blocks is safe from all acknowledgements of the download. */
  lemma LargeCrcSafe(acked: seq<Block>, base: Quadlet, crc: Quadlet, k: nat)
    requires Tiled(acked, base) && k < |acked| && Acknowledged(acked[k]) && crc >= |acked|
    ensures !EndAccepted(acked[k].reply, crc)
  {
    assert Placed(acked, base, k);
  }

  /** Such a reply to the sixth command, taken for a report of CRC 7. */
  lemma ForeignReplyPasses()
    ensures var reply: seq<Byte> := [1, 0, 0, 0, 5, 0, DOWNLOAD_BLOCK, 2, 7, 0, 0, 0, 0, 0, 0, 0];
      EndAccepted(reply, 7) && !Genuine(reply, Command(6, 1, DOWNLOAD_END, 0, 2), 7)
  {}

  function Image(blocks: seq<Block>): (bytes: seq<Byte>)
    decreases |blocks|
  {
    if blocks == [] then [] else Image(blocks[..|blocks| - 1]) + blocks[|blocks| - 1].data
  }

  /** Numbered from 0, none empty, each placed right behind the one before it. */
  ghost predicate Tiled(blocks: seq<Block>, base: Quadlet) {
    forall k :: 0 <= k < |blocks| ==> Placed(blocks, base, k)
  }

  ghost predicate Placed(blocks: seq<Block>, base: Quadlet, k: nat)
    requires k < |blocks|
  {
    && blocks[k].seqNumber == k && blocks[k].data != []
    && blocks[k].address == (base + |Image(blocks[..k])|) % WRAP
  }

  lemma TiledSnoc(blocks: seq<Block>, base: Quadlet, b: Block)
    requires Tiled(blocks, base) && b.seqNumber == |blocks| && b.data != []
    requires b.address == (base + |Image(blocks)|) % WRAP
    ensures Tiled(blocks + [b], base) && Image(blocks + [b]) == Image(blocks) + b.data
  {
    var r := blocks + [b];
    assert r[..|blocks|] == blocks;
    forall k | 0 <= k < |r| ensures Placed(r, base, k) {
      if k < |blocks| {
        assert Placed(blocks, base, k);
        assert r[..k] == blocks[..k];
      }
    }
  }

  /** Every byte of the image lies in exactly one block, and goes to its own address. */
  lemma {:induction false} Locate(blocks: seq<Block>, base: Quadlet, j: nat) returns (k: nat, m: nat)
    requires Tiled(blocks, base) && j < |Image(blocks)|
    ensures k < |blocks| && m < |blocks[k].data| && |Image(blocks[..k])| + m == j
    ensures blocks[k].data[m] == Image(blocks)[j]
    ensures (blocks[k].address + m) % WRAP == (base + j) % WRAP
    decreases |blocks|
  {
    var n := |blocks| - 1;
    var before := Image(blocks[..n]);
    if j < |before| {
      forall i | 0 <= i < n ensures Placed(blocks[..n], base, i) {
        assert Placed(blocks, base, i);
        assert blocks[..n][..i] == blocks[..i];
      }
      k, m := Locate(blocks[..n], base, j);
      assert blocks[..n][..k] == blocks[..k];
    } else {
      k, m := n, j - |before|;
      assert Placed(blocks, base, n);
    }
  }

  lemma {:induction false} ImageGrows(blocks: seq<Block>, k: nat, l: nat)
    requires k < l <= |blocks|
    ensures |Image(blocks[..k])| + |blocks[k].data| <= |Image(blocks[..l])|
    decreases l
  {
    assert blocks[..l][..l - 1] == blocks[..l - 1];
    if k < l - 1 { ImageGrows(blocks, k, l - 1); }
  }

  lemma LocateUnique(blocks: seq<Block>, k: nat, m: nat, l: nat, n: nat)
    requires k < |blocks| && m < |blocks[k].data| && l < |blocks| && n < |blocks[l].data|
    requires |Image(blocks[..k])| + m == |Image(blocks[..l])| + n
    ensures k == l && m == n
  {
    if k < l { ImageGrows(blocks, k, l); }
    if l < k { ImageGrows(blocks, l, k); }
  }

  class BootloaderManager {
    const protocolVersion: Quadlet
    const maxPayload: nat
    const file: seq<Byte>
    /** Commands made so far; the driver keeps this modulo 65536. */
    var issued: nat
    /** The request register and the request buffer of the device. */
    var request: seq<Byte>
    var buffer: seq<Byte>
    /** What was last read from its response register, if it could be read, and all that was read. */
    ghost var response: Option<seq<Byte>>
    ghost var log: seq<Exchange>
    /** Bus transactions that failed. */
    ghost var failures: nat

    constructor (version: Quadlet, payload: nat, contents: seq<Byte>)
      ensures protocolVersion == version && maxPayload == payload && file == contents
      ensures issued == failures == 0 && log == [] && response.None?
    {
      protocolVersion, maxPayload, file := version, payload, contents;
      issued, request, buffer, response, log, failures := 0, [], [], None, [], 0;
    }

    method NewCommand(code: Byte, request: Byte, response: Byte) returns (cmd: Command)
      modifies this`issued
      ensures issued == old(issued) + 1
      ensures cmd == Command(old(issued), protocolVersion, code, request, response)
    {
      cmd := Command(issued, protocolVersion, code, request, response);
      issued := issued + 1;
    }

    method WriteRequest(cmd: Command, operands: seq<Byte>) returns (ok: bool)
      modifies this`request, this`failures
      ensures failures == old(failures) + if ok then 0 else 1
      ensures ok ==> request == Serialize(cmd.Request()) + operands
    {
      ok := *;
      if !ok { failures := failures + 1; }
      if ok { request := Serialize(cmd.Request()) + operands; }
    }

    method WriteBuffer(data: seq<Byte>) returns (ok: bool)
      modifies this`buffer, this`failures
      ensures failures == old(failures) + if ok then 0 else 1
      ensures ok ==> buffer == data
    {
      ok := *;
      if !ok { failures := failures + 1; }
      if ok { buffer := data; }
    }

    /** Whatever the response register holds. */
    method ReadRegister(bytes: nat) returns (ok: bool, raw: seq<Byte>)
      modifies this`response, this`failures, this`log
      ensures failures == old(failures) + if ok then 0 else 1
      ensures response == if ok then Some(raw) else None
      ensures log == old(log) + if ok then [Exchange(request, buffer, raw)] else []
      ensures |raw| == bytes
    {
      ok := *;
      raw := [];
      while |raw| < bytes
        invariant |raw| <= bytes
      {
        var b: int := *;
        raw := raw + [b % 256];
      }
      if !ok { failures := failures + 1; }
      response := if ok then Some(raw) else None;
      if ok { log := log + [Exchange(request, buffer, raw)]; }
    }

    /** True exactly when a reply was read and answers this very command. */
    method ReadResponse(cmd: Command) returns (ok: bool, read: bool, raw: seq<Byte>)
      modifies this`response, this`failures, this`log
      ensures failures == old(failures) + if read then 0 else 1
      ensures response == if read then Some(raw) else None
      ensures log == old(log) + if read then [Exchange(request, buffer, raw)] else []
      ensures |raw| == 4 * (2 + cmd.response)
      ensures ok <==> read && Answers(raw, cmd)
    {
      var bytes: int := cmd.response;
      read, raw := ReadRegister(4 * (2 + bytes));
      ok := read && Answers(raw, cmd);
    }

    lemma RequestFields(cmd: Command, i: Quadlet, address: Quadlet, size: Quadlet)
      ensures var r := Serialize(cmd.Request()) + (Le32(i) + Le32(address) + Le32(size));
        && |r| == 20 && r[..8] == Serialize(cmd.Request())
        && FromLe32(r, 8) == i && FromLe32(r, 12) == address && FromLe32(r, 16) == size
    {
      var h := Serialize(cmd.Request());
      var r := h + (Le32(i) + Le32(address) + Le32(size));
      QuadletRoundTrip(i, h, Le32(address) + Le32(size));
      assert r == h + Le32(i) + (Le32(address) + Le32(size));
      QuadletRoundTrip(address, h + Le32(i), Le32(size));
      assert r == h + Le32(i) + Le32(address) + Le32(size);
      QuadletRoundTrip(size, h + Le32(i) + Le32(address), []);
      assert r == h + Le32(i) + Le32(address) + Le32(size) + [];
    }

    /** One block: buffer, request, reply. Without failed transactions the block is in the buffer, its
        number, address and size are in the request, and it counts as acknowledged exactly if the reply
        read for it says so; with one it never does. */
    method SendBlock(i: Quadlet, address: Quadlet, block: seq<Byte>) returns (acked: bool, fatal: bool, ghost b: Block)
      requires |block| < WRAP
      modifies this
      ensures issued <= old(issued) + 1 && failures >= old(failures)
      ensures failures != old(failures) ==> !acked
      ensures old(log) <= log
      ensures failures == old(failures) ==>
        && !fatal && issued == old(issued) + 1 && |log| == |old(log)| + 1 && Carried(log[|old(log)|], b)
        && b.seqNumber == i && b.address == address && b.data == block
        && b.cmd == Command(old(issued), protocolVersion, DOWNLOAD_BLOCK, 3, 2) && (acked <==> Acknowledged(b))
    {
      acked, fatal := false, false;
      b := Block(i, address, block, Command(0, 0, 0, 0, 0), []);
      var written := WriteBuffer(block);
      if !written { fatal := true; return; }
      var c := NewCommand(DOWNLOAD_BLOCK, 3, 2);
      written := WriteRequest(c, Le32(i) + Le32(address) + Le32(|block|));
      if !written { return; }
      RequestFields(c, i, address, |block|);
      var good, _, raw := ReadResponse(c);
      b := Block(i, address, block, c, raw);
      if !good { return; }
      if i != FromLe32(raw, 8) { return; }
      if FromLe32(raw, 12) != 0 { return; }
      acked := true;
    }

    /** The acknowledged blocks tile the first done bytes of the object and carry its bytes. */
    ghost predicate Sent(acked: seq<Block>, base: Quadlet, offset: nat, done: nat) {
      && Tiled(acked, base) && |Image(acked)| == done
      && (done > 0 ==> offset + done <= |file| && Image(acked) == file[offset..offset + done])
      && (forall k :: 0 <= k < |acked| ==> Acknowledged(acked[k]) && |acked[k].data| <= maxPayload)
      && (forall k :: 0 <= k < |acked| ==> acked[k].cmd.number == acked[0].cmd.number + k)
    }

    /** Every block has the maximal size, except that one that completes the object may be shorter. */
    ghost predicate Filled(acked: seq<Block>, length: nat) {
      forall k :: 0 <= k < |acked| ==>
        |acked[k].data| == maxPayload || (k == |acked| - 1 && |acked[k].data| < maxPayload && |Image(acked)| == length)
    }

    lemma SentMore(acked: seq<Block>, base: Quadlet, offset: nat, done: nat, size: nat, b: Block)
      requires Sent(acked, base, offset, done) && 0 < size <= maxPayload && offset + done + size <= |file|
      requires b.seqNumber == |acked| && b.address == (base + done) % WRAP
      requires b.data == file[offset + done..offset + done + size] && Acknowledged(b)
      requires acked != [] ==> b.cmd.number == acked[0].cmd.number + |acked|
      ensures Sent(acked + [b], base, offset, done + size)
    {
      hide Tiled, Image, Acknowledged;
      TiledSnoc(acked, base, b);
      assert file[offset..offset + done + size] == file[offset..offset + done] + b.data;
    }

    /** Announces the object: kind, date, time, id and version of the software, then where it goes,
        its length and its CRC. */
    method StartDownload(kind: Quadlet, software: seq<Byte>, base: Quadlet, length: Quadlet, crc: Quadlet)
      returns (ok: bool)
      requires |software| == 24
      modifies this
      ensures failures >= old(failures) && issued == old(issued) + 1 && (failures != old(failures) ==> !ok)
      ensures old(log) <= log && (|log| > |old(log)| <==> failures == old(failures))
      ensures failures == old(failures) ==>
        && |log| == |old(log)| + 1
        && Announces(log[|old(log)|].request, protocolVersion, old(issued), kind, software, base, length, crc)
        && (ok <==> StartAccepted(log[|old(log)|], Command(old(issued), protocolVersion, DOWNLOAD_START, 10, 1)))
    {
      var start := NewCommand(DOWNLOAD_START, 10, 1);
      var good := WriteRequest(start, Le32(kind) + software + Le32(base) + Le32(length) + Le32(crc));
      if !good { return false; }
      StartFields(start, kind, software, base, length, crc);
      var read, raw;
      good, read, raw := ReadResponse(start);
      ok := good && FromLe32(raw, 8) < 0x8000_0000;
    }

    lemma StartFields(start: Command, kind: Quadlet, software: seq<Byte>, base: Quadlet, length: Quadlet,
                      crc: Quadlet)
      requires |software| == 24 && start.code == DOWNLOAD_START && start.request == 10
      ensures var operands := Le32(kind) + software + Le32(base) + Le32(length) + Le32(crc);
        Announces(Serialize(start.Request()) + operands, start.version, start.number, kind, software, base, length, crc)
    {
      var operands := Le32(kind) + software + Le32(base) + Le32(length) + Le32(crc);
      SerializeStarts(start, operands);
      assert (Serialize(start.Request()) + operands)[12..36] == software;
    }

    method SendImage(baseAddress: Quadlet, length: Quadlet, offset: Quadlet)
      returns (result: bool, fatal: bool, ghost acked: seq<Block>, ghost done: nat, ghost last: Block)
      requires maxPayload > 0 && |file| < 0x8000_0000
      modifies this
      ensures Sent(acked, baseAddress, offset, done) && done == |Image(acked)| <= length && failures >= old(failures)
      ensures done == length <==> result && !fatal
      ensures Filled(acked, length)
      ensures fatal ==> failures != old(failures)
      ensures old(log) <= log && AllCarried(log, |old(log)|, acked)
      ensures failures == old(failures) && !result && offset + length <= |file| ==>
        AllCarried(log, |old(log)|, acked + [last]) && last.seqNumber == |acked| && !Acknowledged(last)
    {
      hide Sent, Tiled, Image, Acknowledged, Carried;
      last := Block(0, 0, [], Command(0, 0, 0, 0, 0), []);
      result, fatal, acked, done := true, false, [], 0;
      SentNothing(baseAddress, offset);
      var left, i := length, 0;
      ghost var first := issued;
      while left > 0
        invariant 0 <= left && done + left == length && 0 <= i == |acked| <= done
        invariant Sent(acked, baseAddress, offset, done) && result && !fatal && failures == old(failures)
        invariant old(log) <= log && |log| == |old(log)| + |acked| && AllCarried(log, |old(log)|, acked)
        invariant done == |Image(acked)| && Filled(acked, length)
        invariant left > 0 ==> forall k :: 0 <= k < |acked| ==> |acked[k].data| == maxPayload
        invariant issued == first + i && (acked != [] ==> acked[0].cmd.number == first)
      {
        var blockSize := if left > maxPayload then maxPayload else left;
        var at := offset + length - left;
        if at + blockSize > |file| { result := false; return; }
        var address := (baseAddress + length - left) % WRAP;
        var ack, bad;
        ack, bad, last := SendBlock(i, address, file[at..at + blockSize]);
        if bad { fatal := true; return; }
        if !ack { result := false; return; }
        SentMore(acked, baseAddress, offset, done, blockSize, last);
        SentLength(acked + [last], baseAddress, offset, done + blockSize);
        acked, done := acked + [last], done + blockSize;
        left, i := left - blockSize, i + 1;
      }
    }

    lemma SentLength(acked: seq<Block>, base: Quadlet, offset: nat, done: nat)
      requires Sent(acked, base, offset, done)
      ensures |Image(acked)| == done
    {}

    lemma SentNothing(base: Quadlet, offset: nat)
      ensures Sent([], base, offset, 0) && Image([]) == []
    {}

    /** The fields the driver compares after the end command: those of the reply if one was read,
        otherwise whatever the object happened to hold. A reply is read unless a transaction fails;
        it need not answer the end command, since that is only logged. */
    method EndDownload() returns (respCrc: int, respValid: int, ghost end: Command)
      modifies this
      ensures old(log) <= log && failures >= old(failures) && issued == old(issued) + 1
      ensures end == Command(old(issued), protocolVersion, DOWNLOAD_END, 0, 2)
      ensures failures == old(failures) ==> response.Some? && request == Serialize(end.Request()) + [0, 0, 0, 0]
      ensures response.Some? ==>
        && log == old(log) + [Exchange(request, buffer, response.value)] && |response.value| == 16
        && respCrc == FromLe32(response.value, 8) && respValid == FromLe32(response.value, 12)
    {
      var cmd := NewCommand(DOWNLOAD_END, 0, 2);
      end := cmd;
      var _ := WriteRequest(cmd, [0, 0, 0, 0]);
      var good, read, raw := ReadResponse(cmd);
      respCrc, respValid := *, *;
      if read { respCrc, respValid := FromLe32(raw, 8), FromLe32(raw, 12); }
    }

    /** The command the first reply was read for announces the object. The acknowledged blocks are those
        of the exchanges that followed it; end is the end command, if the driver got that far. A true
        result means: the blocks are numbered 0, 1, ..., tile the image without gap or overlap and carry
        the bytes of the file, and the reply read last, if one could be read, reports a valid object with the CRC of the file header. Without
        failed transactions it is true exactly when the start was accepted, all blocks were
        acknowledged and the last reply says so. That report is genuine exactly when it answers the
        end command, which the driver does not require. */
    method DownloadObject(kind: Quadlet, software: seq<Byte>, baseAddress: Quadlet, length: Quadlet, crc: Quadlet,
                          offset: Quadlet)
      returns (ok: bool, ghost acked: seq<Block>, ghost end: Option<Command>)
      requires |software| == 24 && maxPayload > 0 && |file| < 0x8000_0000
      modifies this
      ensures Sent(acked, baseAddress, offset, |Image(acked)|) && |Image(acked)| <= length
      ensures old(log) <= log && (acked != [] ==> AllCarried(log, |old(log)| + 1, acked))
      ensures Filled(acked, length)
      ensures |log| > |old(log)| ==>
        Announces(log[|old(log)|].request, protocolVersion, old(issued), kind, software, baseAddress, length, crc)
      ensures ok ==> end.Some? && |Image(acked)| == length
      ensures end.Some? ==> end.value.number + 1 == issued && end.value.code == 0x06
      ensures end.Some? && response.Some? ==>
        && (ok <==> |Image(acked)| == length && EndAccepted(response.value, crc))
        && (ok ==> (Genuine(response.value, end.value, crc) <==> Answers(response.value, end.value)))
      ensures failures == old(failures) ==>
        && |log| > |old(log)|
        && (end.Some? <==> StartAccepted(log[|old(log)|], Command(old(issued), protocolVersion, DOWNLOAD_START, 10, 1)))
        && (end.Some? ==> response.Some? && Carries(log[|log| - 1], end.value, response.value))
    {
      hide Sent, Image, FromLe32, AllCarried, Answers, Serialize, Announces;
      acked, end := [], None;
      SentNothing(baseAddress, offset);
      ok := StartDownload(kind, software, baseAddress, length, crc);
      if !ok { return; }
      var result, fatal;
      ghost var done, last;
      result, fatal, acked, done, last := SendImage(baseAddress, length, offset);
      if fatal { ok := false; return; }
      ghost var sent, cmd := log, Command(0, 0, 0, 0, 0);
      var respCrc, respValid;
      respCrc, respValid, cmd := EndDownload();
      end := Some(cmd);
      CarriedLonger(sent, log, |old(log)| + 1, acked);
      ok := result && respValid == 0 && respCrc == crc;
    }
  }
}
