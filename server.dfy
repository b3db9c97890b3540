/** The distributor: `handle_client`, one session per accepted connection. */
module Server {
  import opened Bytes
  import opened Text
  import opened Digest
  import opened Wire
  import opened Io
  import opened Transfer

  /** How a session ends. `BadOffset` and `SeekFailed` are exceptions that
      end the handler's thread; `AckMismatch` is the early `return`. */
  datatype ServeOutcome = Served | BadOffset | AckMismatch | SeekFailed

  /** What one session determines: how many control messages were read, the
      control messages and file blocks sent, and the outcome. */
  datatype ServeResult = ServeResult(
    taken: nat, sent: seq<string>, blocks: seq<seq<byte>>, outcome: ServeOutcome)

  /** The session as a function of the distributor's image and the control
      messages the node sends: its offset, then its acknowledgement. */
  function ServeSession(image: seq<byte>, incoming: seq<string>, hash: HashFunction): (r: ServeResult)
    ensures 1 <= r.taken <= 2 && |r.sent| == r.taken - 1
    ensures r.taken == 1 <==> r.outcome == BadOffset
    ensures r.blocks != [] ==> r.outcome == Served
    ensures r.outcome == Served ==>
      Nth(incoming, 1) == AckMetadata && ParseInt(Nth(incoming, 0)).Some? && ParseInt(Nth(incoming, 0)).value >= 0
  {
    match ParseInt(Nth(incoming, 0))
    case None => ServeResult(1, [], [], BadOffset)
    case Some(received) =>
      var metadata := FormatMetadata(ToHex(hash(image)), |image|);
      if Nth(incoming, 1) != AckMetadata then ServeResult(2, [metadata], [], AckMismatch)
      else if received < 0 then ServeResult(2, [metadata], [], SeekFailed)
      else ServeResult(2, [metadata], Blocks(Suffix(image, received), BlockSize), Served)
  }

  /** `handle_client(conn, addr)`. The image file exists: `start_server`
      refuses to start without it. */
  method HandleClient(firmware: FirmwareFile, conn: Connection, hash: HashFunction)
    returns (outcome: ServeOutcome)
    requires firmware.present
    modifies conn
    ensures var r := ServeSession(firmware.content, old(conn.controlIn), hash);
      && outcome == r.outcome
      && conn.controlIn == Suffix(old(conn.controlIn), r.taken)
      && conn.controlOut == old(conn.controlOut) + r.sent
      && conn.dataOut == old(conn.dataOut) + r.blocks
      && conn.dataIn == old(conn.dataIn)
  {
    var offsetMsg := conn.RecvControl();
    var parsed := ParseInt(offsetMsg);
    if parsed.None? {
      return BadOffset;
    }
    var received := parsed.value;
    var checksum := GenerateChecksum(firmware.content, hash);
    var fileSize := |firmware.content|;
    conn.SendControl(FormatMetadata(checksum, fileSize));
    var ack := conn.RecvControl();
    if ack != AckMetadata {
      return AckMismatch;
    }
    if received < 0 {
      return SeekFailed;
    }
    SendFrom(firmware.content, received as nat, conn);
    outcome := Served;
  }

  /** A malformed offset raises before anything is sent. */
  lemma MalformedOffsetSendsNothing(image: seq<byte>, incoming: seq<string>, hash: HashFunction)
    requires ParseInt(Nth(incoming, 0)).None?
    ensures var r := ServeSession(image, incoming, hash);
      r.sent == [] && r.blocks == [] && r.outcome == BadOffset
  {
  }

  /** `int` accepts a negative offset, so the metadata goes out and the
      acknowledgement is read; only `f.seek` then fails, before any byte is
      streamed. */
  lemma NegativeOffsetFailsAtSeek(image: seq<byte>, incoming: seq<string>, hash: HashFunction)
    requires ParseInt(Nth(incoming, 0)).Some? && ParseInt(Nth(incoming, 0)).value < 0
    requires Nth(incoming, 1) == AckMetadata
    ensures var r := ServeSession(image, incoming, hash);
      r.sent == [FormatMetadata(ToHex(hash(image)), |image|)] && r.blocks == [] && r.outcome == SeekFailed
  {
  }

  /** Once the offset parses, the one metadata message declares the image's
      own checksum and size, and it parses back to exactly those. */
  lemma MetadataDeclaresImage(image: seq<byte>, incoming: seq<string>, hash: HashFunction)
    requires ParseInt(Nth(incoming, 0)).Some?
    ensures var r := ServeSession(image, incoming, hash);
      && |r.sent| == 1
      && ParseMetadata(r.sent[0]) == Success(Metadata(ToHex(hash(image)), |image|))
  {
    MetadataRoundTrip(ToHex(hash(image)), |image|);
  }

  /** No byte is streamed unless the acknowledgement is exactly
      `ACK_METADATA`; with it and a valid offset, the stream is the image from
      the offset on, in blocks of at most `BlockSize` bytes, and is empty when
      the offset is at or past the end. */
  lemma StreamIsRequestedSuffix(image: seq<byte>, incoming: seq<string>, hash: HashFunction)
    ensures var r := ServeSession(image, incoming, hash);
      && (Nth(incoming, 1) != AckMetadata ==> r.blocks == [] && r.outcome != Served)
      && (r.blocks != [] ==> Nth(incoming, 1) == AckMetadata)
      && (r.outcome == Served ==>
            var offset := ParseInt(Nth(incoming, 0)).value;
            && offset >= 0
            && Flatten(r.blocks) == Suffix(image, offset)
            && (forall i :: 0 <= i < |r.blocks| ==> 0 < |r.blocks[i]| <= BlockSize)
            && (offset >= |image| ==> r.blocks == []))
  {
  }
}
