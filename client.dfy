/** The node: downloading the image from a source with resume
    (`receive_firmware_from_server`) and serving its own copy to a peer
    (the per-connection body of `start_p2p_listening`, and
    `send_firmware_to_peer`). */
module Client {
  import opened Bytes
  import opened Text
  import opened Digest
  import opened Wire
  import opened Io
  import opened Transfer

  // ---------------------------------------------------------------------
  // Receiving

  /** How a download ends: the file matches the declared checksum, it does
      not, or the metadata could not be parsed (the `except` branch). */
  datatype Outcome = Verified | ChecksumMismatch | Aborted(error: ParseError)

  /** Everything a download session determines: the control messages the
      node sent, the file afterwards, how many stream chunks it took, and the
      outcome. */
  datatype ReceiveResult = ReceiveResult(
    sent: seq<string>, present: bool, content: seq<byte>, consumed: nat, outcome: Outcome)

  /** The resume offset: the size of the local file, 0 when there is none. */
  function ResumeOffset(present: bool, content: seq<byte>): (r: nat)
    ensures present || content == [] ==> r == |content|
    ensures !present ==> r == 0
  {
    if present then |content| else 0
  }

  /** The mode the download opens its file in: appending when it already
      holds bytes, truncating otherwise. */
  function OpenModeFor(received: int): (r: OpenMode)
    ensures r == Append <==> received > 0
    ensures received >= 0 ==> (r == Truncate <==> received == 0)
  {
    if received > 0 then Append else Truncate
  }

  /** The download session as a function of the local file, the control
      messages the source sends (only the first is read) and the stream
      chunks that follow. */
  function ReceiveSession(present: bool, content: seq<byte>, incoming: seq<string>,
                          chunks: seq<seq<byte>>, hash: HashFunction): (r: ReceiveResult)
    requires NonEmpty(chunks)
    ensures |r.sent| >= 1 && r.sent[0] == Decimal(ResumeOffset(present, content))
    ensures r.sent[1..] == (if r.outcome.Aborted? then [] else [AckMetadata])
    ensures r.consumed <= |chunks|
    ensures r.outcome.Aborted? ==> r.present == present && r.content == content && r.consumed == 0
    ensures !r.outcome.Aborted? ==> r.present
  {
    var received := ResumeOffset(present, content);
    var request := Decimal(received);
    match ParseMetadata(Nth(incoming, 0))
    case Failure(e) => ReceiveResult([request], present, content, 0, Aborted(e))
    case Success(m) =>
      var kept := if OpenModeFor(received) == Append then content else [];
      var d := Drain(received, m.size, chunks);
      var final := kept + d.appended;
      ReceiveResult([request, AckMetadata], true, final, d.consumed,
                    if ToHex(hash(final)) == m.digest then Verified else ChecksumMismatch)
  }

  /** The resume offset, read from the file system: the size of the local
      file if it exists, and 0 if it does not. */
  method InitialOffset(file: FirmwareFile) returns (received: nat)
    requires file.Valid()
    ensures received == |file.content|
    ensures received == ResumeOffset(file.present, file.content)
  {
    if file.present {
      received := |file.content|;
    } else {
      received := 0;
    }
  }

  /** `receive_firmware_from_server` over an established connection. */
  method ReceiveFirmwareFromServer(file: FirmwareFile, conn: Connection, hash: HashFunction)
    returns (outcome: Outcome)
    requires file.Valid() && conn.Valid()
    modifies file, conn
    ensures var r := ReceiveSession(old(file.present), old(file.content), old(conn.controlIn),
                                    old(conn.dataIn), hash);
      && outcome == r.outcome
      && file.present == r.present && file.content == r.content
      && conn.controlOut == old(conn.controlOut) + r.sent
      && conn.controlIn == Suffix(old(conn.controlIn), 1)
      && conn.dataIn == old(conn.dataIn)[r.consumed..]
      && conn.dataOut == old(conn.dataOut)
    ensures file.Valid() && conn.Valid()
  {
    ghost var r := ReceiveSession(file.present, file.content, conn.controlIn, conn.dataIn, hash);
    var received := InitialOffset(file);
    conn.SendControl(Decimal(received));
    var metadata := conn.RecvControl();
    assert metadata == Nth(old(conn.controlIn), 0);
    var parsed := ParseMetadata(metadata);
    if parsed.Failure? {
      assert r == ReceiveResult([Decimal(received)], file.present, file.content, 0, Aborted(parsed.error));
      return Aborted(parsed.error);
    }
    var checksum, fileSize := parsed.value.digest, parsed.value.size;
    conn.SendControl(AckMetadata);
    ghost var kept := if OpenModeFor(received) == Append then file.content else [];
    ghost var d := Drain(received, fileSize, conn.dataIn);
    file.Open(OpenModeFor(received));
    assert file.content == kept;
    var _ := ReceiveInto(file, conn, received, fileSize);
    assert file.content == kept + d.appended;
    var local := GenerateChecksum(file.content, hash);
    if local == checksum {
      outcome := Verified;
    } else {
      outcome := ChecksumMismatch;
    }
    assert r == ReceiveResult([Decimal(received), AckMetadata], true, file.content, d.consumed, outcome);
  }

  /** A malformed metadata message ends the session in the `except` branch:
      no colon, more than one colon, or a size `int` refuses. The node has
      sent only its offset (no acknowledgement), has not opened the file, and
      has taken nothing from the stream. */
  lemma MalformedMetadataAborts(present: bool, content: seq<byte>, incoming: seq<string>,
                                chunks: seq<seq<byte>>, hash: HashFunction)
    requires NonEmpty(chunks)
    ensures var msg := Nth(incoming, 0);
      var r := ReceiveSession(present, content, incoming, chunks, hash);
      && (Occurrences(msg, ':') == 0 ==> r.outcome == Aborted(FieldCount(1)))
      && (Occurrences(msg, ':') > 1 ==> r.outcome == Aborted(FieldCount(Occurrences(msg, ':') + 1)))
      && (r.outcome.Aborted? <==> ParseMetadata(msg).Failure?)
      && (r.outcome.Aborted? ==>
            && r.sent == [Decimal(ResumeOffset(present, content))]
            && r.present == present && r.content == content && r.consumed == 0)
  {
  }

  /** Whichever way the file is opened, the download leaves the bytes the
      node held followed by the chunks the loop took: with offset 0 the file
      is exactly the streamed bytes (any stale content is gone), with a
      positive offset the streamed bytes follow the old content. The file's
      length is the offset plus what was received, and the file is kept
      whatever the checksum says. */
  lemma DownloadAppendsToHeldBytes(present: bool, content: seq<byte>, incoming: seq<string>,
                                   chunks: seq<seq<byte>>, hash: HashFunction)
    requires present || content == []
    requires ParseMetadata(Nth(incoming, 0)).Success?
    requires NonEmpty(chunks)
    ensures var m := ParseMetadata(Nth(incoming, 0)).value;
      var received := ResumeOffset(present, content);
      var r := ReceiveSession(present, content, incoming, chunks, hash);
      && r.sent == [Decimal(received), AckMetadata]
      && r.present
      && r.content == content + Flatten(chunks[..r.consumed])
      && (received == 0 ==> r.content == Flatten(chunks[..r.consumed]))
      && |r.content| == received + |Flatten(chunks[..r.consumed])|
      && (r.outcome == Verified <==> ToHex(hash(r.content)) == m.digest)
      && (r.outcome != Verified ==> r.outcome == ChecksumMismatch)
  {
  }

  /** When the node already holds at least the declared size, nothing is
      read and the verification runs over the untouched file. */
  lemma NothingReadWhenComplete(present: bool, content: seq<byte>, incoming: seq<string>,
                                chunks: seq<seq<byte>>, hash: HashFunction)
    requires present || content == []
    requires ParseMetadata(Nth(incoming, 0)).Success?
    requires ResumeOffset(present, content) >= ParseMetadata(Nth(incoming, 0)).value.size
    requires NonEmpty(chunks)
    ensures var r := ReceiveSession(present, content, incoming, chunks, hash);
      && r.content == content && r.consumed == 0
      && (r.outcome == Verified <==> ToHex(hash(content)) == ParseMetadata(Nth(incoming, 0)).value.digest)
  {
  }

  /** When the source delivers exactly the missing `size - offset` bytes,
      however they are split into chunks, the node takes them all and ends
      with a file of the declared size. */
  lemma ExactDeliveryReachesDeclaredSize(present: bool, content: seq<byte>, incoming: seq<string>,
                                         chunks: seq<seq<byte>>, hash: HashFunction)
    requires present || content == []
    requires ParseMetadata(Nth(incoming, 0)).Success?
    requires NonEmpty(chunks)
    requires |content| + |Flatten(chunks)| == ParseMetadata(Nth(incoming, 0)).value.size
    ensures var r := ReceiveSession(present, content, incoming, chunks, hash);
      && r.consumed == |chunks|
      && r.content == content + Flatten(chunks)
      && |r.content| == ParseMetadata(Nth(incoming, 0)).value.size
  {
    var m := ParseMetadata(Nth(incoming, 0)).value;
    DrainTakesShortStream(ResumeOffset(present, content), m.size, chunks);
  }

  // ---------------------------------------------------------------------
  // Serving a peer

  /** How one peer connection ends. All but `PeerServed` and `NotRequested`
      are exceptions the Python code does not catch. */
  datatype PeerOutcome =
    | PeerServed
    | NotRequested
    | BadPeerMessage(error: ParseError)
    | NoLocalFirmware
    | PeerSeekFailed

  /** What one peer connection determines: how many control messages were
      read, the control messages and file blocks sent, and the outcome. */
  datatype PeerResult = PeerResult(
    taken: nat, sent: seq<string>, blocks: seq<seq<byte>>, outcome: PeerOutcome)

  /** The body of the `with conn:` block of `start_p2p_listening`, as a
      function of the node's own file and the peer's control messages. */
  function PeerSession(present: bool, image: seq<byte>, incoming: seq<string>,
                       hash: HashFunction): (r: PeerResult)
    ensures 1 <= r.taken <= 2 && |r.sent| == r.taken - 1
    ensures r.taken == 2 <==> present && ParseMetadata(Nth(incoming, 0)).Success?
    ensures r.blocks != [] ==> r.outcome == PeerServed
    ensures r.outcome == PeerServed ==> present && Nth(incoming, 1) == RequestUpdate
  {
    match ParseMetadata(Nth(incoming, 0))
    case Failure(e) => PeerResult(1, [], [], BadPeerMessage(e))
    case Success(m) =>
      if !present then PeerResult(1, [], [], NoLocalFirmware)
      else
        var reply := FormatMetadata(ToHex(hash(image)), |image|);
        if Nth(incoming, 1) != RequestUpdate then PeerResult(2, [reply], [], NotRequested)
        else if m.size < 0 then PeerResult(2, [reply], [], PeerSeekFailed)
        else PeerResult(2, [reply], Blocks(Suffix(image, m.size), BlockSize), PeerServed)
  }

  /** `send_firmware_to_peer(conn, received)`: opening the file fails when
      it does not exist and seeking fails on a negative offset; otherwise the
      file's bytes from `received` on are sent. */
  method SendFirmwareToPeer(file: FirmwareFile, conn: Connection, received: int) returns (ok: bool)
    modifies conn
    ensures ok == (file.present && received >= 0)
    ensures conn.dataOut == old(conn.dataOut)
              + (if ok then Blocks(Suffix(file.content, received as nat), BlockSize) else [])
    ensures conn.controlIn == old(conn.controlIn) && conn.dataIn == old(conn.dataIn)
    ensures conn.controlOut == old(conn.controlOut)
  {
    if !file.present || received < 0 {
      return false;
    }
    SendFrom(file.content, received as nat, conn);
    ok := true;
  }

  /** One peer connection of `start_p2p_listening`. */
  method ServePeer(file: FirmwareFile, conn: Connection, hash: HashFunction) returns (outcome: PeerOutcome)
    requires file.Valid()
    modifies conn
    ensures var r := PeerSession(file.present, file.content, old(conn.controlIn), hash);
      && outcome == r.outcome
      && conn.controlIn == Suffix(old(conn.controlIn), r.taken)
      && conn.controlOut == old(conn.controlOut) + r.sent
      && conn.dataOut == old(conn.dataOut) + r.blocks
      && conn.dataIn == old(conn.dataIn)
  {
    var peerData := conn.RecvControl();
    var parsed := ParseMetadata(peerData);
    if parsed.Failure? {
      return BadPeerMessage(parsed.error);
    }
    var receivedBytes := parsed.value.size;
    if !file.present {
      return NoLocalFirmware;
    }
    var localChecksum := GenerateChecksum(file.content, hash);
    var fileSize := |file.content|;
    conn.SendControl(FormatMetadata(localChecksum, fileSize));
    var request := conn.RecvControl();
    if request == RequestUpdate {
      var ok := SendFirmwareToPeer(file, conn, receivedBytes);
      outcome := if ok then PeerServed else PeerSeekFailed;
    } else {
      outcome := NotRequested;
    }
  }

  /** The node always answers a well-formed peer message with its own
      `checksum:size` (when it holds a file), and streams bytes only when the
      next message is exactly `REQUEST_UPDATE`; those bytes are its file from
      the peer's count on. */
  lemma PeerStreamsOnlyOnRequest(image: seq<byte>, incoming: seq<string>, hash: HashFunction)
    requires ParseMetadata(Nth(incoming, 0)).Success?
    ensures var r := PeerSession(true, image, incoming, hash);
      var m := ParseMetadata(Nth(incoming, 0)).value;
      && r.sent == [FormatMetadata(ToHex(hash(image)), |image|)]
      && ParseMetadata(r.sent[0]) == Success(Metadata(ToHex(hash(image)), |image|))
      && (r.blocks != [] ==> Nth(incoming, 1) == RequestUpdate)
      && (Nth(incoming, 1) == RequestUpdate && m.size >= 0 ==>
            && r.outcome == PeerServed
            && Flatten(r.blocks) == Suffix(image, m.size))
  {
    MetadataRoundTrip(ToHex(hash(image)), |image|);
  }

  /** The peer's own checksum is parsed but never used: two peer messages
      that differ only in it lead to the same session. */
  lemma PeerChecksumIsIgnored(present: bool, image: seq<byte>, d1: string, d2: string,
                              count: string, rest: seq<string>, hash: HashFunction)
    requires ':' !in d1 && ':' !in d2
    ensures PeerSession(present, image, [d1 + ":" + count] + rest, hash)
         == PeerSession(present, image, [d2 + ":" + count] + rest, hash)
  {
    SplitAtFirst(d1, ':', count);
    SplitAtFirst(d2, ':', count);
    assert d1 + ":" + count == d1 + [':'] + count;
    assert d2 + ":" + count == d2 + [':'] + count;
    var i1, i2 := [d1 + ":" + count] + rest, [d2 + ":" + count] + rest;
    assert Nth(i1, 1) == Nth(i2, 1);
  }
}
