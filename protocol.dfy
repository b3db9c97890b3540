/** The two ends together: a node's download session run against the
    distributor's session, the stream re-split arbitrarily by the network. */
module Protocol {
  import opened Bytes
  import opened Text
  import opened Digest
  import opened Wire
  import opened Io
  import opened Transfer
  import Client
  import Server

  /** Resume from a correct prefix. A node holding `image[..k]` (no file at
      all when `k` is 0 is allowed too) sends `k`; the distributor answers
      with its metadata and streams `image[k..]`; the node acknowledges,
      takes the stream however it is split into chunks, and ends with a file
      identical to the image that passes verification. */
  lemma {:induction false} ResumeFromCorrectPrefix(image: seq<byte>, k: nat, present: bool,
                                                   chunks: seq<seq<byte>>, hash: HashFunction)
    requires k <= |image| && (present || k == 0)
    requires NonEmpty(chunks) && Flatten(chunks) == image[k..]
    ensures var srv := Server.ServeSession(image, [Decimal(k), AckMetadata], hash);
      var cli := Client.ReceiveSession(present, image[..k], srv.sent, chunks, hash);
      && srv.outcome == Server.Served
      && Flatten(srv.blocks) == Flatten(chunks)
      && cli.sent == [Decimal(k), AckMetadata]
      && cli.consumed == |chunks|
      && cli.content == image
      && cli.outcome == Client.Verified
  {
    var srv := Server.ServeSession(image, [Decimal(k), AckMetadata], hash);
    DecimalRoundTrip(k);
    assert Nth([Decimal(k), AckMetadata], 1) == AckMetadata;
    var hex := ToHex(hash(image));
    MetadataRoundTrip(hex, |image|);
    assert srv.sent == [FormatMetadata(hex, |image|)];
    assert Nth(srv.sent, 0) == FormatMetadata(hex, |image|);
    DrainTakesShortStream(k, |image|, chunks);
    assert image[..k] + image[k..] == image;
  }

  /** Interrupted, then resumed. A first session from nothing loses the
      connection after `k` bytes and leaves exactly `image[..k]` on disk; a
      second session resumes from there, asking for offset `k`, and
      completes the image with exactly the distributor's stream from `k`.
      The result is the file one uninterrupted session over both streams
      would have left. */
  lemma InterruptedThenResumed(image: seq<byte>, k: nat, first: seq<seq<byte>>,
                               second: seq<seq<byte>>, hash: HashFunction)
    requires k <= |image|
    requires NonEmpty(first) && Flatten(first) == image[..k]
    requires NonEmpty(second) && Flatten(second) == image[k..]
    ensures var metadata := [FormatMetadata(ToHex(hash(image)), |image|)];
      var one := Client.ReceiveSession(false, [], metadata, first, hash);
      var two := Client.ReceiveSession(one.present, one.content, metadata, second, hash);
      && one.present && one.content == image[..k]
      && two.content == image && two.outcome == Client.Verified
      && two.sent[0] == Decimal(k)
      && Flatten(Server.ServeSession(image, [Decimal(k), AckMetadata], hash).blocks) == Flatten(second)
      && NonEmpty(first + second)
      && var whole := Client.ReceiveSession(false, [], metadata, first + second, hash);
         whole.content == two.content && whole.outcome == two.outcome
  {
    var hex := ToHex(hash(image));
    var metadata := [FormatMetadata(hex, |image|)];
    MetadataRoundTrip(hex, |image|);
    DrainTakesShortStream(0, |image|, first);
    var one := Client.ReceiveSession(false, [], metadata, first, hash);
    assert one.present && one.content == image[..k];
    ResumeFromCorrectPrefix(image, k, true, second, hash);
    var srv := Server.ServeSession(image, [Decimal(k), AckMetadata], hash);
    assert srv.sent == metadata;
    var two := Client.ReceiveSession(true, image[..k], metadata, second, hash);
    assert two.content == image && two.outcome == Client.Verified;
    UninterruptedSession(image, k, first, second, hash);
  }

  /** One session over both streams, from nothing, ends with the image,
      verified. */
  lemma UninterruptedSession(image: seq<byte>, k: nat, first: seq<seq<byte>>,
                             second: seq<seq<byte>>, hash: HashFunction)
    requires k <= |image|
    requires NonEmpty(first) && Flatten(first) == image[..k]
    requires NonEmpty(second) && Flatten(second) == image[k..]
    ensures NonEmpty(first + second)
    ensures var metadata := [FormatMetadata(ToHex(hash(image)), |image|)];
      var whole := Client.ReceiveSession(false, [], metadata, first + second, hash);
      whole.content == image && whole.outcome == Client.Verified
  {
    FlattenAppend(first, second);
    NonEmptyAppend(first, second);
    assert image[..k] + image[k..] == image;
    MetadataRoundTrip(ToHex(hash(image)), |image|);
    DrainTakesShortStream(0, |image|, first + second);
  }

  /** Corruption is detected. A node whose held prefix differs from the
      image's ends, after a complete stream, with a file that is not the
      image, and the file is kept. Verification reports success exactly when
      SHA-256 collides on the two contents, and a mismatch otherwise. */
  lemma CorruptPrefixIsDetected(image: seq<byte>, local: seq<byte>,
                                chunks: seq<seq<byte>>, hash: HashFunction)
    requires |local| <= |image| && local != image[..|local|]
    requires NonEmpty(chunks) && Flatten(chunks) == image[|local|..]
    ensures var srv := Server.ServeSession(image, [Decimal(|local|), AckMetadata], hash);
      var cli := Client.ReceiveSession(true, local, srv.sent, chunks, hash);
      && cli.content == local + image[|local|..]
      && cli.content != image
      && (cli.outcome == Client.Verified <==> hash(cli.content) == hash(image))
      && (cli.outcome != Client.Verified ==> cli.outcome == Client.ChecksumMismatch)
  {
    var k := |local|;
    var srv := Server.ServeSession(image, [Decimal(k), AckMetadata], hash);
    DecimalRoundTrip(k);
    assert Nth([Decimal(k), AckMetadata], 1) == AckMetadata;
    var hex := ToHex(hash(image));
    MetadataRoundTrip(hex, |image|);
    assert Nth(srv.sent, 0) == FormatMetadata(hex, |image|);
    DrainTakesShortStream(k, |image|, chunks);
    var final := local + image[k..];
    assert final[..k] == local;
    if ToHex(hash(final)) == hex {
      ToHexInjective(hash(final), hash(image));
    }
  }

  /** A node holding at least as many bytes as the image (complete, or a
      stale larger file) receives nothing and keeps its file untouched; it
      verifies exactly when its content hashes like the image. */
  lemma OversizedLocalFileIsUntouched(image: seq<byte>, local: seq<byte>,
                                      chunks: seq<seq<byte>>, hash: HashFunction)
    requires |local| >= |image|
    requires NonEmpty(chunks)
    ensures var srv := Server.ServeSession(image, [Decimal(|local|), AckMetadata], hash);
      var cli := Client.ReceiveSession(true, local, srv.sent, chunks, hash);
      && srv.blocks == []
      && cli.content == local && cli.consumed == 0
      && (cli.outcome == Client.Verified <==> hash(local) == hash(image))
  {
    var k := |local|;
    var srv := Server.ServeSession(image, [Decimal(k), AckMetadata], hash);
    DecimalRoundTrip(k);
    assert Nth([Decimal(k), AckMetadata], 1) == AckMetadata;
    var hex := ToHex(hash(image));
    MetadataRoundTrip(hex, |image|);
    assert Nth(srv.sent, 0) == FormatMetadata(hex, |image|);
    assert Suffix(image, k) == [];
    assert Drain(k, |image|, chunks) == Drained([], 0);
    var cli := Client.ReceiveSession(true, local, srv.sent, chunks, hash);
    assert cli.content == local + [];
    if ToHex(hash(local)) == hex {
      ToHexInjective(hash(local), hash(image));
    }
  }

  /** The same exchange whichever node is the source: a node serving a peer
      that reports `k` bytes sends the same metadata and the same blocks as
      the distributor does for offset `k`. */
  lemma PeerServesLikeDistributor(image: seq<byte>, peerDigest: string, k: nat, hash: HashFunction)
    requires ':' !in peerDigest
    ensures var peer := Client.PeerSession(true, image, [FormatMetadata(peerDigest, k), RequestUpdate], hash);
      var srv := Server.ServeSession(image, [Decimal(k), AckMetadata], hash);
      && peer.outcome == Client.PeerServed && srv.outcome == Server.Served
      && peer.sent == srv.sent && peer.blocks == srv.blocks
  {
    MetadataRoundTrip(peerDigest, k);
    DecimalRoundTrip(k);
    assert Nth([FormatMetadata(peerDigest, k), RequestUpdate], 1) == RequestUpdate;
    assert Nth([Decimal(k), AckMetadata], 1) == AckMetadata;
  }

  /** The node's download session opens with a bare offset, but its peer
      listener expects `checksum:bytes`: pointed at a peer, the download's
      first message is refused with a one-field unpack error before anything
      is sent back. */
  lemma BareOffsetIsRefusedByPeer(present: bool, image: seq<byte>, k: nat, rest: seq<string>, hash: HashFunction)
    ensures Client.PeerSession(present, image, [Decimal(k)] + rest, hash)
         == Client.PeerResult(1, [], [], Client.BadPeerMessage(FieldCount(1)))
  {
    DecimalHasNoNonDigit(k, ':');
    SplitWithoutSeparator(Decimal(k), ':');
    assert Nth([Decimal(k)] + rest, 0) == Decimal(k);
  }
}
