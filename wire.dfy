/** The control messages of the transfer protocol: the literal tokens, and
    the `digest:size` message in both directions. */
module Wire {
  import opened Text

  /** The receiver's acknowledgement of the metadata (client.py:47, server.py:67). */
  const AckMetadata: string := "ACK_METADATA"

  /** A peer's request to go on with the transfer (client.py:85). */
  const RequestUpdate: string := "REQUEST_UPDATE"

  /** The two fields of a `digest:size` message. The size is whatever `int`
      made of the second field, so it may be negative. */
  datatype Metadata = Metadata(digest: string, size: int)

  /** Why the parse raised `ValueError`: the split did not give exactly two
      fields to unpack, or `int` refused the second field. */
  datatype ParseError = FieldCount(fields: nat) | NotAnInteger(field: string)

  datatype Result<T> = Success(value: T) | Failure(error: ParseError)

  /** The metadata message: the digest, a colon, and the size in decimal. */
  function FormatMetadata(digest: string, size: nat): (r: string)
    ensures ':' !in digest ==> Split(r, ':') == [digest, Decimal(size)]
    ensures ':' !in digest ==> Occurrences(r, ':') == 1
  {
    var tail := Decimal(size);
    if ':' in digest then digest + ":" + tail
    else
      DecimalHasNoNonDigit(size, ':');
      SplitAtFirst(digest, ':', tail);
      SplitWithoutSeparator(tail, ':');
      assert digest + ":" + tail == digest + [':'] + tail;
      SplitCount(digest + ":" + tail, ':');
      digest + ":" + tail
  }

  /** In `a + sep + b` with no `sep` in `a` or `b`, the only `sep` is at `|a|`. */
  lemma OnlySeparatorAt(s: string, sep: char, a: string, b: string)
    requires s == a + [sep] + b && sep !in a && sep !in b
    ensures forall i :: 0 <= i < |s| && i != |a| ==> s[i] != sep
  {
    forall i | 0 <= i < |s| && i != |a|
      ensures s[i] != sep
    {
      if i < |a| {
        assert s[i] == a[i];
      } else {
        assert s[i] == b[i - |a| - 1];
      }
    }
  }

  /** Splitting the message at `:` into exactly two fields, then `int` of the
      second. It succeeds exactly when
      the message holds one `:` and the text after it is an integer; the
      digest is then the text before the colon. */
  function ParseMetadata(msg: string): (r: Result<Metadata>)
    ensures Occurrences(msg, ':') != 1 ==> r == Failure(FieldCount(Occurrences(msg, ':') + 1))
    ensures Occurrences(msg, ':') == 1 && r.Failure? ==> r.error.NotAnInteger?
    ensures r.Success? ==>
      var d := r.value.digest;
      && |d| < |msg| && msg[..|d|] == d && msg[|d|] == ':'
      && ':' !in d && ':' !in msg[|d| + 1..]
      && ParseInt(msg[|d| + 1..]) == Some(r.value.size)
    ensures forall i :: 0 <= i < |msg| && msg[i] == ':' && Occurrences(msg, ':') == 1 && ParseInt(msg[i + 1..]).Some? ==>
      r == Success(Metadata(msg[..i], ParseInt(msg[i + 1..]).value))
    ensures forall i :: 0 <= i < |msg| && msg[i] == ':' && Occurrences(msg, ':') == 1 && ParseInt(msg[i + 1..]).None? ==>
      r == Failure(NotAnInteger(msg[i + 1..]))
  {
    var fields := Split(msg, ':');
    SplitCount(msg, ':');
    if |fields| != 2 then Failure(FieldCount(|fields|))
    else
      SplitTwoFields(msg, ':');
      assert msg[..|fields[0]|] == fields[0] && msg[|fields[0]| + 1..] == fields[1];
      OnlySeparatorAt(msg, ':', fields[0], fields[1]);
      match ParseInt(fields[1])
      case None => Failure(NotAnInteger(fields[1]))
      case Some(n) => Success(Metadata(fields[0], n))
  }

  /** Parsing a formatted message gives back its two fields, provided the
      digest holds no colon (a hex digest never does). */
  lemma MetadataRoundTrip(digest: string, size: nat)
    requires ':' !in digest
    ensures ParseMetadata(FormatMetadata(digest, size)) == Success(Metadata(digest, size))
  {
    DecimalRoundTrip(size);
  }
}
