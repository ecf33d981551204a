/** Peer records in DNS TXT: joining a record's character strings back into one
    payload, and scanning a packet for the first record that decodes. */
module TxtRecord {
  import opened Base
  import opened Discovery

  const EQUALS: byte := 0x3D

  /** One character string as the DNS library hands it over: the bytes before its
      first '=', and the bytes after it if there is one. */
  datatype Pair = Pair(key: Bytes, value: Option<Bytes>)

  function SplitAtEquals(s: Bytes): (pair: Pair)
    ensures 0x3D !in pair.key
    ensures pair.value.None? <==> 0x3D !in s
  {
    if s == [] then Pair([], None)
    else if s[0] == EQUALS then Pair([], Some(s[1..]))
    else
      var rest := SplitAtEquals(s[1..]);
      assert s == [s[0]] + s[1..];
      Pair([s[0]] + rest.key, rest.value)
  }

  function JoinPair(pair: Pair): Bytes {
    pair.key + match pair.value case None => [] case Some(value) => [EQUALS] + value
  }

  function Joined(pairs: seq<Pair>): Bytes {
    if pairs == [] then [] else Joined(pairs[..|pairs| - 1]) + JoinPair(pairs[|pairs| - 1])
  }

  method ReassembleTxtBytes(pairs: seq<Pair>) returns (joined: Bytes)
    ensures joined == Joined(pairs)
  {
    joined := [];
    for i := 0 to |pairs|
      invariant joined == Joined(pairs[..i])
    {
      assert pairs[..i + 1][..i] == pairs[..i];
      joined := joined + pairs[i].key;
      match pairs[i].value {
        case None =>
        case Some(value) => joined := joined + [EQUALS] + value;
      }
    }
    assert pairs[..|pairs|] == pairs;
  }

  lemma {:induction false} SplitThenJoin(s: Bytes)
    ensures JoinPair(SplitAtEquals(s)) == s
    decreases |s|
  {
    if s == [] || s[0] == EQUALS {
    } else {
      SplitThenJoin(s[1..]);
    }
  }

  function Flatten(chunks: seq<Bytes>): Bytes {
    if chunks == [] then [] else Flatten(chunks[..|chunks| - 1]) + chunks[|chunks| - 1]
  }

  function SplitAll(chunks: seq<Bytes>): seq<Pair> {
    seq(|chunks|, i requires 0 <= i < |chunks| => SplitAtEquals(chunks[i]))
  }

  lemma JoinedSnoc(pairs: seq<Pair>, last: Pair)
    ensures Joined(pairs + [last]) == Joined(pairs) + JoinPair(last)
  {
    assert (pairs + [last])[..|pairs|] == pairs;
  }

  lemma SplitAllSnoc(chunks: seq<Bytes>, last: Bytes)
    ensures SplitAll(chunks + [last]) == SplitAll(chunks) + [SplitAtEquals(last)]
  {
  }

  lemma FlattenSnoc(chunks: seq<Bytes>, last: Bytes)
    ensures Flatten(chunks + [last]) == Flatten(chunks) + last
  {
    assert (chunks + [last])[..|chunks|] == chunks;
  }

  /** However the payload was cut into character strings, and wherever its '=' signs
      fall, joining what the library split gives the payload back. */
  lemma {:induction false} ReassemblyIsIdentity(chunks: seq<Bytes>)
    ensures Joined(SplitAll(chunks)) == Flatten(chunks)
    decreases |chunks|
  {
    if chunks == [] {
    } else {
      var init, last := chunks[..|chunks| - 1], chunks[|chunks| - 1];
      assert chunks == init + [last];
      ReassemblyIsIdentity(init);
      SplitAllSnoc(init, last);
      JoinedSnoc(SplitAll(init), SplitAtEquals(last));
      SplitThenJoin(last);
    }
  }

  const MAX_CHARACTER_STRING: nat := 255

  /** How a publisher cuts a payload: full character strings, then what is left. */
  function Chunk(payload: Bytes): (chunks: seq<Bytes>)
    ensures forall i :: 0 <= i < |chunks| ==> 1 <= |chunks[i]| <= MAX_CHARACTER_STRING
    ensures forall i :: 0 <= i < |chunks| - 1 ==> |chunks[i]| == MAX_CHARACTER_STRING
    decreases |payload|
  {
    if payload == [] then []
    else
      var n := Min(|payload|, MAX_CHARACTER_STRING);
      [payload[..n]] + Chunk(payload[n..])
  }

  lemma Associates(a: Bytes, b: Bytes, c: Bytes)
    ensures a + (b + c) == a + b + c
  {
  }

  lemma {:induction false} FlattenCons(first: Bytes, rest: seq<Bytes>)
    ensures Flatten([first] + rest) == first + Flatten(rest)
    decreases |rest|
  {
    if rest == [] {
      FlattenSnoc([], first);
      assert [first] + rest == [] + [first];
    } else {
      var init, last := rest[..|rest| - 1], rest[|rest| - 1];
      FlattenCons(first, init);
      FlattenSnoc([first] + init, last);
      Associates(first, Flatten(init), last);
      assert [first] + rest == [first] + init + [last];
    }
  }

  lemma {:induction false} FlattenChunk(payload: Bytes)
    ensures Flatten(Chunk(payload)) == payload
    decreases |payload|
  {
    if payload == [] {
    } else {
      var n := Min(|payload|, MAX_CHARACTER_STRING);
      FlattenChunk(payload[n..]);
      FlattenCons(payload[..n], Chunk(payload[n..]));
      assert payload[..n] + payload[n..] == payload;
    }
  }

  // ---------------------------------------------------------- scanning a packet

  datatype ResourceRecord = Txt(pairs: seq<Pair>) | OtherData

  type PeerRecord = Bytes

  /** Base64 then postcard: what bytes decode to a peer record is theirs to say. */
  type Decoder = Bytes -> Result<PeerRecord, DiscoveryError>

  /** A record's contribution to the scan: a peer record, nothing, or a complaint. */
  function Outcome(record: ResourceRecord, decode: Decoder): Result<Option<PeerRecord>, DiscoveryError> {
    match record
    case OtherData => Ok(None)
    case Txt(pairs) =>
      if Joined(pairs) == [] then Ok(None)
      else match decode(Joined(pairs)) case Ok(peer) => Ok(Some(peer)) case Err(error) => Err(error)
  }

  method TryDecodeTxt(pairs: seq<Pair>, decode: Decoder) returns (r: Result<Option<PeerRecord>, DiscoveryError>)
    ensures r == Outcome(Txt(pairs), decode)
  {
    var joined := ReassembleTxtBytes(pairs);
    if joined == [] {
      return Ok(None);
    }
    var decoded := decode(joined);
    match decoded {
      case Ok(peer) => r := Ok(Some(peer));
      case Err(error) => r := Err(error);
    }
  }

  predicate Decodes(record: ResourceRecord, decode: Decoder) {
    Outcome(record, decode).Ok? && Outcome(record, decode).value.Some?
  }

  const NO_USABLE_TXT := Url("pkarr resolve: no usable TXT record")

  /** The last complaint among the first `n` records, or the default one. */
  function LastComplaint(records: seq<ResourceRecord>, n: nat, decode: Decoder): DiscoveryError
    requires n <= |records|
  {
    if n == 0 then NO_USABLE_TXT
    else if Outcome(records[n - 1], decode).Err? then Outcome(records[n - 1], decode).error
    else LastComplaint(records, n - 1, decode)
  }

  /** The record is a TXT whose joined payload decodes to this peer record. */
  ghost predicate Yields(record: ResourceRecord, decode: Decoder, peer: PeerRecord) {
    record.Txt? && Joined(record.pairs) != [] && decode(Joined(record.pairs)) == Ok(peer)
  }

  /** The record is a TXT whose joined payload the decoder refuses for this reason. */
  ghost predicate Refused(record: ResourceRecord, decode: Decoder, error: DiscoveryError) {
    record.Txt? && Joined(record.pairs) != [] && decode(Joined(record.pairs)) == Err(error)
  }

  lemma OutcomeMeans(record: ResourceRecord, decode: Decoder)
    ensures forall peer :: Outcome(record, decode) == Ok(Some(peer)) <==> Yields(record, decode, peer)
    ensures forall error :: Outcome(record, decode) == Err(error) <==> Refused(record, decode, error)
  {
  }

  /** The error is that of the last record refused, or the one for none refused. */
  ghost predicate LastRefusal(records: seq<ResourceRecord>, decode: Decoder, error: DiscoveryError) {
    || (exists i :: 0 <= i < |records| && Refused(records[i], decode, error)
                    && forall j, e :: i < j < |records| ==> !Refused(records[j], decode, e))
    || (error == Url("pkarr resolve: no usable TXT record")
        && forall j, e :: 0 <= j < |records| ==> !Refused(records[j], decode, e))
  }

  lemma {:induction false} LastComplaintMeans(records: seq<ResourceRecord>, n: nat, decode: Decoder)
    requires n <= |records|
    ensures LastRefusal(records[..n], decode, LastComplaint(records, n, decode))
    decreases n
  {
    if n == 0 {
    } else {
      OutcomeMeans(records[n - 1], decode);
      if Outcome(records[n - 1], decode).Err? {
        assert Refused(records[..n][n - 1], decode, LastComplaint(records, n, decode));
      } else {
        LastComplaintMeans(records, n - 1, decode);
        RefusalStands(records[..n - 1], records[n - 1], decode, LastComplaint(records, n - 1, decode));
        assert records[..n] == records[..n - 1] + [records[n - 1]];
      }
    }
  }

  lemma RefusalStands(records: seq<ResourceRecord>, next: ResourceRecord, decode: Decoder, error: DiscoveryError)
    requires LastRefusal(records, decode, error) && forall e :: !Refused(next, decode, e)
    ensures LastRefusal(records + [next], decode, error)
  {
    if i :| 0 <= i < |records| && Refused(records[i], decode, error)
            && forall j, e :: i < j < |records| ==> !Refused(records[j], decode, e)
    {
      assert Refused((records + [next])[i], decode, error);
    }
  }

  /** The scan's answer, when `complaint` is the one it would report so far. */
  function Scan(records: seq<ResourceRecord>, decode: Decoder, complaint: DiscoveryError)
    : Result<PeerRecord, DiscoveryError>
    decreases |records|
  {
    if records == [] then Err(complaint)
    else
      match Outcome(records[0], decode)
      case Ok(Some(peer)) => Ok(peer)
      case Ok(None) => Scan(records[1..], decode, complaint)
      case Err(error) => Scan(records[1..], decode, error)
  }

  /** Returns the first record that decodes, whatever malformed, empty or unrelated ones
      surround it; if none does, the last complaint. */
  method ExtractPeerRecord(records: seq<ResourceRecord>, decode: Decoder)
    returns (r: Result<PeerRecord, DiscoveryError>)
    ensures r == Scan(records, decode, NO_USABLE_TXT)
    ensures r.Ok? <==> exists i :: 0 <= i < |records| && Decodes(records[i], decode)
    ensures r.Ok? ==> exists i :: 0 <= i < |records| && Outcome(records[i], decode) == Ok(Some(r.value))
                                  && forall j :: 0 <= j < i ==> !Decodes(records[j], decode)
    ensures r.Err? ==> r.error == LastComplaint(records, |records|, decode)
    ensures r.Ok? ==> exists i :: 0 <= i < |records| && Yields(records[i], decode, r.value)
                                  && forall j, peer :: 0 <= j < i ==> !Yields(records[j], decode, peer)
    ensures r.Err? ==> LastRefusal(records, decode, r.error)
                       && forall j, peer :: 0 <= j < |records| ==> !Yields(records[j], decode, peer)
  {
    forall i | 0 <= i < |records| {
      OutcomeMeans(records[i], decode);
    }
    LastComplaintMeans(records, |records|, decode);
    assert records[..|records|] == records;
    var lastError: Option<DiscoveryError> := None;
    assert records[0..] == records;
    for i := 0 to |records|
      invariant Scan(records, decode, NO_USABLE_TXT)
                == Scan(records[i..], decode, if lastError.Some? then lastError.value else NO_USABLE_TXT)
      invariant forall j :: 0 <= j < i ==> !Decodes(records[j], decode)
      invariant LastComplaint(records, i, decode) == if lastError.Some? then lastError.value else NO_USABLE_TXT
    {
      assert records[i..][0] == records[i] && records[i..][1..] == records[i + 1..];
      match records[i] {
        case OtherData =>
        case Txt(pairs) =>
          var outcome := TryDecodeTxt(pairs, decode);
          match outcome {
            case Ok(Some(peer)) =>
              assert Decodes(records[i], decode);
              return Ok(peer);
            case Ok(None) =>
            case Err(error) => lastError := Some(error);
          }
      }
    }
    r := Err(if lastError.Some? then lastError.value else NO_USABLE_TXT);
  }

  lemma {:induction false} ScanSkips(before: seq<ResourceRecord>, rest: seq<ResourceRecord>, peer: PeerRecord,
                                     decode: Decoder, complaint: DiscoveryError)
    requires forall i :: 0 <= i < |before| ==> !Decodes(before[i], decode)
    requires rest != [] && Outcome(rest[0], decode) == Ok(Some(peer))
    ensures Scan(before + rest, decode, complaint) == Ok(peer)
    decreases |before|
  {
    if before == [] {
      assert before + rest == rest;
    } else {
      assert (before + rest)[0] == before[0] && (before + rest)[1..] == before[1..] + rest;
      ScanSkips(before[1..], rest, peer, decode,
                if Outcome(before[0], decode).Err? then Outcome(before[0], decode).error else complaint);
    }
  }

  /** A published record, however its payload was cut into strings, is what the scan of
      the packet returns, after any records that do not themselves decode and before any. */
  lemma PublishedRecordIsUsable(before: seq<ResourceRecord>, chunks: seq<Bytes>, after: seq<ResourceRecord>,
                                peer: PeerRecord, decode: Decoder)
    requires forall i :: 0 <= i < |before| ==> !Decodes(before[i], decode)
    requires Flatten(chunks) != [] && decode(Flatten(chunks)) == Ok(peer)
    ensures Scan(before + [Txt(SplitAll(chunks))] + after, decode, NO_USABLE_TXT) == Ok(peer)
  {
    ReassemblyIsIdentity(chunks);
    assert before + [Txt(SplitAll(chunks))] + after == before + ([Txt(SplitAll(chunks))] + after);
    ScanSkips(before, [Txt(SplitAll(chunks))] + after, peer, decode, NO_USABLE_TXT);
  }

  /** In particular the usual cut into full strings, with '=' signs anywhere. */
  lemma ChunkedRecordIsUsable(before: seq<ResourceRecord>, payload: Bytes, after: seq<ResourceRecord>,
                              peer: PeerRecord, decode: Decoder)
    requires forall i :: 0 <= i < |before| ==> !Decodes(before[i], decode)
    requires payload != [] && decode(payload) == Ok(peer)
    ensures Scan(before + [Txt(SplitAll(Chunk(payload)))] + after, decode, NO_USABLE_TXT) == Ok(peer)
  {
    FlattenChunk(payload);
    PublishedRecordIsUsable(before, Chunk(payload), after, peer, decode);
  }
}
