/** The SMTP callbacks of `Handler`: the envelope they fill in, the replies
    they give, and the writes `handle_DATA` makes to the object store. The
    regular expression, name resolution, MIME parsing, the UUID, the digest
    and the outcome of each write are inputs. */
module SmtpHandler {
  import opened Wrappers
  import opened PyStr
  import KeyPrefix
  import KeyPrefixProperties
  import opened MessageIds
  import opened Dnsbl

  newtype Byte = b: int | 0 <= b < 256

  const OkReply := "250 OK"
  const NoSuchUserReply := "550 5.1.1 No such user"
  const BlockedReply := "554 5.7.1 Service unavailable; Client host blocked by policy"
  const StoreFailureReply := "451 4.3.0 Temporary failure storing message."

  /** The attributes of an `Envelope` at one moment. */
  datatype EnvelopeState = EnvelopeState(
    mailFrom: Option<string>,
    mailOptions: seq<string>,
    rcptTos: seq<string>,
    rcptOptions: seq<string>,
    content: Option<seq<Byte>>,
    smtpUtf8: bool)

  /** The envelope of one SMTP transaction, reduced to the attributes the
      handler reads or writes. */
  class Envelope {
    var mailFrom: Option<string>
    var mailOptions: seq<string>
    var rcptTos: seq<string>
    var rcptOptions: seq<string>
    var content: Option<seq<Byte>>
    var smtpUtf8: bool

    /** A fresh envelope: no sender, no recipients, no content. */
    constructor ()
      ensures State() == EnvelopeState(None, [], [], [], None, false)
    {
      mailFrom := None;
      mailOptions := [];
      rcptTos := [];
      rcptOptions := [];
      content := None;
      smtpUtf8 := false;
    }

    function State(): EnvelopeState
      reads this
    {
      EnvelopeState(mailFrom, mailOptions, rcptTos, rcptOptions, content, smtpUtf8)
    }
  }

  /** The metadata document `handle_DATA` writes next to the message. */
  datatype Metadata = Metadata(
    mailFrom: Option<string>,
    mailOptions: seq<string>,
    messageId: Option<string>,
    path: string,
    rcptOptions: seq<string>,
    rcptTos: seq<string>,
    sessionIp: string,
    smtpUtf8: bool)

  datatype StoredObject = ContentObject(bytes: seq<Byte>) | MetadataObject(metadata: Metadata)

  /** One write `handle_DATA` attempts: a key and what goes there. */
  datatype Write = Write(key: string, obj: StoredObject)

  /** The bucket behind `smart_open`: the objects written so far, and the
      keys of every write attempted, in order. */
  class ObjectStore {
    var objects: map<string, StoredObject>
    var attempts: seq<string>

    constructor ()
      ensures objects == map[] && attempts == []
    {
      objects := map[];
      attempts := [];
    }

    /** One `with smart_open.open(key, ...)` block. `succeeds` is whether the
        write goes through; a failed write leaves no object behind. */
    method Put(key: string, obj: StoredObject, succeeds: bool)
      modifies this
      ensures attempts == old(attempts) + [key]
      ensures objects == if succeeds then old(objects)[key := obj] else old(objects)
    {
      attempts := attempts + [key];
      if succeeds {
        objects := objects[key := obj];
      }
    }
  }

  // ---------------------------------------------------------------------
  // What `handle_DATA` writes

  /** The writes, in order, for a message: the content under the content
      key, then the metadata, whose `path` is the content key, under the
      metadata key. Without content, `message_from_bytes` fails first and
      nothing is written. */
  function DataWrites(prefix: string, e: EnvelopeState, peerIp: string, header: Option<string>,
                      token: UuidHex, digestOf: string -> DigestHex): seq<Write>
  {
    if e.content.None? then []
    else
      var id := MessageId(header, token, digestOf);
      var contentKey := ContentKey(prefix, id);
      var metadata := Metadata(e.mailFrom, e.mailOptions, header, contentKey, e.rcptOptions, e.rcptTos, peerIp, e.smtpUtf8);
      [Write(contentKey, ContentObject(e.content.value)), Write(MetadataKey(prefix, id), MetadataObject(metadata))]
  }

  /** The writes attempted: each in turn up to and including the first that
      fails, since its exception ends the `try`. */
  function Attempted(ws: seq<Write>, succeeds: string -> bool): (r: seq<Write>)
    ensures |r| <= |ws| && r == ws[..|r|]
    ensures ws != [] ==> r != []
    ensures forall k | 0 <= k < |r| - 1 :: succeeds(r[k].key)
    ensures |r| < |ws| ==> r != [] && !succeeds(r[|r| - 1].key)
  {
    if ws == [] then []
    else if succeeds(ws[0].key) then [ws[0]] + Attempted(ws[1..], succeeds)
    else [ws[0]]
  }

  /** The keys of a sequence of writes. */
  function Keys(ws: seq<Write>): (ks: seq<string>)
    ensures |ks| == |ws| && forall k | 0 <= k < |ws| :: ks[k] == ws[k].key
  {
    if ws == [] then [] else [ws[0].key] + Keys(ws[1..])
  }

  /** The objects after the writes that succeed, in order, up to the first
      that fails. */
  function Applied(objects: map<string, StoredObject>, ws: seq<Write>, succeeds: string -> bool): map<string, StoredObject>
    decreases |ws|
  {
    if ws == [] || !succeeds(ws[0].key) then objects
    else Applied(objects[ws[0].key := ws[0].obj], ws[1..], succeeds)
  }

  /** Whether every write of the message goes through. */
  predicate AllSucceed(ws: seq<Write>, succeeds: string -> bool) {
    forall k | 0 <= k < |ws| :: succeeds(ws[k].key)
  }

  /** The writes for a message with content are the content and then the
      metadata, under the two keys built from one prefix and one identifier;
      the metadata records the sender, the recipients, the options, the
      `Message-ID` header, the peer address and, as its `path`, the content
      key. */
  lemma DataWritesShape(prefix: string, e: EnvelopeState, peerIp: string, header: Option<string>,
                        token: UuidHex, digestOf: string -> DigestHex)
    ensures var ws := DataWrites(prefix, e, peerIp, header, token, digestOf);
      var id := MessageId(header, token, digestOf);
      && (e.content.None? <==> ws == [])
      && (e.content.Some? ==>
        && |ws| == 2
        && ws[0] == Write(ContentKey(prefix, id), ContentObject(e.content.value))
        && ws[1].key == MetadataKey(prefix, id)
        && ws[1].obj.MetadataObject?
        && ws[1].obj.metadata.path == ws[0].key
        && ws[1].obj.metadata.messageId == header
        && ws[1].obj.metadata.mailFrom == e.mailFrom
        && ws[1].obj.metadata.mailOptions == e.mailOptions
        && ws[1].obj.metadata.rcptTos == e.rcptTos
        && ws[1].obj.metadata.rcptOptions == e.rcptOptions
        && ws[1].obj.metadata.sessionIp == peerIp
        && ws[1].obj.metadata.smtpUtf8 == e.smtpUtf8
        && ws[0].key != ws[1].key)
  {
    var id := MessageId(header, token, digestOf);
    ContentKeyIsNotMetadataKey(prefix, id, prefix, id);
  }

  /** Every key starts with the prefix. */
  predicate KeysUnder(prefix: string, ks: seq<string>) {
    forall k | 0 <= k < |ks| :: IsPrefix(prefix, ks[k])
  }

  /** Every key `handle_DATA` writes to, or tries to, lies under the prefix. */
  lemma DataKeysUnder(prefix: string, e: EnvelopeState, peerIp: string, header: Option<string>,
                      token: UuidHex, digestOf: string -> DigestHex, succeeds: string -> bool)
    ensures KeysUnder(prefix, Keys(Attempted(DataWrites(prefix, e, peerIp, header, token, digestOf), succeeds)))
  {
    var ws := DataWrites(prefix, e, peerIp, header, token, digestOf);
    var ks := Keys(Attempted(ws, succeeds));
    forall k | 0 <= k < |ks| ensures IsPrefix(prefix, ks[k]) {
      assert ks[k] == ws[k].key;
    }
  }

  /** The metadata is stored only when the content is: a write that is not
      attempted stores nothing, and the content is written first. */
  lemma {:induction false} AppliedOnlyAttempted(objects: map<string, StoredObject>, ws: seq<Write>, succeeds: string -> bool, key: string)
    requires forall k | 0 <= k < |Attempted(ws, succeeds)| :: Attempted(ws, succeeds)[k].key != key
    ensures key in Applied(objects, ws, succeeds) <==> key in objects
    ensures key in objects ==> Applied(objects, ws, succeeds)[key] == objects[key]
    decreases |ws|
  {
    if ws != [] && succeeds(ws[0].key) {
      var rest := Attempted(ws[1..], succeeds);
      assert Attempted(ws, succeeds) == [ws[0]] + rest;
      assert forall k | 0 <= k < |rest| :: rest[k] == Attempted(ws, succeeds)[k + 1];
      AppliedOnlyAttempted(objects[ws[0].key := ws[0].obj], ws[1..], succeeds, key);
    }
  }

  /** When every write goes through, every write is attempted and, keys
      being distinct, each object ends up under its key. */
  lemma TwoWritesApplied(objects: map<string, StoredObject>, ws: seq<Write>, succeeds: string -> bool)
    requires |ws| == 2 && ws[0].key != ws[1].key && AllSucceed(ws, succeeds)
    ensures Attempted(ws, succeeds) == ws
    ensures Applied(objects, ws, succeeds) == objects[ws[0].key := ws[0].obj][ws[1].key := ws[1].obj]
  {
    var o1 := objects[ws[0].key := ws[0].obj];
    var o2 := o1[ws[1].key := ws[1].obj];
    assert ws[1..][0] == ws[1] && ws[1..][1..] == [];
    assert Applied(o1, ws[1..], succeeds) == Applied(o2, [], succeeds) == o2;
    assert Attempted(ws[1..], succeeds) == [ws[1]] + Attempted([], succeeds);
    assert [ws[0]] + [ws[1]] == ws;
  }

  /** A write that fails is attempted, but nothing is stored for it, nor
      for any later write. */
  lemma FirstWriteFails(objects: map<string, StoredObject>, ws: seq<Write>, succeeds: string -> bool)
    requires ws != [] && !succeeds(ws[0].key)
    ensures Attempted(ws, succeeds) == [ws[0]] && Applied(objects, ws, succeeds) == objects
  {
  }

  datatype InitError = KeyError(message: string) | ValueError(message: string)

  const MissingPatternMessage := "Require S3_PREFIX_PATTERN to be set in the environment."

  /** The object prefix the constructor computes: a `KeyError` when no
      pattern is configured, the `ValueError` of `path_prefix` when the
      pattern renders to an invalid prefix. */
  function ObjectPrefixFor(pattern: Option<string>, now: KeyPrefix.Timestamp, nfkc: string -> string)
    : (r: Result<string, InitError>)
    ensures pattern.None? ==> r == Err(KeyError(MissingPatternMessage))
    ensures pattern.Some? && r.Ok? ==>
      r.value == KeyPrefix.Render(pattern.value, now) && KeyPrefix.Validate(r.value, nfkc) == Ok(r.value)
    ensures pattern.Some? && r.Err? ==>
      && r.error.ValueError? && KeyPrefix.PathPrefix(pattern.value, now, nfkc).Err?
      && r.error.message == KeyPrefix.PathPrefix(pattern.value, now, nfkc).error.message
  {
    if pattern.None? then Err(KeyError(MissingPatternMessage))
    else match KeyPrefix.PathPrefix(pattern.value, now, nfkc)
      case Ok(prefix) => Ok(prefix)
      case Err(e) => Err(ValueError(e.message))
  }

  /** `use_ssl` for the S3 client: only when an endpoint is configured, and
      then false exactly when it starts with `http:` (case-sensitive). */
  function UseSsl(endpoint: Option<string>): (r: Option<bool>)
    ensures r.Some? <==> endpoint.Some? && endpoint.value != []
    ensures r == Some(false) <==> endpoint.Some? && IsPrefix("http:", endpoint.value)
  {
    if endpoint.None? || endpoint.value == [] then None
    else Some(!IsPrefix("http:", endpoint.value))
  }

  class Handler {
    const objectPrefix: string
    const rcptPattern: string -> bool
    const dnsblZones: seq<string>
    const store: ObjectStore
    /** The NFKC normalisation of the interpreter's Unicode database, which
        `urlsplit` consults. */
    const nfkc: string -> string

    /** The prefix passed validation when the handler was built (an `s3`
        URL with a bucket) and ends in `/`, and no configured zone is empty. */
    predicate Valid() {
      && KeyPrefix.Validate(objectPrefix, nfkc) == Ok(objectPrefix)
      && EndsWith(objectPrefix, "/")
      && forall k | 0 <= k < |dnsblZones| :: dnsblZones[k] != []
    }

    constructor (objectPrefix: string, rcptPattern: string -> bool, dnsblZones: seq<string>, store: ObjectStore,
                 nfkc: string -> string)
      ensures this.objectPrefix == objectPrefix && this.rcptPattern == rcptPattern
      ensures this.dnsblZones == dnsblZones && this.store == store && this.nfkc == nfkc
    {
      this.objectPrefix := objectPrefix;
      this.rcptPattern := rcptPattern;
      this.dnsblZones := dnsblZones;
      this.store := store;
      this.nfkc := nfkc;
    }

    /** `Handler.__init__`: the prefix is computed once, from the pattern and
        the time given, and the empty zone names are dropped. */
    static method Create(pattern: Option<string>, now: KeyPrefix.Timestamp, rcptPattern: string -> bool,
                         zones: seq<string>, store: ObjectStore, nfkc: string -> string)
      returns (r: Result<Handler, InitError>)
      ensures r.Err? <==> ObjectPrefixFor(pattern, now, nfkc).Err?
      ensures r.Err? ==> r.error == ObjectPrefixFor(pattern, now, nfkc).error
      ensures r.Ok? ==> fresh(r.value) && r.value.Valid()
      ensures r.Ok? ==> r.value.objectPrefix == ObjectPrefixFor(pattern, now, nfkc).value
      ensures r.Ok? ==> r.value.dnsblZones == NonEmptyZones(zones)
      ensures r.Ok? ==> r.value.rcptPattern == rcptPattern && r.value.store == store && r.value.nfkc == nfkc
    {
      var prefix := ObjectPrefixFor(pattern, now, nfkc);
      if prefix.Err? {
        return Err(prefix.error);
      }
      var p := prefix.value;
      assert p[|p| - 1..] == "/";
      var h := new Handler(p, rcptPattern, NonEmptyZones(zones), store, nfkc);
      return Ok(h);
    }

    /** `is_ip_on_dns_blocked_list` as intended: an address that is not IPv4
        is never listed and never looked up; otherwise the zones are queried
        in order with `<reversed octets>.<zone>` until one resolves. */
    method IsIpOnDnsBlockedList(ipaddr: string, resolves: string -> bool) returns (blocked: bool, lookups: seq<string>)
      ensures blocked == Listed(ipaddr, dnsblZones, resolves)
      ensures lookups == Lookups(ipaddr, dnsblZones, resolves)
    {
      if !IsIPv4(ipaddr) {
        return false, [];
      }
      var rip := ReverseName(ipaddr);
      lookups := [];
      var i := 0;
      while i < |dnsblZones|
        invariant 0 <= i <= |dnsblZones|
        invariant lookups + QueriesFrom(rip, dnsblZones, i, resolves) == QueriesFrom(rip, dnsblZones, 0, resolves)
        invariant !ListedFrom(rip, dnsblZones, 0, resolves) <==> !ListedFrom(rip, dnsblZones, i, resolves)
      {
        var qname := rip + "." + dnsblZones[i];
        assert qname == ZoneName(rip, dnsblZones[i]);
        QueriesFromStep(rip, dnsblZones, i, resolves, lookups);
        ListedFromStep(rip, dnsblZones, i, resolves);
        lookups := lookups + [qname];
        if resolves(qname) {
          return true, lookups;
        }
        i := i + 1;
      }
      return false, lookups;
    }

    /** `handle_MAIL`: the sender is recorded in every case, even when it is
        then refused; the gate runs only when zones are configured. */
    method HandleMAIL(envelope: Envelope, address: string, peerIp: string, resolves: string -> bool)
      returns (reply: string, lookups: seq<string>)
      modifies envelope
      ensures envelope.State() == old(envelope.State()).(mailFrom := Some(address))
      ensures reply == if Listed(peerIp, dnsblZones, resolves) then BlockedReply else OkReply
      ensures lookups == Lookups(peerIp, dnsblZones, resolves)
    {
      envelope.mailFrom := Some(address);
      if |dnsblZones| > 0 {
        var blocked;
        blocked, lookups := IsIpOnDnsBlockedList(peerIp, resolves);
        if blocked {
          return BlockedReply, lookups;
        }
      } else {
        NoZonesNoLookups(peerIp, resolves);
        lookups := [];
      }
      reply := OkReply;
    }

    /** `handle_RCPT`: a recipient the pattern fully matches is appended;
        any other is refused and the envelope is left alone. */
    method HandleRCPT(envelope: Envelope, address: string) returns (reply: string)
      modifies envelope
      ensures rcptPattern(address) ==>
        envelope.State() == old(envelope.State()).(rcptTos := old(envelope.rcptTos) + [address]) && reply == OkReply
      ensures !rcptPattern(address) ==> envelope.State() == old(envelope.State()) && reply == NoSuchUserReply
    {
      if !rcptPattern(address) {
        return NoSuchUserReply;
      }
      envelope.rcptTos := envelope.rcptTos + [address];
      return OkReply;
    }

    /** `handle_DATA`: the content, then the metadata, each written once;
        `250 OK` only when both go through and `451` otherwise, with the
        store holding exactly what went through. A `Message-ID` with bytes
        outside ASCII makes `get_message_id` raise before the first write, so
        nothing is written and the reply is `451`. Every key written lies
        under the handler's prefix (see `KeysInConfiguredBucket`). */
    method HandleDATA(envelope: Envelope, peerIp: string, header: Option<HeaderValue>, token: UuidHex,
                      digestOf: string -> DigestHex, succeeds: string -> bool) returns (reply: string)
      modifies store
      ensures |old(store.attempts)| <= |store.attempts| && KeysUnder(objectPrefix, store.attempts[|old(store.attempts)|..])
      ensures header.Some? && header.value.EightBit? ==>
        && store.attempts == old(store.attempts) && store.objects == old(store.objects)
        && reply == StoreFailureReply
      ensures header.None? || header.value.Text? ==>
        var ws := DataWrites(objectPrefix, envelope.State(), peerIp, TextHeader(header), token, digestOf);
        && store.attempts == old(store.attempts) + Keys(Attempted(ws, succeeds))
        && store.objects == Applied(old(store.objects), ws, succeeds)
        && reply == if ws != [] && AllSucceed(ws, succeeds) then OkReply else StoreFailureReply
    {
      if envelope.content.None? || GetMessageId(header, token, digestOf).None? {
        // `message_from_bytes` or `get_message_id` raised before any write.
        if header.None? || header.value.Text? {
          DataWithoutContent(objectPrefix, envelope.State(), peerIp, TextHeader(header), token, digestOf,
                             succeeds, store.objects);
        }
        return StoreFailureReply;
      }
      reply := StoreMessage(envelope, peerIp, TextHeader(header), token, digestOf, succeeds);
    }

    /** The writes of `handle_DATA` once the header is known to be text or
        absent. */
    method StoreMessage(envelope: Envelope, peerIp: string, header: Option<string>, token: UuidHex,
                        digestOf: string -> DigestHex, succeeds: string -> bool) returns (reply: string)
      modifies store
      ensures |old(store.attempts)| <= |store.attempts| && KeysUnder(objectPrefix, store.attempts[|old(store.attempts)|..])
      ensures var ws := DataWrites(objectPrefix, envelope.State(), peerIp, header, token, digestOf);
        && store.attempts == old(store.attempts) + Keys(Attempted(ws, succeeds))
        && store.objects == Applied(old(store.objects), ws, succeeds)
        && reply == if ws != [] && AllSucceed(ws, succeeds) then OkReply else StoreFailureReply
    {
      ghost var ws := DataWrites(objectPrefix, envelope.State(), peerIp, header, token, digestOf);
      DataKeysUnder(objectPrefix, envelope.State(), peerIp, header, token, digestOf, succeeds);
      if envelope.content.None? {
        return StoreFailureReply;
      }
      var msgId := MessageId(header, token, digestOf);
      var emlPath := ContentKey(objectPrefix, msgId);
      var metadata := Metadata(envelope.mailFrom, envelope.mailOptions, header, emlPath,
                               envelope.rcptOptions, envelope.rcptTos, peerIp, envelope.smtpUtf8);
      var content := envelope.content.value;
      DataWritesShape(objectPrefix, envelope.State(), peerIp, header, token, digestOf);
      assert ws == [Write(emlPath, ContentObject(content)), Write(MetadataKey(objectPrefix, msgId), MetadataObject(metadata))];
      ghost var before := store.objects;
      store.Put(emlPath, ContentObject(content), succeeds(emlPath));
      if !succeeds(emlPath) {
        FirstWriteFails(before, ws, succeeds);
        return StoreFailureReply;
      }
      var jsonPath := MetadataKey(objectPrefix, msgId);
      store.Put(jsonPath, MetadataObject(metadata), succeeds(jsonPath));
      if !succeeds(jsonPath) {
        FirstWriteFails(before[emlPath := ContentObject(content)], ws[1..], succeeds);
        assert ws[1..] == [ws[1]];
        return StoreFailureReply;
      }
      TwoWritesApplied(before, ws, succeeds);
      return OkReply;
    }
  }

  // ---------------------------------------------------------------------
  // Properties of the callbacks

  /** Under a handler built by `Create`, every key `handle_DATA` writes to
      is an accepted `s3` URL naming the configured bucket. */
  lemma KeysInConfiguredBucket(h: Handler, key: string)
    requires h.Valid() && IsPrefix(h.objectPrefix, key)
    ensures KeyPrefix.Validate(key, h.nfkc) == Ok(key)
    ensures KeyPrefix.UrlSplit(key, h.nfkc).Ok? && KeyPrefix.UrlSplit(h.objectPrefix, h.nfkc).Ok?
    ensures KeyPrefix.UrlSplit(key, h.nfkc).value.scheme == "s3"
    ensures KeyPrefix.UrlSplit(key, h.nfkc).value.netloc == KeyPrefix.UrlSplit(h.objectPrefix, h.nfkc).value.netloc != []
  {
    PrefixThenRest(h.objectPrefix, key);
    KeyPrefixProperties.KeyUnderPrefix(h.objectPrefix, key[|h.objectPrefix|..], h.nfkc);
  }

  /** Every recipient recorded matches the pattern: `handle_RCPT` keeps this,
      since it only ever appends a matching address. */
  predicate AllRecipientsMatch(rcptTos: seq<string>, rcptPattern: string -> bool) {
    forall k | 0 <= k < |rcptTos| :: rcptPattern(rcptTos[k])
  }

  lemma RcptKeepsAllMatch(rcptTos: seq<string>, address: string, rcptPattern: string -> bool)
    requires AllRecipientsMatch(rcptTos, rcptPattern)
    ensures rcptPattern(address) ==> AllRecipientsMatch(rcptTos + [address], rcptPattern)
  {
    if rcptPattern(address) {
      var r := rcptTos + [address];
      forall k | 0 <= k < |r| ensures rcptPattern(r[k]) {
        if k < |rcptTos| { assert r[k] == rcptTos[k]; }
      }
    }
  }

  /** The reply to `DATA` is `250 OK` exactly when the envelope has content
      and both writes go through; then the store holds the content under the
      content key and the metadata, naming that key, under the metadata key. */
  lemma DataOkMeansBothStored(prefix: string, e: EnvelopeState, peerIp: string, header: Option<string>,
                              token: UuidHex, digestOf: string -> DigestHex, succeeds: string -> bool,
                              objects: map<string, StoredObject>)
    requires e.content.Some?
    ensures var id := MessageId(header, token, digestOf);
      var ws := DataWrites(prefix, e, peerIp, header, token, digestOf);
      (ws != [] && AllSucceed(ws, succeeds)) <==> succeeds(ContentKey(prefix, id)) && succeeds(MetadataKey(prefix, id))
    ensures var id := MessageId(header, token, digestOf);
      var ws := DataWrites(prefix, e, peerIp, header, token, digestOf);
      var after := Applied(objects, ws, succeeds);
      AllSucceed(ws, succeeds) ==>
        && ContentKey(prefix, id) in after && MetadataKey(prefix, id) in after
        && after[ContentKey(prefix, id)] == ContentObject(e.content.value)
        && after[MetadataKey(prefix, id)].MetadataObject?
        && after[MetadataKey(prefix, id)].metadata.path == ContentKey(prefix, id)
  {
    DataWritesShape(prefix, e, peerIp, header, token, digestOf);
    var ws := DataWrites(prefix, e, peerIp, header, token, digestOf);
    if AllSucceed(ws, succeeds) {
      TwoWritesApplied(objects, ws, succeeds);
    }
  }

  /** If the content write fails, the metadata write is not attempted and
      the store is unchanged; if only the metadata write fails, the content
      stays stored and the metadata key keeps whatever it held before. */
  lemma DataFailures(prefix: string, e: EnvelopeState, peerIp: string, header: Option<string>,
                     token: UuidHex, digestOf: string -> DigestHex, succeeds: string -> bool,
                     objects: map<string, StoredObject>)
    requires e.content.Some?
    ensures var id := MessageId(header, token, digestOf);
      var ws := DataWrites(prefix, e, peerIp, header, token, digestOf);
      !succeeds(ContentKey(prefix, id)) ==>
        Keys(Attempted(ws, succeeds)) == [ContentKey(prefix, id)] && Applied(objects, ws, succeeds) == objects
    ensures var id := MessageId(header, token, digestOf);
      var ws := DataWrites(prefix, e, peerIp, header, token, digestOf);
      succeeds(ContentKey(prefix, id)) && !succeeds(MetadataKey(prefix, id)) ==>
        Keys(Attempted(ws, succeeds)) == [ContentKey(prefix, id), MetadataKey(prefix, id)]
        && Applied(objects, ws, succeeds) == objects[ContentKey(prefix, id) := ContentObject(e.content.value)]
  {
    DataWritesShape(prefix, e, peerIp, header, token, digestOf);
    var ws := DataWrites(prefix, e, peerIp, header, token, digestOf);
    if !succeeds(ws[0].key) {
      FirstWriteFails(objects, ws, succeeds);
    } else if !succeeds(ws[1].key) {
      FirstWriteFails(objects[ws[0].key := ws[0].obj], ws[1..], succeeds);
    }
  }

  /** Without content nothing is written and the reply is `451`. */
  lemma DataWithoutContent(prefix: string, e: EnvelopeState, peerIp: string, header: Option<string>,
                           token: UuidHex, digestOf: string -> DigestHex, succeeds: string -> bool,
                           objects: map<string, StoredObject>)
    requires e.content.None?
    ensures DataWrites(prefix, e, peerIp, header, token, digestOf) == []
    ensures Applied(objects, [], succeeds) == objects && Keys(Attempted([], succeeds)) == []
  {
  }

  /** An endpoint of the form used against a local store turns TLS off, any
      other non-empty endpoint keeps it on. */
  lemma UseSslExamples(local: string, remote: string, upper: string)
    requires local == "http://localhost:9000" && remote == "https://s3.example.com" && upper == "HTTP://x"
    ensures UseSsl(Some(local)) == Some(false)
    ensures UseSsl(Some(remote)) == Some(true) && UseSsl(Some(upper)) == Some(true)
    ensures UseSsl(None) == None && UseSsl(Some("")) == None
  {
    assert local[..5] == "http:";
    assert remote[..5] != "http:" by { assert remote[4] == 's'; }
    assert upper[..5] != "http:" by { assert upper[0] == 'H'; }
  }
}
