/** `Handler.get_message_id` and the two object keys `handle_DATA` derives
    from it. The random UUID and the SHA-256 digest are inputs: the model
    states the shape of the identifier, not its uniqueness. */
module MessageIds {
  import opened Wrappers

  predicate IsLowerHex(c: char) { '0' <= c <= '9' || 'a' <= c <= 'f' }

  predicate IsLowerHexString(s: string) { forall i | 0 <= i < |s| :: IsLowerHex(s[i]) }

  /** `n` zero digits. */
  function Zeros(n: nat): (s: string)
    ensures |s| == n && IsLowerHexString(s)
  {
    if n == 0 then [] else Zeros(n - 1) + "0"
  }

  /** `uuid4().hex`: 32 lower-case hexadecimal digits. */
  type UuidHex = s: string | |s| == 32 && IsLowerHexString(s)
    witness Zeros(32)

  /** `sha256(...).hexdigest()`: 64 lower-case hexadecimal digits. */
  type DigestHex = s: string | |s| == 64 && IsLowerHexString(s)
    witness Zeros(64)

  /** `str(uuid)`: the 32 digits in groups of 8, 4, 4, 4 and 12 joined by `-`. */
  function UuidString(u: UuidHex): (r: string)
    ensures |r| == 36
  {
    u[..8] + "-" + u[8..12] + "-" + u[12..16] + "-" + u[16..20] + "-" + u[20..]
  }

  /** The positions of the four `-` in `str(uuid)`. */
  predicate IsHyphenPosition(i: int) { i == 8 || i == 13 || i == 18 || i == 23 }

  /** The 32 digits back from the text form `str(uuid)`. */
  function UuidHexOf(s: string): string
    requires |s| == 36
  {
    s[..8] + s[9..13] + s[14..18] + s[19..23] + s[24..]
  }

  /** `get_message_id`: without a (non-empty) `Message-ID` the plain text
      form of a fresh UUID; otherwise the UUID's 32 digits, `-`, and the
      first ten digits of the SHA-256 of the header. `digestOf` stands for
      `sha256(header.encode(errors='ignore')).hexdigest()`. */
  function MessageId(header: Option<string>, token: UuidHex, digestOf: string -> DigestHex): (id: string)
    ensures header.None? || header.value == [] ==> |id| == 36
    ensures header.Some? && header.value != [] ==> |id| == 43 && id[32] == '-'
    ensures header.Some? && header.value != [] ==> id[..32] == token && id[33..] == digestOf(header.value)[..10]
  {
    if header.None? || header.value == [] then UuidString(token)
    else token + "-" + digestOf(header.value)[..10]
  }

  /** What `msg.get('Message-ID')` returns under the compat32 policy of
      `message_from_bytes`: the header's text, or, when its raw value holds
      bytes outside ASCII (kept as surrogate escapes), an
      `email.header.Header` object built from those bytes. */
  datatype HeaderValue = Text(text: string) | EightBit(raw: string)

  /** A header that is absent or text, as a `str` or `None`. */
  function TextHeader(header: Option<HeaderValue>): Option<string>
    requires header.None? || header.value.Text?
  {
    if header.None? then None else Some(header.value.text)
  }

  /** `get_message_id` on the header as fetched. A `Header` object is
      truthy and its `encode` takes no `errors` argument, so the call raises
      `TypeError` (`None`); a text or absent header gives `MessageId`. */
  function GetMessageId(header: Option<HeaderValue>, token: UuidHex, digestOf: string -> DigestHex): (r: Option<string>)
    ensures r.None? <==> header.Some? && header.value.EightBit?
    ensures header.None? ==> r == Some(UuidString(token))
    ensures header.Some? && header.value.Text? ==>
      r == Some(MessageId(Some(header.value.text), token, digestOf))
  {
    match header
    case None => Some(MessageId(None, token, digestOf))
    case Some(Text(t)) => Some(MessageId(Some(t), token, digestOf))
    case Some(EightBit(_)) => None
  }

  /** The text form of a UUID lays out its digits with a `-` at 8, 13, 18
      and 23 and nothing else. */
  lemma UuidStringLayout(u: UuidHex)
    ensures forall i | 0 <= i < 36 :: (UuidString(u)[i] == '-' <==> IsHyphenPosition(i))
    ensures forall i | 0 <= i < 36 :: !IsHyphenPosition(i) ==> IsLowerHex(UuidString(u)[i])
  {
    var r := UuidString(u);
    forall i | 0 <= i < 36
      ensures (r[i] == '-' <==> IsHyphenPosition(i)) && (!IsHyphenPosition(i) ==> IsLowerHex(r[i]))
    {
      if i < 8 { assert r[i] == u[i]; }
      else if 8 < i < 13 { assert r[i] == u[i - 1]; }
      else if 13 < i < 18 { assert r[i] == u[i - 2]; }
      else if 18 < i < 23 { assert r[i] == u[i - 3]; }
      else if 23 < i { assert r[i] == u[i - 4]; }
    }
  }

  /** The digits of a UUID are recovered from its text form. */
  lemma UuidStringRoundTrip(u: UuidHex)
    ensures UuidHexOf(UuidString(u)) == u
  {
    var r := UuidString(u);
    assert r[..8] == u[..8];
    assert r[9..13] == u[8..12];
    assert r[14..18] == u[12..16];
    assert r[19..23] == u[16..20];
    assert r[24..] == u[20..];
    assert u[..8] + u[8..12] + u[12..16] + u[16..20] + u[20..] == u;
  }

  /** The UUID a message identifier was built from. */
  function TokenOf(id: string): string
  {
    if |id| == 36 then UuidHexOf(id) else if |id| >= 32 then id[..32] else id
  }

  /** The UUID is always recovered from the identifier, whichever shape it
      has; so different UUIDs always give different identifiers. */
  lemma TokenOfMessageId(header: Option<string>, token: UuidHex, digestOf: string -> DigestHex)
    ensures TokenOf(MessageId(header, token, digestOf)) == token
  {
    if header.None? || header.value == [] {
      UuidStringRoundTrip(token);
    } else {
      assert (token + "-" + digestOf(header.value)[..10])[..32] == token;
    }
  }

  lemma MessageIdInjective(header: Option<string>, t1: UuidHex, t2: UuidHex, digestOf: string -> DigestHex)
    requires MessageId(header, t1, digestOf) == MessageId(header, t2, digestOf)
    ensures t1 == t2
  {
    TokenOfMessageId(header, t1, digestOf);
    TokenOfMessageId(header, t2, digestOf);
  }

  /** A header, when present, reaches the identifier only through the
      first ten digits of its digest: two headers whose digests agree there
      give the same identifier. */
  lemma MessageIdThroughDigest(h1: string, h2: string, token: UuidHex, digestOf: string -> DigestHex)
    requires h1 != [] && h2 != []
    requires digestOf(h1)[..10] == digestOf(h2)[..10]
    ensures MessageId(Some(h1), token, digestOf) == MessageId(Some(h2), token, digestOf)
  {
  }

  /** Every identifier consists of lower-case hexadecimal digits and `-`, so
      it never contains `/` and never alters the key layout. */
  lemma MessageIdAlphabet(header: Option<string>, token: UuidHex, digestOf: string -> DigestHex)
    ensures forall i | 0 <= i < |MessageId(header, token, digestOf)| ::
      IsLowerHex(MessageId(header, token, digestOf)[i]) || MessageId(header, token, digestOf)[i] == '-'
  {
    var id := MessageId(header, token, digestOf);
    if header.None? || header.value == [] {
      UuidStringLayout(token);
    } else {
      var d := digestOf(header.value);
      forall i | 0 <= i < |id| ensures IsLowerHex(id[i]) || id[i] == '-' {
        if i < 32 { assert id[i] == token[i]; }
        else if i > 32 { assert id[i] == d[i - 33]; }
      }
    }
  }

  /** The two shapes are told apart by their length alone: the plain UUID
      form exactly when the header is absent or empty. */
  lemma MessageIdShapes(header: Option<string>, token: UuidHex, digestOf: string -> DigestHex)
    ensures |MessageId(header, token, digestOf)| == 36 <==> header.None? || header.value == []
  {
  }

  // ---------------------------------------------------------------------
  // Object keys

  const ContentSuffix := ".eml.gz"
  const MetadataSuffix := ".json"

  /** The key of the stored message: `f'{object_prefix}{msg_id}.eml.gz'`. */
  function ContentKey(prefix: string, id: string): (k: string)
    ensures |k| == |prefix| + |id| + |ContentSuffix|
    ensures k[..|prefix|] == prefix && k[|prefix|..|prefix| + |id|] == id
    ensures k[|prefix| + |id|..] == ContentSuffix
  {
    prefix + id + ContentSuffix
  }

  /** The key of the metadata document: `f'{object_prefix}{msg_id}.json'`. */
  function MetadataKey(prefix: string, id: string): (k: string)
    ensures |k| == |prefix| + |id| + |MetadataSuffix|
    ensures k[..|prefix|] == prefix && k[|prefix|..|prefix| + |id|] == id
    ensures k[|prefix| + |id|..] == MetadataSuffix
  {
    prefix + id + MetadataSuffix
  }

  /** A content key is never a metadata key, whatever the prefixes and
      identifiers: they end differently. */
  lemma ContentKeyIsNotMetadataKey(p1: string, id1: string, p2: string, id2: string)
    ensures ContentKey(p1, id1) != MetadataKey(p2, id2)
  {
    var c := ContentKey(p1, id1);
    var m := MetadataKey(p2, id2);
    assert c[|c| - 1] == 'z';
    assert m[|m| - 1] == 'n';
  }

  /** Under one prefix, the content key determines the identifier, and so
      does the metadata key. */
  lemma KeysDetermineId(prefix: string, id1: string, id2: string)
    ensures ContentKey(prefix, id1) == ContentKey(prefix, id2) ==> id1 == id2
    ensures MetadataKey(prefix, id1) == MetadataKey(prefix, id2) ==> id1 == id2
  {
    if ContentKey(prefix, id1) == ContentKey(prefix, id2) {
      var k := ContentKey(prefix, id1);
      assert |id1| == |id2|;
      assert id1 == k[|prefix|..|prefix| + |id1|];
    }
    if MetadataKey(prefix, id1) == MetadataKey(prefix, id2) {
      var k := MetadataKey(prefix, id1);
      assert |id1| == |id2|;
      assert id1 == k[|prefix|..|prefix| + |id1|];
    }
  }

  /** The two keys of one message differ only in their suffix. */
  lemma KeysShareStem(prefix: string, id: string)
    ensures ContentKey(prefix, id)[..|prefix| + |id|] == MetadataKey(prefix, id)[..|prefix| + |id|] == prefix + id
  {
  }
}
