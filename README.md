# smtp2s3 — a Dafny model of the SMTP handler core

smtp2s3 is an SMTP relay that archives every accepted message in an S3
bucket. This project models the core of its `Handler` class and of
`EnvironmentConfig`, and proves properties of that model:

- **Key prefix** (`KeyPrefix`, `KeyPrefixProperties`): `path_prefix`. It
  strips one trailing `/` from the pattern and replaces `{YYYY}`, `{MM}`,
  `{dd}`, `{HH}` and `{mm}` in that order, each with Python's
  left-to-right `str.replace`. It then appends `/` and accepts the result
  only when `urlparse` gives the scheme `s3` and a non-empty bucket. The
  model includes the parts of `urllib.parse.urlsplit` that decide the
  scheme and the network location, and two of the `ValueError`s it raises
  for a network location: an unbalanced `[` or `]`, and a non-ASCII name
  whose NFKC form holds `/`, `?`, `#`, `@` or `:`.
- **Message identifiers** (`MessageIds`): `get_message_id` and the two
  object keys `<prefix><id>.eml.gz` and `<prefix><id>.json`.
- **Block-list gate** (`Dnsbl`): the addresses `is_ip_on_dns_blocked_list`
  checks, the names it queries and the order it queries them in. Both the
  loop as written and the loop as intended are modelled (see Findings).
- **Callbacks** (`SmtpHandler`): `handle_MAIL`, `handle_RCPT` and
  `handle_DATA` as methods of a `Handler` class. They update an `Envelope`
  object and an `ObjectStore` object. The constructor checks are modelled,
  and so is the choice of `use_ssl`.
- **Configuration** (`EnvConfig`): `EnvironmentConfig.__init__` and
  `_get_log_level`. This includes Python's `int()` on the port text, and
  the order in which the two `ValueError`s are raised.
- **Shared pieces**: `PyStr` holds the Python string operations the core
  relies on. `Wrappers` holds `Option` and `Result`.

Where the code and its docstrings or expected behaviour differ, the model
follows the code:
- `handle_MAIL` records the sender before the block-list check, so a
  refused sender is still recorded.
- `message_from_bytes` raises on missing content (`None`), so `DATA`
  without content gives `451` and writes nothing. The `or b''` fallback
  is never reached with `None`.
- `{YYYY}` is `str(year)`, with no zero padding.
- The `ValueError` of `path_prefix` carries the assertion's message,
  not the pattern.
- A lookup error other than `socket.gaierror` is not caught. It is not
  turned into "not blocked".
- The prefix is rendered once, when the handler is built (handler.py:66),
  and the default timestamp of `path_prefix` is evaluated once, when its
  `def` runs (handler.py:258-260). So every message goes to the same date
  directory, not to one for "now". The model renders the prefix in
  `Handler.Create` from one `Timestamp`.
- `removesuffix('/')` strips only one `/`, so `s3://b/x//` renders to
  `s3://b/x//` (`KeyPrefixProperties.RenderWithoutPlaceholders`).
- A `Message-ID` whose raw value holds bytes outside ASCII is fetched
  under the compat32 policy as an `email.header.Header` object.
  `get_message_id` then raises `TypeError`, because `Header.encode` takes
  no `errors` argument. So such a message gets `451` and nothing is
  written (`MessageIds.GetMessageId`, `Handler.HandleDATA`).

`EnvironmentConfig` does not define `smtp_rcpt_regex` or `dnsbl_zones`, so
the constructor model takes them as inputs: the pattern as a predicate,
the zones as a list.

## Model

| member | source | states |
|---|---|---|
| PyStr.RemoveSuffix | smtp2s3/handler.py:290 | at most one copy of the suffix is removed, and only when the text ends with it |
| PyStr.Replace | smtp2s3/handler.py:293-305 | reference definition of `str.replace`: a left-to-right scan replacing each non-overlapping occurrence; its properties are the three rows below |
| PyStr.ReplaceRemovesAll | smtp2s3/handler.py:292-305 | replacing a digit-free placeholder by digits leaves no occurrence of it |
| PyStr.ReplaceAbsent | smtp2s3/handler.py:293-305 | `str.replace` leaves a text without the pattern unchanged |
| PyStr.ReplaceCharsFrom | smtp2s3/handler.py:293-305 | every character of the output comes from the input or from the replacement |
| PyStr.NatToString | smtp2s3/handler.py:292 | `str(n)` is a non-empty digit string, a single digit exactly below 10, and starts with `0` only for 0 |
| PyStr.NatToStringRoundTrip | smtp2s3/handler.py:292 | `str(year)` reads back as the year |
| PyStr.Pad2 | smtp2s3/handler.py:295-305 | `f'{n:02}'` is digits denoting `n`, exactly two of them when `n < 100` |
| PyStr.NatLength | smtp2s3/handler.py:295-305 | `str(n)` has two characters exactly for 10..99 |
| PyStr.Reverse | smtp2s3/handler.py:244 | `reversed` puts element `i` at position `len - 1 - i` |
| PyStr.Split | smtp2s3/handler.py:244 | `s.split('.')` always has at least one part; that no part holds `.` and that joining gives the text back are `JoinSplit` and `SplitJoin` |
| PyStr.Join | smtp2s3/handler.py:245 | reference definition of `'.'.join(parts)`; `JoinSplit` and `SplitJoin` make it the inverse of `Split` |
| PyStr.JoinSplit | smtp2s3/handler.py:244-245 | joining the parts of `split('.')` with `.` gives the text back |
| PyStr.SplitJoin | smtp2s3/handler.py:244-245 | splitting a join of dot-free parts gives the parts back |
| KeyPrefix.Values | smtp2s3/handler.py:292-305 | each of the five replacement texts is non-empty and all digits |
| KeyPrefix.Render | smtp2s3/handler.py:290-307 | the rendered prefix always ends in `/` |
| KeyPrefix.SubstituteUpToRemoves | smtp2s3/handler.py:293-305 | after the first `n` replacements none of those `n` placeholders is left |
| KeyPrefix.SubstituteUpToSkips | smtp2s3/handler.py:293-305 | text without `{` at the front passes through the chain unchanged |
| KeyPrefix.SubstituteUpToChars | smtp2s3/handler.py:293-305 | the chain introduces no character other than digits |
| KeyPrefix.RenderLeavesNoToken | smtp2s3/handler.py:290-307 | no placeholder survives rendering |
| KeyPrefix.RenderIdempotent | smtp2s3/handler.py:290-307 | rendering a rendered prefix again, at any time, changes nothing |
| KeyPrefix.RenderWithoutPlaceholders | smtp2s3/handler.py:290-307 | a pattern without `{` only loses one trailing `/` and gains one |
| KeyPrefix.RenderChars | smtp2s3/handler.py:290-307 | a non-digit character other than `/` in the result was in the pattern |
| KeyPrefix.SubstituteSpell | smtp2s3/handler.py:292-305 | on a pattern spelled from text and placeholders, substitution keeps all text and puts each placeholder's field in its place (reference definition `Expand`) |
| KeyPrefix.LStripC0 | smtp2s3/handler.py:308 | `urlsplit` strips exactly the leading C0 controls and spaces: the result is a suffix, what was removed is all controls or spaces, and the result does not start with one |
| KeyPrefix.RemoveUnsafe | smtp2s3/handler.py:308 | tab, CR and LF are removed, no other character is added, and a text without them is kept as it is |
| KeyPrefixProperties.RemoveUnsafeAppend | smtp2s3/handler.py:308 | the removal works piece by piece, so the other characters are kept in order |
| KeyPrefix.Cleaned | smtp2s3/handler.py:308 | the text `urlsplit` splits holds no tab, CR or LF, does not start with a control or space, and has only characters of the input |
| KeyPrefix.Find | smtp2s3/handler.py:308 | the first index of `:`, or -1 exactly when there is none |
| KeyPrefix.DelimiterFrom | smtp2s3/handler.py:308 | the network location ends at the first `/`, `?` or `#` |
| KeyPrefix.AfterScheme | smtp2s3/handler.py:308 | what follows the scheme and its `:` is a suffix of the text |
| KeyPrefix.SchemeOf | smtp2s3/handler.py:308 | a scheme found is followed by `:` in the text and starts with an ASCII letter |
| KeyPrefix.NetlocOf | smtp2s3/handler.py:308 | the network location, after `//`, holds no `/`, `?` or `#` |
| KeyPrefix.SplitNetloc | smtp2s3/handler.py:308 | the network location runs from after `//` to the first `/`, `?` or `#`, the rest is what follows; an error exactly when only one of `[` and `]` is in it, with "Invalid IPv6 URL" |
| KeyPrefix.SplitComponents | smtp2s3/handler.py:308 | the scheme is `SchemeOf` and the network location `NetlocOf` of the cleaned text; an error exactly for an unbalanced bracket in that network location |
| KeyPrefix.CheckNetloc | smtp2s3/handler.py:308 | the NFKC check passes every ASCII network location; when it refuses one, its message names that network location |
| KeyPrefix.UrlSplit | smtp2s3/handler.py:308 | succeeds exactly when the components do and the NFKC check passes their network location, and then gives those components; every error is "Invalid IPv6 URL" or the NFKC message for the network location |
| KeyPrefixProperties.AsciiSkipsNfkc | smtp2s3/handler.py:308 | for an ASCII URL the NFKC check changes nothing |
| KeyPrefix.Validate | smtp2s3/handler.py:308-317 | accepted exactly when the parse succeeds with scheme `s3` and a non-empty bucket; the result is then the input, and every error carries the bracket, NFKC, scheme or bucket message |
| KeyPrefix.PathPrefix | smtp2s3/handler.py:258-317 | a prefix that is returned is the rendered pattern and ends in `/` |
| KeyPrefixProperties.AcceptsBucketPattern | smtp2s3/handler.py:290-317 | `s3://<bucket><path>`, with a plain bucket and a path that is empty or starts with `/`, is accepted as the substituted pattern plus `/`, with the bucket as parsed network location, when the NFKC check passes the bucket, and refused with the NFKC message otherwise |
| KeyPrefixProperties.ValidateS3 | smtp2s3/handler.py:308-317 | an `s3://` URL with a plain non-empty bucket passes validation with that bucket when the NFKC check passes it, and is refused with the NFKC message otherwise |
| KeyPrefixProperties.SplitComponentsS3 | smtp2s3/handler.py:308 | `s3://<bucket><path>` splits into `s3`, the bucket and the path |
| KeyPrefixProperties.RenderAscii | smtp2s3/handler.py:290-307 | rendering an ASCII pattern gives ASCII text |
| KeyPrefixProperties.KeyUnderPrefix | smtp2s3/handler.py:308-317 | any text appended to an accepted prefix ending in `/` is itself accepted, with scheme `s3` and the same non-empty bucket |
| KeyPrefixProperties.RenderBucketPattern | smtp2s3/handler.py:290-307 | rendering keeps the `s3://<bucket>` head of a pattern |
| KeyPrefixProperties.NoColonNoScheme | smtp2s3/handler.py:308 | a URL without `:` has no scheme |
| KeyPrefixProperties.RejectsWithoutScheme | smtp2s3/handler.py:308-315 | a pattern without `:` is always rejected, with the scheme message when it is ASCII and has no brackets |
| KeyPrefixProperties.NoBracketsSplit | smtp2s3/handler.py:308 | without brackets the components are always found, and an ASCII URL is always split |
| KeyPrefixProperties.RejectsEmptyBucket | smtp2s3/handler.py:311-315 | `s3://` followed by nothing or by `/...` is rejected with the bucket message |
| KeyPrefixProperties.ExampleBareBucket | tests/step_defs/test_handler.py:131-137 | `s3://mybucket` gives `s3://mybucket/` |
| KeyPrefixProperties.ExampleNoScheme | tests/step_defs/test_handler.py:117-128 | `/mybucket` raises the scheme `ValueError` |
| KeyPrefixProperties.ExampleNoBucket | tests/step_defs/test_handler.py:117-128 | `s3://` raises the bucket `ValueError` |
| KeyPrefixProperties.ExampleDatedPath | smtp2s3/handler.py:292-296 | `/emails/{YYYY}/{MM}` at 2024-03-15 10:30 becomes `/emails/2024/03` |
| KeyPrefixProperties.ExampleDatedPattern | smtp2s3/handler.py:290-317 | `s3://mybucket/emails/{YYYY}/{MM}` at 2024-03-15 10:30 gives `s3://mybucket/emails/2024/03/` |
| KeyPrefixProperties.NfkcRefusesAccountOf | smtp2s3/handler.py:308 | `℀` (U+2100), whose NFKC form is `a/c`, is refused by the NFKC check |
| KeyPrefixProperties.ExampleNfkcRefused | smtp2s3/handler.py:308-317 | `s3://℀` raises the NFKC `ValueError` out of `path_prefix` |
| MessageIds.GetMessageId | smtp2s3/handler.py:78-84 | raises (`None`) exactly for a header with bytes outside ASCII, a compat32 `Header` object whose `encode` refuses `errors`; a fresh text UUID without a header; `MessageId` of the text otherwise |
| MessageIds.MessageId | smtp2s3/handler.py:72-84 | 36 characters without a non-empty header; otherwise 43: the 32 digits of the UUID, `-`, and the first ten digits of the header's SHA-256 |
| MessageIds.MessageIdShapes | smtp2s3/handler.py:78-84 | the plain UUID form, of 36 characters, exactly when the header is absent or empty |
| MessageIds.MessageIdThroughDigest | smtp2s3/handler.py:82-84 | a header reaches the identifier only through the first ten digits of its digest |
| MessageIds.UuidStringLayout | smtp2s3/handler.py:81 | `str(uuid)` has `-` at 8, 13, 18 and 23 and hex digits everywhere else |
| MessageIds.UuidStringRoundTrip | smtp2s3/handler.py:81 | the 32 digits are recovered from `str(uuid)` |
| MessageIds.TokenOfMessageId | smtp2s3/handler.py:78-84 | the UUID is recovered from the identifier, whatever its shape |
| MessageIds.MessageIdInjective | smtp2s3/handler.py:78-84 | for one header, different UUIDs give different identifiers |
| MessageIds.MessageIdAlphabet | smtp2s3/handler.py:78-84 | an identifier holds only lower-case hex digits and `-`, so never a `/` |
| MessageIds.ContentKey | smtp2s3/handler.py:111 | the content key is prefix, identifier and `.eml.gz`, laid end to end |
| MessageIds.MetadataKey | smtp2s3/handler.py:130 | the metadata key is prefix, identifier and `.json`, laid end to end |
| MessageIds.ContentKeyIsNotMetadataKey | smtp2s3/handler.py:111-130 | no content key is ever a metadata key |
| MessageIds.KeysShareStem | smtp2s3/handler.py:111-130 | the two keys of one message share prefix and identifier and differ only in their suffix |
| MessageIds.KeysDetermineId | smtp2s3/handler.py:111-130 | under one prefix, each key determines the identifier |
| Dnsbl.IsIPv4 | smtp2s3/handler.py:236-242 | reference definition of `ip_address(s).version == 4` on dotted quads: four parts, each one to three digits without a leading zero and at most 255 |
| Dnsbl.QuadIsIPv4 | smtp2s3/handler.py:236-242 | four octets joined by `.` are an IPv4 address |
| Dnsbl.ReverseName | smtp2s3/handler.py:244-245 | reference definition of `'.'.join(reversed(ipaddr.split('.')))`; see `ReverseNameInvolution` and `ReverseNameOfQuad` |
| Dnsbl.QueryName | smtp2s3/handler.py:248 | reference definition of `f'{rip}.{zone}'` for an address, through `ZoneName` on its reversed name |
| Dnsbl.Listed | smtp2s3/handler.py:236-256 | reference definition: an IPv4 address for which some zone's query resolves; `IsIpOnDnsBlockedList` returns it |
| Dnsbl.Lookups | smtp2s3/handler.py:236-256 | reference definition of the queries made, in order up to the first that resolves; `LookupsOrder` states its properties |
| Dnsbl.GateAsWritten | smtp2s3/handler.py:236-256 | the loop as written: `TypeError` at the first zone that resolves, "not blocked" otherwise; see `GateAsWrittenNeverBlocks` |
| Dnsbl.NonEmptyZones | smtp2s3/handler.py:69 | exactly the non-empty zones are kept |
| Dnsbl.NonEmptyZonesAppend | smtp2s3/handler.py:69 | the filter keeps the order of the zones |
| Dnsbl.NonEmptyZonesKeeps | smtp2s3/handler.py:69 | a list without empty zones is kept as it is |
| Dnsbl.ReverseNameInvolution | smtp2s3/handler.py:244-245 | reversing the dotted parts twice gives the address back |
| Dnsbl.ReverseNameOfQuad | smtp2s3/handler.py:244-245 | the reversed name of `a.b.c.d` is `d.c.b.a` |
| Dnsbl.ListedFromStep | smtp2s3/handler.py:247-254 | an address is listed from zone `i` on iff zone `i` resolves or a later zone does |
| Dnsbl.LookupsOrder | smtp2s3/handler.py:236-256 | the zones are queried in order as `<reversed octets>.<zone>` and the queries stop right after the first name that resolves; listed iff the last query resolved; every zone is queried when none resolves; nothing is queried for an address that is not IPv4 |
| Dnsbl.GateAsWrittenNeverBlocks | smtp2s3/handler.py:247-256 | the loop as written raises `TypeError` exactly for the listed addresses, and never returns `True` |
| Dnsbl.GateAsWrittenExample | smtp2s3/handler.py:247-256 | `10.0.0.1`, listed by `bl.example.test`, raises instead of being blocked |
| SmtpHandler.ObjectStore.Put | smtp2s3/handler.py:124-135 | one write is recorded as attempted, and its object is stored only when it goes through |
| SmtpHandler.Attempted | smtp2s3/handler.py:107-141 | the writes are attempted in order, up to and including the first that fails: all but the last attempted went through, and when not all are attempted the last one failed; at least one is attempted when there are any |
| SmtpHandler.DataWrites | smtp2s3/handler.py:107-135 | reference definition of the writes `handle_DATA` makes; `DataWritesShape` states their shape |
| SmtpHandler.DataWritesShape | smtp2s3/handler.py:107-135 | with content: the content under the content key, then metadata (sender, mail options, recipients, recipient options, header, peer address, SMTPUTF8 flag, `path` = content key) under the distinct metadata key; without content: no writes, so nothing is attempted and the store is unchanged |
| SmtpHandler.DataKeysUnder | smtp2s3/handler.py:111-130 | every key written, or tried, starts with the object prefix |
| SmtpHandler.AppliedOnlyAttempted | smtp2s3/handler.py:107-141 | a key that no attempted write names keeps what it held |
| SmtpHandler.TwoWritesApplied | smtp2s3/handler.py:124-135 | when both writes go through, both objects are stored under their keys |
| SmtpHandler.FirstWriteFails | smtp2s3/handler.py:124-141 | a failing write is attempted, but it and every later write store nothing |
| SmtpHandler.ObjectPrefixFor | smtp2s3/handler.py:62-66 | `KeyError` without a pattern; otherwise the validated rendering, or the `ValueError` and message of `path_prefix` |
| SmtpHandler.UseSsl | smtp2s3/handler.py:42-55 | TLS is chosen only with a non-empty endpoint, and is off exactly when the endpoint starts with `http:` |
| SmtpHandler.UseSslExamples | smtp2s3/handler.py:42-55 | `http://localhost:9000` turns TLS off; `https://…` and `HTTP://…` keep it on |
| SmtpHandler.Handler.Create | smtp2s3/handler.py:62-69 | fails exactly when the object prefix fails, with its error (errors from building the boto3 client are not modelled); otherwise a valid handler holding that prefix and the non-empty zones |
| SmtpHandler.Handler.IsIpOnDnsBlockedList | smtp2s3/handler.py:236-256 | returns `Listed` and performs exactly the queries `Lookups` (the loop as intended) |
| SmtpHandler.Handler.HandleMAIL | smtp2s3/handler.py:173-184 | the sender is recorded and nothing else changes; `554` iff the peer is listed, `250` otherwise; no lookups when no zones are configured |
| SmtpHandler.Handler.HandleRCPT | smtp2s3/handler.py:214-220 | a matching recipient is appended with `250`; any other gives `550` and leaves the envelope unchanged |
| SmtpHandler.RcptKeepsAllMatch | smtp2s3/handler.py:214-220 | "every recorded recipient matches the pattern" is preserved by `handle_RCPT` |
| SmtpHandler.Handler.HandleDATA | smtp2s3/handler.py:105-143 | a `Message-ID` with bytes outside ASCII makes it answer `451` with nothing attempted and the store unchanged; otherwise it attempts the writes of `DataWrites` in order up to the first failure, stores exactly those that went through, and answers `250` iff there is content and both writes went through, `451` otherwise; every key it tries starts with the object prefix |
| SmtpHandler.Handler.StoreMessage | smtp2s3/handler.py:107-143 | for a text or absent header: the writes of `DataWrites` up to the first failure, the store holding exactly those that went through, `250` iff there is content and both went through, and every key tried under the prefix |
| SmtpHandler.KeysInConfiguredBucket | smtp2s3/handler.py:62-66 | under a handler whose prefix passed validation, every key starting with the prefix, and so every key `handle_DATA` tries, is an accepted `s3` URL in the configured, non-empty bucket |
| SmtpHandler.DataOkMeansBothStored | smtp2s3/handler.py:105-143 | `250` iff both keys are written; the content is then stored under the content key and the metadata, naming it, under the metadata key |
| SmtpHandler.DataFailures | smtp2s3/handler.py:124-141 | a failed content write stops everything and stores nothing; a failed metadata write leaves the content stored |
| EnvConfig.StripLeft | smtp2s3/__init__.py:56 | exactly the leading whitespace `int` strips is removed: ASCII tab to carriage return, space, and the non-ASCII spaces of `str.isspace`, but not `\x1c` to `\x1f` |
| EnvConfig.StripRight | smtp2s3/__init__.py:56 | exactly the trailing whitespace `int` strips is removed |
| EnvConfig.ParsePythonInt | smtp2s3/__init__.py:56 | `int()` only succeeds on text that is not blank; the lemmas below state its rules |
| EnvConfig.ParsePlus | smtp2s3/__init__.py:56 | `+` followed by a digit string of up to 4300 digits reads as its value |
| EnvConfig.ParsePadded | smtp2s3/__init__.py:56 | whitespace around the text changes nothing |
| EnvConfig.ParseFileSeparator | smtp2s3/__init__.py:56 | `\x1c` is not stripped: `int('\x1c1')` raises |
| EnvConfig.ParseUnderscored | smtp2s3/__init__.py:56 | `int('8_025')` is 8025 |
| EnvConfig.ParseMisplacedUnderscores | smtp2s3/__init__.py:56 | `'8__025'`, `'_8'` and `'8_'` are refused |
| EnvConfig.ParseTooLong | smtp2s3/__init__.py:56 | more than 4300 digits are refused, underscores not counted |
| EnvConfig.ParseUnsigned | smtp2s3/__init__.py:56 | a digit string of up to 4300 digits reads as its value |
| EnvConfig.ParseNegative | smtp2s3/__init__.py:56 | `-` followed by such a digit string reads as minus its value |
| EnvConfig.ParseNatToString | smtp2s3/__init__.py:56 | `int(str(n))` is `n` |
| EnvConfig.ParseNegatedNatToString | smtp2s3/__init__.py:56 | `int('-' + str(n))` is `-n` |
| EnvConfig.ParseBlank | smtp2s3/__init__.py:56 | blank text is refused |
| EnvConfig.ParseForeignChar | smtp2s3/__init__.py:56 | a character that is not whitespace, a digit, `_` or a sign makes the text refused |
| EnvConfig.LevelFrom | smtp2s3/__init__.py:72-76 | a name is found iff it is in the table, and then with its own number |
| EnvConfig.LevelMessageNames | smtp2s3/__init__.py:78-81 | the message of the unknown-level `ValueError` names every valid level |
| EnvConfig.LevelMessageInjective | smtp2s3/__init__.py:78-81 | the message determines the level name it quotes |
| EnvConfig.LogLevelMessage | smtp2s3/__init__.py:78-81 | reference definition of the message; see `LevelMessageNames` and `LevelMessageInjective` |
| EnvConfig.LevelTable | smtp2s3/__init__.py:72-76 | the eight names of `logging` with their numbers, and no other name, case-sensitively |
| EnvConfig.EnvironmentConfig | smtp2s3/__init__.py:48-83 | a configuration results iff the level name is known and the port text is an integer |
| EnvConfig.Get | smtp2s3/__init__.py:50-54 | `environ.get(key)` finds a value exactly when the key is set, and then that value |
| EnvConfig.GetOr | smtp2s3/__init__.py:55-72 | `environ.get(key, default)` is what `environ.get(key)` finds, or the default |
| EnvConfig.Defaults | smtp2s3/__init__.py:50-56 | an empty environment gives no credentials, endpoint or pattern, level 30, host `127.0.0.1` and port 8025 |
| EnvConfig.AbsentKeysDefault | smtp2s3/__init__.py:50-56 | in any environment, each setting that is absent takes its default: no credentials, endpoint or pattern, host `127.0.0.1`, level 30, port 8025 |
| EnvConfig.CopiedVerbatim | smtp2s3/__init__.py:50-56 | values present in the environment are taken unchanged |
| EnvConfig.InvalidLevelFirst | smtp2s3/__init__.py:52-81 | an unknown level name is reported, with its message, whatever the port |
| EnvConfig.InvalidPortReported | smtp2s3/__init__.py:56 | with a known level, a port `int()` refuses is reported with its text |

## Left out

- Object storage: boto3 sessions and smart_open are replaced by
  `ObjectStore`, a map from key to object. Whether each write goes through
  is an input. A write that fails is taken to store nothing. Errors raised
  while the boto3 client is built at handler.py:36-54, such as botocore
  refusing a malformed `S3_ENDPOINT_URL`, are not modelled, so
  `SmtpHandler.Handler.Create` fails only where the object prefix fails.
- Encodings: the JSON encoding of the metadata and the bytes of the
  content object are not modelled. The metadata is kept as a value.
- Name resolution: DNS and `asyncio.to_thread` are replaced by the input
  `resolves(qname)`. Lookup errors other than a miss, such as a
  `UnicodeError` for an over-long label, are not modelled.
- IP addresses: `ipaddress.ip_address` is modelled only as far as
  dotted-quad IPv4 goes. IPv6 and every other text count as not IPv4,
  which is what the code acts on.
- Randomness and hashing: `uuid.uuid4()` and SHA-256 are inputs, a
  32-digit token and a digest function. So the model states the shape of
  an identifier, not its uniqueness.
- MIME parsing: `message_from_bytes` is reduced to raising on missing
  content and to the `Message-ID` header, which is an input of kind
  `MessageIds.HeaderValue`: text, or a value with bytes outside ASCII. How
  the header is found in the content and decoded is not modelled.
- Regular expressions: the recipient pattern's `fullmatch` is an input
  predicate.
- KeyPrefix.UrlSplit / KeyPrefix.Validate: only the scheme and the network
  location of `urlparse` are modelled. The `;params` split, the port, and
  the `ValueError` of `_check_bracketed_host` are not. So the model
  accepts `s3://[x]` with the bucket `[x]`, which Python refuses. The
  `urlsplit` modelled is that of CPython 3.12 (the source needs 3.11 or
  later for `logging.getLevelNamesMapping`): the lstrip of C0 controls and
  spaces, the removal of tab, CR and LF, a scheme that starts with an ASCII
  letter, and `_checknetloc`.
- NFKC normalisation: the Unicode database `unicodedata.normalize('NFKC', …)`
  consults is not modelled; the normalisation is a parameter `nfkc` of
  `KeyPrefix.UrlSplit`, `KeyPrefix.PathPrefix` and the handler.
- Optimised runs: under `python -O` the `assert`s of handler.py:311-313
  are removed, so `path_prefix` validates nothing. The model follows a
  normal run.
- SmtpHandler.Handler.HandleDATA: it does not require `Valid()`; the
  facts that depend on the validated prefix are stated by
  `SmtpHandler.KeysInConfiguredBucket` about every key `HandleDATA` is
  shown to write under.
- `int()`: Unicode decimal digits other than ASCII are not accepted by
  the model, and the text of `int()`'s error message is not modelled.
- Clock: `datetime.now` as the default timestamp is replaced by a
  `Timestamp` parameter.
- Logging: all logging calls and `get_logger` are left out, including the
  error logged with the attempted keys in `handle_DATA`.
- Startup: app.py and the way aiosmtpd turns an exception raised by a
  callback into a reply are not part of this model.
- KeyPrefixProperties.AcceptsBucketPattern: it covers buckets without
  spaces, controls, `/`, `?`, `#`, brackets or `{`, and paths that are
  empty or start with `/`. Other accepted patterns are described only by
  `KeyPrefix.Validate`.
- EnvConfig.LogLevelMessage: the message is built from the names in table
  order. No lemma spells out the whole resulting text; `LevelMessageNames`
  and `LevelMessageInjective` state what it contains.

## Findings

| source | as written | input that shows it | evidently intended | confidence | as-written member | corrected member |
|---|---|---|---|---|---|---|
| smtp2s3/handler.py:251 | the result of `socket.gethostbyname(qname)`, a string, is passed to `asyncio.to_thread`, so a zone that resolves raises `TypeError` instead of returning `True`; only `socket.gaierror` is caught, so the exception leaves `handle_MAIL` and no `554` is sent | peer `10.0.0.1`, zones `["bl.example.test"]`, and `1.0.0.10.bl.example.test` resolves | run `gethostbyname(qname)` on a worker thread and return `True` when it resolves, so the sender is refused with `554` | not executed; high | Dnsbl.GateAsWritten | SmtpHandler.Handler.IsIpOnDnsBlockedList |

`SmtpHandler.Handler.HandleMAIL` calls the corrected gate. With the loop
as written, a listed sender gets the `TypeError` that
`Dnsbl.GateAsWrittenNeverBlocks` exhibits instead of `554`.
