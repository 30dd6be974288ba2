/** `Handler.path_prefix`: render a storage-key prefix from a pattern and a
    timestamp, then accept it only when it parses as an `s3` URL with a
    bucket. */
module KeyPrefix {
  import opened Wrappers
  import opened PyStr

  /** The fields of a `datetime` that the rendering reads. */
  datatype Timestamp = Timestamp(year: nat, month: nat, day: nat, hour: nat, minute: nat)

  /** The placeholders, in the order in which they are replaced. */
  const Tokens: seq<string> := ["{YYYY}", "{MM}", "{dd}", "{HH}", "{mm}"]

  /** The text each placeholder becomes: `str(year)` (no padding) and
      `f'{x:02}'` for the other four fields. */
  function Values(t: Timestamp): (v: seq<string>)
    ensures |v| == |Tokens|
    ensures forall k | 0 <= k < |v| :: v[k] != [] && AllDigits(v[k])
  {
    [NatToString(t.year), Pad2(t.month), Pad2(t.day), Pad2(t.hour), Pad2(t.minute)]
  }

  /** The first `n` replacements of the fixed chain, applied in order. */
  function SubstituteUpTo(s: string, t: Timestamp, n: nat): string
    requires n <= |Tokens|
  {
    if n == 0 then s else Replace(SubstituteUpTo(s, t, n - 1), Tokens[n - 1], Values(t)[n - 1])
  }

  /** All five replacements. */
  function Substitute(s: string, t: Timestamp): string {
    SubstituteUpTo(s, t, |Tokens|)
  }

  /** The rendered prefix before validation: one trailing `/` stripped,
      the placeholders replaced, one `/` appended. */
  function Render(pattern: string, t: Timestamp): (r: string)
    ensures r != [] && r[|r| - 1] == '/'
  {
    Substitute(RemoveSuffix(pattern, "/"), t) + "/"
  }

  // ---------------------------------------------------------------------
  // A small model of `urllib.parse.urlparse`, as far as the scheme and the
  // network location are concerned.

  /** The scheme and network location `urlparse` reports, and the text
      after the network location. */
  datatype UrlParts = UrlParts(scheme: string, netloc: string, rest: string)

  /** The characters `urlsplit` strips from the left: C0 controls and space. */
  predicate IsC0ControlOrSpace(c: char) { c <= ' ' }

  /** The characters `urlsplit` deletes everywhere: tab, CR and LF. */
  predicate IsUnsafeUrlChar(c: char) { c == '\t' || c == '\r' || c == '\n' }

  predicate IsAsciiLetter(c: char) { 'a' <= c <= 'z' || 'A' <= c <= 'Z' }

  predicate IsSchemeChar(c: char) { IsAsciiLetter(c) || IsDigit(c) || c == '+' || c == '-' || c == '.' }

  predicate IsNetlocDelimiter(c: char) { c == '/' || c == '?' || c == '#' }

  /** Every character is ASCII, as `str.isascii` reports. */
  predicate IsAscii(s: string) { forall i | 0 <= i < |s| :: s[i] < '\U{80}' }

  function LStripC0(s: string): (r: string)
    ensures r == [] || !IsC0ControlOrSpace(r[0])
    ensures |r| <= |s| && r == s[|s| - |r|..]
    ensures forall i | 0 <= i < |s| - |r| :: IsC0ControlOrSpace(s[i])
  {
    if s != [] && IsC0ControlOrSpace(s[0]) then LStripC0(s[1..]) else s
  }

  function RemoveUnsafe(s: string): (r: string)
    ensures forall i | 0 <= i < |r| :: !IsUnsafeUrlChar(r[i])
    ensures forall c | c in r :: c in s
    ensures (forall i | 0 <= i < |s| :: !IsUnsafeUrlChar(s[i])) ==> r == s
  {
    if s == [] then []
    else if IsUnsafeUrlChar(s[0]) then RemoveUnsafe(s[1..])
    else [s[0]] + RemoveUnsafe(s[1..])
  }

  /** `s.find(c)`: the first index of `c`, or -1. */
  function Find(s: string, c: char): (i: int)
    ensures -1 <= i < |s|
    ensures i == -1 <==> c !in s
    ensures 0 <= i ==> s[i] == c && c !in s[..i]
  {
    if s == [] then -1
    else if s[0] == c then 0
    else var j := Find(s[1..], c); if j == -1 then -1 else j + 1
  }

  /** Index of the first network-location delimiter at or after `k`. */
  function DelimiterFrom(s: string, k: nat): (e: nat)
    requires k <= |s|
    ensures k <= e <= |s|
    ensures forall i | k <= i < e :: !IsNetlocDelimiter(s[i])
    ensures e < |s| ==> IsNetlocDelimiter(s[e])
    decreases |s| - k
  {
    if k == |s| || IsNetlocDelimiter(s[k]) then k else DelimiterFrom(s, k + 1)
  }

  function AsciiLower(s: string): (r: string)
    ensures |r| == |s|
  {
    if s == [] then []
    else [if 'A' <= s[0] <= 'Z' then (s[0] as int + 32) as char else s[0]] + AsciiLower(s[1..])
  }

  /** The text before index `i` is a scheme: it starts with an ASCII
      letter and consists of scheme characters. */
  predicate IsScheme(u: string, i: int)
    requires i <= |u|
  {
    i > 0 && IsAsciiLetter(u[0]) && forall k | 0 <= k < i :: IsSchemeChar(u[k])
  }

  /** `_splitnetloc(rest, 2)`, with the bracket check that follows it. */
  function SplitNetloc(scheme: string, rest: string): (r: Result<UrlParts, string>)
    requires |rest| >= 2
    ensures r.Ok? ==> r.value.scheme == scheme
    ensures r.Ok? ==> forall i | 0 <= i < |r.value.netloc| :: !IsNetlocDelimiter(r.value.netloc[i])
    ensures r.Ok? ==>
      && r.value.netloc == rest[2..DelimiterFrom(rest, 2)]
      && r.value.rest == rest[DelimiterFrom(rest, 2)..]
    ensures r.Err? <==> ('[' in rest[2..DelimiterFrom(rest, 2)]) != (']' in rest[2..DelimiterFrom(rest, 2)])
    ensures r.Err? ==> r.error == InvalidIPv6Message
  {
    var e := DelimiterFrom(rest, 2);
    var netloc := rest[2..e];
    if ('[' in netloc) != (']' in netloc) then Err(InvalidIPv6Message)
    else Ok(UrlParts(scheme, netloc, rest[e..]))
  }

  /** The text `urlsplit` works on: leading C0 controls and spaces stripped,
      tab, CR and LF removed. */
  function Cleaned(url: string): (u: string)
    ensures forall i | 0 <= i < |u| :: !IsUnsafeUrlChar(u[i])
    ensures u == [] || !IsC0ControlOrSpace(u[0])
    ensures forall c | c in u :: c in url
  {
    RemoveUnsafe(LStripC0(url))
  }

  /** The text after the scheme and its `:`, or all of `u` without a scheme. */
  function AfterScheme(u: string): (rest: string)
    ensures |rest| <= |u| && rest == u[|u| - |rest|..]
  {
    var i := Find(u, ':');
    if IsScheme(u, i) then u[i + 1..] else u
  }

  /** The network location: after a `//`, up to the next `/`, `?` or `#`. */
  function NetlocOf(rest: string): (netloc: string)
    ensures forall i | 0 <= i < |netloc| :: !IsNetlocDelimiter(netloc[i])
  {
    if |rest| >= 2 && rest[..2] == "//" then rest[2..DelimiterFrom(rest, 2)] else []
  }

  /** The scheme: the text before the first `:`, lower-cased, when it
      starts with an ASCII letter and consists of scheme characters. */
  function SchemeOf(u: string): (scheme: string)
    ensures scheme != [] ==> |scheme| < |u| && u[|scheme|] == ':' && IsAsciiLetter(u[0])
  {
    var i := Find(u, ':');
    if IsScheme(u, i) then AsciiLower(u[..i]) else []
  }

  /** `urlsplit` up to and including the bracket check: the scheme, then,
      after a `//`, the network location running to the next `/`, `?` or
      `#`. A network location with only one of `[` and `]` is a
      `ValueError`. */
  function SplitComponents(url: string): (r: Result<UrlParts, string>)
    ensures r.Ok? ==> r.value.scheme == SchemeOf(Cleaned(url))
    ensures var netloc := NetlocOf(AfterScheme(Cleaned(url)));
      && (r.Ok? ==> r.value.netloc == netloc)
      && (r.Err? <==> ('[' in netloc) != (']' in netloc))
    ensures r.Err? ==> r.error == InvalidIPv6Message
  {
    var u := Cleaned(url);
    var rest := AfterScheme(u);
    if |rest| >= 2 && rest[..2] == "//" then SplitNetloc(SchemeOf(u), rest)
    else Ok(UrlParts(SchemeOf(u), [], rest))
  }

  /** The message of the `ValueError` raised by the NFKC check. */
  function NfkcMessage(netloc: string): string {
    "netloc '" + netloc + "' contains invalid characters under NFKC normalization"
  }

  /** The characters the NFKC check refuses to see appear. */
  predicate IsNfkcSeparator(c: char) { c == '/' || c == '?' || c == '#' || c == '@' || c == ':' }

  /** `_checknetloc`: an empty or ASCII network location passes. Otherwise
      `@`, `:`, `#` and `?` are removed, the rest is normalised to NFKC, and
      when normalisation changed it and the result holds one of `/ ? # @ :`,
      the message of the `ValueError` raised. The normalisation belongs to
      the interpreter's Unicode database and is a parameter. */
  function CheckNetloc(netloc: string, nfkc: string -> string): (r: Option<string>)
    ensures IsAscii(netloc) ==> r == None
    ensures r.Some? ==> r.value == NfkcMessage(netloc)
  {
    if netloc == [] || IsAscii(netloc) then None
    else
      var n := Replace(Replace(Replace(Replace(netloc, "@", ""), ":", ""), "#", ""), "?", "");
      var normal := nfkc(n);
      if n != normal && exists i | 0 <= i < |normal| :: IsNfkcSeparator(normal[i]) then Some(NfkcMessage(netloc))
      else None
  }

  /** `urlsplit`: the components, then the NFKC check of the network
      location, whose `ValueError` comes after the bracket check's. */
  function UrlSplit(url: string, nfkc: string -> string): (r: Result<UrlParts, string>)
    ensures r.Ok? <==> SplitComponents(url).Ok? && CheckNetloc(SplitComponents(url).value.netloc, nfkc).None?
    ensures r.Ok? ==> r == SplitComponents(url)
    ensures r.Err? ==> r.error == InvalidIPv6Message || r.error == NfkcMessage(NetlocOf(AfterScheme(Cleaned(url))))
  {
    match SplitComponents(url)
    case Err(msg) => Err(msg)
    case Ok(parts) =>
      match CheckNetloc(parts.netloc, nfkc)
      case Some(msg) => Err(msg)
      case None => Ok(parts)
  }

  const InvalidIPv6Message := "Invalid IPv6 URL"
  const SchemeMessage := "URL scheme must be \"s3\"."
  const BucketMessage := "Bucket name not specified."

  /** The `ValueError` `path_prefix` raises, with its message. */
  datatype PrefixError = ValueError(message: string)

  /** The check that follows the rendering: the scheme must be `s3` and
      the network location (the bucket) non-empty; a `ValueError` otherwise,
      including the ones `urlsplit` raises. */
  function Validate(prefix: string, nfkc: string -> string): (r: Result<string, PrefixError>)
    ensures r.Ok? <==>
      UrlSplit(prefix, nfkc).Ok? && UrlSplit(prefix, nfkc).value.scheme == "s3" && UrlSplit(prefix, nfkc).value.netloc != []
    ensures r.Ok? ==> r.value == prefix
    ensures var nfkcMessage := NfkcMessage(NetlocOf(AfterScheme(Cleaned(prefix))));
      r.Err? ==> r.error.message in {InvalidIPv6Message, SchemeMessage, BucketMessage, nfkcMessage}
  {
    match UrlSplit(prefix, nfkc)
    case Err(msg) => Err(ValueError(msg))
    case Ok(parts) =>
      if parts.scheme != "s3" then Err(ValueError(SchemeMessage))
      else if parts.netloc == [] then Err(ValueError(BucketMessage))
      else Ok(prefix)
  }

  /** `Handler.path_prefix(prefix_pattern, timestamp)`. */
  function PathPrefix(pattern: string, t: Timestamp, nfkc: string -> string): (r: Result<string, PrefixError>)
    ensures r.Ok? ==> r.value == Render(pattern, t) && EndsWith(r.value, "/")
  {
    Validate(Render(pattern, t), nfkc)
  }

  // ---------------------------------------------------------------------
  // Facts about the placeholder chain

  lemma TokenFacts()
    ensures forall k | 0 <= k < |Tokens| :: |Tokens[k]| >= 3 && Tokens[k][0] == '{'
    ensures forall k | 0 <= k < |Tokens| :: NoDigits(Tokens[k]) && '{' !in Tokens[k][1..]
    ensures forall j, k | 0 <= j < |Tokens| && 0 <= k < |Tokens| && j != k :: Tokens[j][1] != Tokens[k][1]
  {
  }

  /** After the first `n` replacements no placeholder among them is left. */
  lemma {:induction false} SubstituteUpToRemoves(s: string, t: Timestamp, n: nat)
    requires n <= |Tokens|
    ensures forall j | 0 <= j < n :: !Occurs(SubstituteUpTo(s, t, n), Tokens[j])
  {
    TokenFacts();
    if n > 0 {
      SubstituteUpToRemoves(s, t, n - 1);
      var before := SubstituteUpTo(s, t, n - 1);
      ReplaceRemovesAll(before, Tokens[n - 1], Values(t)[n - 1]);
      forall j | 0 <= j < n - 1 ensures !Occurs(SubstituteUpTo(s, t, n), Tokens[j]) {
        DigitReplaceKeepsAbsent(before, Tokens[n - 1], Values(t)[n - 1], Tokens[j]);
      }
    }
  }

  /** A text in which no placeholder occurs is left as it is. */
  lemma {:induction false} SubstituteUpToAbsent(s: string, t: Timestamp, n: nat)
    requires n <= |Tokens|
    requires forall j | 0 <= j < |Tokens| :: !Occurs(s, Tokens[j])
    ensures SubstituteUpTo(s, t, n) == s
  {
    if n > 0 {
      SubstituteUpToAbsent(s, t, n - 1);
      ReplaceAbsent(s, Tokens[n - 1], Values(t)[n - 1]);
    }
  }

  /** The chain passes over a text without `{` unchanged. */
  lemma {:induction false} SubstituteUpToSkips(x: string, y: string, t: Timestamp, n: nat)
    requires n <= |Tokens|
    requires '{' !in x
    ensures SubstituteUpTo(x + y, t, n) == x + SubstituteUpTo(y, t, n)
  {
    TokenFacts();
    if n > 0 {
      SubstituteUpToSkips(x, y, t, n - 1);
      ReplaceSkipsPrefix(x, SubstituteUpTo(y, t, n - 1), Tokens[n - 1], Values(t)[n - 1]);
    }
  }

  /** Every non-digit character of the result was in the input. */
  lemma {:induction false} SubstituteUpToChars(s: string, t: Timestamp, n: nat, c: char)
    requires n <= |Tokens|
    requires !IsDigit(c) && c in SubstituteUpTo(s, t, n)
    ensures c in s
  {
    if n > 0 {
      var before := SubstituteUpTo(s, t, n - 1);
      ReplaceCharsFrom(before, Tokens[n - 1], Values(t)[n - 1], c);
      SubstituteUpToChars(s, t, n - 1, c);
    }
  }

  lemma NoBraceNoToken(s: string)
    requires '{' !in s
    ensures forall j | 0 <= j < |Tokens| :: !Occurs(s, Tokens[j])
  {
    TokenFacts();
    forall j, i | 0 <= j < |Tokens| && 0 <= i <= |s| - |Tokens[j]| ensures !OccursAt(s, Tokens[j], i) {
      assert s[i] in s;
      assert s[i..i + |Tokens[j]|][0] == s[i];
    }
  }

  /** Appending a `/` cannot complete a placeholder, which ends in `}`. */
  lemma AppendSlashNoToken(s: string)
    requires forall j | 0 <= j < |Tokens| :: !Occurs(s, Tokens[j])
    ensures forall j | 0 <= j < |Tokens| :: !Occurs(s + "/", Tokens[j])
  {
    forall j, i | 0 <= j < |Tokens| && 0 <= i <= |s + "/"| - |Tokens[j]|
      ensures !OccursAt(s + "/", Tokens[j], i)
    {
      var w := Tokens[j];
      if i + |w| <= |s| {
        NotOccursAt(s, w, i);
        assert (s + "/")[i..i + |w|] == s[i..i + |w|];
      } else {
        assert (s + "/")[i..i + |w|][|w| - 1] == '/' != w[|w| - 1];
      }
    }
  }

  // ---------------------------------------------------------------------
  // Properties of the rendering

  /** No placeholder survives rendering. */
  lemma RenderLeavesNoToken(pattern: string, t: Timestamp)
    ensures forall j | 0 <= j < |Tokens| :: !Occurs(Render(pattern, t), Tokens[j])
  {
    SubstituteUpToRemoves(RemoveSuffix(pattern, "/"), t, |Tokens|);
    AppendSlashNoToken(Substitute(RemoveSuffix(pattern, "/"), t));
  }

  /** Rendering a rendered prefix again, at any time, changes nothing. */
  lemma RenderIdempotent(pattern: string, t: Timestamp, t2: Timestamp)
    ensures Render(Render(pattern, t), t2) == Render(pattern, t)
  {
    var x := Substitute(RemoveSuffix(pattern, "/"), t);
    SubstituteUpToRemoves(RemoveSuffix(pattern, "/"), t, |Tokens|);
    assert RemoveSuffix(x + "/", "/") == x;
    SubstituteUpToAbsent(x, t2, |Tokens|);
  }

  /** A pattern without `{` is only normalised to end in exactly one `/`
      more than it had after stripping one. */
  lemma RenderWithoutPlaceholders(pattern: string, t: Timestamp)
    requires '{' !in pattern
    ensures Render(pattern, t) == RemoveSuffix(pattern, "/") + "/"
  {
    var p := RemoveSuffix(pattern, "/");
    assert '{' !in p by {
      assert forall c | c in p :: c in pattern;
    }
    SubstituteUpToSkips(p, [], t, |Tokens|);
    assert p + [] == p;
    SubstituteUpToAbsent([], t, |Tokens|) by { NoBraceNoToken([]); }
  }

  /** Characters other than digits are never introduced by rendering
      (apart from the final `/`). */
  lemma RenderChars(pattern: string, t: Timestamp, c: char)
    requires !IsDigit(c) && c != '/' && c in Render(pattern, t)
    ensures c in pattern
  {
    var p := RemoveSuffix(pattern, "/");
    SubstituteUpToChars(p, t, |Tokens|, c);
    assert forall d | d in p :: d in pattern;
  }

  // ---------------------------------------------------------------------
  // Rendering, piece by piece: a reference definition

  /** A pattern seen as literal text and placeholders. */
  datatype Piece = Text(text: string) | Field(index: nat)

  predicate WellFormedPieces(ps: seq<Piece>) {
    forall i | 0 <= i < |ps| ::
      (ps[i].Text? ==> '{' !in ps[i].text) && (ps[i].Field? ==> ps[i].index < |Tokens|)
  }

  /** The pattern text the pieces spell. */
  function Spell(ps: seq<Piece>): string
    requires WellFormedPieces(ps)
  {
    if ps == [] then []
    else (match ps[0] case Text(s) => s case Field(k) => Tokens[k]) + Spell(ps[1..])
  }

  /** The text the pieces stand for at time `t`: literal text kept, each
      placeholder replaced by its field. */
  function Expand(ps: seq<Piece>, t: Timestamp): string
    requires WellFormedPieces(ps)
  {
    if ps == [] then []
    else (match ps[0] case Text(s) => s case Field(k) => Values(t)[k]) + Expand(ps[1..], t)
  }

  /** One replacement applied to a placeholder followed by anything. */
  lemma ReplaceAtToken(k: nat, y: string, j: nat, v: string)
    requires k < |Tokens| && j < |Tokens|
    ensures Replace(Tokens[k] + y, Tokens[j], v) == (if j == k then v else Tokens[k]) + Replace(y, Tokens[j], v)
  {
    if j == k {
      ReplaceAtSameToken(k, y, v);
    } else {
      ReplaceAtOtherToken(k, y, j, v);
    }
  }

  /** The placeholder replaced by itself. */
  lemma ReplaceAtSameToken(k: nat, y: string, v: string)
    requires k < |Tokens|
    ensures Replace(Tokens[k] + y, Tokens[k], v) == v + Replace(y, Tokens[k], v)
  {
    TokenFacts();
    var s := Tokens[k] + y;
    assert s[..|Tokens[k]|] == Tokens[k] && s[|Tokens[k]|..] == y;
  }

  /** A placeholder other than the one replaced is kept. */
  lemma ReplaceAtOtherToken(k: nat, y: string, j: nat, v: string)
    requires k < |Tokens| && j < |Tokens| && j != k
    ensures Replace(Tokens[k] + y, Tokens[j], v) == Tokens[k] + Replace(y, Tokens[j], v)
  {
    TokenFacts();
    var s := Tokens[k] + y;
    if |s| >= |Tokens[j]| {
      assert s[..|Tokens[j]|][1] == Tokens[k][1] != Tokens[j][1];
    } else {
      assert |y| < |Tokens[j]|;
      assert Replace(y, Tokens[j], v) == y;
    }
    assert s[1..] == Tokens[k][1..] + y;
    ReplaceSkipsPrefix(Tokens[k][1..], y, Tokens[j], v);
    assert [Tokens[k][0]] + Tokens[k][1..] == Tokens[k];
  }

  /** The placeholder chain applied to a spelled pattern. */
  lemma {:induction false} SubstituteUpToSpell(ps: seq<Piece>, t: Timestamp, n: nat)
    requires WellFormedPieces(ps) && n <= |Tokens|
    ensures SubstituteUpTo(Spell(ps), t, n) == PartialExpand(ps, t, n)
    decreases n, |ps|
  {
    if ps != [] {
      var tail := ps[1..];
      assert WellFormedPieces(tail);
      match ps[0]
      case Text(s) =>
        SubstituteUpToSkips(s, Spell(tail), t, n);
        SubstituteUpToSpell(tail, t, n);
      case Field(k) =>
        FieldUpTo(k, Spell(tail), t, n);
        SubstituteUpToSpell(tail, t, n);
    } else {
      NoBraceNoToken([]);
      SubstituteUpToAbsent([], t, n);
    }
  }

  /** The pieces after the first `n` replacements. */
  function PartialExpand(ps: seq<Piece>, t: Timestamp, n: nat): string
    requires WellFormedPieces(ps) && n <= |Tokens|
  {
    if ps == [] then []
    else
      var head := match ps[0] case Text(s) => s case Field(k) => (if k < n then Values(t)[k] else Tokens[k]);
      head + PartialExpand(ps[1..], t, n)
  }

  lemma {:induction false} FieldUpTo(k: nat, y: string, t: Timestamp, n: nat)
    requires k < |Tokens| && n <= |Tokens|
    ensures SubstituteUpTo(Tokens[k] + y, t, n) == (if k < n then Values(t)[k] else Tokens[k]) + SubstituteUpTo(y, t, n)
  {
    TokenFacts();
    if n > 0 {
      FieldUpTo(k, y, t, n - 1);
      var rest := SubstituteUpTo(y, t, n - 1);
      if k < n - 1 {
        var v := Values(t)[k];
        assert '{' !in v by {
          assert forall i | 0 <= i < |v| :: IsDigit(v[i]);
        }
        ReplaceSkipsPrefix(v, rest, Tokens[n - 1], Values(t)[n - 1]);
      } else {
        ReplaceAtToken(k, rest, n - 1, Values(t)[n - 1]);
      }
    }
  }

  lemma {:induction false} PartialExpandAll(ps: seq<Piece>, t: Timestamp)
    requires WellFormedPieces(ps)
    ensures PartialExpand(ps, t, |Tokens|) == Expand(ps, t)
  {
    if ps != [] {
      assert WellFormedPieces(ps[1..]);
      PartialExpandAll(ps[1..], t);
    }
  }

  /** Substitution replaces every placeholder by its field and keeps all
      other text: on a pattern spelled from pieces it is `Expand`. */
  lemma SubstituteSpell(ps: seq<Piece>, t: Timestamp)
    requires WellFormedPieces(ps)
    ensures Substitute(Spell(ps), t) == Expand(ps, t)
  {
    SubstituteUpToSpell(ps, t, |Tokens|);
    PartialExpandAll(ps, t);
  }
}

module KeyPrefixProperties {
  import opened Wrappers
  import opened PyStr
  import opened KeyPrefix

  // ---------------------------------------------------------------------
  // Helpers about the parser on concrete shapes

  lemma RemoveSuffixAppend(p: string, y: string)
    requires y != [] || (p != [] && p[|p| - 1] != '/')
    ensures RemoveSuffix(p + y, "/") == p + RemoveSuffix(y, "/")
  {
    if y == [] {
      assert p + y == p;
    } else {
      assert (p + y)[|p + y| - 1..] == y[|y| - 1..];
      if EndsWith(y, "/") {
        assert (p + y)[..|p + y| - 1] == p + y[..|y| - 1];
      }
    }
  }

  /** Removing tab, CR and LF works piece by piece. */
  lemma {:induction false} RemoveUnsafeAppend(x: string, y: string)
    ensures RemoveUnsafe(x + y) == RemoveUnsafe(x) + RemoveUnsafe(y)
  {
    if x != [] {
      assert (x + y)[0] == x[0] && (x + y)[1..] == x[1..] + y;
      RemoveUnsafeAppend(x[1..], y);
      if !IsUnsafeUrlChar(x[0]) {
        assert [x[0]] + (RemoveUnsafe(x[1..]) + RemoveUnsafe(y)) == ([x[0]] + RemoveUnsafe(x[1..])) + RemoveUnsafe(y);
      }
    } else {
      assert x + y == y;
    }
  }

  lemma {:induction false} FindAfter(x: string, c: char, y: string)
    requires c !in x
    ensures Find(x + [c] + y, c) == |x|
  {
    if x != [] {
      assert (x + [c] + y)[1..] == x[1..] + [c] + y;
      FindAfter(x[1..], c, y);
    }
  }

  lemma {:induction false} DelimiterAfter(s: string, k: nat, n: nat)
    requires k + n < |s| && IsNetlocDelimiter(s[k + n])
    requires forall i | k <= i < k + n :: !IsNetlocDelimiter(s[i])
    ensures DelimiterFrom(s, k) == k + n
    decreases n
  {
    if n > 0 {
      DelimiterAfter(s, k + 1, n - 1);
    }
  }

  /** The substitution of a text that is empty or starts with `/` is empty
      or starts with `/`. */
  lemma SubstituteKeepsLeadingSlash(p: string, t: Timestamp)
    requires p == [] || p[0] == '/'
    ensures Substitute(p, t) == [] || Substitute(p, t)[0] == '/'
  {
    if p == [] {
      NoBraceNoToken([]);
      SubstituteUpToAbsent([], t, |Tokens|);
    } else {
      assert p == "/" + p[1..];
      SubstituteUpToSkips("/", p[1..], t, |Tokens|);
    }
  }

  // ---------------------------------------------------------------------
  // Which patterns `path_prefix` accepts

  lemma S3UrlHasNoUnsafe(bucket: string, rest: string)
    requires forall i | 0 <= i < |bucket| :: bucket[i] > ' '
    requires forall i | 0 <= i < |rest| :: !IsUnsafeUrlChar(rest[i])
    ensures forall i | 0 <= i < |"s3://" + bucket + rest| :: !IsUnsafeUrlChar(("s3://" + bucket + rest)[i])
  {
    var url := "s3://" + bucket + rest;
    forall i | 0 <= i < |url| ensures !IsUnsafeUrlChar(url[i]) {
      if i >= 5 + |bucket| {
        assert url[i] == rest[i - 5 - |bucket|];
      } else if i >= 5 {
        assert url[i] == bucket[i - 5];
      }
    }
  }

  lemma LStripKeeps(url: string)
    requires url != [] && !IsC0ControlOrSpace(url[0])
    ensures LStripC0(url) == url
  {
  }

  lemma CleanS3Url(bucket: string, rest: string)
    requires forall i | 0 <= i < |bucket| :: bucket[i] > ' '
    requires forall i | 0 <= i < |rest| :: !IsUnsafeUrlChar(rest[i])
    ensures RemoveUnsafe(LStripC0("s3://" + bucket + rest)) == "s3://" + bucket + rest
  {
    var url := "s3://" + bucket + rest;
    S3UrlHasNoUnsafe(bucket, rest);
    LStripKeeps(url);
  }

  lemma S3Scheme(url: string, tail: string)
    requires url == "s3" + [':'] + tail
    ensures Find(url, ':') == 2 && IsScheme(url, 2) && AsciiLower(url[..2]) == "s3" && url[3..] == tail
  {
    FindAfter("s3", ':', tail);
    assert url[..2] == "s3";
    assert AsciiLower("s3") == "s3";
  }

  lemma PlainNetloc(bucket: string, rest: string)
    requires forall i | 0 <= i < |bucket| ::
      !IsNetlocDelimiter(bucket[i]) && bucket[i] != '[' && bucket[i] != ']'
    requires rest != [] && rest[0] == '/'
    ensures SplitNetloc("s3", "//" + bucket + rest) == Ok(UrlParts("s3", bucket, rest))
  {
    var tail := "//" + bucket + rest;
    DelimiterAfter(tail, 2, |bucket|);
    assert tail[2..2 + |bucket|] == bucket;
    assert tail[2 + |bucket|..] == rest;
  }

  lemma S3Shape(url: string, tail: string, bucket: string, rest: string)
    requires url == "s3://" + bucket + rest && tail == "//" + bucket + rest
    ensures url == "s3" + [':'] + tail
    ensures |url| >= 3 && url[3..] == tail && |tail| >= 2 && tail[..2] == "//"
  {
    assert url == "s3" + [':'] + tail;
    assert tail[..2] == "//";
  }

  /** The components of `s3://<bucket><rest>` when the bucket is a plain
      name and the rest starts with `/`. */
  lemma SplitComponentsS3(bucket: string, rest: string)
    requires forall i | 0 <= i < |bucket| ::
      bucket[i] > ' ' && !IsNetlocDelimiter(bucket[i]) && bucket[i] != '[' && bucket[i] != ']'
    requires rest != [] && rest[0] == '/'
    requires forall i | 0 <= i < |rest| :: !IsUnsafeUrlChar(rest[i])
    ensures SplitComponents("s3://" + bucket + rest) == Ok(UrlParts("s3", bucket, rest))
  {
    var url := "s3://" + bucket + rest;
    var tail := "//" + bucket + rest;
    S3Shape(url, tail, bucket, rest);
    CleanS3Url(bucket, rest);
    S3Scheme(url, tail);
    PlainNetloc(bucket, rest);
    SplitComponentsOfParts(url, tail, UrlParts("s3", bucket, rest));
  }

  /** `SplitComponents` on a cleaned text whose scheme is `s3`, followed by `//`. */
  lemma SplitComponentsOfParts(url: string, tail: string, parts: UrlParts)
    requires |url| >= 3 && url[3..] == tail && |tail| >= 2 && tail[..2] == "//"
    requires RemoveUnsafe(LStripC0(url)) == url
    requires Find(url, ':') == 2 && IsScheme(url, 2) && AsciiLower(url[..2]) == "s3"
    requires SplitNetloc("s3", tail) == Ok(parts)
    ensures SplitComponents(url) == Ok(parts)
  {
    assert AfterScheme(url) == tail;
  }

  /** Rendering leaves the `s3://<bucket>` head of a pattern alone. */
  lemma RenderBucketPattern(bucket: string, path: string, t: Timestamp)
    requires bucket != [] && '{' !in bucket && bucket[|bucket| - 1] != '/'
    ensures Render("s3://" + bucket + path, t) == "s3://" + bucket + (Substitute(RemoveSuffix(path, "/"), t) + "/")
  {
    var head := "s3://" + bucket;
    assert "s3://" + bucket + path == head + path;
    RemoveSuffixAppend(head, path);
    assert '{' !in head;
    SubstituteUpToSkips(head, RemoveSuffix(path, "/"), t, |Tokens|);
  }

  /** The rendered path of such a pattern starts with `/` and holds no tab,
      CR or LF. */
  lemma RenderedPathShape(path: string, t: Timestamp)
    requires path == [] || path[0] == '/'
    requires forall i | 0 <= i < |path| :: !IsUnsafeUrlChar(path[i])
    ensures var q := Substitute(RemoveSuffix(path, "/"), t) + "/";
      && q != [] && q[0] == '/' && forall i | 0 <= i < |q| :: !IsUnsafeUrlChar(q[i])
  {
    var p := RemoveSuffix(path, "/");
    assert p == [] || p[0] == '/';
    SubstituteKeepsLeadingSlash(p, t);
    var sub := Substitute(p, t);
    var q := sub + "/";
    forall i | 0 <= i < |q| ensures !IsUnsafeUrlChar(q[i]) {
      if i < |sub| && IsUnsafeUrlChar(q[i]) {
        SubstituteUpToChars(p, t, |Tokens|, q[i]);
        assert forall d | d in p :: d in path;
      }
    }
  }

  /** An `s3://` URL naming a plain bucket passes validation unless the
      NFKC check refuses the bucket, which it never does for an ASCII one. */
  lemma ValidateS3(bucket: string, rest: string, nfkc: string -> string)
    requires bucket != []
    requires forall i | 0 <= i < |bucket| ::
      bucket[i] > ' ' && !IsNetlocDelimiter(bucket[i]) && bucket[i] != '[' && bucket[i] != ']'
    requires rest != [] && rest[0] == '/'
    requires forall i | 0 <= i < |rest| :: !IsUnsafeUrlChar(rest[i])
    ensures CheckNetloc(bucket, nfkc).None? ==>
      && Validate("s3://" + bucket + rest, nfkc) == Ok("s3://" + bucket + rest)
      && UrlSplit("s3://" + bucket + rest, nfkc) == Ok(UrlParts("s3", bucket, rest))
    ensures CheckNetloc(bucket, nfkc).Some? ==>
      Validate("s3://" + bucket + rest, nfkc) == Err(ValueError(NfkcMessage(bucket)))
  {
    SplitComponentsS3(bucket, rest);
  }

  /** `s3://<bucket><path>` is accepted whenever the bucket is a plain
      non-empty name that the NFKC check lets through (an ASCII one always
      is) and the path is empty or starts with `/`; the bucket is then
      exactly the reported network location, and the result is the
      substituted pattern with one trailing `/`. A bucket the NFKC check
      refuses gets its `ValueError`. */
  lemma AcceptsBucketPattern(bucket: string, path: string, t: Timestamp, nfkc: string -> string)
    requires bucket != []
    requires forall i | 0 <= i < |bucket| ::
      bucket[i] > ' ' && !IsNetlocDelimiter(bucket[i]) && bucket[i] != '[' && bucket[i] != ']' && bucket[i] != '{'
    requires path == [] || path[0] == '/'
    requires forall i | 0 <= i < |path| :: !IsUnsafeUrlChar(path[i])
    ensures var q := Substitute(RemoveSuffix(path, "/"), t) + "/";
      CheckNetloc(bucket, nfkc).None? ==>
        && PathPrefix("s3://" + bucket + path, t, nfkc) == Ok("s3://" + bucket + q)
        && UrlSplit("s3://" + bucket + q, nfkc) == Ok(UrlParts("s3", bucket, q))
    ensures CheckNetloc(bucket, nfkc).Some? ==>
      PathPrefix("s3://" + bucket + path, t, nfkc) == Err(ValueError(NfkcMessage(bucket)))
  {
    var q := Substitute(RemoveSuffix(path, "/"), t) + "/";
    assert '{' !in bucket && bucket[|bucket| - 1] != '/' by {
      assert bucket[|bucket| - 1] == bucket[|bucket| - 1];
    }
    RenderBucketPattern(bucket, path, t);
    RenderedPathShape(path, t);
    ValidateS3(bucket, q, nfkc);
    assert Render("s3://" + bucket + path, t) == "s3://" + bucket + q;
  }

  /** Without `:` there is no scheme. */
  lemma NoColonNoScheme(url: string)
    requires ':' !in url
    ensures SplitComponents(url).Ok? ==> SplitComponents(url).value.scheme == []
  {
    assert Find(Cleaned(url), ':') == -1;
  }

  /** A character absent from a text is absent from each of its suffixes. */
  lemma AbsentFromSuffix(u: string, j: nat, c: char)
    requires j <= |u| && c !in u
    ensures c !in u[j..]
  {
  }

  /** Without brackets the network location is always accepted. */
  lemma SplitNetlocNoBrackets(scheme: string, rest: string)
    requires |rest| >= 2 && '[' !in rest && ']' !in rest
    ensures SplitNetloc(scheme, rest).Ok?
  {
    var e := DelimiterFrom(rest, 2);
    AbsentFromSuffix(rest, 2, '[');
    AbsentFromSuffix(rest, 2, ']');
    assert rest[2..e] == rest[2..][..e - 2];
  }

  /** Every character of the network location was in the input. */
  lemma NetlocChars(url: string, c: char)
    requires c in NetlocOf(AfterScheme(Cleaned(url)))
    ensures c in url
  {
    NetlocInText(Cleaned(url), c);
  }

  lemma NetlocInText(u: string, c: char)
    requires c in NetlocOf(AfterScheme(u))
    ensures c in u
  {
    var rest := AfterScheme(u);
    assert |rest| >= 2 && rest[..2] == "//";
    var e := DelimiterFrom(rest, 2);
    assert c in rest[2..e];
    SliceChars(rest, 2, e, c);
    assert rest == u[|u| - |rest|..|u|];
    SliceChars(u, |u| - |rest|, |u|, c);
  }

  /** A character of a slice is a character of the whole. */
  lemma SliceChars(s: string, a: nat, b: nat, c: char)
    requires a <= b <= |s| && c in s[a..b]
    ensures c in s
  {
    var j :| 0 <= j < b - a && s[a..b][j] == c;
    assert s[a + j] == c;
  }

  /** An ASCII URL always passes the NFKC check. */
  lemma AsciiSkipsNfkc(url: string, nfkc: string -> string)
    requires IsAscii(url)
    ensures UrlSplit(url, nfkc) == SplitComponents(url)
  {
    var netloc := NetlocOf(AfterScheme(Cleaned(url)));
    assert IsAscii(netloc) by {
      forall i | 0 <= i < |netloc| ensures netloc[i] < '\U{80}' {
        NetlocChars(url, netloc[i]);
      }
    }
    if SplitComponents(url).Ok? {
      assert SplitComponents(url).value.netloc == netloc;
    }
  }

  /** Without brackets the parse never fails the bracket check, and an
      ASCII URL without brackets is never refused at all. */
  lemma NoBracketsSplit(url: string, nfkc: string -> string)
    requires '[' !in url && ']' !in url
    ensures SplitComponents(url).Ok?
    ensures IsAscii(url) ==> UrlSplit(url, nfkc).Ok?
  {
    var u := Cleaned(url);
    var i := Find(u, ':');
    var j := if IsScheme(u, i) then i + 1 else 0;
    assert u[j..] == AfterScheme(u);
    AbsentFromSuffix(u, j, '[');
    AbsentFromSuffix(u, j, ']');
    if |u[j..]| >= 2 && u[j..][..2] == "//" {
      SplitNetlocNoBrackets(if IsScheme(u, i) then AsciiLower(u[..i]) else [], u[j..]);
    }
    if IsAscii(url) { AsciiSkipsNfkc(url, nfkc); }
  }

  /** Rendering an ASCII pattern gives an ASCII text: it adds only digits
      and `/`. */
  lemma RenderAscii(pattern: string, t: Timestamp)
    requires IsAscii(pattern)
    ensures IsAscii(Render(pattern, t))
  {
    var r := Render(pattern, t);
    forall i | 0 <= i < |r| ensures r[i] < '\U{80}' {
      if !IsDigit(r[i]) && r[i] != '/' { RenderChars(pattern, t, r[i]); }
    }
  }

  /** A pattern without `:` has no scheme and is always rejected; when it is
      ASCII and has no brackets, the error is the one about the scheme. */
  lemma RejectsWithoutScheme(pattern: string, t: Timestamp, nfkc: string -> string)
    requires ':' !in pattern
    ensures PathPrefix(pattern, t, nfkc).Err?
    ensures '[' !in pattern && ']' !in pattern && IsAscii(pattern) ==>
      PathPrefix(pattern, t, nfkc) == Err(ValueError(SchemeMessage))
  {
    var rendered := Render(pattern, t);
    if ':' in rendered { RenderChars(pattern, t, ':'); }
    NoColonNoScheme(rendered);
    if '[' !in pattern && ']' !in pattern && IsAscii(pattern) {
      if '[' in rendered { RenderChars(pattern, t, '['); }
      if ']' in rendered { RenderChars(pattern, t, ']'); }
      RenderAscii(pattern, t);
      NoBracketsSplit(rendered, nfkc);
    }
  }

  // ---------------------------------------------------------------------
  // Keys under an accepted prefix

  lemma {:induction false} LStripAppend(p: string, x: string)
    requires LStripC0(p) != []
    ensures LStripC0(p + x) == LStripC0(p) + x
  {
    assert (p + x)[0] == p[0];
    if IsC0ControlOrSpace(p[0]) {
      assert (p + x)[1..] == p[1..] + x;
      LStripAppend(p[1..], x);
    }
  }

  lemma {:induction false} FindAppend(u: string, v: string, c: char)
    requires c in u
    ensures Find(u + v, c) == Find(u, c)
  {
    assert (u + v)[0] == u[0];
    if u[0] != c {
      assert (u + v)[1..] == u[1..] + v;
      FindAppend(u[1..], v, c);
    }
  }

  lemma {:induction false} DelimiterFromAppend(s: string, v: string, k: nat)
    requires k <= |s| && DelimiterFrom(s, k) < |s|
    ensures DelimiterFrom(s + v, k) == DelimiterFrom(s, k)
    decreases |s| - k
  {
    assert (s + v)[k] == s[k];
    if !IsNetlocDelimiter(s[k]) {
      DelimiterFromAppend(s, v, k + 1);
    }
  }

  /** Text after a scheme leaves the scheme alone. */
  lemma SchemeAppend(u: string, v: string)
    requires SchemeOf(u) != []
    ensures SchemeOf(u + v) == SchemeOf(u) && AfterScheme(u + v) == AfterScheme(u) + v
  {
    var i := Find(u, ':');
    FindAppend(u, v, ':');
    IsSchemeAppend(u, v, i);
    TailAppend(u, v, i + 1);
  }

  lemma IsSchemeAppend(u: string, v: string, i: int)
    requires 0 <= i <= |u|
    ensures IsScheme(u + v, i) == IsScheme(u, i) && (u + v)[..i] == u[..i]
  {
    assert forall k | 0 <= k < i :: (u + v)[k] == u[k];
    assert (u + v)[..i] == u[..i];
  }

  lemma TailAppend(u: string, v: string, j: nat)
    requires j <= |u|
    ensures (u + v)[j..] == u[j..] + v
  {
  }

  /** Text after a delimited network location leaves it alone. */
  lemma NetlocAppend(rest: string, v: string)
    requires |rest| >= 2 && rest[..2] == "//" && DelimiterFrom(rest, 2) < |rest|
    ensures NetlocOf(rest + v) == NetlocOf(rest)
  {
    var e := DelimiterFrom(rest, 2);
    DelimiterFromAppend(rest, v, 2);
    assert (rest + v)[..2] == rest[..2];
    assert (rest + v)[2..e] == rest[2..e];
  }

  /** Text after a prefix that does not clean to nothing is cleaned on its own. */
  lemma CleanedAppend(prefix: string, x: string)
    requires LStripC0(prefix) != []
    ensures Cleaned(prefix + x) == Cleaned(prefix) + RemoveUnsafe(x)
  {
    LStripAppend(prefix, x);
    RemoveUnsafeAppend(LStripC0(prefix), x);
  }

  /** The cleaned text of a prefix ending in `/` ends in `/`. */
  lemma CleanedEnds(prefix: string)
    requires EndsWith(prefix, "/") && LStripC0(prefix) != []
    ensures Cleaned(prefix) != [] && Cleaned(prefix)[|Cleaned(prefix)| - 1] == '/'
  {
    var l := LStripC0(prefix);
    assert l[|l| - 1] == '/';
    assert l == l[..|l| - 1] + "/";
    RemoveUnsafeAppend(l[..|l| - 1], "/");
    assert RemoveUnsafe("/") == "/";
  }

  /** A network location that is not empty and sits in a text ending in `/`
      is followed by a delimiter within that text. */
  lemma NetlocDelimited(u: string)
    requires u != [] && u[|u| - 1] == '/' && NetlocOf(AfterScheme(u)) != []
    ensures var rest := AfterScheme(u);
      |rest| >= 2 && rest[..2] == "//" && DelimiterFrom(rest, 2) < |rest|
  {
    var rest := AfterScheme(u);
    assert rest[|rest| - 1] == u[|u| - 1];
  }

  /** Every key under an accepted prefix that ends in `/` is itself
      accepted, and names the same scheme and the same bucket: the objects
      `handle_DATA` writes all go to the configured bucket. */
  lemma KeyUnderPrefix(prefix: string, x: string, nfkc: string -> string)
    requires Validate(prefix, nfkc) == Ok(prefix) && EndsWith(prefix, "/")
    ensures UrlSplit(prefix + x, nfkc).Ok? && UrlSplit(prefix, nfkc).Ok?
    ensures UrlSplit(prefix + x, nfkc).value.scheme == "s3"
    ensures UrlSplit(prefix + x, nfkc).value.netloc == UrlSplit(prefix, nfkc).value.netloc != []
    ensures Validate(prefix + x, nfkc) == Ok(prefix + x)
  {
    AcceptedShape(prefix, nfkc);
    ComponentsUnderPrefix(prefix, x);
    UrlSplitAgrees(prefix + x, prefix, nfkc);
  }

  /** An accepted prefix has the scheme `s3` and a network location. */
  lemma AcceptedShape(prefix: string, nfkc: string -> string)
    requires Validate(prefix, nfkc) == Ok(prefix)
    ensures SchemeOf(Cleaned(prefix)) == "s3" && NetlocOf(AfterScheme(Cleaned(prefix))) != []
  {
  }

  /** Two texts with the same scheme and network location parse alike. */
  lemma UrlSplitAgrees(a: string, b: string, nfkc: string -> string)
    requires SchemeOf(Cleaned(a)) == SchemeOf(Cleaned(b))
    requires NetlocOf(AfterScheme(Cleaned(a))) == NetlocOf(AfterScheme(Cleaned(b)))
    ensures UrlSplit(a, nfkc).Ok? == UrlSplit(b, nfkc).Ok?
    ensures UrlSplit(a, nfkc).Ok? ==>
      UrlSplit(a, nfkc).value.scheme == UrlSplit(b, nfkc).value.scheme
      && UrlSplit(a, nfkc).value.netloc == UrlSplit(b, nfkc).value.netloc
  {
  }

  /** Text after a prefix ending in `/`, with a scheme and a network
      location, leaves both alone. */
  lemma ComponentsUnderPrefix(prefix: string, x: string)
    requires EndsWith(prefix, "/") && SchemeOf(Cleaned(prefix)) != []
    requires NetlocOf(AfterScheme(Cleaned(prefix))) != []
    ensures SchemeOf(Cleaned(prefix + x)) == SchemeOf(Cleaned(prefix))
    ensures NetlocOf(AfterScheme(Cleaned(prefix + x))) == NetlocOf(AfterScheme(Cleaned(prefix)))
  {
    var u := Cleaned(prefix);
    assert LStripC0(prefix) != [];
    CleanedAppend(prefix, x);
    CleanedEnds(prefix);
    var v := RemoveUnsafe(x);
    SchemeAppend(u, v);
    NetlocDelimited(u);
    NetlocAppend(AfterScheme(u), v);
  }

  /** Rendering `s3://<path>` keeps the head `s3://`: with an empty path
      the stripped `/` comes back, otherwise the path is rendered on its own. */
  lemma RenderEmptyBucketPattern(path: string, t: Timestamp)
    ensures path == [] ==> Render("s3://" + path, t) == "s3://"
    ensures path != [] ==> Render("s3://" + path, t) == "s3://" + (Substitute(RemoveSuffix(path, "/"), t) + "/")
  {
    if path == [] {
      assert "s3://" + path == "s3:/" + "/";
      assert RemoveSuffix("s3://", "/") == "s3:/";
      SubstituteUpToSkips("s3:/", [], t, |Tokens|);
      NoBraceNoToken([]);
      SubstituteUpToAbsent([], t, |Tokens|);
      assert "s3:/" + [] == "s3:/";
    } else {
      RemoveSuffixAppend("s3://", path);
      SubstituteUpToSkips("s3://", RemoveSuffix(path, "/"), t, |Tokens|);
    }
  }

  lemma EmptyBucketShape(url: string, tail: string, r: string)
    requires url == "s3://" + r && tail == "//" + r
    ensures url == "s3" + [':'] + tail
    ensures |url| >= 3 && url[3..] == tail && |tail| >= 2 && tail[..2] == "//"
  {
    assert url == "s3" + [':'] + tail;
    assert tail[..2] == "//";
  }

  lemma CleanEmptyBucketUrl(url: string, r: string)
    requires url == "s3://" + r
    requires forall i | 0 <= i < |r| :: !IsUnsafeUrlChar(r[i])
    ensures RemoveUnsafe(LStripC0(url)) == url
  {
    forall i | 0 <= i < |url| ensures !IsUnsafeUrlChar(url[i]) {
      if i >= 5 { assert url[i] == r[i - 5]; }
    }
    LStripKeeps(url);
  }

  lemma EmptyNetloc(tail: string)
    requires |tail| >= 2 && (|tail| == 2 || tail[2] == '/')
    ensures SplitNetloc("s3", tail) == Ok(UrlParts("s3", [], tail[2..]))
  {
    assert DelimiterFrom(tail, 2) == 2;
  }

  lemma RejectedFrom(url: string, parts: UrlParts, nfkc: string -> string)
    requires SplitComponents(url) == Ok(parts) && parts.scheme == "s3" && parts.netloc == []
    ensures Validate(url, nfkc) == Err(ValueError(BucketMessage))
  {
  }

  /** `s3://` followed by nothing or by a `/` names no bucket. */
  lemma ValidateEmptyBucket(r: string, nfkc: string -> string)
    requires r == [] || r[0] == '/'
    requires forall i | 0 <= i < |r| :: !IsUnsafeUrlChar(r[i])
    ensures Validate("s3://" + r, nfkc) == Err(ValueError(BucketMessage))
  {
    var url := "s3://" + r;
    var tail := "//" + r;
    EmptyBucketShape(url, tail, r);
    CleanEmptyBucketUrl(url, r);
    S3Scheme(url, tail);
    EmptyNetloc(tail);
    var parts := UrlParts("s3", [], tail[2..]);
    SplitComponentsOfParts(url, tail, parts);
    RejectedFrom(url, parts, nfkc);
  }

  /** `s3://` with nothing before the next `/` has no bucket and is
      rejected with the bucket error. */
  lemma RejectsEmptyBucket(path: string, t: Timestamp, nfkc: string -> string)
    requires path == [] || path[0] == '/'
    requires forall i | 0 <= i < |path| :: !IsUnsafeUrlChar(path[i])
    ensures PathPrefix("s3://" + path, t, nfkc) == Err(ValueError(BucketMessage))
  {
    RenderEmptyBucketPattern(path, t);
    if path == [] {
      ValidateEmptyBucket([], nfkc);
      assert "s3://" + [] == "s3://";
    } else {
      RenderedPathShape(path, t);
      ValidateEmptyBucket(Substitute(RemoveSuffix(path, "/"), t) + "/", nfkc);
    }
  }

  // ---------------------------------------------------------------------
  // Worked examples

  /** `s3://mybucket` is accepted and gives `s3://mybucket/`. */
  lemma ExampleBareBucket(bucket: string, t: Timestamp, nfkc: string -> string)
    requires bucket == "mybucket"
    ensures PathPrefix("s3://" + bucket, t, nfkc) == Ok("s3://" + bucket + "/")
  {
    PlainBucketName(bucket);
    NoBraceNoToken([]);
    SubstituteUpToAbsent([], t, |Tokens|);
    AcceptsAsciiBucket(bucket, [], "/", t, nfkc);
    assert "s3://" + bucket + [] == "s3://" + bucket;
  }

  lemma PlainBucketName(bucket: string)
    requires bucket == "mybucket"
    ensures bucket != [] && IsAscii(bucket)
    ensures forall i | 0 <= i < |bucket| ::
      bucket[i] > ' ' && !IsNetlocDelimiter(bucket[i]) && bucket[i] != '[' && bucket[i] != ']' && bucket[i] != '{'
  {
    assert forall i | 0 <= i < |bucket| :: 'a' <= bucket[i] <= 'z';
  }

  /** `/mybucket` has no scheme and is rejected. */
  lemma ExampleNoScheme(pattern: string, t: Timestamp, nfkc: string -> string)
    requires pattern == "/mybucket"
    ensures PathPrefix(pattern, t, nfkc) == Err(ValueError(SchemeMessage))
  {
    assert ':' !in pattern && '[' !in pattern && ']' !in pattern;
    assert forall i | 0 <= i < |pattern| :: '/' <= pattern[i] <= 'z';
    RejectsWithoutScheme(pattern, t, nfkc);
  }

  /** `s3://` names no bucket and is rejected. */
  lemma ExampleNoBucket(pattern: string, t: Timestamp, nfkc: string -> string)
    requires pattern == "s3://"
    ensures PathPrefix(pattern, t, nfkc) == Err(ValueError(BucketMessage))
  {
    RejectsEmptyBucket([], t, nfkc);
    assert "s3://" + [] == pattern;
  }

  lemma DatedSpell(ps: seq<Piece>)
    requires ps == [Text("/emails/"), Field(0), Text("/"), Field(1)]
    ensures WellFormedPieces(ps) && Spell(ps) == "/emails/{YYYY}/{MM}"
  {
    assert Spell(ps[3..]) == "{MM}";
    assert Spell(ps[2..]) == "/{MM}";
    assert Spell(ps[1..]) == "{YYYY}/{MM}";
  }

  lemma DatedValues(t: Timestamp)
    requires t == Timestamp(2024, 3, 15, 10, 30)
    ensures Values(t)[0] == "2024" && Values(t)[1] == "03"
  {
    assert NatToString(2024) == NatToString(202) + "4";
    assert NatToString(202) == NatToString(20) + "2";
    assert NatToString(20) == NatToString(2) + "0";
  }

  lemma DatedExpand(ps: seq<Piece>, t: Timestamp)
    requires ps == [Text("/emails/"), Field(0), Text("/"), Field(1)]
    requires t == Timestamp(2024, 3, 15, 10, 30)
    ensures WellFormedPieces(ps) && Expand(ps, t) == "/emails/2024/03"
  {
    DatedValues(t);
    assert Expand(ps[3..], t) == "03";
    assert Expand(ps[2..], t) == "/03";
    assert Expand(ps[1..], t) == "2024/03";
  }

  /** The pattern path `/emails/{YYYY}/{MM}` at 2024-03-15 10:30 expands to
      `/emails/2024/03`. */
  lemma ExampleDatedPath(path: string, t: Timestamp)
    requires path == "/emails/{YYYY}/{MM}" && t == Timestamp(2024, 3, 15, 10, 30)
    ensures Substitute(path, t) == "/emails/2024/03"
  {
    var ps := [Text("/emails/"), Field(0), Text("/"), Field(1)];
    DatedSpell(ps);
    DatedExpand(ps, t);
    SubstituteSpell(ps, t);
  }

  lemma DatedPatternParts(path: string)
    requires path == "/emails/{YYYY}/{MM}"
    ensures forall i | 0 <= i < |path| :: !IsUnsafeUrlChar(path[i])
    ensures RemoveSuffix(path, "/") == path
  {
    assert forall i | 0 <= i < |path| :: '/' <= path[i] <= '}';
  }

  /** An ASCII bucket and a path whose rendering is known. */
  lemma AcceptsAsciiBucket(bucket: string, path: string, q: string, t: Timestamp, nfkc: string -> string)
    requires bucket != [] && IsAscii(bucket)
    requires forall i | 0 <= i < |bucket| ::
      bucket[i] > ' ' && !IsNetlocDelimiter(bucket[i]) && bucket[i] != '[' && bucket[i] != ']' && bucket[i] != '{'
    requires path == [] || path[0] == '/'
    requires forall i | 0 <= i < |path| :: !IsUnsafeUrlChar(path[i])
    requires Substitute(RemoveSuffix(path, "/"), t) + "/" == q
    ensures PathPrefix("s3://" + bucket + path, t, nfkc) == Ok("s3://" + bucket + q)
  {
    AcceptsBucketPattern(bucket, path, t, nfkc);
  }

  /** The pattern `s3://mybucket/emails/{YYYY}/{MM}` at 2024-03-15 10:30
      gives `s3://mybucket/emails/2024/03/`. */
  lemma ExampleDatedPattern(bucket: string, path: string, t: Timestamp, nfkc: string -> string)
    requires bucket == "mybucket" && path == "/emails/{YYYY}/{MM}" && t == Timestamp(2024, 3, 15, 10, 30)
    ensures PathPrefix("s3://" + bucket + path, t, nfkc) == Ok("s3://" + bucket + "/emails/2024/03/")
  {
    PlainBucketName(bucket);
    DatedPatternParts(path);
    ExampleDatedPath(path, t);
    AcceptsAsciiBucket(bucket, path, "/emails/2024/03/", t, nfkc);
  }

  /** NFKC turns U+2100 into `a/c`, so the check refuses it. */
  lemma NfkcRefusesAccountOf(bucket: string, nfkc: string -> string)
    requires bucket == "\U{2100}" && nfkc(bucket) == "a/c"
    ensures CheckNetloc(bucket, nfkc) == Some(NfkcMessage(bucket))
  {
    assert Replace(bucket, "@", "") == bucket;
    assert Replace(bucket, ":", "") == bucket;
    assert Replace(bucket, "#", "") == bucket;
    assert Replace(bucket, "?", "") == bucket;
    assert !IsAscii(bucket) && IsNfkcSeparator("a/c"[1]);
  }

  /** `s3://℀` is accepted by every check but the NFKC one, which refuses it. */
  lemma ExampleNfkcRefused(bucket: string, t: Timestamp, nfkc: string -> string)
    requires bucket == "\U{2100}" && nfkc(bucket) == "a/c"
    ensures PathPrefix("s3://" + bucket, t, nfkc) == Err(ValueError(NfkcMessage(bucket)))
  {
    NfkcRefusesAccountOf(bucket, nfkc);
    AcceptsBucketPattern(bucket, [], t, nfkc);
    assert "s3://" + bucket + [] == "s3://" + bucket;
  }
}
