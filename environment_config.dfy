/** `EnvironmentConfig`: the settings read from a string-to-string
    environment, with their defaults, or the `ValueError` raised for an
    unknown log level or a port that is not an integer. */
module EnvConfig {
  import opened Wrappers
  import opened PyStr

  // ---------------------------------------------------------------------
  // `int(text)` for base 10

  /** The characters `int` strips from both ends: the ASCII tab, line
      feed, vertical tab, form feed, carriage return and space, and the
      characters above ASCII that `str.isspace` accepts. `int` first maps
      those to a space and then strips only ASCII whitespace, so the ASCII
      separators `\x1c` to `\x1f`, which `str.isspace` accepts, are not
      stripped. */
  predicate IsIntWhitespace(c: char) {
    || ('\t' <= c <= '\r') || c == ' '
    || c == '\U{85}' || c == '\U{A0}' || c == '\U{1680}'
    || ('\U{2000}' <= c <= '\U{200A}') || c == '\U{2028}' || c == '\U{2029}'
    || c == '\U{202F}' || c == '\U{205F}' || c == '\U{3000}'
  }

  function StripLeft(s: string): (r: string)
    ensures r == [] || !IsIntWhitespace(r[0])
    ensures |r| <= |s| && r == s[|s| - |r|..]
    ensures forall i | 0 <= i < |s| - |r| :: IsIntWhitespace(s[i])
  {
    if s != [] && IsIntWhitespace(s[0]) then StripLeft(s[1..]) else s
  }

  function StripRight(s: string): (r: string)
    ensures r == [] || !IsIntWhitespace(r[|r| - 1])
    ensures |r| <= |s| && r == s[..|r|]
    ensures forall i | |r| <= i < |s| :: IsIntWhitespace(s[i])
  {
    if s != [] && IsIntWhitespace(s[|s| - 1]) then StripRight(s[..|s| - 1]) else s
  }

  /** `s.strip()`. */
  function Strip(s: string): string {
    StripRight(StripLeft(s))
  }

  /** Digits, with single underscores allowed between two digits. */
  predicate IsUnderscoredDigits(s: string) {
    && s != [] && IsDigit(s[0]) && IsDigit(s[|s| - 1])
    && (forall i | 0 <= i < |s| :: IsDigit(s[i]) || s[i] == '_')
    && (forall i | 0 <= i < |s| - 1 :: !(s[i] == '_' && s[i + 1] == '_'))
  }

  /** The digits of `s`, underscores dropped. */
  function DropUnderscores(s: string): (r: string)
    ensures |r| <= |s|
    ensures (forall i | 0 <= i < |s| :: IsDigit(s[i]) || s[i] == '_') ==> AllDigits(r)
    ensures '_' !in s ==> r == s
  {
    if s == [] then []
    else if s[0] == '_' then DropUnderscores(s[1..])
    else [s[0]] + DropUnderscores(s[1..])
  }

  /** The longest digit string `int` converts (`sys.get_int_max_str_digits()`
      at its default). */
  const MaxStrDigits := 4300

  /** `int(text)`: surrounding whitespace stripped, an optional sign, then
      digits with single underscores between them; `None` where `int` raises
      `ValueError`, including for more than 4300 digits. */
  function ParsePythonInt(text: string): (r: Option<int>)
    ensures r.Some? ==> Strip(text) != []
  {
    ParseStripped(Strip(text))
  }

  /** The rest of `int(text)` once the whitespace is stripped. */
  function ParseStripped(t: string): (r: Option<int>)
    ensures r.Some? ==> t != []
  {
    var signed := t != [] && (t[0] == '+' || t[0] == '-');
    var body := if signed then t[1..] else t;
    if !IsUnderscoredDigits(body) then None
    else
      var digits := DropUnderscores(body);
      if |digits| > MaxStrDigits then None
      else
        var n: int := DecimalValue(digits);
        Some(if signed && t[0] == '-' then -n else n)
  }

  lemma StripLeftKeeps(s: string)
    requires s == [] || !IsIntWhitespace(s[0])
    ensures StripLeft(s) == s
  {
  }

  lemma StripRightKeeps(s: string)
    requires s == [] || !IsIntWhitespace(s[|s| - 1])
    ensures StripRight(s) == s
  {
  }

  /** A digit string is a well-formed, underscore-free body. */
  lemma DigitsAreUnderscored(s: string)
    requires s != [] && AllDigits(s)
    ensures IsUnderscoredDigits(s) && DropUnderscores(s) == s
  {
    assert '_' !in s by {
      forall i | 0 <= i < |s| ensures s[i] != '_' { assert IsDigit(s[i]); }
    }
  }

  /** A text that starts and ends with something other than whitespace
      is not stripped. */
  lemma StripKeeps(s: string)
    requires s != [] && !IsIntWhitespace(s[0]) && !IsIntWhitespace(s[|s| - 1])
    ensures Strip(s) == s
  {
    StripLeftKeeps(s);
    StripRightKeeps(s);
  }

  /** Once stripped, a plain digit string of at most 4300 digits is read
      as its value. */
  lemma ParseStrippedUnsigned(s: string)
    requires s != [] && AllDigits(s) && |s| <= MaxStrDigits
    ensures ParseStripped(s) == Some(DecimalValue(s))
  {
    assert IsDigit(s[0]);
    DigitsAreUnderscored(s);
  }

  /** A plain digit string of at most 4300 digits is read as its value. */
  lemma ParseUnsigned(s: string)
    requires s != [] && AllDigits(s) && |s| <= MaxStrDigits
    ensures ParsePythonInt(s) == Some(DecimalValue(s))
  {
    assert IsDigit(s[0]) && IsDigit(s[|s| - 1]);
    assert Strip(s) == s by { StripKeeps(s); }
    ParseStrippedUnsigned(s);
  }

  /** Once stripped, `-` and a digit string of at most 4300 digits is read
      as minus its value. */
  lemma ParseStrippedNegative(m: string, s: string)
    requires s != [] && AllDigits(s) && |s| <= MaxStrDigits
    requires m == "-" + s
    ensures ParseStripped(m) == Some(0 - DecimalValue(s))
  {
    assert m[1..] == s;
    DigitsAreUnderscored(s);
  }

  /** `-` and a digit string of at most 4300 digits is read as minus its value. */
  lemma ParseNegative(m: string, s: string)
    requires s != [] && AllDigits(s) && |s| <= MaxStrDigits
    requires m == "-" + s
    ensures ParsePythonInt(m) == Some(0 - DecimalValue(s))
  {
    assert IsDigit(s[|s| - 1]) && m[|m| - 1] == s[|s| - 1];
    StripKeeps(m);
    ParseStrippedNegative(m, s);
  }

  /** `int(str(n))` is `n` for every natural number of at most 4300
      digits. */
  lemma ParseNatToString(n: nat)
    requires |NatToString(n)| <= MaxStrDigits
    ensures ParsePythonInt(NatToString(n)) == Some(n)
  {
    var s := NatToString(n);
    assert DecimalValue(s) == n by { NatToStringRoundTrip(n); }
    ParseUnsigned(s);
  }

  /** `int('-' + str(n))` is `-n` for every natural number of at most 4300
      digits. */
  lemma ParseNegatedNatToString(n: nat)
    requires |NatToString(n)| <= MaxStrDigits
    ensures ParsePythonInt("-" + NatToString(n)) == Some(0 - n)
  {
    var s := NatToString(n);
    assert DecimalValue(s) == n by { NatToStringRoundTrip(n); }
    ParseNegative("-" + s, s);
  }

  /** A text that is empty after stripping is not an integer. */
  lemma ParseBlank(text: string)
    requires forall i | 0 <= i < |text| :: IsIntWhitespace(text[i])
    ensures ParsePythonInt(text) == None
  {
    assert StripLeft(text) == [];
  }

  /** A character that is not whitespace survives stripping, at its place
      counted from the first character kept. */
  lemma StripIndex(text: string, i: nat)
    requires i < |text| && !IsIntWhitespace(text[i])
    ensures var off := |text| - |StripLeft(text)|;
      off <= i < off + |Strip(text)| && Strip(text)[i - off] == text[i]
  {
    var l := StripLeft(text);
    var off := |text| - |l|;
    assert off <= i;
    assert l[i - off] == text[i];
    StripRightIndex(l, i - off);
  }

  /** A character that is not whitespace is kept by `StripRight`. */
  lemma StripRightIndex(l: string, j: nat)
    requires j < |l| && !IsIntWhitespace(l[j])
    ensures j < |StripRight(l)| && StripRight(l)[j] == l[j]
  {
    var r := StripRight(l);
    assert r == l[..|r|];
  }

  /** A character other than a digit or `_`, and other than a sign in
      front, makes the stripped text not an integer. */
  lemma ParseStrippedForeign(t: string, j: nat)
    requires j < |t|
    requires !IsDigit(t[j]) && t[j] != '_' && t[j] != '+' && t[j] != '-'
    ensures ParseStripped(t) == None
  {
    if t[0] == '+' || t[0] == '-' {
      assert t[1..][j - 1] == t[j];
    }
  }

  /** A character that is neither whitespace, a digit, a sign nor `_`
      anywhere in the text makes it not an integer. */
  lemma ParseForeignChar(text: string, i: nat)
    requires i < |text|
    requires !IsIntWhitespace(text[i]) && !IsDigit(text[i]) && text[i] != '_' && text[i] != '+' && text[i] != '-'
    ensures ParsePythonInt(text) == None
  {
    StripIndex(text, i);
    var t := Strip(text);
    var j := i - (|text| - |StripLeft(text)|);
    assert 0 <= j < |t| && t[j] == text[i];
    ParseStrippedForeign(t, j);
  }

  /** The ASCII separator `\x1c` is not stripped, so `int('\x1c1')` raises. */
  lemma ParseFileSeparator(text: string)
    requires text == ['\U{1C}'] + "1"
    ensures ParsePythonInt(text) == None
  {
    ParseForeignChar(text, 0);
  }

  /** `+` followed by a digit string of at most 4300 digits is read as its
      value. */
  lemma ParsePlus(p: string, s: string)
    requires s != [] && AllDigits(s) && |s| <= MaxStrDigits
    requires p == "+" + s
    ensures ParsePythonInt(p) == Some(DecimalValue(s))
  {
    assert IsDigit(s[|s| - 1]) && p[|p| - 1] == s[|s| - 1];
    StripKeeps(p);
    ParseStrippedPlus(p, s);
  }

  /** Once stripped, `+` and a digit string of at most 4300 digits is read
      as its value. */
  lemma ParseStrippedPlus(p: string, s: string)
    requires s != [] && AllDigits(s) && |s| <= MaxStrDigits
    requires p == "+" + s
    ensures ParseStripped(p) == Some(DecimalValue(s))
  {
    assert p[1..] == s;
    DigitsAreUnderscored(s);
  }

  /** Leading whitespace is dropped by `StripLeft`. */
  lemma {:induction false} StripLeftPadded(w: string, t: string)
    requires forall i | 0 <= i < |w| :: IsIntWhitespace(w[i])
    ensures StripLeft(w + t) == StripLeft(t)
  {
    if w == [] {
      assert w + t == t;
    } else {
      assert (w + t)[0] == w[0] && (w + t)[1..] == w[1..] + t;
      StripLeftPadded(w[1..], t);
    }
  }

  /** Trailing whitespace is dropped by `StripRight`. */
  lemma {:induction false} StripRightPadded(t: string, w: string)
    requires forall i | 0 <= i < |w| :: IsIntWhitespace(w[i])
    ensures StripRight(t + w) == StripRight(t)
  {
    if w == [] {
      assert t + w == t;
    } else {
      assert (t + w)[|t + w| - 1] == w[|w| - 1];
      assert (t + w)[..|t + w| - 1] == t + w[..|w| - 1];
      StripRightPadded(t, w[..|w| - 1]);
    }
  }

  /** What `StripLeft` leaves of a text followed by more text. */
  lemma {:induction false} StripLeftAppend(t: string, x: string)
    ensures StripLeft(t) != [] ==> StripLeft(t + x) == StripLeft(t) + x
    ensures StripLeft(t) == [] ==> StripLeft(t + x) == StripLeft(x)
  {
    if t == [] {
      assert t + x == x;
    } else {
      assert (t + x)[0] == t[0];
      if IsIntWhitespace(t[0]) {
        assert (t + x)[1..] == t[1..] + x;
        StripLeftAppend(t[1..], x);
      }
    }
  }

  /** Whitespace around the text does not change what `int` reads. */
  lemma ParsePadded(w1: string, t: string, w2: string)
    requires forall i | 0 <= i < |w1| :: IsIntWhitespace(w1[i])
    requires forall i | 0 <= i < |w2| :: IsIntWhitespace(w2[i])
    ensures ParsePythonInt(w1 + t + w2) == ParsePythonInt(t)
  {
    assert w1 + t + w2 == w1 + (t + w2);
    StripLeftPadded(w1, t + w2);
    StripLeftAppend(t, w2);
    if StripLeft(t) == [] {
      StripLeftPadded(w2, []);
      assert w2 + [] == w2;
    } else {
      StripRightPadded(StripLeft(t), w2);
    }
  }

  /** A single underscore between digits is dropped: `int('8_025')` is 8025. */
  lemma ParseUnderscored(text: string)
    requires text == "8_025"
    ensures ParsePythonInt(text) == Some(8025)
  {
    StripKeeps(text);
    assert IsUnderscoredDigits(text);
    assert DropUnderscores(text) == DefaultPort;
    DefaultPortText();
  }

  /** Two underscores in a row, or one at either end, make the text not an
      integer: `int('8__025')`, `int('_8')` and `int('8_')` raise. */
  lemma ParseMisplacedUnderscores(a: string, b: string, c: string)
    requires a == "8__025" && b == "_8" && c == "8_"
    ensures ParsePythonInt(a) == None
    ensures ParsePythonInt(b) == None
    ensures ParsePythonInt(c) == None
  {
    StripKeeps(a);
    assert a[1] == '_' && a[2] == '_';
    StripKeeps(b);
    StripKeeps(c);
  }

  /** More than 4300 digits are refused, even with underscores between
      them. */
  lemma ParseTooLong(s: string)
    requires IsUnderscoredDigits(s) && |DropUnderscores(s)| > MaxStrDigits
    ensures ParsePythonInt(s) == None
  {
    assert IsDigit(s[0]) && IsDigit(s[|s| - 1]);
    assert Strip(s) == s by { StripKeeps(s); }
    assert s[0] != '+' && s[0] != '-';
  }

  // ---------------------------------------------------------------------
  // Log levels

  /** `logging.getLevelNamesMapping()`, in its iteration order. */
  const LevelNames: seq<(string, int)> := [
    ("CRITICAL", 50), ("FATAL", 50), ("ERROR", 40), ("WARN", 30),
    ("WARNING", 30), ("INFO", 20), ("DEBUG", 10), ("NOTSET", 0)]

  /** The exact, case-sensitive lookup of a level name. */
  function LevelFrom(name: string, k: nat): (r: Option<int>)
    requires k <= |LevelNames|
    ensures r.Some? <==> exists j | k <= j < |LevelNames| :: LevelNames[j].0 == name
    ensures r.Some? ==> exists j | k <= j < |LevelNames| :: LevelNames[j] == (name, r.value)
    decreases |LevelNames| - k
  {
    if k == |LevelNames| then None
    else if LevelNames[k].0 == name then Some(LevelNames[k].1)
    else LevelFrom(name, k + 1)
  }

  function LevelLookup(name: string): Option<int> {
    LevelFrom(name, 0)
  }

  /** `', '.join(...)` over strings. */
  function JoinWith(parts: seq<string>, sep: string): string {
    if parts == [] then []
    else if |parts| == 1 then parts[0]
    else parts[0] + sep + JoinWith(parts[1..], sep)
  }

  function Names(table: seq<(string, int)>): (r: seq<string>)
    ensures |r| == |table| && forall k | 0 <= k < |table| :: r[k] == table[k].0
  {
    if table == [] then [] else [table[0].0] + Names(table[1..])
  }

  const LevelMessageStart := "Environment LOG_LEVEL (\""
  const LevelMessageMiddle := "\") is invalid.  Must be one of "

  /** The message of the `ValueError` for an unknown level name. */
  function LogLevelMessage(name: string): string {
    LevelMessageStart + name + LevelMessageMiddle + JoinWith(Names(LevelNames), ", ") + "."
  }

  /** Where a part appears in the joined text. */
  lemma {:induction false} JoinWithAt(parts: seq<string>, sep: string, k: nat) returns (i: nat)
    requires k < |parts|
    ensures OccursAt(JoinWith(parts, sep), parts[k], i)
  {
    var t := parts[k];
    if |parts| == 1 {
      i := 0;
      assert JoinWith(parts, sep)[0..|t|] == t;
    } else if k == 0 {
      i := 0;
      assert JoinWith(parts, sep)[0..|t|] == t;
    } else {
      var j := JoinWithAt(parts[1..], sep, k - 1);
      var rest := JoinWith(parts[1..], sep);
      i := |parts[0]| + |sep| + j;
      assert JoinWith(parts, sep) == (parts[0] + sep) + rest;
      assert JoinWith(parts, sep)[i..i + |t|] == rest[j..j + |t|];
    }
  }

  /** Text found at index `j` of `mid` is found in `head + mid + tail`,
      `|head|` further on. */
  lemma OccursInMiddle(head: string, mid: string, tail: string, t: string, j: nat)
    requires OccursAt(mid, t, j)
    ensures OccursAt(head + mid + tail, t, |head| + j)
  {
    assert (head + mid + tail)[|head| + j..|head| + j + |t|] == mid[j..j + |t|];
  }

  /** Every valid level name appears in the message. */
  lemma LevelMessageNames(name: string, k: nat)
    requires k < |LevelNames|
    ensures Occurs(LogLevelMessage(name), LevelNames[k].0)
  {
    var names := Names(LevelNames);
    var head := LevelMessageStart + name + LevelMessageMiddle;
    var j := JoinWithAt(names, ", ", k);
    OccursInMiddle(head, JoinWith(names, ", "), ".", names[k], j);
    assert OccursAt(LogLevelMessage(name), LevelNames[k].0, |head| + j);
  }

  /** The message names the level: different names give different messages. */
  lemma LevelMessageInjective(a: string, b: string)
    requires LogLevelMessage(a) == LogLevelMessage(b)
    ensures a == b
  {
    var head := LevelMessageStart;
    var tail := LevelMessageMiddle + JoinWith(Names(LevelNames), ", ") + ".";
    assert LogLevelMessage(a) == head + a + tail;
    assert LogLevelMessage(b) == head + b + tail;
    assert |a| == |b|;
    assert a == (head + a + tail)[|head|..|head| + |a|];
    assert b == (head + b + tail)[|head|..|head| + |b|];
  }

  /** The names in the table are exactly the eight of `logging`, with the
      numbers of `logging`; lower case or surrounding spaces do not match. */
  lemma LevelTable(name: string)
    ensures LevelLookup("CRITICAL") == Some(50) && LevelLookup("FATAL") == Some(50)
    ensures LevelLookup("ERROR") == Some(40) && LevelLookup("WARN") == Some(30)
    ensures LevelLookup("WARNING") == Some(30) && LevelLookup("INFO") == Some(20)
    ensures LevelLookup("DEBUG") == Some(10) && LevelLookup("NOTSET") == Some(0)
    ensures LevelLookup(name).Some? <==>
      name in {"CRITICAL", "FATAL", "ERROR", "WARN", "WARNING", "INFO", "DEBUG", "NOTSET"}
  {
  }

  // ---------------------------------------------------------------------
  // The configuration

  datatype Config = Config(
    awsAccessKeyId: Option<string>,
    awsSecretAccessKey: Option<string>,
    logLevel: int,
    s3EndpointUrl: Option<string>,
    s3PrefixPattern: Option<string>,
    smtpHostname: string,
    smtpPort: int)

  /** The `ValueError`s `__init__` raises: for the level name, with its
      message, and for the port, with the text `int` refused. */
  datatype ConfigError = InvalidLogLevel(message: string) | InvalidPort(text: string)

  /** `environ.get(key)`: the value when the key is set, `None` otherwise. */
  function Get(environ: map<string, string>, key: string): (r: Option<string>)
    ensures r.Some? <==> key in environ
    ensures r.Some? ==> r.value == environ[key]
  {
    if key in environ then Some(environ[key]) else None
  }

  /** `environ.get(key, default)`: what `environ.get(key)` finds, or the
      default where it finds nothing. */
  function GetOr(environ: map<string, string>, key: string, default: string): (r: string)
    ensures Get(environ, key).Some? ==> r == Get(environ, key).value
    ensures Get(environ, key).None? ==> r == default
  {
    if key in environ then environ[key] else default
  }

  const DefaultLogLevel := "WARN"
  const DefaultHostname := "127.0.0.1"
  const DefaultPort := "8025"

  /** `EnvironmentConfig(environ)`: the level name is looked up first, so a
      bad level is reported even when the port is bad too. */
  function EnvironmentConfig(environ: map<string, string>): (r: Result<Config, ConfigError>)
    ensures r.Ok? <==>
      LevelLookup(GetOr(environ, "LOG_LEVEL", DefaultLogLevel)).Some?
      && ParsePythonInt(GetOr(environ, "SMTP_PORT", DefaultPort)).Some?
  {
    var levelName := GetOr(environ, "LOG_LEVEL", DefaultLogLevel);
    match LevelLookup(levelName)
    case None => Err(InvalidLogLevel(LogLevelMessage(levelName)))
    case Some(level) =>
      var portText := GetOr(environ, "SMTP_PORT", DefaultPort);
      match ParsePythonInt(portText)
      case None => Err(InvalidPort(portText))
      case Some(port) =>
        Ok(Config(
          Get(environ, "AWS_ACCESS_KEY_ID"),
          Get(environ, "AWS_SECRET_ACCESS_KEY"),
          level,
          Get(environ, "S3_ENDPOINT_URL"),
          Get(environ, "S3_PREFIX_PATTERN"),
          GetOr(environ, "SMTP_HOSTNAME", DefaultHostname),
          port))
  }

  /** An empty environment gives every default: no credentials, endpoint or
      pattern, level `WARN` (30), host `127.0.0.1`, port 8025. */
  lemma Defaults(environ: map<string, string>)
    requires environ == map[]
    ensures EnvironmentConfig(environ) == Ok(Config(None, None, 30, None, None, "127.0.0.1", 8025))
  {
    DefaultPortValue();
    DefaultLevelValue();
  }

  /** The default level name is `WARN`, of number 30. */
  lemma DefaultLevelValue()
    ensures LevelLookup(DefaultLogLevel) == Some(30)
  {
    assert LevelNames[3] == (DefaultLogLevel, 30);
  }

  /** The default port text is read as 8025. */
  lemma DefaultPortValue()
    ensures ParsePythonInt(DefaultPort) == Some(8025)
  {
    DefaultPortText();
    ParseUnsigned(DefaultPort);
  }

  /** The digits of the default port text have the value 8025. */
  lemma DefaultPortText()
    ensures AllDigits(DefaultPort) && DecimalValue(DefaultPort) == 8025
  {
    var s := DefaultPort;
    assert AllDigits(s);
    assert DecimalValue(s[..1]) == 8;
    assert s[..3][..2] == s[..2] && s[..4][..3] == s[..3] && s[..2][..1] == s[..1];
    assert DecimalValue(s[..2]) == 80;
    assert DecimalValue(s[..3]) == 802;
    assert s[..4] == s;
  }

  /** Values present in the environment are taken as they are: no trimming
      and no change of case. */
  lemma CopiedVerbatim(environ: map<string, string>)
    requires EnvironmentConfig(environ).Ok?
    ensures var c := EnvironmentConfig(environ).value;
      && ("AWS_ACCESS_KEY_ID" in environ ==> c.awsAccessKeyId == Some(environ["AWS_ACCESS_KEY_ID"]))
      && ("AWS_SECRET_ACCESS_KEY" in environ ==> c.awsSecretAccessKey == Some(environ["AWS_SECRET_ACCESS_KEY"]))
      && ("S3_ENDPOINT_URL" in environ ==> c.s3EndpointUrl == Some(environ["S3_ENDPOINT_URL"]))
      && ("S3_PREFIX_PATTERN" in environ ==> c.s3PrefixPattern == Some(environ["S3_PREFIX_PATTERN"]))
      && ("SMTP_HOSTNAME" in environ ==> c.smtpHostname == environ["SMTP_HOSTNAME"])
      && c.logLevel == LevelLookup(GetOr(environ, "LOG_LEVEL", DefaultLogLevel)).value
      && c.smtpPort == ParsePythonInt(GetOr(environ, "SMTP_PORT", DefaultPort)).value
  {
  }

  /** Settings absent from the environment take their defaults: no
      credentials, endpoint or pattern, host `127.0.0.1`, level `WARN` (30)
      and port 8025. */
  lemma AbsentKeysDefault(environ: map<string, string>)
    requires EnvironmentConfig(environ).Ok?
    ensures var c := EnvironmentConfig(environ).value;
      && ("AWS_ACCESS_KEY_ID" !in environ ==> c.awsAccessKeyId == None)
      && ("AWS_SECRET_ACCESS_KEY" !in environ ==> c.awsSecretAccessKey == None)
      && ("S3_ENDPOINT_URL" !in environ ==> c.s3EndpointUrl == None)
      && ("S3_PREFIX_PATTERN" !in environ ==> c.s3PrefixPattern == None)
      && ("SMTP_HOSTNAME" !in environ ==> c.smtpHostname == "127.0.0.1")
      && ("LOG_LEVEL" !in environ ==> c.logLevel == 30)
      && ("SMTP_PORT" !in environ ==> c.smtpPort == 8025)
  {
    DefaultLevelValue();
    DefaultPortValue();
  }

  /** An unknown level name is reported, with the message naming it and
      listing the valid names, whatever the port; no configuration results. */
  lemma InvalidLevelFirst(environ: map<string, string>)
    requires LevelLookup(GetOr(environ, "LOG_LEVEL", DefaultLogLevel)).None?
    ensures EnvironmentConfig(environ)
      == Err(InvalidLogLevel(LogLevelMessage(GetOr(environ, "LOG_LEVEL", DefaultLogLevel))))
  {
  }

  /** With a known level, a port that `int` refuses is reported with its text. */
  lemma InvalidPortReported(environ: map<string, string>)
    requires LevelLookup(GetOr(environ, "LOG_LEVEL", DefaultLogLevel)).Some?
    requires ParsePythonInt(GetOr(environ, "SMTP_PORT", DefaultPort)).None?
    ensures EnvironmentConfig(environ) == Err(InvalidPort(GetOr(environ, "SMTP_PORT", DefaultPort)))
  {
  }
}
