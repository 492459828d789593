/** Character classes and text operations the entry parser is written with. Case folding is that of ASCII. */
module Text {
  import opened Common

  predicate IsDigit(c: char) { '0' <= c <= '9' }

  predicate IsLower(c: char) { 'a' <= c <= 'z' }

  predicate IsUpper(c: char) { 'A' <= c <= 'Z' }

  predicate IsLetter(c: char) { IsLower(c) || IsUpper(c) }

  predicate IsAlnum(c: char) { IsLetter(c) || IsDigit(c) }

  predicate IsHex(c: char) { IsDigit(c) || 'a' <= c <= 'f' || 'A' <= c <= 'F' }

  predicate IsSpace(c: char) {
    c == ' ' || '\t' <= c <= '\r' || c == '\U{00A0}' || c == '\U{1680}' || '\U{2000}' <= c <= '\U{200A}'
    || c == '\U{2028}' || c == '\U{2029}' || c == '\U{202F}' || c == '\U{205F}' || c == '\U{3000}' || c == '\U{FEFF}'
  }

  function LowerChar(c: char): char { if IsUpper(c) then c - 'A' + 'a' else c }

  function Lower(s: string): (r: string)
    ensures |r| == |s| && forall k | 0 <= k < |s| :: r[k] == LowerChar(s[k])
  {
    seq(|s|, k requires 0 <= k < |s| => LowerChar(s[k]))
  }

  function Upper(s: string): string { seq(|s|, k requires 0 <= k < |s| => if IsLower(s[k]) then s[k] - 'a' + 'A' else s[k]) }

  function TrimStart(s: string): string { if s != "" && IsSpace(s[0]) then TrimStart(s[1..]) else s }

  function TrimEnd(s: string): string { if s != "" && IsSpace(s[|s| - 1]) then TrimEnd(s[..|s| - 1]) else s }

  function Trim(s: string): string { TrimEnd(TrimStart(s)) }

  predicate Contains(s: string, c: char) { exists k :: 0 <= k < |s| && s[k] == c }

  predicate StartsWith(s: string, p: string) { |p| <= |s| && s[..|p|] == p }

  /** Index of the first `c`, or the length. */
  function Find(s: string, c: char): (r: nat)
    ensures r <= |s|
    ensures forall k | 0 <= k < r :: s[k] != c
    ensures r < |s| ==> s[r] == c
  {
    if s == "" || s[0] == c then 0 else 1 + Find(s[1..], c)
  }

  /** `split(c)[0]` */
  function Before(s: string, c: char): string { s[..Find(s, c)] }

  /** `split(c)` */
  function Split(s: string, c: char): (parts: seq<string>)
    ensures parts != []
    decreases |s|
  {
    var i := Find(s, c);
    if i == |s| then [s] else [s[..i]] + Split(s[i + 1..], c)
  }

  lemma NothingToTrim(s: string)
    requires s != "" && !IsSpace(s[0]) && !IsSpace(s[|s| - 1])
    ensures Trim(s) == s
  {
  }

  lemma {:induction false} TrimIsPart(s: string)
    ensures exists a, b :: 0 <= a <= b <= |s| && Trim(s) == s[a..b]
  {
    TrimStartIsPart(s);
    var a :| 0 <= a <= |s| && TrimStart(s) == s[a..];
    TrimEndIsPart(s[a..]);
    var b :| 0 <= b <= |s[a..]| && TrimEnd(s[a..]) == s[a..][..b];
    assert s[a..][..b] == s[a..a + b];
  }

  lemma {:induction false} TrimStartIsPart(s: string)
    ensures exists a :: 0 <= a <= |s| && TrimStart(s) == s[a..]
  {
    if s != "" && IsSpace(s[0]) {
      TrimStartIsPart(s[1..]);
      var a :| 0 <= a <= |s[1..]| && TrimStart(s[1..]) == s[1..][a..];
      assert s[1..][a..] == s[a + 1..];
    } else {
      assert s[0..] == s;
    }
  }

  lemma {:induction false} TrimEndIsPart(s: string)
    ensures exists b :: 0 <= b <= |s| && TrimEnd(s) == s[..b]
  {
    if s != "" && IsSpace(s[|s| - 1]) {
      TrimEndIsPart(s[..|s| - 1]);
      var b :| 0 <= b <= |s[..|s| - 1]| && TrimEnd(s[..|s| - 1]) == s[..|s| - 1][..b];
      assert s[..|s| - 1][..b] == s[..b];
    } else {
      assert s[..|s|] == s;
    }
  }

  // ------------------------------------------------------------------ decimal numbers

  function Digit(d: nat): char
    requires d < 10
  {
    '0' + d as char
  }

  function DigitValue(c: char): nat
    requires IsDigit(c)
  {
    (c - '0') as nat
  }

  function Decimal(n: nat): (s: string)
    ensures s != "" && forall k | 0 <= k < |s| :: IsDigit(s[k])
  {
    if n < 10 then [Digit(n)] else Decimal(n / 10) + [Digit(n % 10)]
  }

  predicate AllDigits(s: string) { forall k | 0 <= k < |s| :: IsDigit(s[k]) }

  function Number(s: string): nat
    requires AllDigits(s)
  {
    if s == "" then 0 else Number(s[..|s| - 1]) * 10 + DigitValue(s[|s| - 1])
  }

  lemma {:induction false} NumberOfDecimal(n: nat)
    ensures Number(Decimal(n)) == n
    ensures n < 100000 ==> |Decimal(n)| <= 5
  {
    if n >= 10 {
      NumberOfDecimal(n / 10);
      assert Decimal(n)[..|Decimal(n)| - 1] == Decimal(n / 10);
      DecimalLength(n);
    }
  }

  lemma DecimalLength(n: nat)
    ensures n < 10 ==> |Decimal(n)| == 1
    ensures n < 100 ==> |Decimal(n)| <= 2
    ensures n < 1000 ==> |Decimal(n)| <= 3
    ensures n < 10000 ==> |Decimal(n)| <= 4
    ensures n < 100000 ==> |Decimal(n)| <= 5
  {
    if n >= 10 {
      DecimalLength(n / 10);
    }
  }

  // ------------------------------------------------------------------ lines

  function DropCR(line: string): string { if line != "" && line[|line| - 1] == '\r' then line[..|line| - 1] else line }

  /** `split(/\r?\n/)` */
  function Lines(text: string): seq<string>
    decreases |text|
  {
    var i := Find(text, '\n');
    if i == |text| then [text] else [DropCR(text[..i])] + Lines(text[i + 1..])
  }

  function Join(lines: seq<string>): string {
    if lines == [] then "" else if |lines| == 1 then lines[0] else lines[0] + "\n" + Join(lines[1..])
  }

  predicate PlainLine(line: string) { forall k | 0 <= k < |line| :: line[k] != '\n' && line[k] != '\r' }

  lemma FindAfter(a: string, c: char, b: string)
    requires forall k | 0 <= k < |a| :: a[k] != c
    ensures Find(a + [c] + b, c) == |a|
  {
    var s := a + [c] + b;
    assert s[|a|] == c;
    assert forall k | 0 <= k < |a| :: s[k] == a[k];
  }

  lemma FirstLine(first: string, rest: string)
    requires PlainLine(first)
    ensures Lines(first + "\n" + rest) == [first] + Lines(rest)
  {
    var text := first + "\n" + rest;
    FindAfter(first, '\n', rest);
    assert text[..|first|] == first && text[|first| + 1..] == rest;
  }

  lemma OnlyLine(line: string)
    requires PlainLine(line)
    ensures Lines(line) == [line]
  {
    assert Find(line, '\n') == |line|;
  }

  lemma {:induction false} LinesOfJoin(lines: seq<string>)
    requires lines != [] && forall l <- lines :: PlainLine(l)
    ensures Lines(Join(lines)) == lines
  {
    hide Lines, PlainLine;
    assert lines[0] in lines;
    if |lines| > 1 {
      FirstLine(lines[0], Join(lines[1..]));
      LinesOfJoin(lines[1..]);
      assert [lines[0]] + lines[1..] == lines;
    } else {
      OnlyLine(lines[0]);
    }
  }
}

/** One proxy entry: how it is parsed, and how it is printed for logs. */
module ProxyEntry {
  import opened Common
  import opened Text

  const MAX_ENTRY_LENGTH: nat := 256

  type Port = n: nat | 1 <= n <= 65535 witness 1

  datatype Protocol = Http | Https | Socks4 | Socks5

  datatype Reason =
    | Empty | TooLong | NoPort | InvalidPort | InvalidHost | InvalidScheme | InvalidCredentials
    | AmbiguousFormat | NeedsBrackets | NotAnEntry

  datatype Origin = FromScheme | FromHint | FromDefault

  datatype Proxy = Proxy(
    host: string,
    port: Port,
    protocol: Protocol,
    username: Option<string>,
    password: Option<string>,
    country: Option<string>)

  datatype ParseResult = Parsed(proxy: Proxy, origin: Origin) | Rejected(reason: Reason)

  /** `decode` is percent-decoding, which returns its argument when that is not percent encoded. */
  datatype Options = Options(hint: Option<Protocol>, fallback: Option<Protocol>, decode: string -> string)

  function Name(p: Protocol): string {
    match p
    case Http => "http"
    case Https => "https"
    case Socks4 => "socks4"
    case Socks5 => "socks5"
  }

  function Alias(scheme: string): Option<Protocol> {
    if scheme == "http" then Some(Http)
    else if scheme == "https" || scheme == "tls" then Some(Https)
    else if scheme == "socks4" || scheme == "socks4a" then Some(Socks4)
    else if scheme == "socks5" || scheme == "socks5h" || scheme == "socks" then Some(Socks5)
    else None
  }

  // ------------------------------------------------------------------ markup

  /** End of the run of letters and digits that starts at `k`. */
  function AlnumEnd(s: string, k: nat): (e: nat)
    requires k <= |s|
    ensures k <= e <= |s|
    ensures forall j | k <= j < e :: IsAlnum(s[j])
    ensures e < |s| ==> !IsAlnum(s[e])
    decreases |s| - k
  {
    if k < |s| && IsAlnum(s[k]) then AlnumEnd(s, k + 1) else k
  }

  /** A tag starts at `i`: `<`, an optional slash, a name, then white space, a slash or `>`. */
  predicate TagAt(s: string, i: nat) {
    i < |s| && s[i] == '<'
    && var j := if i + 1 < |s| && s[i + 1] == '/' then i + 2 else i + 1;
       j < |s| && IsLetter(s[j])
       && var e := AlnumEnd(s, j);
          e < |s| && (IsSpace(s[e]) || s[e] == '/' || s[e] == '>')
  }

  predicate HasTag(s: string) { exists i :: 0 <= i < |s| && TagAt(s, i) }

  predicate LooksLikeMarkup(line: string) {
    var v := Trim(line);
    v != "" && (HasTag(v) || v[0] == '{' || v[0] == '[' || StartsWith(v, "<?xml") || StartsWith(v, "<!doctype"))
  }

  // ------------------------------------------------------------------ hosts and ports

  predicate HostChar(c: char) { IsLower(c) || IsDigit(c) || c == '-' }

  predicate ValidLabel(l: string) {
    1 <= |l| <= 63 && (forall k | 0 <= k < |l| :: HostChar(l[k])) && l[0] != '-' && l[|l| - 1] != '-'
  }

  predicate Ipv4Like(labels: seq<string>) {
    |labels| == 4 && forall k | 0 <= k < 4 :: 1 <= |labels[k]| <= 3 && AllDigits(labels[k])
  }

  /** Host names, and dotted quads that really are IPv4 addresses; lower case only. */
  predicate ValidHost(host: string) {
    var labels := Split(host, '.');
    && 1 <= |host| <= 253
    && !Contains(host, ':')
    && (forall k | 0 <= k < |labels| :: ValidLabel(labels[k]))
    && (Ipv4Like(labels) ==> forall k | 0 <= k < 4 :: Number(labels[k]) <= 255)
  }

  function NormalizeHost(raw: string): Option<string> {
    var host := Trim(raw);
    if host == "" then None
    else if host[0] == '[' && host[|host| - 1] == ']' then
      var withoutZone := Before(host[1..|host| - 1], '%');
      if Contains(withoutZone, ':') then Some(Lower(withoutZone)) else None
    else
      var lower := Lower(host);
      var name := if lower[|lower| - 1] == '.' then lower[..|lower| - 1] else lower;
      if name == "" || Contains(name, ':') || Contains(name, '/') || Contains(name, '?') || Contains(name, '#') then None
      else if ValidHost(name) then Some(name)
      else None
  }

  function NormalizePort(raw: string): Option<Port> {
    var value := Trim(raw);
    if !(1 <= |value| <= 5 && AllDigits(value)) then None
    else
      var n := Number(value);
      if 1 <= n <= 65535 then Some(n) else None
  }

  function CleanCredential(raw: string, o: Options): Option<string> {
    var value := o.decode(raw);
    if |value| == 0 || |value| > 128 then None
    else if exists k :: 0 <= k < |value| && !(' ' <= value[k] <= '~') then None
    else if Contains(value, ':') || Contains(value, '@') then None
    else Some(value)
  }

  // ------------------------------------------------------------------ the parser

  predicate SchemeChar(c: char) { IsAlnum(c) || c == '+' || c == '.' || c == '-' }

  function SchemeRun(s: string): (k: nat)
    ensures k <= |s|
    ensures forall j | 0 <= j < k :: SchemeChar(s[j])
    ensures k < |s| ==> !SchemeChar(s[k])
  {
    if s != "" && SchemeChar(s[0]) then 1 + SchemeRun(s[1..]) else 0
  }

  /** The text starts with something that could be a scheme, followed by `suffix`. */
  predicate SchemeThen(raw: string, suffix: string) {
    var k := SchemeRun(raw);
    raw != "" && IsLetter(raw[0]) && k <= 16 && StartsWith(raw[k..], suffix)
  }

  datatype Scheme = Absent(authority: string) | Found(protocol: Protocol, authority: string) | BadScheme(reason: Reason)

  function ReadScheme(raw: string): Scheme {
    var k := SchemeRun(raw);
    if SchemeThen(raw, "://") then
      var p := Alias(Lower(raw[..k]));
      if p.None? then BadScheme(InvalidScheme)
      else if raw[k + 3..] == "" then BadScheme(InvalidHost)
      else Found(p.value, raw[k + 3..])
    else if SchemeThen(raw, ":") && !Contains(raw, '@') then
      var p := Alias(Lower(raw[..k]));
      if p.None? then BadScheme(InvalidScheme) else Found(p.value, raw[k + 1..])
    else Absent(raw)
  }

  datatype Fields = Fields(host: Option<string>, port: Option<Port>, user: Option<string>, pass: Option<string>, country: Option<string>)
                  | BadFields(reason: Reason)

  function LastAt(s: string): (r: int)
    ensures -1 <= r < |s|
    ensures r >= 0 ==> s[r] == '@'
    ensures forall k | r < k < |s| :: s[k] != '@'
  {
    if s == "" then -1 else if s[|s| - 1] == '@' then |s| - 1 else LastAt(s[..|s| - 1])
  }

  predicate Bracketed(h: string) { |h| >= 3 && h[0] == '[' && h[1] != ']' && Contains(h[1..], ']') }

  function AfterBracket(h: string): string { if Find(h, ']') < |h| then h[Find(h, ']') + 1..] else h }

  function DropColon(s: string): string { if s != "" && s[0] == ':' then s[1..] else s }

  function AfterFirst(s: string, c: char): string { if Find(s, c) < |s| then s[Find(s, c) + 1..] else "" }

  /** Fields separated by runs of white space: the first two. */
  function SpaceEnd(s: string): (k: nat)
    ensures k <= |s|
  {
    if s != "" && !IsSpace(s[0]) then 1 + SpaceEnd(s[1..]) else 0
  }

  function SecondWord(s: string): Option<string> {
    var rest := s[SpaceEnd(s)..];
    if rest == "" then None else
      var t := TrimStart(rest);
      Some(t[..SpaceEnd(t)])
  }

  predicate HexField(p: string) { |p| <= 4 && forall k | 0 <= k < |p| :: IsHex(p[k]) }

  predicate LooksLikeIpv6(parts: seq<string>) {
    |parts| >= 5 && (forall k | 0 <= k < |parts| :: HexField(parts[k]))
    && ((exists k :: 0 <= k < |parts| && parts[k] == "") || |parts| >= 7)
  }

  predicate CountryCode(cc: string) { |cc| == 2 && IsLetter(cc[0]) && IsLetter(cc[1]) }

  function UserFields(host: string, user: string, pass: Option<string>): Fields {
    if Contains(host, ' ') || Trim(host) == "" then BadFields(InvalidHost)
    else
      var port := if host[0] == '[' then NormalizePort(DropColon(AfterBracket(host))) else NormalizePort(AfterFirst(host, ':'));
      Fields(NormalizeHost(Before(host, ':')), port, Some(user), pass, None)
  }

  function ColonFields(raw: string, host: string): Fields {
    var parts := Split(host, ':');
    if LooksLikeIpv6(parts) then BadFields(NeedsBrackets)
    else if |parts| == 2 then Fields(NormalizeHost(parts[0]), NormalizePort(parts[1]), None, None, None)
    else if |parts| == 4 || |parts| == 5 then
      if parts[2] == "" then BadFields(AmbiguousFormat)
      else if |parts| == 5 && !CountryCode(parts[4]) then BadFields(AmbiguousFormat)
      else Fields(NormalizeHost(parts[0]), NormalizePort(parts[1]), Some(parts[2]), Some(parts[3]),
                  if |parts| == 5 then Some(Upper(parts[4])) else None)
    else if |parts| == 3 then BadFields(AmbiguousFormat)
    else if |parts| == 1 then
      if NormalizeHost(parts[0]).None? then BadFields(if Contains(raw, ':') then NeedsBrackets else InvalidHost)
      else BadFields(NoPort)
    else
      BadFields(if forall k | 0 <= k < |parts| :: parts[k] != "" && forall j | 0 <= j < |parts[k]| :: IsHex(parts[k][j])
                then NeedsBrackets else AmbiguousFormat)
  }

  function BracketFields(host: string): Fields {
    Fields(NormalizeHost(host[..Min(Find(host, ']') + 1, |host|)]), NormalizePort(DropColon(AfterBracket(host))), None, None, None)
  }

  function ReadFields(raw: string, authority: string): Fields {
    var at := LastAt(authority);
    if at >= 0 then
      var info, host := authority[..at], authority[at + 1..];
      UserFields(host, Before(info, ':'), if Contains(info, ':') then Some(AfterFirst(info, ':')) else None)
    else if Bracketed(authority) then BracketFields(authority)
    else if Contains(authority, ' ') && !Contains(authority, ':') then
      var second := SecondWord(authority);
      Fields(NormalizeHost(authority[..SpaceEnd(authority)]), if second.None? then None else NormalizePort(second.value), None, None, None)
    else ColonFields(raw, authority)
  }

  /** Why an entry with a host has no usable port. */
  function PortFailure(host: string): Reason {
    var after := if host != "" && host[0] == '[' then AfterBracket(host)
                 else if Contains(host, ':') then AfterFirst(host, ':') else host;
    if (Contains(host, ':') || Contains(host, ']')) && Trim(after) != "" then InvalidPort else NoPort
  }

  function HostPart(authority: string): string { authority[LastAt(authority) + 1..] }

  function Assemble(f: Fields, hostPart: string, scheme: Option<Protocol>, o: Options): ParseResult
    requires f.Fields?
  {
    if f.host.None? then Rejected(InvalidHost)
    else if f.port.None? then Rejected(PortFailure(hostPart))
    else
      var named := f.user.Some? && f.user.value != "";
      var user := if named then CleanCredential(f.user.value, o) else None;
      var given := f.pass.Some? && f.pass.value != "";
      var pass := if given then CleanCredential(f.pass.value, o) else None;
      if (named && user.None?) || (given && pass.None?) || (given && !named) then Rejected(InvalidCredentials)
      else
        var protocol := if scheme.Some? then scheme.value
                        else if o.hint.Some? then o.hint.value
                        else if o.fallback.Some? then o.fallback.value
                        else Http;
        Parsed(Proxy(f.host.value, f.port.value, protocol, user, pass, f.country),
               if scheme.Some? then FromScheme else if o.hint.Some? then FromHint else FromDefault)
  }

  /** An entry that passed the first tests: scheme, path, fields. */
  function ParseEndpoint(raw: string, o: Options): ParseResult {
    var scheme := ReadScheme(raw);
    if scheme.BadScheme? then Rejected(scheme.reason)
    else
      var authority := Before(scheme.authority, '/');
      if Contains(authority, '?') || Contains(authority, '#') then Rejected(AmbiguousFormat)
      else ParseAuthority(raw, authority, if scheme.Found? then Some(scheme.protocol) else None, o)
  }

  function ParseAuthority(raw: string, authority: string, scheme: Option<Protocol>, o: Options): ParseResult {
    var fields := ReadFields(raw, authority);
    if fields.BadFields? then Rejected(fields.reason) else Assemble(fields, HostPart(authority), scheme, o)
  }

  function ParseProxyEntry(input: string, o: Options): ParseResult {
    var raw := Trim(input);
    if raw == "" then Rejected(Empty)
    else if |raw| > MAX_ENTRY_LENGTH then Rejected(TooLong)
    else if Contains(raw, '\r') || Contains(raw, '\n') || Contains(raw, '\t') then Rejected(AmbiguousFormat)
    else if LooksLikeMarkup(raw) then Rejected(NotAnEntry)
    else ParseEndpoint(raw, o)
  }

  // ------------------------------------------------------------------ the printer

  function FormatRedacted(p: Proxy): string {
    var host := if Contains(p.host, ':') then "[" + p.host + "]" else p.host;
    var auth := if p.username.Some? && p.username.value != "" then "***:***@" else "";
    Name(p.protocol) + "://" + auth + host + ":" + Decimal(p.port)
  }
}

/** Printing and parsing again. */
module ProxyRoundTrip {
  import opened Common
  import opened Text
  import opened ProxyEntry

  // ------------------------------------------------------------------ what accepted hosts look like

  /** A character that can stand inside the brackets of an accepted entry, after case folding. */
  predicate InsideChar(c: char) {
    c !in {']', '/', '?', '#', '@', '%', '\r', '\n', '\t'} && !IsUpper(c)
  }

  predicate BracketHost(h: string) {
    Contains(h, ':') && (forall k | 0 <= k < |h| :: InsideChar(h[k])) && !HasTag(h)
  }

  /** What every accepted entry without credentials is. */
  predicate Canonical(p: Proxy) {
    && (ValidHost(p.host) || BracketHost(p.host))
    && p.username.None? && p.password.None? && p.country.None?
  }

  // ------------------------------------------------------------------ tags inside substrings

  lemma {:induction false} AlnumEndInPart(s: string, a: nat, b: nat, k: nat, part: string)
    requires a <= b <= |s| && |part| == b - a && k <= |part|
    requires forall j | 0 <= j < |part| :: part[j] == LowerChar(s[a + j])
    requires AlnumEnd(part, k) < |part|
    ensures AlnumEnd(s, a + k) == a + AlnumEnd(part, k)
    decreases |part| - k
  {
    if IsAlnum(part[k]) {
      AlnumEndInPart(s, a, b, k + 1, part);
    }
  }

  lemma TagAtInPart(s: string, a: nat, b: nat, part: string, i: nat)
    requires a <= b <= |s| && |part| == b - a
    requires forall j | 0 <= j < |part| :: part[j] == LowerChar(s[a + j])
    requires TagAt(part, i)
    ensures TagAt(s, a + i)
  {
    hide AlnumEnd;
    var j := if i + 1 < |part| && part[i + 1] == '/' then i + 2 else i + 1;
    AlnumEndInPart(s, a, b, j, part);
    var e := AlnumEnd(part, j);
    assert part[i] == LowerChar(s[a + i]) && part[j] == LowerChar(s[a + j]) && part[e] == LowerChar(s[a + e]);
    assert part[i + 1] == LowerChar(s[a + i + 1]);
  }

  /** A tag in a case-folded piece of a text is a tag of the text. */
  lemma TagInPart(s: string, a: nat, b: nat, part: string)
    requires a <= b <= |s| && |part| == b - a
    requires forall j | 0 <= j < |part| :: part[j] == LowerChar(s[a + j])
    requires HasTag(part)
    ensures HasTag(s)
  {
    hide TagAt, LowerChar;
    var i :| 0 <= i < |part| && TagAt(part, i);
    TagAtInPart(s, a, b, part, i);
  }

  // ------------------------------------------------------------------ from input to canonical form

  /** What stands between the brackets, without a zone. */
  function Inside(authority: string): string
    requires Bracketed(authority)
  {
    BracketCloses(authority);
    Before(authority[1..Find(authority, ']')], '%')
  }

  lemma BracketCloses(authority: string)
    requires Bracketed(authority)
    ensures 2 <= Find(authority, ']') < |authority|
  {
    var k :| 0 <= k < |authority[1..]| && authority[1..][k] == ']';
    assert authority[k + 1] == ']';
  }

  lemma BracketedHost(host: string)
    requires |host| >= 2 && host[0] == '[' && host[|host| - 1] == ']' && Trim(host) == host
    ensures var zoneless := Before(host[1..|host| - 1], '%');
            NormalizeHost(host) == if Contains(zoneless, ':') then Some(Lower(zoneless)) else None
  {
    hide Lower, Contains, Find, Trim, ValidHost;
  }

  lemma BracketFieldsOf(authority: string)
    requires Bracketed(authority)
    ensures BracketFields(authority).host == if Contains(Inside(authority), ':') then Some(Lower(Inside(authority))) else None
  {
    hide Lower, Contains, NormalizeHost, NormalizePort, Trim, AfterBracket, DropColon;
    BracketCloses(authority);
    var close := Find(authority, ']');
    var whole := authority[..close + 1];
    BracketsStayTrimmed(whole);
    assert whole[1..|whole| - 1] == authority[1..close];
    BracketedHost(whole);
  }

  lemma BracketsStayTrimmed(whole: string)
    requires |whole| >= 2 && whole[0] == '[' && whole[|whole| - 1] == ']'
    ensures Trim(whole) == whole
  {
    NothingToTrim(whole);
  }

  lemma InsideIsPart(authority: string)
    requires Bracketed(authority)
    ensures |Inside(authority)| + 1 < |authority|
    ensures forall k | 0 <= k < |Inside(authority)| ::
              Inside(authority)[k] == authority[k + 1] && authority[k + 1] !in {']', '%'}
  {
    BracketCloses(authority);
    var inner := authority[1..Find(authority, ']')];
    assert forall k | 0 <= k < |inner| :: inner[k] == authority[k + 1];
    assert Inside(authority) == inner[..Find(inner, '%')];
  }

  predicate NoDelimiters(s: string) {
    !Contains(s, '/') && !Contains(s, '?') && !Contains(s, '#') && !Contains(s, '@')
    && !Contains(s, '\r') && !Contains(s, '\n') && !Contains(s, '\t')
  }

  lemma LoweredInside(c: char)
    requires c !in {']', '/', '?', '#', '@', '%', '\r', '\n', '\t'}
    ensures InsideChar(LowerChar(c))
  {
  }

  lemma NotDelimiter(s: string, k: nat)
    requires NoDelimiters(s) && k < |s|
    ensures s[k] !in {'/', '?', '#', '@', '\r', '\n', '\t'}
  {
  }

  lemma LowerKeepsColon(s: string)
    requires Contains(s, ':')
    ensures Contains(Lower(s), ':')
  {
    var c :| 0 <= c < |s| && s[c] == ':';
    assert Lower(s)[c] == ':';
  }

  lemma InsideAt(raw: string, off: nat, authority: string, k: nat)
    requires off + |authority| <= |raw| && authority == raw[off..off + |authority|]
    requires Bracketed(authority) && NoDelimiters(authority) && k < |Inside(authority)|
    ensures off + 1 + k < |raw|
    ensures var h := Lower(Inside(authority)); InsideChar(h[k]) && h[k] == LowerChar(raw[off + 1 + k])
  {
    InsideIsPart(authority);
    hide Bracketed, Inside, NoDelimiters, LowerChar, InsideChar;
    assert authority[k + 1] == raw[off + 1 + k];
    NotDelimiter(authority, k + 1);
    LoweredInside(authority[k + 1]);
  }

  /** The host of a bracketed entry: its characters come from the entry, in order and case-folded. */
  lemma BracketHostAccepted(raw: string, off: nat, authority: string)
    requires off + |authority| <= |raw| && authority == raw[off..off + |authority|]
    requires Bracketed(authority) && !HasTag(raw) && NoDelimiters(authority)
    requires BracketFields(authority).host.Some?
    ensures BracketHost(BracketFields(authority).host.value)
  {
    hide BracketFields, Bracketed, Inside, HasTag, NoDelimiters, LowerChar, InsideChar, Contains, Lower, NormalizeHost;
    BracketFieldsOf(authority);
    InsideIsPart(authority);
    var h := Lower(Inside(authority));
    forall k | 0 <= k < |h| ensures InsideChar(h[k]) && h[k] == LowerChar(raw[off + 1 + k]) {
      InsideAt(raw, off, authority, k);
    }
    LowerKeepsColon(Inside(authority));
    if HasTag(h) {
      TagInPart(raw, off + 1, off + 1 + |h|, h);
    }
  }

  lemma PartLacks(s: string, c: char, i: nat, j: nat)
    requires i <= j <= |s| && !Contains(s, c)
    ensures !Contains(s[i..j], c)
  {
    assert forall k | 0 <= k < j - i :: s[i..j][k] == s[i + k];
  }

  lemma TrimLacks(s: string, c: char)
    requires !Contains(s, c)
    ensures !Contains(Trim(s), c)
  {
    TrimIsPart(s);
    var a, b :| 0 <= a <= b <= |s| && Trim(s) == s[a..b];
    PartLacks(s, c, a, b);
  }

  lemma BracketsNeedColon(host: string)
    requires !Contains(host, ':') && |host| >= 2
    ensures !Contains(Before(host[1..|host| - 1], '%'), ':')
  {
    var inner := host[1..|host| - 1];
    PartLacks(host, ':', 1, |host| - 1);
    PartLacks(inner, ':', 0, Find(inner, '%'));
  }

  lemma PlainHostAccepted(raw: string)
    requires !Contains(raw, ':')
    ensures NormalizeHost(raw).Some? ==> ValidHost(NormalizeHost(raw).value)
  {
    TrimLacks(raw, ':');
    if |Trim(raw)| >= 2 {
      BracketsNeedColon(Trim(raw));
    }
  }

  predicate GoodHost(host: string) { ValidHost(host) || BracketHost(host) }

  predicate Plain(s: string) { !Contains(s, '\r') && !Contains(s, '\n') && !Contains(s, '\t') }

  predicate Clean(s: string) { !Contains(s, '/') && !Contains(s, '?') && !Contains(s, '#') && Plain(s) }

  lemma FirstPieceLacks(s: string, c: char)
    ensures !Contains(Before(s, c), c)
    ensures !Contains(Split(s, c)[0], c)
  {
  }

  lemma NoAt(s: string)
    requires LastAt(s) < 0
    ensures !Contains(s, '@')
  {
  }

  lemma UserHost(host: string, user: string, pass: Option<string>)
    ensures var f := UserFields(host, user, pass);
            f.Fields? ==> f.country.None? && (f.host.Some? ==> ValidHost(f.host.value))
  {
    FirstPieceLacks(host, ':');
    PlainHostAccepted(Before(host, ':'));
  }

  lemma ColonHost(raw: string, host: string)
    ensures var f := ColonFields(raw, host);
            f.Fields? ==> && (f.host.Some? ==> ValidHost(f.host.value))
                          && (f.country.Some? ==> f.user.Some? && f.user.value != "")
  {
    FirstPieceLacks(host, ':');
    PlainHostAccepted(Split(host, ':')[0]);
  }

  lemma BracketHostField(raw: string, off: nat, authority: string)
    requires off + |authority| <= |raw| && authority == raw[off..off + |authority|]
    requires Bracketed(authority) && !HasTag(raw) && NoDelimiters(authority)
    ensures var f := BracketFields(authority);
            f.country.None? && (f.host.Some? ==> BracketHost(f.host.value))
  {
    if BracketFields(authority).host.Some? {
      BracketHostAccepted(raw, off, authority);
    }
  }

  lemma SpacedHost(authority: string)
    requires !Contains(authority, ':')
    ensures var h := NormalizeHost(authority[..SpaceEnd(authority)]); h.Some? ==> ValidHost(h.value)
  {
    PartLacks(authority, ':', 0, SpaceEnd(authority));
    PlainHostAccepted(authority[..SpaceEnd(authority)]);
  }

  lemma CleanWithoutAt(authority: string)
    requires Clean(authority) && !Contains(authority, '@')
    ensures NoDelimiters(authority)
  {
    hide Contains;
  }

  lemma FieldsAreGood(raw: string, off: nat, authority: string)
    requires off + |authority| <= |raw| && authority == raw[off..off + |authority|]
    requires !HasTag(raw) && Clean(authority)
    ensures var f := ReadFields(raw, authority);
            f.Fields? ==> && (f.host.Some? ==> GoodHost(f.host.value))
                          && (f.country.Some? ==> f.user.Some? && f.user.value != "")
  {
    hide Find, Before, Contains, Bracketed, HasTag, Plain, UserFields, BracketFields, ColonFields, NormalizeHost, NormalizePort, LastAt;
    hide ValidHost, BracketHost;
    var at := LastAt(authority);
    if at >= 0 {
      var info, host := authority[..at], authority[at + 1..];
      UserHost(host, Before(info, ':'), if Contains(info, ':') then Some(AfterFirst(info, ':')) else None);
    } else if Bracketed(authority) {
      NoAt(authority);
      CleanWithoutAt(authority);
      BracketHostField(raw, off, authority);
    } else if Contains(authority, ' ') && !Contains(authority, ':') {
      SpacedHost(authority);
    } else {
      ColonHost(raw, authority);
    }
  }

  lemma AssembledIsCanonical(f: Fields, hostPart: string, scheme: Option<Protocol>, o: Options)
    requires f.Fields?
    requires f.host.Some? ==> GoodHost(f.host.value)
    requires f.country.Some? ==> f.user.Some? && f.user.value != ""
    ensures var r := Assemble(f, hostPart, scheme, o);
            r.Parsed? && r.proxy.username.None? ==> Canonical(r.proxy)
  {
  }

  lemma SchemeIsStart(raw: string) returns (off: nat)
    requires !ReadScheme(raw).BadScheme?
    ensures off <= |raw| && ReadScheme(raw).authority == raw[off..]
  {
    hide Alias, Lower, Contains;
    off := if ReadScheme(raw).Absent? then 0 else |raw| - |ReadScheme(raw).authority|;
  }

  /** The authority is a contiguous piece of the entry, with no slash. */
  lemma AuthorityIsPart(raw: string) returns (off: nat)
    requires !ReadScheme(raw).BadScheme?
    ensures var authority := Before(ReadScheme(raw).authority, '/');
            off + |authority| <= |raw| && authority == raw[off..off + |authority|] && !Contains(authority, '/')
  {
    hide ReadScheme, Contains, Alias, Lower, SchemeThen;
    off := SchemeIsStart(raw);
    FirstPieceLacks(raw[off..], '/');
    assert Before(raw[off..], '/') == raw[off..][..Find(raw[off..], '/')];
  }

  lemma AuthorityIsCanonical(raw: string, off: nat, authority: string, scheme: Option<Protocol>, o: Options)
    requires off + |authority| <= |raw| && authority == raw[off..off + |authority|]
    requires !HasTag(raw) && Clean(authority)
    ensures var r := ParseAuthority(raw, authority, scheme, o);
            r.Parsed? && r.proxy.username.None? ==> Canonical(r.proxy)
  {
    hide ReadFields, Assemble, HasTag, Canonical, HostPart, Clean, GoodHost;
    FieldsAreGood(raw, off, authority);
    if ReadFields(raw, authority).Fields? {
      AssembledIsCanonical(ReadFields(raw, authority), HostPart(authority), scheme, o);
    }
  }

  lemma EndpointIsCanonical(raw: string, o: Options)
    requires !HasTag(raw) && Plain(raw)
    ensures var r := ParseEndpoint(raw, o);
            r.Parsed? && r.proxy.username.None? ==> Canonical(r.proxy)
  {
    hide ReadScheme, HasTag, Canonical, ParseAuthority;
    var scheme := ReadScheme(raw);
    if ParseEndpoint(raw, o).Parsed? {
      var authority := Before(scheme.authority, '/');
      var off := AuthorityIsPart(raw);
      PartLacks(raw, '\r', off, off + |authority|);
      PartLacks(raw, '\n', off, off + |authority|);
      PartLacks(raw, '\t', off, off + |authority|);
      AuthorityIsCanonical(raw, off, authority, if scheme.Found? then Some(scheme.protocol) else None, o);
    }
  }

  /** Every accepted entry without credentials is in canonical form. */
  lemma AcceptedIsCanonical(input: string, o: Options)
    ensures var r := ParseProxyEntry(input, o);
            r.Parsed? && r.proxy.username.None? ==> Canonical(r.proxy)
  {
    var raw := Trim(input);
    NoTagWhenAccepted(input);
    if ParseProxyEntry(input, o).Parsed? {
      EndpointIsCanonical(raw, o);
    }
  }

  lemma {:induction false} TrimStartTwice(s: string)
    ensures TrimStart(s) == "" || !IsSpace(TrimStart(s)[0])
  {
    if s != "" && IsSpace(s[0]) {
      TrimStartTwice(s[1..]);
    }
  }

  lemma {:induction false} TrimEndKeepsStart(s: string)
    requires s == "" || !IsSpace(s[0])
    ensures var t := TrimEnd(s); t == "" || (!IsSpace(t[0]) && !IsSpace(t[|t| - 1]))
  {
    if s != "" && IsSpace(s[|s| - 1]) {
      TrimEndKeepsStart(s[..|s| - 1]);
    }
  }

  lemma TrimTwice(s: string)
    ensures Trim(Trim(s)) == Trim(s)
  {
    TrimStartTwice(s);
    TrimEndKeepsStart(TrimStart(s));
  }

  lemma NoTagWhenAccepted(input: string)
    ensures Trim(input) != "" && !LooksLikeMarkup(Trim(input)) ==> !HasTag(Trim(input))
  {
    TrimTwice(input);
  }

  // ------------------------------------------------------------------ from canonical form to a printed line and back

  function HostText(h: string): string { if Contains(h, ':') then "[" + h + "]" else h }

  function AuthorityText(p: Proxy): string { HostText(p.host) + ":" + Decimal(p.port) }

  predicate DottedName(h: string) {
    h != "" && h[0] != '.' && h[|h| - 1] != '.' && forall k | 0 <= k < |h| :: h[k] == '.' || HostChar(h[k])
  }

  lemma LabelThenName(first: string, rest: string)
    requires ValidLabel(first) && DottedName(rest)
    ensures DottedName(first + ['.'] + rest)
  {
  }

  lemma LabelIsName(h: string)
    requires ValidLabel(h)
    ensures DottedName(h)
  {
  }

  predicate ValidLabels(labels: seq<string>) { forall k | 0 <= k < |labels| :: ValidLabel(labels[k]) }

  lemma {:induction false} LabelsMakeName(h: string)
    requires ValidLabels(Split(h, '.'))
    ensures DottedName(h)
    decreases |h|
  {
    hide DottedName;
    var i := Find(h, '.');
    var labels := Split(h, '.');
    assert ValidLabel(labels[0]);
    if i == |h| {
      LabelIsName(h);
    } else {
      var rest := h[i + 1..];
      assert labels[1..] == Split(rest, '.');
      LabelsMakeName(rest);
      LabelThenName(h[..i], rest);
      assert h == h[..i] + ['.'] + rest;
    }
  }

  lemma {:induction false} SchemeRunStops(a: string, rest: string)
    requires forall k | 0 <= k < |a| :: SchemeChar(a[k])
    requires rest != "" && !SchemeChar(rest[0])
    ensures SchemeRun(a + rest) == |a|
  {
    if a == "" {
      assert a + rest == rest;
    } else {
      assert (a + rest)[1..] == a[1..] + rest;
      SchemeRunStops(a[1..], rest);
    }
  }

  lemma NameReadsBack(p: Protocol)
    ensures Alias(Lower(Name(p))) == Some(p)
    ensures 4 <= |Name(p)| <= 6 && IsLetter(Name(p)[0]) && forall k | 0 <= k < |Name(p)| :: IsAlnum(Name(p)[k])
  {
    assert Lower(Name(p)) == Name(p);
  }

  lemma SchemeReadsBack(p: Protocol, authority: string)
    requires authority != ""
    ensures ReadScheme(Name(p) + "://" + authority) == Found(p, authority)
  {
    NameReadsBack(p);
    hide Name, Alias, Lower, Contains;
    var raw := Name(p) + "://" + authority;
    var rest := "://" + authority;
    assert raw == Name(p) + rest;
    SchemeRunStops(Name(p), rest);
    var k := |Name(p)|;
    assert raw[..k] == Name(p) && raw[k..] == rest && rest[..3] == "://" && raw[k + 3..] == authority;
  }

  lemma PortReadsBack(port: Port)
    ensures NormalizePort(Decimal(port)) == Some(port)
  {
    NumberOfDecimal(port);
    NothingToTrim(Decimal(port));
  }

  lemma NameHostReadsBack(h: string)
    requires ValidHost(h)
    ensures DottedName(h) && NormalizeHost(h) == Some(h)
  {
    LabelsMakeName(h);
    NothingToTrim(h);
    assert Lower(h) == h;
  }

  lemma BracketHostReadsBack(h: string)
    requires BracketHost(h)
    ensures NormalizeHost("[" + h + "]") == Some(h)
  {
    var t := "[" + h + "]";
    NothingToTrim(t);
    assert t[1..|t| - 1] == h;
    assert Find(h, '%') == |h| && h[..|h|] == h;
    assert Lower(h) == h;
    assert t[0] == '[' && t[|t| - 1] == ']';
  }

  lemma SplitInTwo(a: string, c: char, b: string)
    requires !Contains(a, c) && !Contains(b, c)
    ensures Split(a + [c] + b, c) == [a, b]
  {
    var s := a + [c] + b;
    assert forall k | 0 <= k < |a| :: a[k] != c;
    FindAfter(a, c, b);
    assert s[..|a|] == a && s[|a| + 1..] == b;
    assert Find(b, c) == |b|;
  }

  lemma DigitsLack(s: string, c: char)
    requires AllDigits(s) && !IsDigit(c)
    ensures !Contains(s, c)
  {
  }

  lemma NameLacks(h: string, c: char)
    requires DottedName(h) && c != '.' && !HostChar(c)
    ensures !Contains(h, c)
  {
  }

  lemma JoinedLack(a: string, b: string, c: char)
    requires !Contains(a, c) && !Contains(b, c)
    ensures !Contains(a + b, c)
  {
  }

  lemma LastAtOfNone(s: string)
    requires !Contains(s, '@')
    ensures LastAt(s) == -1
  {
  }

  lemma NameStartsPlain(h: string)
    requires ValidHost(h)
    ensures h != "" && h[0] != '[' && !Contains(h, ':') && !Contains(h, '@') && !Contains(h, ' ')
  {
    LabelsMakeName(h);
  }

  lemma NameFieldsReadBack(raw: string, h: string, port: Port)
    requires ValidHost(h)
    ensures ReadFields(raw, h + ":" + Decimal(port)) == Fields(Some(h), Some(port), None, None, None)
  {
    hide NormalizeHost, NormalizePort, DottedName, Decimal;
    NameStartsPlain(h);
    var d := Decimal(port);
    NameHostReadsBack(h);
    PortReadsBack(port);
    DigitsLack(d, ':');
    SplitInTwo(h, ':', d);
    var authority := h + ":" + d;
    AuthorityLacks(h, d, '@');
    AuthorityLacks(h, d, ' ');
    LastAtOfNone(authority);
    assert authority[0] == h[0];
  }

  lemma AuthorityLacks(h: string, d: string, c: char)
    requires !Contains(h, c) && AllDigits(d) && !IsDigit(c) && c != ':'
    ensures !Contains(h + ":" + d, c)
  {
  }

  lemma BracketParts(h: string, rest: string)
    requires BracketHost(h)
    ensures var whole := "[" + h + "]";
            Bracketed(whole + rest) && Find(whole + rest, ']') == |h| + 1
            && AfterBracket(whole + rest) == rest && (whole + rest)[..|h| + 2] == whole
  {
    var authority := "[" + h + "]" + rest;
    assert authority == ("[" + h) + [']'] + rest;
    FindAfter("[" + h, ']', rest);
    assert authority[1] == h[0];
    assert authority[1..][|h|] == ']';
  }

  lemma BracketFieldsReadBack(raw: string, h: string, port: Port)
    requires BracketHost(h)
    ensures ReadFields(raw, "[" + h + "]" + ":" + Decimal(port)) == Fields(Some(h), Some(port), None, None, None)
  {
    var d := Decimal(port);
    var whole := "[" + h + "]";
    var rest := ":" + d;
    assert rest[1..] == d;
    assert whole + ":" + d == whole + rest;
    BracketParts(h, rest);
    BracketHostReadsBack(h);
    PortReadsBack(port);
    BracketsLack(h, '@');
    AuthorityLacks(whole, d, '@');
    LastAtOfNone(whole + rest);
  }

  lemma BracketsLack(h: string, c: char)
    requires !Contains(h, c) && c != '[' && c != ']'
    ensures !Contains("[" + h + "]", c)
  {
  }

  lemma AlnumEndIs(s: string, k: nat, e: nat)
    requires k <= e < |s| && !IsAlnum(s[e]) && forall j | k <= j < e :: IsAlnum(s[j])
    ensures AlnumEnd(s, k) == e
  {
  }

  /** A tag of a printed line would lie inside its host. */
  lemma TagLiesInside(pre: string, h: string, post: string, i: nat)
    requires !Contains(pre, '<') && !Contains(post, '<') && post != "" && post[0] == ']' && !Contains(h, '/')
    requires TagAt(pre + h + post, i)
    ensures HasTag(h)
  {
    var s := pre + h + post;
    assert s[i] == '<' && |pre| <= i < |pre| + |h|;
    var k := i - |pre|;
    assert s[i + 1] == (if k + 1 < |h| then h[k + 1] else ']');
    var e := AlnumEnd(h, k + 1);
    assert forall j | k + 1 <= j < e :: s[|pre| + j] == h[j];
    assert s[|pre| + e] == (if e < |h| then h[e] else ']');
    assert forall j | i + 1 <= j < |pre| + e :: IsAlnum(s[j]) by {
      forall j | i + 1 <= j < |pre| + e ensures IsAlnum(s[j]) {
        assert s[j] == h[j - |pre|];
      }
    }
    AlnumEndIs(s, i + 1, |pre| + e);
    assert TagAt(h, k);
  }

  lemma NoAngleNoTag(s: string)
    requires !Contains(s, '<')
    ensures !HasTag(s)
  {
  }

  lemma PrefixLacks(p: Protocol, c: char)
    requires !IsAlnum(c) && c != ':' && c != '/'
    ensures !Contains(Name(p) + "://", c)
  {
    NameReadsBack(p);
  }

  lemma TailLacks(port: Port, c: char)
    requires !IsDigit(c) && c != ':' && c != ']'
    ensures var post := "]" + ":" + Decimal(port); !Contains(post, c) && post != "" && post[0] == ']'
  {
    hide Decimal;
    DigitsLack(Decimal(port), c);
  }

  lemma InsideLacksSlash(h: string)
    requires BracketHost(h)
    ensures !Contains(h, '/')
  {
    hide HasTag;
  }

  lemma BracketedHasNoTag(pre: string, h: string, port: Port)
    requires BracketHost(h) && !Contains(pre, '<')
    ensures !HasTag(pre + ("[" + h + "]" + ":" + Decimal(port)))
  {
    hide Contains, Decimal, TagAt;
    var post := "]" + ":" + Decimal(port);
    var line := (pre + "[") + h + post;
    assert line == pre + ("[" + h + "]" + ":" + Decimal(port));
    TailLacks(port, '<');
    InsideLacksSlash(h);
    AngleIsNoBracket();
    JoinedLack(pre, "[", '<');
    if i: nat :| i < |line| && TagAt(line, i) {
      TagLiesInside(pre + "[", h, post, i);
    }
  }

  lemma AngleIsNoBracket()
    ensures !Contains("[", '<')
  {
  }

  lemma PrintedHasNoTag(p: Proxy)
    requires Canonical(p)
    ensures !HasTag(Name(p.protocol) + "://" + AuthorityText(p))
  {
    hide Contains, Decimal, TagAt, HasTag, Name, ValidHost, BracketHost;
    var pre := Name(p.protocol) + "://";
    PrefixLacks(p.protocol, '<');
    CanonicalParts(p);
    if Contains(p.host, ':') {
      BracketedHasNoTag(pre, p.host, p.port);
    } else {
      LabelsMakeName(p.host);
      NameLacks(p.host, '<');
      AuthorityLacks(p.host, Decimal(p.port), '<');
      JoinedLack(pre, p.host + ":" + Decimal(p.port), '<');
      NoAngleNoTag(pre + AuthorityText(p));
    }
  }

  lemma PrintedEnds(p: Proxy)
    ensures var line := Name(p.protocol) + "://" + AuthorityText(p);
            line != "" && Trim(line) == line && line[0] == Name(p.protocol)[0] && IsLetter(line[0])
  {
    NameReadsBack(p.protocol);
    hide Name, Decimal, Trim, HostText;
    var line, d := Name(p.protocol) + "://" + AuthorityText(p), Decimal(p.port);
    assert line[0] == Name(p.protocol)[0] && line[|line| - 1] == d[|d| - 1];
    NothingToTrim(line);
  }

  lemma PrintedLacks(p: Proxy, c: char)
    requires Canonical(p) && c in {'?', '#', '@', '\r', '\n', '\t'}
    ensures !Contains(Name(p.protocol) + "://" + AuthorityText(p), c)
  {
    hide Name, Canonical, AuthorityText, Contains;
    AuthorityLacksDelimiter(p, c);
    PrefixLacks(p.protocol, c);
    JoinedLack(Name(p.protocol) + "://", AuthorityText(p), c);
  }

  lemma NoMarkupStart(line: string)
    requires Trim(line) == line && line != "" && !HasTag(line) && line[0] !in {'{', '[', '<'}
    ensures !LooksLikeMarkup(line)
  {
    hide HasTag, Trim;
    assert |line| >= 5 ==> line[..5][0] == line[0];
    assert |line| >= 9 ==> line[..9][0] == line[0];
  }

  /** The first tests let a printed line through. */
  lemma PrintedIsPlain(p: Proxy)
    requires Canonical(p)
    ensures var line := Name(p.protocol) + "://" + AuthorityText(p);
            Trim(line) == line && line != "" && Plain(line) && !LooksLikeMarkup(line)
  {
    hide Name, Canonical, AuthorityText, Contains, Trim, HasTag, LooksLikeMarkup;
    PrintedEnds(p);
    PrintedHasNoTag(p);
    PrintedLacks(p, '\r');
    PrintedLacks(p, '\n');
    PrintedLacks(p, '\t');
    NoMarkupStart(Name(p.protocol) + "://" + AuthorityText(p));
  }

  lemma AuthorityLacksDelimiter(p: Proxy, c: char)
    requires Canonical(p) && c in {'/', '?', '#', '@', '\r', '\n', '\t'}
    ensures !Contains(AuthorityText(p), c)
  {
    if Contains(p.host, ':') {
      BracketsLack(p.host, c);
      AuthorityLacks("[" + p.host + "]", Decimal(p.port), c);
    } else {
      LabelsMakeName(p.host);
      AuthorityLacks(p.host, Decimal(p.port), c);
    }
  }

  lemma PrintedLine(p: Proxy)
    requires Canonical(p)
    ensures FormatRedacted(p) == Name(p.protocol) + "://" + AuthorityText(p)
  {
    assert Name(p.protocol) + "://" + "" == Name(p.protocol) + "://";
    assert FormatRedacted(p) == Name(p.protocol) + "://" + HostText(p.host) + ":" + Decimal(p.port);
  }

  lemma CanonicalParts(p: Proxy)
    requires Canonical(p)
    ensures if Contains(p.host, ':') then BracketHost(p.host) else ValidHost(p.host)
    ensures p.username.None? && p.password.None? && p.country.None?
  {
  }

  lemma NothingBefore(s: string, c: char)
    requires !Contains(s, c)
    ensures Before(s, c) == s
  {
    assert s[..|s|] == s;
  }

  lemma EndpointByParts(raw: string, authority: string, o: Options)
    requires !ReadScheme(raw).BadScheme? && ReadScheme(raw).authority == authority
    requires !Contains(authority, '/') && !Contains(authority, '?') && !Contains(authority, '#')
    ensures var scheme := ReadScheme(raw);
            ParseEndpoint(raw, o) == ParseAuthority(raw, authority, if scheme.Found? then Some(scheme.protocol) else None, o)
  {
    hide ReadScheme, ParseAuthority, Contains, Before;
    NothingBefore(authority, '/');
  }

  /** The protocol of an entry that names none. */
  function Assumed(o: Options): Protocol { o.hint.GetOr(o.fallback.GetOr(Http)) }

  lemma AuthorityByParts(raw: string, authority: string, h: string, port: Port, scheme: Option<Protocol>, o: Options)
    requires ReadFields(raw, authority) == Fields(Some(h), Some(port), None, None, None)
    ensures var r := ParseAuthority(raw, authority, scheme, o);
            && r.Parsed? && r.proxy == Proxy(h, port, scheme.GetOr(Assumed(o)), None, None, None)
            && (scheme.Some? ==> r.origin == FromScheme)
  {
    hide ReadFields, HostPart, PortFailure, CleanCredential;
  }

  lemma EndpointReadsBack(p: Proxy, o: Options)
    requires Canonical(p)
    ensures ParseEndpoint(Name(p.protocol) + "://" + AuthorityText(p), o) == Parsed(p, FromScheme)
  {
    hide ReadScheme, ReadFields, ParseEndpoint, ParseAuthority, Canonical, Name, Decimal, Contains, ValidHost, BracketHost;
    var authority := AuthorityText(p);
    var raw := Name(p.protocol) + "://" + authority;
    CanonicalParts(p);
    SchemeReadsBack(p.protocol, authority);
    AuthorityLacksDelimiter(p, '/');
    AuthorityLacksDelimiter(p, '?');
    AuthorityLacksDelimiter(p, '#');
    EndpointByParts(raw, authority, o);
    if Contains(p.host, ':') {
      BracketFieldsReadBack(raw, p.host, p.port);
    } else {
      NameFieldsReadBack(raw, p.host, p.port);
    }
    AuthorityByParts(raw, authority, p.host, p.port, Some(p.protocol), o);
  }

  /** Printing an accepted entry without credentials and parsing the line gives the entry back, whatever the options. */
  lemma ReadBack(p: Proxy, o: Options)
    requires Canonical(p) && |FormatRedacted(p)| <= MAX_ENTRY_LENGTH
    ensures ParseProxyEntry(FormatRedacted(p), o) == Parsed(p, FromScheme)
  {
    PrintedLine(p);
    PrintedIsPlain(p);
    EndpointReadsBack(p, o);
  }

  /** A printed line over the limit is refused, so the limit is exactly what the round trip needs. */
  lemma ReadBackExactly(input: string, o: Options, again: Options)
    requires var r := ParseProxyEntry(input, o); r.Parsed? && r.proxy.username.None?
    ensures var p := ParseProxyEntry(input, o).proxy;
            |FormatRedacted(p)| <= MAX_ENTRY_LENGTH <==> ParseProxyEntry(FormatRedacted(p), again) == Parsed(p, FromScheme)
  {
    var p := ParseProxyEntry(input, o).proxy;
    AcceptedIsCanonical(input, o);
    PrintedLine(p);
    PrintedIsPlain(p);
    if |FormatRedacted(p)| <= MAX_ENTRY_LENGTH {
      ReadBack(p, again);
    }
  }

  // ------------------------------------------------------------------ which protocol an entry has

  /** The words an entry can name each protocol by. */
  function Words(p: Protocol): set<string> {
    match p
    case Http => {"http"}
    case Https => {"https", "tls"}
    case Socks4 => {"socks4", "socks4a"}
    case Socks5 => {"socks5", "socks5h", "socks"}
  }

  predicate WordChar(c: char) { IsAlnum(c) || c == '+' || c == '.' || c == '-' }

  /** The text starts with a word of at most sixteen such characters and a colon: `word://`, or `word:` if no `@` occurs. */
  predicate NamesScheme(raw: string, word: string) {
    && 1 <= |word| <= 16 && IsLetter(word[0]) && (forall k | 0 <= k < |word| :: WordChar(word[k]))
    && |word| < |raw| && raw[..|word|] == word && raw[|word|] == ':'
    && (StartsWith(raw[|word|..], "://") || forall k | 0 <= k < |raw| :: raw[k] != '@')
  }

  lemma RunIsWord(raw: string, word: string)
    requires |word| < |raw| && raw[..|word|] == word && raw[|word|] == ':' && forall k | 0 <= k < |word| :: WordChar(word[k])
    ensures SchemeRun(raw) == |word|
  {
    assert forall k | 0 <= k < |word| :: raw[k] == word[k];
  }

  lemma NamedIsThen(raw: string, word: string)
    requires NamesScheme(raw, word)
    ensures SchemeRun(raw) == |word| && (SchemeThen(raw, "://") || (SchemeThen(raw, ":") && !Contains(raw, '@')))
  {
    RunIsWord(raw, word);
    assert raw[0] == word[0];
    assert raw[|word|..][..1] == ":";
  }

  lemma ThenIsNamed(raw: string)
    requires SchemeThen(raw, "://") || (SchemeThen(raw, ":") && !Contains(raw, '@'))
    ensures NamesScheme(raw, raw[..SchemeRun(raw)])
  {
    var k := SchemeRun(raw);
    assert raw[k..][0] == ':';
    assert k > 0;
  }

  /** A scheme is read exactly if the text names one; which protocol, is decided by the word in any case. */
  lemma SchemeDecided(raw: string)
    ensures ReadScheme(raw).Absent? <==> forall word :: !NamesScheme(raw, word)
    ensures forall word, p | NamesScheme(raw, word) && Lower(word) in Words(p) ::
              ReadScheme(raw).Found? ==> ReadScheme(raw).protocol == p
    ensures forall word | NamesScheme(raw, word) && (forall p :: Lower(word) !in Words(p)) :: ReadScheme(raw).BadScheme?
  {
    hide SchemeThen, NamesScheme, Lower, Contains;
    if SchemeThen(raw, "://") || (SchemeThen(raw, ":") && !Contains(raw, '@')) {
      ThenIsNamed(raw);
    }
    forall word | NamesScheme(raw, word) ensures raw[..SchemeRun(raw)] == word {
      NamedIsThen(raw, word);
      NamedIsPrefix(raw, word);
    }
    forall word | NamesScheme(raw, word) ensures !ReadScheme(raw).Absent? {
      NamedIsThen(raw, word);
    }
    forall word, p | NamesScheme(raw, word) && Lower(word) in Words(p)
      ensures ReadScheme(raw).Found? ==> ReadScheme(raw).protocol == p {
      WordsAreAliases(Lower(word), p);
    }
    forall word | NamesScheme(raw, word) && (forall p :: Lower(word) !in Words(p)) ensures ReadScheme(raw).BadScheme? {
      UnknownWord(Lower(word));
    }
  }

  lemma NamedIsPrefix(raw: string, word: string)
    requires NamesScheme(raw, word)
    ensures raw[..|word|] == word
  {
  }

  lemma WordsAreAliases(word: string, p: Protocol)
    ensures Alias(word) == Some(p) <==> word in Words(p)
  {
  }

  lemma UnknownWord(word: string)
    requires forall p :: word !in Words(p)
    ensures Alias(word).None?
  {
    WordsAreAliases(word, Http);
    WordsAreAliases(word, Https);
    WordsAreAliases(word, Socks4);
    WordsAreAliases(word, Socks5);
  }

  /** An accepted entry has the protocol it names, or else the hinted one, or else the fallback, or else HTTP. */
  lemma ProtocolOf(input: string, o: Options)
    requires ParseProxyEntry(input, o).Parsed?
    ensures var protocol := ParseProxyEntry(input, o).proxy.protocol;
            && ((forall word :: !NamesScheme(Trim(input), word)) ==> protocol == o.hint.GetOr(o.fallback.GetOr(Http)))
            && (forall word, p | NamesScheme(Trim(input), word) && Lower(word) in Words(p) :: protocol == p)
            && (forall word | NamesScheme(Trim(input), word) :: exists p :: Lower(word) in Words(p))
  {
    hide ReadScheme, NamesScheme, Words, Lower, ReadFields, Contains, Trim, LooksLikeMarkup, Before, HostPart;
    SchemeDecided(Trim(input));
    ProtocolAssembled(Trim(input), o);
  }

  lemma ProtocolAssembled(raw: string, o: Options)
    ensures ParseEndpoint(raw, o).Parsed? ==>
              && !ReadScheme(raw).BadScheme?
              && ParseEndpoint(raw, o).proxy.protocol == if ReadScheme(raw).Found? then ReadScheme(raw).protocol else Assumed(o)
  {
    hide ReadScheme, ReadFields, Contains, Before, HostPart, CleanCredential, PortFailure;
  }

  // ------------------------------------------------------------------ the documented short forms

  /** Reads like the scheme of `scheme:rest`. */
  predicate ReadsAsScheme(h: string) { h != "" && IsLetter(h[0]) && |h| <= 16 }

  lemma ShortFormIsPlain(h: string, port: Port)
    requires ValidHost(h)
    ensures var line := h + ":" + Decimal(port);
            Trim(line) == line && line != "" && Plain(line) && !LooksLikeMarkup(line)
            && !Contains(line, '@') && !Contains(line, '/') && !Contains(line, '?') && !Contains(line, '#')
  {
    hide ValidHost;
    var d := Decimal(port);
    var line := h + ":" + d;
    HostIsName(h);
    assert line[0] == h[0] && line[|line| - 1] == d[|d| - 1];
    NothingToTrim(line);
    ShortFormLacks(h, d, '\r');
    ShortFormLacks(h, d, '\n');
    ShortFormLacks(h, d, '\t');
    ShortFormLacks(h, d, '<');
    ShortFormLacks(h, d, '@');
    ShortFormLacks(h, d, '/');
    ShortFormLacks(h, d, '?');
    ShortFormLacks(h, d, '#');
    NoAngleNoTag(line);
    NoMarkupStart(line);
  }

  lemma HostIsName(h: string)
    requires ValidHost(h)
    ensures DottedName(h)
  {
    LabelsMakeName(h);
  }

  lemma ShortFormLacks(h: string, d: string, c: char)
    requires DottedName(h) && AllDigits(d) && c != ':' && c != '.' && !HostChar(c)
    ensures !Contains(h + ":" + d, c)
  {
    NameLacks(h, c);
    AuthorityLacks(h, d, c);
  }

  lemma ShortFormRun(h: string, d: string)
    requires DottedName(h) && AllDigits(d) && d != ""
    ensures var raw := h + ":" + d;
            && SchemeRun(raw) == |h| && raw[..|h|] == h && raw[|h| + 1..] == d && raw[0] == h[0]
            && !SchemeThen(raw, "://") && (SchemeThen(raw, ":") <==> ReadsAsScheme(h))
  {
    var raw, rest := h + ":" + d, ":" + d;
    assert raw == h + rest;
    SchemeRunStops(h, rest);
    assert raw[|h|..] == rest;
    assert rest[..1] == ":" && (|rest| >= 3 ==> rest[..3][1] == d[0]);
  }

  lemma ShortFormScheme(h: string, port: Port)
    requires ValidHost(h)
    ensures var d := Decimal(port);
            ReadScheme(h + ":" + d)
            == if !ReadsAsScheme(h) then Absent(h + ":" + d)
               else if Alias(Lower(h)).None? then BadScheme(InvalidScheme)
               else Found(Alias(Lower(h)).value, d)
  {
    hide ValidHost, LooksLikeMarkup, Trim, Alias, Lower, Contains, SchemeThen, ReadsAsScheme, Decimal, DottedName;
    ShortFormIsPlain(h, port);
    HostIsName(h);
    ShortFormRun(h, Decimal(port));
  }

  lemma PortAlone(raw: string, port: Port)
    ensures ReadFields(raw, Decimal(port)).BadFields?
  {
    var d := Decimal(port);
    hide Decimal, NormalizeHost;
    DigitsLack(d, '@');
    DigitsLack(d, ' ');
    DigitsLack(d, ':');
    LastAtOfNone(d);
    assert d[0] != '[';
    assert Find(d, ':') == |d| && Split(d, ':') == [d];
  }

  /**
   * The documented form `host:port` for a host name: refused exactly when the entry is over the limit, or the name
   * starts with a letter and is at most sixteen characters long, because it then reads as a scheme.
   */
  lemma HostAndPort(h: string, port: Port, o: Options)
    requires ValidHost(h)
    ensures var r := ParseProxyEntry(h + ":" + Decimal(port), o);
            && (r.Parsed? <==> |h + ":" + Decimal(port)| <= MAX_ENTRY_LENGTH && !ReadsAsScheme(h))
            && (r.Parsed? ==> r.proxy == Proxy(h, port, Assumed(o), None, None, None))
  {
    var d := Decimal(port);
    var line := h + ":" + d;
    ShortFormIsPlain(h, port);
    ShortFormScheme(h, port);
    if |line| <= MAX_ENTRY_LENGTH {
      ShortFormEndpoint(h, port, o);
    }
  }

  lemma ShortFormEndpoint(h: string, port: Port, o: Options)
    requires ValidHost(h)
    ensures var r := ParseEndpoint(h + ":" + Decimal(port), o);
            && (r.Parsed? <==> !ReadsAsScheme(h))
            && (r.Parsed? ==> r.proxy == Proxy(h, port, Assumed(o), None, None, None))
  {
    hide ReadScheme, ReadFields, ParseEndpoint, ParseAuthority, Contains, Decimal, ValidHost, LooksLikeMarkup, Trim, Alias, Plain;
    var d := Decimal(port);
    var line := h + ":" + d;
    ShortFormIsPlain(h, port);
    ShortFormScheme(h, port);
    if !ReadsAsScheme(h) {
      NameFieldsReadBack(line, h, port);
      EndpointByParts(line, line, o);
      AuthorityByParts(line, line, h, port, None, o);
    } else if ReadScheme(line).BadScheme? {
      BadSchemeRefused(line, o);
    } else {
      PortLacks(port);
      EndpointByParts(line, d, o);
      PortAlone(line, port);
      BadFieldsRefused(line, d, Some(ReadScheme(line).protocol), o);
    }
  }

  lemma BadSchemeRefused(raw: string, o: Options)
    requires ReadScheme(raw).BadScheme?
    ensures !ParseEndpoint(raw, o).Parsed?
  {
    hide ReadScheme, ParseAuthority;
  }

  lemma BadFieldsRefused(raw: string, authority: string, scheme: Option<Protocol>, o: Options)
    requires ReadFields(raw, authority).BadFields?
    ensures !ParseAuthority(raw, authority, scheme, o).Parsed?
  {
    hide ReadFields;
  }

  lemma PortLacks(port: Port)
    ensures var d := Decimal(port); !Contains(d, '/') && !Contains(d, '?') && !Contains(d, '#')
  {
  }

  /** An entry in brackets without a scheme is taken for a list of data, so `[ipv6]:port` alone is never accepted. */
  lemma BareBracketsRefused(input: string, o: Options)
    requires Trim(input) != "" && Trim(input)[0] == '['
    ensures ParseProxyEntry(input, o).Rejected?
  {
    TrimTwice(input);
    hide HasTag, Trim, ParseEndpoint;
  }

  lemma OneLabel(h: string)
    requires ValidLabel(h) && h[0] > '9'
    ensures ValidHost(h)
  {
    assert Find(h, '.') == |h|;
    assert Split(h, '.') == [h];
  }

  lemma PortEighty()
    ensures Decimal(80) == "80" && "proxy" + ":" + "80" == "proxy:80"
  {
  }

  /** For one entry of each kind. */
  lemma ShortFormsRefused(o: Options)
    ensures ParseProxyEntry("[::1]:80", o).Rejected?
    ensures ParseProxyEntry("proxy:80", o).Rejected?
  {
    hide HasTag, ParseProxyEntry, ParseEndpoint, Decimal, ValidHost, Trim;
    NothingToTrim("[::1]:80");
    BareBracketsRefused("[::1]:80", o);
    OneLabel("proxy");
    PortEighty();
    HostAndPort("proxy", 80, o);
  }
}
