/** Entries in the short forms the parser documents: after white space, and with credentials in either order. */
module ProxyForms {
  import opened Common
  import opened Text
  import opened ProxyEntry
  import opened ProxyRoundTrip

  /** Visible characters, none of which ends or disqualifies an authority. */
  predicate Sober(s: string) { forall k | 0 <= k < |s| :: '!' <= s[k] <= '~' && s[k] !in {'/', '?', '#', '<'} }

  /** A user name or password as it can stand between separators. */
  predicate Piece(s: string) { s != "" && Sober(s) && !Contains(s, ':') && !Contains(s, '@') }

  /** What may be kept as a credential after decoding. */
  ghost predicate Acceptable(v: string) {
    1 <= |v| <= 128 && forall k | 0 <= k < |v| :: ' ' <= v[k] <= '~' && v[k] != ':' && v[k] != '@'
  }

  function Prefix(scheme: Option<Protocol>): string { if scheme.Some? then Name(scheme.value) + "://" else "" }

  /** The entry meant: decoded credentials, or a refusal if one of them is not acceptable. */
  ghost predicate ReadAs(r: ParseResult, h: string, port: Port, scheme: Option<Protocol>, u: string, p: string, country: Option<string>, o: Options) {
    if Acceptable(o.decode(u)) && Acceptable(o.decode(p)) then
      r.Parsed? && r.proxy == Proxy(h, port, scheme.GetOr(Assumed(o)), Some(o.decode(u)), Some(o.decode(p)), country)
    else r == Rejected(InvalidCredentials)
  }

  lemma CleanWhenAcceptable(raw: string, o: Options)
    ensures CleanCredential(raw, o) == if Acceptable(o.decode(raw)) then Some(o.decode(raw)) else None
  {
  }

  lemma AssembledWith(raw: string, authority: string, h: string, port: Port, scheme: Option<Protocol>, u: string, p: string,
                      country: Option<string>, o: Options)
    requires u != "" && p != ""
    requires ReadFields(raw, authority) == Fields(Some(h), Some(port), Some(u), Some(p), country)
    ensures ReadAs(ParseAuthority(raw, authority, scheme, o), h, port, scheme, u, p, country, o)
  {
    hide ReadFields, HostPart, PortFailure, CleanCredential, Acceptable;
    CleanWhenAcceptable(u, o);
    CleanWhenAcceptable(p, o);
  }

  lemma SoberLacks(s: string, c: char)
    requires Sober(s) && (c in {'/', '?', '#', '<', ' ', '\r', '\n', '\t'})
    ensures !Contains(s, c)
  {
  }

  lemma SoberParts(h: string, port: Port)
    requires ValidHost(h)
    ensures Sober(h) && Sober(Decimal(port)) && Sober(":") && Sober("@")
  {
    HostIsName(h);
  }

  // ------------------------------------------------------------------ user:pass@host:port

  lemma {:induction false} LastAtIs(a: string, b: string)
    requires !Contains(b, '@')
    ensures LastAt(a + "@" + b) == |a|
  {
    var s := a + "@" + b;
    if b == "" {
      assert s[|s| - 1] == '@';
    } else {
      assert s[|s| - 1] == b[|b| - 1];
      assert s[..|s| - 1] == a + "@" + b[..|b| - 1];
      LastAtIs(a, b[..|b| - 1]);
    }
  }

  lemma Divided(a: string, c: char, b: string)
    requires !Contains(a, c)
    ensures var s := a + [c] + b; Contains(s, c) && Before(s, c) == a && AfterFirst(s, c) == b
  {
    var s := a + [c] + b;
    assert s[|a|] == c;
    FindAfter(a, c, b);
  }

  lemma UserFieldsRead(raw: string, u: string, p: string, h: string, port: Port)
    requires ValidHost(h) && Piece(u) && Piece(p)
    ensures ReadFields(raw, u + ":" + p + "@" + (h + ":" + Decimal(port)))
            == Fields(Some(h), Some(port), Some(u), Some(p), None)
  {
    hide NormalizeHost, NormalizePort, DottedName, Decimal, ValidHost, Sober, Contains, LastAt, Find;
    var d := Decimal(port);
    var host, info := h + ":" + d, u + ":" + p;
    NameStartsPlain(h);
    NameHostReadsBack(h);
    PortReadsBack(port);
    DigitsLack(d, '@');
    AuthorityLacks(h, d, '@');
    AuthorityLacks(h, d, ' ');
    LastAtIs(info, host);
    Divided(u, ':', p);
    Divided(h, ':', d);
    var authority := u + ":" + p + "@" + host;
    assert authority[..|info|] == info && authority[|info| + 1..] == host;
    ShortFormIsPlain(h, port);
  }

  // ------------------------------------------------------------------ host:port:user:pass

  lemma SplitFirst(a: string, c: char, rest: string)
    requires !Contains(a, c)
    ensures Split(a + [c] + rest, c) == [a] + Split(rest, c)
  {
    var s := a + [c] + rest;
    assert forall k | 0 <= k < |a| :: a[k] != c;
    FindAfter(a, c, rest);
    assert s[..|a|] == a && s[|a| + 1..] == rest;
  }

  lemma SplitOne(a: string, c: char)
    requires !Contains(a, c)
    ensures Split(a, c) == [a]
  {
    assert Find(a, c) == |a|;
  }

  /** The text after the port: user, password and perhaps a country. */
  function Tail(u: string, p: string, country: Option<string>): string {
    u + ":" + (if country.Some? then p + ":" + country.value else p)
  }

  lemma TailParts(u: string, p: string, country: Option<string>)
    requires !Contains(u, ':') && !Contains(p, ':') && (country.Some? ==> !Contains(country.value, ':'))
    ensures Split(Tail(u, p, country), ':') == [u, p] + if country.Some? then [country.value] else []
  {
    hide Split;
    if country.Some? {
      SplitOne(country.value, ':');
      SplitFirst(p, ':', country.value);
      SplitFirst(u, ':', p + ":" + country.value);
      assert u + [':'] + (p + ":" + country.value) == Tail(u, p, country);
    } else {
      SplitOne(p, ':');
      SplitFirst(u, ':', p);
    }
  }

  lemma ColonParts(h: string, port: Port, tail: string)
    requires ValidHost(h)
    ensures Split(h + ":" + Decimal(port) + ":" + tail, ':') == [h, Decimal(port)] + Split(tail, ':')
  {
    hide Split, ValidHost, Decimal;
    var d := Decimal(port);
    NameStartsPlain(h);
    DigitsLack(d, ':');
    SplitFirst(d, ':', tail);
    SplitFirst(h, ':', d + ":" + tail);
    assert h + ":" + d + ":" + tail == h + [':'] + (d + [':'] + tail);
  }

  lemma CountryIsPlain(cc: string)
    requires CountryCode(cc)
    ensures Sober(cc) && !Contains(cc, ':') && !Contains(cc, '@')
  {
  }

  lemma TailIsPlain(u: string, p: string, country: Option<string>)
    requires Piece(u) && Piece(p) && (country.Some? ==> CountryCode(country.value))
    ensures Sober(Tail(u, p, country)) && !Contains(Tail(u, p, country), '@')
  {
    if country.Some? {
      CountryIsPlain(country.value);
    }
  }

  lemma NotIpv6(h: string, d: string, u: string, p: string, cc: string)
    requires h != "" && d != "" && u != "" && p != "" && cc != ""
    ensures !LooksLikeIpv6([h, d, u, p, cc]) && !LooksLikeIpv6([h, d, u, p])
  {
  }

  lemma ColonFieldsRead(raw: string, u: string, p: string, h: string, port: Port, country: Option<string>)
    requires ValidHost(h) && Piece(u) && Piece(p) && (country.Some? ==> CountryCode(country.value))
    ensures ReadFields(raw, h + ":" + Decimal(port) + ":" + Tail(u, p, country))
            == Fields(Some(h), Some(port), Some(u), Some(p), if country.Some? then Some(Upper(country.value)) else None)
  {
    hide NormalizeHost, NormalizePort, Decimal, ValidHost, Sober, LastAt, Split, LooksLikeIpv6, Tail, CountryCode, Upper;
    var d, tail := Decimal(port), Tail(u, p, country);
    var authority := h + ":" + d + ":" + tail;
    NameStartsPlain(h);
    NameHostReadsBack(h);
    PortReadsBack(port);
    ColonParts(h, port, tail);
    CountryOf(country);
    TailParts(u, p, country);
    NotIpv6(h, d, u, p, country.GetOr("us"));
    DigitsLack(d, '@');
    TailIsPlain(u, p, country);
    NoAtIn(h, d, tail);
    LastAtOfNone(authority);
    assert authority[0] == h[0] && authority[|h|] == ':';
    assert Split(authority, ':') == if country.Some? then [h, d, u, p, country.value] else [h, d, u, p];
  }

  lemma CountryOf(country: Option<string>)
    requires country.Some? ==> CountryCode(country.value)
    ensures country.Some? ==> !Contains(country.value, ':') && country.value != ""
  {
    if country.Some? {
      CountryIsPlain(country.value);
    }
  }

  lemma NoAtIn(h: string, d: string, tail: string)
    requires !Contains(h, '@') && !Contains(d, '@') && !Contains(tail, '@')
    ensures !Contains(h + ":" + d + ":" + tail, '@')
  {
  }

  // ------------------------------------------------------------------ whole entries

  /** The first tests let an entry through that starts like this and goes on soberly. */
  lemma EntryIsPlain(scheme: Option<Protocol>, authority: string)
    requires Sober(authority) && authority != "" && (scheme.None? ==> authority[0] !in {'{', '['})
    ensures var line := Prefix(scheme) + authority;
            Trim(line) == line && line != "" && Plain(line) && !LooksLikeMarkup(line)
            && !Contains(authority, '/') && !Contains(authority, '?') && !Contains(authority, '#')
  {
    hide Name, Trim, HasTag, LooksLikeMarkup;
    var line := Prefix(scheme) + authority;
    if scheme.Some? {
      NameReadsBack(scheme.value);
      assert line[0] == Name(scheme.value)[0];
      PrefixLacks(scheme.value, '\r');
      PrefixLacks(scheme.value, '\n');
      PrefixLacks(scheme.value, '\t');
      PrefixLacks(scheme.value, '<');
    } else {
      assert line == authority;
    }
    assert line[|line| - 1] == authority[|authority| - 1];
    assert !Contains(line, '<');
    NothingToTrim(line);
    NoAngleNoTag(line);
    NoMarkupStart(line);
  }

  lemma EntryByParts(scheme: Option<Protocol>, authority: string, o: Options)
    requires Sober(authority) && authority != "" && (scheme.None? ==> authority[0] !in {'{', '['})
    requires |Prefix(scheme) + authority| <= MAX_ENTRY_LENGTH
    requires scheme.None? ==> ReadScheme(authority) == Absent(authority)
    ensures ParseProxyEntry(Prefix(scheme) + authority, o) == ParseAuthority(Prefix(scheme) + authority, authority, scheme, o)
  {
    hide Name, Trim, LooksLikeMarkup, ReadScheme, ParseAuthority, ParseEndpoint, Contains, Sober;
    var line := Prefix(scheme) + authority;
    EntryIsPlain(scheme, authority);
    if scheme.Some? {
      SchemeReadsBack(scheme.value, authority);
    } else {
      assert line == authority;
    }
    EndpointByParts(line, authority, o);
  }

  /** Text with an `@` and without a slash has no scheme. */
  lemma NoSchemeBeforeAt(raw: string)
    requires Contains(raw, '@') && !Contains(raw, '/')
    ensures ReadScheme(raw) == Absent(raw)
  {
    var k := SchemeRun(raw);
    assert |raw| >= k + 3 ==> raw[k..][..3][1] == raw[k + 1];
  }

  lemma NoSchemeInHost(h: string, rest: string)
    requires ValidHost(h) && !ReadsAsScheme(h) && !Contains(rest, '/')
    ensures ReadScheme(h + ":" + rest) == Absent(h + ":" + rest)
  {
    hide ValidHost;
    HostIsName(h);
    var raw := h + (":" + rest);
    assert raw == h + ":" + rest;
    SchemeRunStops(h, ":" + rest);
    assert raw[0] == h[0] && raw[|h|..] == ":" + rest;
    assert |rest| >= 2 ==> raw[|h|..][..3][1] == rest[0];
  }

  lemma UserEntryIsSober(u: string, p: string, h: string, port: Port)
    requires ValidHost(h) && Piece(u) && Piece(p)
    ensures var authority := u + ":" + p + "@" + (h + ":" + Decimal(port));
            Sober(authority) && authority != "" && authority[0] == u[0] && Contains(authority, '@') && !Contains(authority, '/')
  {
    hide ValidHost, Decimal;
    var authority := u + ":" + p + "@" + (h + ":" + Decimal(port));
    SoberParts(h, port);
    assert authority[0] == u[0];
    assert authority[|u| + 1 + |p|] == '@';
    SoberLacks(authority, '/');
  }

  /** `user:pass@host:port`, with or without a scheme: exactly that proxy, or refused for its credentials. */
  lemma UserAtHost(scheme: Option<Protocol>, u: string, p: string, h: string, port: Port, o: Options)
    requires ValidHost(h) && Piece(u) && Piece(p) && (scheme.None? ==> u[0] !in {'{', '['})
    ensures var line := Prefix(scheme) + (u + ":" + p + "@" + (h + ":" + Decimal(port)));
            |line| <= MAX_ENTRY_LENGTH ==> ReadAs(ParseProxyEntry(line, o), h, port, scheme, u, p, None, o)
  {
    hide ReadAs, ReadFields, ParseProxyEntry, ParseAuthority, ReadScheme, ValidHost, Decimal, Sober, Contains;
    var authority := u + ":" + p + "@" + (h + ":" + Decimal(port));
    var line := Prefix(scheme) + authority;
    UserEntryIsSober(u, p, h, port);
    if |line| <= MAX_ENTRY_LENGTH {
      NoSchemeBeforeAt(authority);
      EntryByParts(scheme, authority, o);
      UserFieldsRead(line, u, p, h, port);
      AssembledWith(line, authority, h, port, scheme, u, p, None, o);
    }
  }

  lemma ColonEntryIsSober(h: string, port: Port, u: string, p: string, country: Option<string>)
    requires ValidHost(h) && Piece(u) && Piece(p) && (country.Some? ==> CountryCode(country.value))
    ensures var authority := h + ":" + Decimal(port) + ":" + Tail(u, p, country);
            Sober(authority) && authority != "" && authority[0] !in {'{', '['}
    ensures !Contains(Decimal(port) + ":" + Tail(u, p, country), '/')
  {
    hide ValidHost, Decimal, Tail, CountryCode;
    SoberParts(h, port);
    TailIsPlain(u, p, country);
    SoberLacks(Decimal(port) + ":" + Tail(u, p, country), '/');
    HostIsName(h);
    assert (h + ":" + Decimal(port) + ":" + Tail(u, p, country))[0] == h[0];
  }

  /** `host:port:user:pass` and `host:port:user:pass:cc`, the host not being read as a scheme. */
  lemma HostThenUser(scheme: Option<Protocol>, h: string, port: Port, u: string, p: string, country: Option<string>, o: Options)
    requires ValidHost(h) && Piece(u) && Piece(p) && (country.Some? ==> CountryCode(country.value))
    requires scheme.None? ==> !ReadsAsScheme(h)
    ensures var line := Prefix(scheme) + (h + ":" + Decimal(port) + ":" + Tail(u, p, country));
            |line| <= MAX_ENTRY_LENGTH ==>
              ReadAs(ParseProxyEntry(line, o), h, port, scheme, u, p, if country.Some? then Some(Upper(country.value)) else None, o)
  {
    hide ReadAs, ReadFields, ParseProxyEntry, ParseAuthority, ReadScheme, ValidHost, Decimal, Tail, CountryCode, Upper, Sober, Contains;
    var rest := Decimal(port) + ":" + Tail(u, p, country);
    var authority := h + ":" + Decimal(port) + ":" + Tail(u, p, country);
    var line := Prefix(scheme) + authority;
    assert authority == h + ":" + rest;
    ColonEntryIsSober(h, port, u, p, country);
    if |line| <= MAX_ENTRY_LENGTH {
      if scheme.None? {
        NoSchemeInHost(h, rest);
      }
      EntryByParts(scheme, authority, o);
      ColonFieldsRead(line, u, p, h, port, country);
      AssembledWith(line, authority, h, port, scheme, u, p, if country.Some? then Some(Upper(country.value)) else None, o);
    }
  }

  // ------------------------------------------------------------------ host port

  lemma {:induction false} WordStops(a: string, rest: string)
    requires !Contains(a, ' ') && forall k | 0 <= k < |a| :: !IsSpace(a[k])
    requires rest == "" || IsSpace(rest[0])
    ensures SpaceEnd(a + rest) == |a|
  {
    if a == "" {
      assert a + rest == rest;
    } else {
      assert (a + rest)[1..] == a[1..] + rest;
      WordStops(a[1..], rest);
    }
  }

  lemma SoberHasNoSpace(s: string)
    requires Sober(s)
    ensures !Contains(s, ' ') && forall k | 0 <= k < |s| :: !IsSpace(s[k])
  {
  }

  lemma WordsApart(h: string, d: string)
    requires Sober(h) && Sober(d) && d != ""
    ensures var s := h + " " + d; s[..SpaceEnd(s)] == h && SecondWord(s) == Some(d)
  {
    hide Sober;
    var s := h + (" " + d);
    assert s == h + " " + d;
    SoberHasNoSpace(h);
    SoberHasNoSpace(d);
    WordStops(h, " " + d);
    assert s[|h|..] == " " + d && (" " + d)[1..] == d;
    assert TrimStart(" " + d) == d;
    WordStops(d, "");
    assert d + "" == d && d[..|d|] == d;
  }

  lemma SpacedFieldsRead(raw: string, h: string, port: Port)
    requires ValidHost(h)
    ensures ReadFields(raw, h + " " + Decimal(port)) == Fields(Some(h), Some(port), None, None, None)
  {
    hide NormalizeHost, NormalizePort, Decimal, ValidHost, Sober, LastAt, SpaceEnd, SecondWord;
    var d := Decimal(port);
    var authority := h + " " + d;
    NameStartsPlain(h);
    NameHostReadsBack(h);
    PortReadsBack(port);
    SoberParts(h, port);
    WordsApart(h, d);
    DigitsLack(d, '@');
    DigitsLack(d, ':');
    LastAtOfNone(authority);
    assert authority[0] == h[0] && authority[|h|] == ' ';
  }

  lemma SpacedLacks(h: string, d: string, c: char)
    requires Sober(h) && Sober(d) && c in {'\r', '\n', '\t', '<', '/', '?', '#'}
    ensures !Contains(h + " " + d, c)
  {
  }

  lemma SpacedHasNoScheme(h: string, d: string)
    requires DottedName(h)
    ensures ReadScheme(h + " " + d) == Absent(h + " " + d)
  {
    var line := h + (" " + d);
    assert line == h + " " + d;
    SchemeRunStops(h, " " + d);
    assert line[|h|..] == " " + d;
    StartsOtherwise(" " + d);
    hide StartsWith;
  }

  lemma StartsOtherwise(s: string)
    requires s != "" && s[0] != ':'
    ensures !StartsWith(s, "://") && !StartsWith(s, ":")
  {
    assert s[..1][0] == s[0] && (|s| >= 3 ==> s[..3][0] == s[0]);
  }

  lemma SpacedIsPlain(h: string, port: Port)
    requires ValidHost(h)
    ensures var line := h + " " + Decimal(port);
            Trim(line) == line && line != "" && Plain(line) && !LooksLikeMarkup(line)
            && !Contains(line, '/') && !Contains(line, '?') && !Contains(line, '#')
            && ReadScheme(line) == Absent(line)
  {
    hide ValidHost, LooksLikeMarkup, HasTag, Trim, Contains, ReadScheme, Sober, Decimal;
    var d := Decimal(port);
    var line := h + " " + d;
    SoberParts(h, port);
    HostIsName(h);
    SpacedHasNoScheme(h, d);
    assert line[0] == h[0] && line[|line| - 1] == d[|d| - 1];
    NothingToTrim(line);
    SpacedLacks(h, d, '\r');
    SpacedLacks(h, d, '\n');
    SpacedLacks(h, d, '\t');
    SpacedLacks(h, d, '<');
    SpacedLacks(h, d, '/');
    SpacedLacks(h, d, '?');
    SpacedLacks(h, d, '#');
    NoAngleNoTag(line);
    NoMarkupStart(line);
  }

  /** `host port`: exactly that proxy, also for names that would read as a scheme. */
  lemma HostSpacePort(h: string, port: Port, o: Options)
    requires ValidHost(h)
    ensures var line := h + " " + Decimal(port);
            |line| <= MAX_ENTRY_LENGTH ==>
              ParseProxyEntry(line, o).Parsed? && ParseProxyEntry(line, o).proxy == Proxy(h, port, Assumed(o), None, None, None)
  {
    hide ReadFields, ParseAuthority, ReadScheme, ValidHost, Decimal, Trim, LooksLikeMarkup, ParseEndpoint, Contains;
    var line := h + " " + Decimal(port);
    SpacedIsPlain(h, port);
    if |line| <= MAX_ENTRY_LENGTH {
      EndpointByParts(line, line, o);
      SpacedFieldsRead(line, h, port);
      AuthorityByParts(line, line, h, port, None, o);
    }
  }

  // ------------------------------------------------------------------ what is wrong with a port

  /** A port as it may be written. */
  ghost predicate PortText(w: string) { 1 <= |w| <= 5 && AllDigits(w) && 1 <= Number(w) <= 65535 }

  lemma SoberTrimsToItself(w: string)
    requires Sober(w)
    ensures Trim(w) == w
  {
    if w != "" {
      NothingToTrim(w);
    }
  }

  lemma BadPortFields(raw: string, h: string, w: string)
    requires ValidHost(h) && Sober(w) && !Contains(w, ':') && !Contains(w, '@') && !PortText(w)
    ensures ReadFields(raw, h + ":" + w) == Fields(Some(h), None, None, None, None)
  {
    hide NormalizeHost, DottedName, Sober;
    NameStartsPlain(h);
    NameHostReadsBack(h);
    SoberTrimsToItself(w);
    SoberLacks(w, ' ');
    SplitInTwo(h, ':', w);
    var authority := h + ":" + w;
    assert authority[0] == h[0];
    JoinedLack(h, ":", '@');
    JoinedLack(h + ":", w, '@');
    LastAtOfNone(authority);
    assert authority[|h|] == ':';
  }

  lemma PortFailureIs(h: string, w: string)
    requires ValidHost(h) && Sober(w) && !Contains(w, '@')
    ensures HostPart(h + ":" + w) == h + ":" + w
    ensures PortFailure(h + ":" + w) == if w == "" then NoPort else InvalidPort
  {
    hide ValidHost, Sober;
    NameStartsPlain(h);
    SoberTrimsToItself(w);
    var authority := h + ":" + w;
    JoinedLack(h, ":", '@');
    JoinedLack(h + ":", w, '@');
    LastAtOfNone(authority);
    Divided(h, ':', w);
    assert authority[0] == h[0];
    assert authority[0..] == authority;
  }

  /** A host with a colon and no port lacks one; with anything but a number from 1 to 65535 its port is invalid. */
  lemma BadPortReported(h: string, w: string, o: Options)
    requires ValidHost(h) && !ReadsAsScheme(h) && Sober(w) && !Contains(w, ':') && !Contains(w, '@') && !PortText(w)
    ensures var line := h + ":" + w;
            |line| <= MAX_ENTRY_LENGTH ==> ParseProxyEntry(line, o) == Rejected(if w == "" then NoPort else InvalidPort)
  {
    hide ReadFields, ParseProxyEntry, ReadScheme, ValidHost, Sober, Contains, PortFailure, HostPart, PortText, CleanCredential;
    var line := h + ":" + w;
    if |line| <= MAX_ENTRY_LENGTH {
      BadPortIsSober(h, w);
      NoSchemeInHost(h, w);
      var none: string := "";
      assert none + line == line;
      EntryByParts(None, line, o);
      BadPortFields(line, h, w);
      PortFailureIs(h, w);
    }
  }

  lemma BadPortIsSober(h: string, w: string)
    requires ValidHost(h) && Sober(w)
    ensures var line := h + ":" + w; Sober(line) && line != "" && line[0] !in {'{', '['} && !Contains(w, '/')
  {
    hide ValidHost;
    SoberParts(h, 1);
    SoberLacks(w, '/');
    HostIsName(h);
    assert (h + ":" + w)[0] == h[0];
  }
}
