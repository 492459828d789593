/** Whole lists, one entry per line. */
module ProxyList {
  import opened Common
  import opened Text
  import opened ProxyEntry
  import opened ProxyRoundTrip

  datatype Rejection = Rejection(line: string, reason: Reason)

  /** What reading leaves behind; `full` once a new entry reaches the requested number. */
  datatype Listing = Listing(
    proxies: seq<Proxy>,
    rejected: seq<Rejection>,
    duplicates: nat,
    skipped: nat,
    hint: Option<Protocol>,
    full: bool)

  datatype Kind = Blank | Skipped | Refused(reason: Reason) | Label(protocol: Protocol) | Entry

  function Alnums(s: string): string {
    if s == "" then "" else (if IsAlnum(s[0]) then [s[0]] else "") + Alnums(s[1..])
  }

  function LabelProtocol(line: string): Option<Protocol> {
    var token := Alnums(Lower(line));
    if StartsWith(token, "socks4") then Some(Socks4)
    else if StartsWith(token, "socks5") || token == "socks" then Some(Socks5)
    else if StartsWith(token, "https") then Some(Https)
    else if StartsWith(token, "http") then Some(Http)
    else None
  }

  predicate BareHost(line: string) {
    (forall k | 0 <= k < |line| :: !IsSpace(line[k])) && (exists k :: 0 <= k < |line| && IsDigit(line[k]))
  }

  function Classify(line: string): Kind {
    if line == "" then Blank
    else if StartsWith(line, "#") || StartsWith(line, "//") || StartsWith(line, ";") then Skipped
    else if |line| > MAX_ENTRY_LENGTH then Refused(TooLong)
    else if LooksLikeMarkup(line) then Refused(NotAnEntry)
    else if !Contains(line, ':') then
      if LabelProtocol(line).Some? then Label(LabelProtocol(line).value)
      else if BareHost(line) then Entry
      else Skipped
    else Entry
  }

  function DedupeKey(p: Proxy): string {
    Name(p.protocol) + "|" + Lower(p.host) + "|" + Decimal(p.port) + "|" + Lower(if p.username.Some? then p.username.value else "")
  }

  predicate Known(proxies: seq<Proxy>, p: Proxy) {
    exists k :: 0 <= k < |proxies| && DedupeKey(proxies[k]) == DedupeKey(p)
  }

  function Reject(l: Listing, line: string, reason: Reason): Listing {
    l.(rejected := l.rejected + [Rejection(line[..Min(48, |line|)], reason)])
  }

  function Accept(l: Listing, p: Proxy, limit: Option<int>): Listing {
    if Known(l.proxies, p) then l.(duplicates := l.duplicates + 1)
    else l.(proxies := l.proxies + [p], full := l.full || (limit.Some? && |l.proxies| + 1 >= limit.value))
  }

  /** What a line of some kind does; `r` is what it parses to, should it be an entry. */
  function Apply(l: Listing, line: string, kind: Kind, r: ParseResult, limit: Option<int>): Listing {
    match kind
    case Blank => l
    case Skipped => l.(skipped := l.skipped + 1)
    case Refused(reason) => Reject(l, line, reason)
    case Label(protocol) => l.(hint := Some(protocol), skipped := l.skipped + 1)
    case Entry =>
      match r
      case Rejected(reason) => Reject(l, line, reason)
      case Parsed(p, _) => Accept(l, p, limit)
  }

  /** One line of the list. */
  function ReadLine(l: Listing, rawLine: string, o: Options, limit: Option<int>): Listing {
    var line := Trim(rawLine);
    Apply(l, line, Classify(line), ParseProxyEntry(line, o.(hint := l.hint)), limit)
  }

  type Reader = (Listing, string) -> Listing

  function ReaderFor(o: Options, limit: Option<int>): Reader { (l, line) => ReadLine(l, line, o, limit) }

  function ReadLines(l: Listing, lines: seq<string>, read: Reader): Listing
    decreases |lines|
  {
    if lines == [] || l.full then l else ReadLines(read(l, lines[0]), lines[1..], read)
  }

  function Nothing(o: Options): Listing { Listing([], [], 0, 0, o.hint, false) }

  function ReadList(text: string, o: Options, limit: Option<int>): Listing { ReadLines(Nothing(o), Lines(text), ReaderFor(o, limit)) }

  /** What the loop does with one classified line, with the set of keys it keeps beside the entries. */
  method Record(l: Listing, seen: set<string>, line: string, kind: Kind, r: ParseResult, limit: Option<int>)
    returns (next: Listing, nowSeen: set<string>)
    requires Remembers(seen, l.proxies)
    ensures next == Apply(l, line, kind, r, limit)
    ensures Remembers(nowSeen, next.proxies)
  {
    hide DedupeKey, Remembers;
    next, nowSeen := l, seen;
    match kind {
      case Blank =>
      case Skipped => next := l.(skipped := l.skipped + 1);
      case Refused(reason) => next := l.(rejected := l.rejected + [Rejection(line[..Min(48, |line|)], reason)]);
      case Label(protocol) => next := l.(hint := Some(protocol), skipped := l.skipped + 1);
      case Entry =>
        match r {
          case Rejected(reason) => next := l.(rejected := l.rejected + [Rejection(line[..Min(48, |line|)], reason)]);
          case Parsed(p, _) =>
            var key := DedupeKey(p);
            RememberOne(seen, l.proxies, p);
            if key in seen {
              next := l.(duplicates := l.duplicates + 1);
            } else {
              nowSeen := seen + {key};
              next := l.(proxies := l.proxies + [p]);
              if limit.Some? && |next.proxies| >= limit.value {
                next := next.(full := true);
              }
            }
        }
    }
  }

  // ------------------------------------------------------------------ labels, and the protocols they give

  /** The letters and digits of the line begin with those of the word, in either case. */
  predicate Spells(line: string, word: string) {
    word == ""
    || (line != ""
        && if IsAlnum(line[0]) then LowerChar(line[0]) == word[0] && Spells(line[1..], word[1..]) else Spells(line[1..], word))
  }

  /** They are those of the word and no others. */
  predicate SpellsOnly(line: string, word: string) {
    if line == "" then word == ""
    else if IsAlnum(line[0]) then word != "" && LowerChar(line[0]) == word[0] && SpellsOnly(line[1..], word[1..])
    else SpellsOnly(line[1..], word)
  }

  /** Which words are labels of which protocol. */
  predicate Labels(line: string, p: Protocol) {
    match p
    case Socks4 => Spells(line, "socks4")
    case Socks5 => Spells(line, "socks5") || SpellsOnly(line, "socks")
    case Https => Spells(line, "https")
    case Http => Spells(line, "http") && !Spells(line, "https")
  }

  /** A line that could be an entry or a label: text, but no comment, not over the limit and no markup. */
  predicate Plausible(line: string) {
    && line != "" && line[0] != '#' && line[0] != ';' && !(|line| >= 2 && line[0] == '/' && line[1] == '/')
    && |line| <= MAX_ENTRY_LENGTH && !LooksLikeMarkup(line)
  }

  /** A label line: nothing but a label, without a colon. */
  predicate LabelLine(rawLine: string, p: Protocol) {
    var line := Trim(rawLine);
    Plausible(line) && (forall k | 0 <= k < |line| :: line[k] != ':') && Labels(line, p)
  }

  lemma {:induction false} SpelledByAlnums(line: string, word: string)
    requires forall k | 0 <= k < |word| :: IsAlnum(word[k]) && !IsUpper(word[k])
    ensures Spells(line, word) <==> StartsWith(Alnums(Lower(line)), word)
    ensures SpellsOnly(line, word) <==> Alnums(Lower(line)) == word
    decreases |line|
  {
    hide Lower, Alnums, StartsWith;
    AlnumsStep(line);
    StartsEmpty(word);
    StartsEmpty(Alnums(Lower(line)));
    if line != "" && !IsAlnum(line[0]) {
      SpelledByAlnums(line[1..], word);
    } else if line != "" && word != "" {
      SpelledByAlnums(line[1..], word[1..]);
      StepStarts(LowerChar(line[0]), Alnums(Lower(line[1..])), word);
    }
  }

  lemma AlnumsStep(line: string)
    ensures Alnums(Lower(line))
            == if line == "" then ""
               else (if IsAlnum(line[0]) then [LowerChar(line[0])] else "") + Alnums(Lower(line[1..]))
  {
    if line != "" {
      assert Lower(line)[1..] == Lower(line[1..]) && Lower(line)[0] == LowerChar(line[0]);
    }
  }

  lemma StartsEmpty(s: string)
    ensures StartsWith(s, "") && (StartsWith("", s) <==> s == "")
  {
  }

  lemma StepStarts(c: char, t: string, word: string)
    requires word != ""
    ensures StartsWith([c] + t, word) <==> c == word[0] && StartsWith(t, word[1..])
    ensures [c] + t == word <==> c == word[0] && t == word[1..]
  {
    assert word == [word[0]] + word[1..];
    if |word| <= |t| + 1 {
      assert ([c] + t)[..|word|] == [c] + t[..|word| - 1];
    }
  }

  lemma TokenLabels(token: string, line: string)
    requires token == Alnums(Lower(line))
    ensures forall p :: LabelProtocol(line) == Some(p) <==> Labels(line, p)
  {
    hide Spells, SpellsOnly, Alnums, Lower;
    SpelledByAlnums(line, "socks4");
    SpelledByAlnums(line, "socks5");
    SpelledByAlnums(line, "socks");
    SpelledByAlnums(line, "https");
    SpelledByAlnums(line, "http");
    StartsApart(token);
    forall p ensures LabelProtocol(line) == Some(p) <==> Labels(line, p) {
    }
  }

  lemma StartsApart(token: string)
    ensures StartsWith(token, "socks4") ==> !StartsWith(token, "socks5") && token != "socks" && !StartsWith(token, "http")
    ensures StartsWith(token, "socks5") || token == "socks" ==> !StartsWith(token, "http")
    ensures StartsWith(token, "https") ==> StartsWith(token, "http")
  {
    if StartsWith(token, "socks4") {
      assert token[..6][5] == '4' && token[..6][0] == 's';
    }
    if StartsWith(token, "socks5") {
      assert token[..6][5] == '5' && token[..6][0] == 's';
    }
    if StartsWith(token, "http") {
      assert token[..4][0] == 'h';
    }
    if StartsWith(token, "https") {
      assert token[..4] == token[..5][..4];
    }
  }

  lemma LabelsClassified(rawLine: string)
    ensures forall p :: Classify(Trim(rawLine)) == Label(p) <==> LabelLine(rawLine, p)
  {
    hide LooksLikeMarkup, LabelProtocol, Labels, BareHost, Trim;
    var line := Trim(rawLine);
    TokenLabels(Alnums(Lower(line)), line);
    StartsByChars(line);
    assert !Contains(line, ':') <==> forall k | 0 <= k < |line| :: line[k] != ':';
  }

  /**
   * Which lines are read as entries and which are skipped: a plausible line with a colon, or one that is no label, has a
   * digit and no white space, is an entry, so that what could be an endpoint is reported when malformed; a comment and
   * other prose is skipped.
   */
  lemma EntriesClassified(rawLine: string)
    ensures var line := Trim(rawLine);
            && (Classify(line).Entry? <==>
                Plausible(line)
                && ((exists k :: 0 <= k < |line| && line[k] == ':')
                    || ((forall p :: !Labels(line, p)) && (exists k :: 0 <= k < |line| && IsDigit(line[k]))
                        && forall k | 0 <= k < |line| :: !IsSpace(line[k]))))
            && (Classify(line).Skipped? <==>
                (line != "" && (line[0] == '#' || line[0] == ';' || (|line| >= 2 && line[0] == '/' && line[1] == '/')))
                || (Plausible(line) && (forall k | 0 <= k < |line| :: line[k] != ':') && (forall p :: !Labels(line, p))
                    && ((exists k :: 0 <= k < |line| && IsSpace(line[k])) || forall k | 0 <= k < |line| :: !IsDigit(line[k]))))
  {
    hide LooksLikeMarkup, LabelProtocol, Labels, Trim, IsSpace, IsDigit;
    var line := Trim(rawLine);
    TokenLabels(Alnums(Lower(line)), line);
    StartsByChars(line);
  }

  lemma StartsByChars(line: string)
    ensures StartsWith(line, "#") <==> line != "" && line[0] == '#'
    ensures StartsWith(line, ";") <==> line != "" && line[0] == ';'
    ensures StartsWith(line, "//") <==> |line| >= 2 && line[0] == '/' && line[1] == '/'
  {
    if line != "" {
      assert line[..1] == [line[0]];
    }
    if |line| >= 2 {
      assert line[..2] == [line[0], line[1]];
    }
  }

  /** The protocol entries are given above line `n`: that of the last label line before it, or else what was hinted. */
  ghost predicate HintAt(lines: seq<string>, n: nat, first: Option<Protocol>, h: Option<Protocol>)
    requires n <= |lines|
  {
    || (h == first && forall k, p | 0 <= k < n :: !LabelLine(lines[k], p))
    || exists k :: 0 <= k < n && h.Some? && LabelLine(lines[k], h.value) && forall j, p | k < j < n :: !LabelLine(lines[j], p)
  }

  /**
   * Where an entry comes from: a line that parses to it under the hint in force there. If it names no protocol of its
   * own it has that of the last label line above it, or else of the hint, or else of the fallback, or else HTTP.
   */
  ghost predicate ComesFrom(p: Proxy, lines: seq<string>, n: nat, o: Options) {
    && n < |lines|
    && exists h :: HintAt(lines, n, o.hint, h)
         && var r := ParseProxyEntry(Trim(lines[n]), o.(hint := h));
            && r.Parsed? && r.proxy == p
            && ((forall word :: !NamesScheme(Trim(lines[n]), word)) ==> p.protocol == h.GetOr(o.fallback.GetOr(Http)))
  }

  /** Every entry comes from its line, later entries from later lines. */
  ghost predicate AllComeFrom(proxies: seq<Proxy>, lines: seq<string>, n: nat, from: seq<nat>, o: Options) {
    && |from| == |proxies|
    && (forall i, j | 0 <= i < j < |from| :: from[i] < from[j])
    && forall i | 0 <= i < |from| :: from[i] < n && ComesFrom(proxies[i], lines, from[i], o)
  }

  lemma TrimTwiceIs(line: string)
    ensures Trim(Trim(line)) == Trim(line)
  {
    TrimTwice(line);
  }

  lemma HintGoesOn(lines: seq<string>, n: nat, first: Option<Protocol>, l: Listing, o: Options, limit: Option<int>)
    requires n < |lines| && HintAt(lines, n, first, l.hint)
    ensures HintAt(lines, n + 1, first, ReadLine(l, lines[n], o, limit).hint)
  {
    hide ParseProxyEntry, Classify, Trim, LabelLine, Known;
    LabelsClassified(lines[n]);
    var next := ReadLine(l, lines[n], o, limit);
    if Classify(Trim(lines[n])).Label? {
      assert LabelLine(lines[n], next.hint.value);
    } else {
      assert next.hint == l.hint && forall p :: !LabelLine(lines[n], p);
      if !(l.hint == first && forall k, p | 0 <= k < n :: !LabelLine(lines[k], p)) {
        var k :| 0 <= k < n && l.hint.Some? && LabelLine(lines[k], l.hint.value) && forall j, p | k < j < n :: !LabelLine(lines[j], p);
      }
    }
  }

  lemma EntryComesFrom(lines: seq<string>, n: nat, l: Listing, o: Options)
    requires n < |lines| && HintAt(lines, n, o.hint, l.hint)
    requires ParseProxyEntry(Trim(lines[n]), o.(hint := l.hint)).Parsed?
    ensures ComesFrom(ParseProxyEntry(Trim(lines[n]), o.(hint := l.hint)).proxy, lines, n, o)
  {
    hide ParseProxyEntry, Trim, HintAt, NamesScheme, Words;
    ProtocolOf(Trim(lines[n]), o.(hint := l.hint));
    TrimTwiceIs(lines[n]);
  }

  /** One line more. */
  lemma OneMoreComesFrom(lines: seq<string>, n: nat, from: seq<nat>, l: Listing, o: Options, limit: Option<int>) returns (more: seq<nat>)
    requires n < |lines| && HintAt(lines, n, o.hint, l.hint) && AllComeFrom(l.proxies, lines, n, from, o)
    ensures AllComeFrom(ReadLine(l, lines[n], o, limit).proxies, lines, n + 1, more, o)
  {
    hide ParseProxyEntry, Classify, Trim, HintAt, ComesFrom, Known;
    var r := ParseProxyEntry(Trim(lines[n]), o.(hint := l.hint));
    var next := ReadLine(l, lines[n], o, limit);
    more := from;
    if next.proxies != l.proxies {
      assert r.Parsed? && next.proxies == l.proxies + [r.proxy];
      EntryComesFrom(lines, n, l, o);
      more := from + [n];
    }
  }

  /** The loop of the list parser. */
  method ParseProxyList(text: string, o: Options, limit: Option<int>) returns (l: Listing, totalLines: nat, ghost from: seq<nat>)
    ensures l == ReadList(text, o, limit)
    ensures totalLines == |Lines(text)|
    ensures AllComeFrom(l.proxies, Lines(text), |Lines(text)|, from, o)
  {
    hide ParseProxyEntry, Classify, Trim, HintAt, ComesFrom, Known, LabelLine, Remembers;
    var lines := Lines(text);
    var seen: set<string> := {};
    l, from := Nothing(o), [];
    NothingRemembered();
    NoLabelYet(lines, o);
    var i := 0;
    while i < |lines| && !l.full
      invariant 0 <= i <= |lines|
      invariant Remembers(seen, l.proxies)
      invariant ReadList(text, o, limit) == ReadLines(l, lines[i..], ReaderFor(o, limit))
      invariant HintAt(lines, i, o.hint, l.hint) && AllComeFrom(l.proxies, lines, i, from, o)
    {
      NextLine(l, lines, i, o, limit);
      HintGoesOn(lines, i, o.hint, l, o, limit);
      from := OneMoreComesFrom(lines, i, from, l, o, limit);
      var line := Trim(lines[i]);
      l, seen := Record(l, seen, line, Classify(line), ParseProxyEntry(line, o.(hint := l.hint)), limit);
      i := i + 1;
    }
    totalLines := |lines|;
  }

  lemma NothingRemembered()
    ensures Remembers({}, [])
  {
  }

  lemma NoLabelYet(lines: seq<string>, o: Options)
    ensures HintAt(lines, 0, o.hint, o.hint)
  {
  }

  lemma NextLine(l: Listing, lines: seq<string>, i: nat, o: Options, limit: Option<int>)
    requires i < |lines| && !l.full
    ensures ReadLines(l, lines[i..], ReaderFor(o, limit))
            == ReadLines(ReadLine(l, lines[i], o, limit), lines[i + 1..], ReaderFor(o, limit))
  {
    assert lines[i..][1..] == lines[i + 1..];
    assert ReaderFor(o, limit)(l, lines[i]) == ReadLine(l, lines[i], o, limit);
  }

  /** The set holds exactly the keys of the entries. */
  ghost predicate Remembers(seen: set<string>, proxies: seq<Proxy>) {
    forall key: string :: key in seen <==> exists k :: 0 <= k < |proxies| && DedupeKey(proxies[k]) == key
  }

  lemma RememberOne(seen: set<string>, proxies: seq<Proxy>, p: Proxy)
    requires Remembers(seen, proxies)
    ensures DedupeKey(p) in seen <==> Known(proxies, p)
    ensures Remembers(seen + {DedupeKey(p)}, proxies + [p])
  {
    var more := proxies + [p];
    forall key: string ensures key in seen + {DedupeKey(p)} <==> exists k :: 0 <= k < |more| && DedupeKey(more[k]) == key {
      if key in seen {
        var k :| 0 <= k < |proxies| && DedupeKey(proxies[k]) == key;
        assert more[k] == proxies[k];
      }
      assert more[|proxies|] == p;
    }
  }

  // ------------------------------------------------------------------ what every list satisfies

  predicate NoRepeats(proxies: seq<Proxy>) {
    forall i, j | 0 <= i < j < |proxies| :: DedupeKey(proxies[i]) != DedupeKey(proxies[j])
  }

  predicate CanonicalIfOpen(p: Proxy) { p.username.None? ==> Canonical(p) }

  predicate WellKept(proxies: seq<Proxy>) {
    NoRepeats(proxies) && forall k | 0 <= k < |proxies| :: CanonicalIfOpen(proxies[k])
  }

  lemma AcceptKeeps(l: Listing, p: Proxy, limit: Option<int>)
    requires WellKept(l.proxies) && CanonicalIfOpen(p)
    ensures WellKept(Accept(l, p, limit).proxies)
  {
  }

  lemma ReadLineKeeps(l: Listing, rawLine: string, o: Options, limit: Option<int>)
    requires WellKept(l.proxies)
    ensures WellKept(ReadLine(l, rawLine, o, limit).proxies)
  {
    hide ParseProxyEntry, Classify, Trim, WellKept, Accept, Canonical;
    var line := Trim(rawLine);
    if Classify(line).Entry? {
      AcceptedIsCanonical(line, o.(hint := l.hint));
      var r := ParseProxyEntry(line, o.(hint := l.hint));
      if r.Parsed? {
        AcceptKeeps(l, r.proxy, limit);
      }
    }
  }

  /** No two entries of a list share a key, and each without credentials is in canonical form. */
  lemma {:induction false} ReadLinesKeep(l: Listing, lines: seq<string>, o: Options, limit: Option<int>)
    requires WellKept(l.proxies)
    ensures WellKept(ReadLines(l, lines, ReaderFor(o, limit)).proxies)
    decreases |lines|
  {
    if lines != [] && !l.full {
      ReadLineKeeps(l, lines[0], o, limit);
      ReadLinesKeep(ReadLine(l, lines[0], o, limit), lines[1..], o, limit);
    }
  }

  /** Entries are only ever appended, and an accepted entry is the first with its key or has one before it. */
  lemma {:induction false} FirstIsKept(l: Listing, lines: seq<string>, o: Options, limit: Option<int>)
    requires lines != [] && !l.full
    ensures var line := Trim(lines[0]);
            var r := ParseProxyEntry(line, o.(hint := l.hint));
            var after := ReadLines(l, lines, ReaderFor(o, limit)).proxies;
            l.proxies <= after && (Classify(line).Entry? && r.Parsed? ==> Known(after, r.proxy))
    decreases |lines|
  {
    hide ParseProxyEntry, Classify, Trim, Known;
    var line := Trim(lines[0]);
    var r := ParseProxyEntry(line, o.(hint := l.hint));
    var next := Apply(l, line, Classify(line), r, limit);
    assert next == ReadLine(l, lines[0], o, limit);
    var after := ReadLines(next, lines[1..], ReaderFor(o, limit)).proxies;
    if lines[1..] != [] && !next.full {
      FirstIsKept(next, lines[1..], o, limit);
    }
    assert l.proxies <= next.proxies <= after;
    if Classify(line).Entry? && r.Parsed? {
      KnownNext(l, r.proxy, limit);
      KnownLater(next.proxies, after, r.proxy);
    }
  }

  lemma KnownNext(l: Listing, p: Proxy, limit: Option<int>)
    ensures Known(Accept(l, p, limit).proxies, p)
  {
    if !Known(l.proxies, p) {
      assert (l.proxies + [p])[|l.proxies|] == p;
    }
  }

  lemma KnownLater(now: seq<Proxy>, later: seq<Proxy>, p: Proxy)
    requires now <= later && Known(now, p)
    ensures Known(later, p)
  {
    var k :| 0 <= k < |now| && DedupeKey(now[k]) == DedupeKey(p);
    assert later[k] == now[k];
  }

  function Filled(lines: seq<string>): nat {
    if lines == [] then 0 else (if Trim(lines[0]) == "" then 0 else 1) + Filled(lines[1..])
  }

  function Accounted(l: Listing): nat { |l.proxies| + |l.rejected| + l.duplicates + l.skipped }

  lemma ReadLineAccounts(l: Listing, rawLine: string, o: Options, limit: Option<int>)
    ensures Accounted(ReadLine(l, rawLine, o, limit)) == Accounted(l) + if Trim(rawLine) == "" then 0 else 1
  {
    hide ParseProxyEntry, Trim, Known, LooksLikeMarkup, LabelProtocol, BareHost, Contains;
  }

  /** Every line with text is kept, refused, a duplicate or skipped, exactly once; only a full list leaves lines out. */
  lemma {:induction false} EveryLineAccounted(l: Listing, lines: seq<string>, o: Options, limit: Option<int>)
    ensures Accounted(ReadLines(l, lines, ReaderFor(o, limit))) <= Accounted(l) + Filled(lines)
    ensures !ReadLines(l, lines, ReaderFor(o, limit)).full ==> Accounted(ReadLines(l, lines, ReaderFor(o, limit))) == Accounted(l) + Filled(lines)
    decreases |lines|
  {
    if lines != [] && !l.full {
      ReadLineAccounts(l, lines[0], o, limit);
      EveryLineAccounted(ReadLine(l, lines[0], o, limit), lines[1..], o, limit);
    }
  }

  /** A limit below one still lets one entry through. */
  lemma {:induction false} LimitRespected(l: Listing, lines: seq<string>, o: Options, limit: int)
    requires !l.full && (l.proxies == [] || |l.proxies| < limit)
    ensures var n := |ReadLines(l, lines, ReaderFor(o, Some(limit))).proxies|; n <= Max(1, limit)
    ensures ReadLines(l, lines, ReaderFor(o, Some(limit))).full ==> |ReadLines(l, lines, ReaderFor(o, Some(limit))).proxies| == Max(1, limit)
    decreases |lines|
  {
    hide ParseProxyEntry, Classify, Trim, Known;
    if lines != [] {
      var next := ReadLine(l, lines[0], o, Some(limit));
      if !next.full {
        LimitRespected(next, lines[1..], o, limit);
      }
    }
  }

  // ------------------------------------------------------------------ printing a list and reading it again

  predicate Printable(p: Proxy) { p.username.None? && |FormatRedacted(p)| <= MAX_ENTRY_LENGTH }

  function Printed(proxies: seq<Proxy>): (lines: seq<string>)
    ensures |lines| == |proxies| && forall k | 0 <= k < |lines| :: lines[k] == FormatRedacted(proxies[k])
  {
    if proxies == [] then [] else [FormatRedacted(proxies[0])] + Printed(proxies[1..])
  }

  /** A line that starts with a letter or digit, is short enough, no markup and has a colon is taken for an entry. */
  lemma ColonLineIsEntry(line: string)
    requires line != "" && IsAlnum(line[0]) && |line| <= MAX_ENTRY_LENGTH && !LooksLikeMarkup(line) && Contains(line, ':')
    ensures Classify(line) == Entry
  {
    hide LooksLikeMarkup, Contains;
    assert line[..1][0] == line[0] && (|line| >= 2 ==> line[..2][0] == line[0]);
  }

  lemma PlainHasNoEnd(line: string)
    requires Plain(line)
    ensures PlainLine(line)
  {
  }

  lemma PrintedHasColon(p: Proxy)
    ensures Contains(Name(p.protocol) + "://" + AuthorityText(p), ':')
  {
    hide Name, AuthorityText;
    assert (Name(p.protocol) + "://" + AuthorityText(p))[|Name(p.protocol)|] == ':';
  }

  lemma PrintedIsEntry(p: Proxy)
    requires Canonical(p) && Printable(p)
    ensures var line := FormatRedacted(p); Trim(line) == line && Classify(line) == Entry && PlainLine(line)
  {
    hide Name, AuthorityText, FormatRedacted, Canonical, Trim, Classify, Plain, PlainLine, LooksLikeMarkup, Contains;
    var line := FormatRedacted(p);
    PrintedLine(p);
    PrintedIsPlain(p);
    PrintedEnds(p);
    PrintedHasColon(p);
    ColonLineIsEntry(line);
    PlainHasNoEnd(line);
  }

  lemma PrintedLineReads(l: Listing, p: Proxy, o: Options, limit: Option<int>)
    requires Canonical(p) && Printable(p)
    ensures ReadLine(l, FormatRedacted(p), o, limit) == Accept(l, p, limit)
  {
    hide ParseProxyEntry, Classify, Trim, Known, Canonical, FormatRedacted;
    PrintedIsEntry(p);
    ReadBack(p, o.(hint := l.hint));
  }

  lemma {:induction false} LinesAccepted(l: Listing, lines: seq<string>, more: seq<Proxy>, read: Reader, limit: Option<int>)
    requires |lines| == |more| && forall k, m: Listing | 0 <= k < |lines| :: read(m, lines[k]) == Accept(m, more[k], limit)
    requires !l.full && NoRepeats(l.proxies + more)
    requires limit.Some? ==> |l.proxies| + |more| <= limit.value
    ensures var r := ReadLines(l, lines, read);
            r.proxies == l.proxies + more && r.rejected == l.rejected && r.duplicates == l.duplicates && r.skipped == l.skipped
    decreases |more|
  {
    if more != [] {
      var p := more[0];
      FirstIsNew(l.proxies, more);
      assert read(l, lines[0]) == Accept(l, p, limit);
      var next := Accept(l, p, limit);
      assert l.proxies + more == next.proxies + more[1..];
      if next.full {
        assert more[1..] == [];
      } else {
        LinesAccepted(next, lines[1..], more[1..], read, limit);
      }
    }
  }

  lemma FirstIsNew(proxies: seq<Proxy>, more: seq<Proxy>)
    requires more != [] && NoRepeats(proxies + more)
    ensures !Known(proxies, more[0])
  {
    var all := proxies + more;
    assert all[|proxies|] == more[0];
    assert forall k | 0 <= k < |proxies| :: all[k] == proxies[k];
  }

  lemma PrintedLinesAreAccepted(proxies: seq<Proxy>, o: Options, limit: Option<int>)
    requires forall p <- proxies :: Canonical(p) && Printable(p)
    ensures forall k, m: Listing | 0 <= k < |proxies| :: ReaderFor(o, limit)(m, Printed(proxies)[k]) == Accept(m, proxies[k], limit)
  {
    forall k, m: Listing | 0 <= k < |proxies|
      ensures ReaderFor(o, limit)(m, Printed(proxies)[k]) == Accept(m, proxies[k], limit)
    {
      assert proxies[k] in proxies;
      PrintedLineReads(m, proxies[k], o, limit);
    }
  }

  lemma PrintedLinesRead(proxies: seq<Proxy>, o: Options, limit: Option<int>)
    requires NoRepeats(proxies) && forall p <- proxies :: Canonical(p) && Printable(p)
    requires limit.Some? ==> |proxies| <= limit.value
    ensures var r := ReadLines(Nothing(o), Printed(proxies), ReaderFor(o, limit));
            r.proxies == proxies && r.rejected == [] && r.duplicates == 0 && r.skipped == 0
  {
    PrintedLinesAreAccepted(proxies, o, limit);
    assert [] + proxies == proxies;
    LinesAccepted(Nothing(o), Printed(proxies), proxies, ReaderFor(o, limit), limit);
  }

  lemma PrintedLinesArePlain(proxies: seq<Proxy>)
    requires forall p <- proxies :: Canonical(p) && Printable(p)
    ensures forall line <- Printed(proxies) :: PlainLine(line)
  {
    forall k | 0 <= k < |proxies| ensures PlainLine(Printed(proxies)[k]) {
      assert proxies[k] in proxies;
      PrintedIsEntry(proxies[k]);
    }
  }

  lemma EmptyTextReads(o: Options, limit: Option<int>)
    ensures ReadList("", o, limit) == Nothing(o)
  {
    var lines := Lines("");
    assert lines == [""];
    NextLine(Nothing(o), lines, 0, o, limit);
    assert lines[0..] == lines && lines[1..] == [] && lines[0] == "";
    assert Trim("") == "";
  }

  lemma PrintedTextReads(proxies: seq<Proxy>, o: Options, limit: Option<int>)
    requires NoRepeats(proxies) && forall p <- proxies :: Canonical(p) && Printable(p)
    requires limit.Some? ==> |proxies| <= limit.value
    ensures var r := ReadList(Join(Printed(proxies)), o, limit);
            r.proxies == proxies && r.rejected == [] && r.duplicates == 0 && r.skipped == 0
  {
    if proxies == [] {
      EmptyTextReads(o, limit);
    } else {
      PrintedLinesArePlain(proxies);
      LinesOfJoin(Printed(proxies));
      PrintedLinesRead(proxies, o, limit);
    }
  }

  /**
   * Any list read from any text, printed one entry per line, reads back as the same entries in the same order with
   * nothing refused, repeated or skipped, provided it holds no credentials and no printed line is over the limit.
   */
  lemma ListReadsBack(text: string, o: Options, limit: Option<int>, again: Options, roomy: Option<int>)
    requires forall p <- ReadList(text, o, limit).proxies :: Printable(p)
    requires roomy.Some? ==> |ReadList(text, o, limit).proxies| <= roomy.value
    ensures var proxies := ReadList(text, o, limit).proxies;
            var r := ReadList(Join(Printed(proxies)), again, roomy);
            r.proxies == proxies && r.rejected == [] && r.duplicates == 0 && r.skipped == 0
  {
    ReadLinesKeep(Nothing(o), Lines(text), o, limit);
    var proxies := ReadList(text, o, limit).proxies;
    forall p <- proxies ensures Canonical(p) {
      var k :| 0 <= k < |proxies| && proxies[k] == p;
      assert CanonicalIfOpen(proxies[k]);
    }
    PrintedTextReads(proxies, again, roomy);
  }

  // ------------------------------------------------------------------ sections under a label

  lemma AddressIsLine(h: string, port: Port)
    requires ValidHost(h)
    ensures var line := h + ":" + Decimal(port);
            line != "" && Trim(line) == line && IsAlnum(line[0]) && Contains(line, ':') && PlainLine(line) && !LooksLikeMarkup(line)
  {
    HostIsName(h);
    ShortFormIsPlain(h, port);
    hide ValidHost, LooksLikeMarkup, Trim, Decimal, Plain;
    var line := h + ":" + Decimal(port);
    assert line[|h|] == ':' && line[0] == h[0];
    StartsAlnum(h);
    PlainHasNoEnd(line);
  }

  lemma StartsAlnum(h: string)
    requires ValidHost(h)
    ensures h != "" && IsAlnum(h[0])
  {
    var labels := Split(h, '.');
    assert ValidLabel(labels[0]);
    assert labels[0] == h[..Find(h, '.')];
  }

  /** Under a label line an address gives exactly that proxy, with the protocol of the label, whatever the options. */
  lemma LabelledEntry(heading: string, p: Protocol, h: string, port: Port, o: Options, limit: Option<int>)
    requires LabelLine(heading, p) && PlainLine(heading)
    requires ValidHost(h) && !ReadsAsScheme(h) && |h + ":" + Decimal(port)| <= MAX_ENTRY_LENGTH
    ensures ReadList(heading + "\n" + (h + ":" + Decimal(port)), o, limit).proxies == [Proxy(h, port, p, None, None, None)]
  {
    hide Lines, Trim, Classify, ParseProxyEntry, LabelLine, ReadsAsScheme, ValidHost, PlainLine, Decimal, Contains, LooksLikeMarkup;
    var line := h + ":" + Decimal(port);
    AddressIsLine(h, port);
    FirstLine(heading, line);
    OnlyLine(line);
    var lines := Lines(heading + "\n" + line);
    assert lines == [heading, line] && lines[0..] == lines && lines[1..] == [line] && lines[2..] == [];
    LabelsClassified(heading);
    ColonLineIsEntry(line);
    HostAndPort(h, port, o.(hint := Some(p)));
    NextLine(Nothing(o), lines, 0, o, limit);
    var hinted := ReadLine(Nothing(o), heading, o, limit);
    NextLine(hinted, lines, 1, o, limit);
  }

  /** A word in any case spells itself. */
  lemma {:induction false} SpellsItself(s: string, word: string)
    requires |s| == |word| && forall k | 0 <= k < |s| :: IsAlnum(s[k]) && LowerChar(s[k]) == word[k]
    ensures Spells(s, word)
  {
    if s != "" {
      SpellsItself(s[1..], word[1..]);
    }
  }

  lemma LabelSocks5()
    ensures LabelLine("SOCKS5", Socks5) && PlainLine("SOCKS5")
  {
    hide Trim, LooksLikeMarkup, Spells;
    NothingToTrim("SOCKS5");
    NoAngleNoTag("SOCKS5");
    NoMarkupStart("SOCKS5");
    SpellsItself("SOCKS5", "socks5");
  }

  lemma NameIsPlausible(p: Protocol)
    ensures Trim(Name(p)) == Name(p) && Plausible(Name(p)) && PlainLine(Name(p))
    ensures forall k | 0 <= k < |Name(p)| :: Name(p)[k] != ':'
  {
    hide Trim, LooksLikeMarkup, Name, HasTag;
    NameReadsBack(p);
    NothingToTrim(Name(p));
    NoAngleNoTag(Name(p));
    NoMarkupStart(Name(p));
  }

  /** The name of a protocol is one of its labels. */
  lemma NamesAreLabels(p: Protocol)
    ensures LabelLine(Name(p), p) && PlainLine(Name(p))
  {
    hide Trim, Plausible, Spells, PlainLine;
    NameIsPlausible(p);
    NameSpells(p);
  }

  lemma NameSpells(p: Protocol)
    ensures Labels(Name(p), p)
  {
    hide Spells;
    SpellsItself(Name(p), Name(p));
    if p.Http? {
      ShorterSpells("http", "https");
    }
  }

  lemma {:induction false} ShorterSpells(s: string, word: string)
    requires |s| < |word|
    ensures !Spells(s, word)
  {
    if s != "" && word != "" {
      ShorterSpells(s[1..], word[1..]);
      ShorterSpells(s[1..], word);
    }
  }

  lemma SplitOff(a: string, c: char, b: string)
    requires !Contains(a, c)
    ensures Split(a + [c] + b, c) == [a] + Split(b, c)
  {
    var s := a + [c] + b;
    assert forall k | 0 <= k < |a| :: a[k] != c;
    FindAfter(a, c, b);
    assert s[..|a|] == a && s[|a| + 1..] == b;
  }

  lemma FromLabels(h: string, labels: seq<string>)
    requires Split(h, '.') == labels && 1 <= |h| <= 253 && !Contains(h, ':')
    requires forall k | 0 <= k < |labels| :: ValidLabel(labels[k]) && AllDigits(labels[k]) && Number(labels[k]) <= 255
    ensures ValidHost(h)
  {
    hide Split, Number, Contains, ValidLabel;
  }

  lemma Pieces(a: string, b: string, c: string, d: string)
    requires !Contains(a, '.') && !Contains(b, '.') && !Contains(c, '.') && !Contains(d, '.')
    ensures Split(a + ['.'] + (b + ['.'] + (c + ['.'] + d)), '.') == [a, b, c, d]
  {
    hide Contains;
    SplitOff(a, '.', b + ['.'] + (c + ['.'] + d));
    SplitOff(b, '.', c + ['.'] + d);
    SplitInTwo(c, '.', d);
  }

  lemma OneDigitLabels(a: string, b: string, c: string, d: string)
    requires |a| == |b| == |c| == |d| == 1 && IsDigit(a[0]) && IsDigit(b[0]) && IsDigit(c[0]) && IsDigit(d[0])
    ensures ValidHost(a + ['.'] + (b + ['.'] + (c + ['.'] + d)))
  {
    hide Split, ValidHost, Number;
    var h := a + ['.'] + (b + ['.'] + (c + ['.'] + d));
    Pieces(a, b, c, d);
    SmallNumber(a);
    SmallNumber(b);
    SmallNumber(c);
    SmallNumber(d);
    assert forall k | 0 <= k < |h| :: h[k] == '.' || IsDigit(h[k]);
    FromLabels(h, [a, b, c, d]);
  }

  lemma SmallNumber(s: string)
    requires |s| == 1 && IsDigit(s[0])
    ensures AllDigits(s) && Number(s) <= 9
  {
    assert s[..0] == "";
  }

  lemma LocalAddress()
    ensures ValidHost("1.2.3.4") && Decimal(1080) == "1080"
  {
    hide ValidHost;
    OneDigitLabels("1", "2", "3", "4");
    assert "1" + ['.'] + ("2" + ['.'] + ("3" + ['.'] + "4")) == "1.2.3.4";
    assert Decimal(108) == Decimal(10) + "8" && Decimal(10) == Decimal(1) + "0";
  }

  /** For one section of one entry. */
  lemma SocksSection(o: Options)
    ensures ReadList("SOCKS5\n1.2.3.4:1080", o, None).proxies == [Proxy("1.2.3.4", 1080, Socks5, None, None, None)]
  {
    hide ReadList, LabelLine, ValidHost, Decimal, PlainLine;
    LabelSocks5();
    LocalAddress();
    assert "1.2.3.4" + ":" + "1080" == "1.2.3.4:1080";
    assert "SOCKS5" + "\n" + "1.2.3.4:1080" == "SOCKS5\n1.2.3.4:1080";
    LabelledEntry("SOCKS5", Socks5, "1.2.3.4", 1080, o, None);
  }
}
