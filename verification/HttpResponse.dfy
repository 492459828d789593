/** What a response body is, as a function of the bytes on the wire. */
module HttpFraming {
  import opened Common
  import opened Bytes

  const LINE_LIMIT: nat := 8192
  const HEADER_LIMIT: nat := 32768

  // ------------------------------------------------------------------ Number.parseInt(text, 16)

  predicate IsSpace(b: Byte) { b == 32 || 9 <= b <= 13 || b == 160 }

  function HexValue(b: Byte): int {
    if 48 <= b <= 57 then b - 48
    else if 65 <= b <= 70 then b - 55
    else if 97 <= b <= 102 then b - 87
    else -1
  }

  function SkipSpaces(s: seq<Byte>): (r: seq<Byte>)
    ensures |r| <= |s|
  {
    if s != [] && IsSpace(s[0]) then SkipSpaces(s[1..]) else s
  }

  /** The value of the longest run of hexadecimal digits at the front, on top of `acc`. */
  function HexRun(s: seq<Byte>, acc: nat): nat {
    if s != [] && HexValue(s[0]) >= 0 then HexRun(s[1..], acc * 16 + HexValue(s[0])) else acc
  }

  /** `Number.parseInt(text, 16)`: leading white space, a sign and `0x` are accepted, anything after the digits is ignored. */
  function ParseHex(text: seq<Byte>): Option<int> { ReadHex(SkipSpaces(text)) }

  function ReadHex(t: seq<Byte>): Option<int> {
    var signed := t != [] && (t[0] == 43 || t[0] == 45);
    var n := ReadUnsigned(if signed then t[1..] else t);
    if n.None? then None
    else
      var v: int := n.value;
      Some(if t != [] && t[0] == 45 then -v else v)
  }

  function ReadUnsigned(u: seq<Byte>): Option<nat> {
    var digits := if |u| >= 2 && u[0] == 48 && (u[1] == 120 || u[1] == 88) then u[2..] else u;
    if digits == [] || HexValue(digits[0]) < 0 then None else Some(HexRun(digits, 0))
  }

  function BeforeSemicolon(line: seq<Byte>): seq<Byte> {
    if line == [] || line[0] == 59 then [] else [line[0]] + BeforeSemicolon(line[1..])
  }

  /** The size a chunk header announces, or nothing for a malformed one. */
  function ChunkSize(line: seq<Byte>): (size: Option<nat>)
    ensures line == [] ==> size.None?
  {
    var n := ParseHex(BeforeSemicolon(line));
    if n.None? || n.value < 0 then None else Some(n.value)
  }

  ghost predicate AllHex(digits: seq<Byte>) { forall k | 0 <= k < |digits| :: HexValue(digits[k]) >= 0 }

  /** The number that hexadecimal digits of either case stand for. */
  ghost function HexNumber(digits: seq<Byte>): nat
    requires AllHex(digits)
  {
    if digits == [] then 0 else HexNumber(digits[..|digits| - 1]) * 16 + HexValue(digits[|digits| - 1])
  }

  ghost function HexDigit(d: nat): Byte
    requires d < 16
  {
    if d < 10 then 48 + d else 87 + d
  }

  /** A number as hexadecimal digits, without leading zeros. */
  ghost function HexText(n: nat): (digits: seq<Byte>)
    ensures digits != [] && AllHex(digits)
  {
    if n < 16 then [HexDigit(n)] else HexText(n / 16) + [HexDigit(n % 16)]
  }

  lemma {:induction false} HexTextMeans(n: nat)
    ensures HexNumber(HexText(n)) == n
  {
    if n >= 16 {
      HexTextMeans(n / 16);
      assert HexText(n)[..|HexText(n)| - 1] == HexText(n / 16);
    } else {
      assert [HexDigit(n)][..0] == [];
    }
  }

  lemma {:induction false} HexRunGoesOn(a: seq<Byte>, rest: seq<Byte>, acc: nat)
    requires AllHex(a)
    ensures HexRun(a + rest, acc) == HexRun(rest, HexRun(a, acc))
    decreases |a|
  {
    if a == [] {
      assert a + rest == rest;
    } else {
      assert (a + rest)[1..] == a[1..] + rest && (a + rest)[0] == a[0];
      HexRunGoesOn(a[1..], rest, acc * 16 + HexValue(a[0]));
    }
  }

  /** Nothing, or something that ends a run of digits: white space or a semicolon, say. */
  ghost predicate EndsDigits(tail: seq<Byte>) { tail == [] || (HexValue(tail[0]) < 0 && tail[0] != 120 && tail[0] != 88) }

  lemma {:induction false} HexRunIsNumber(digits: seq<Byte>, tail: seq<Byte>)
    requires AllHex(digits) && EndsDigits(tail)
    ensures HexRun(digits + tail, 0) == HexNumber(digits)
    decreases |digits|
  {
    if digits == [] {
      assert digits + tail == tail;
    } else {
      var n := |digits| - 1;
      var front, last := digits[..n], [digits[n]];
      var none: seq<Byte> := [];
      assert digits + tail == front + (last + tail);
      HexRunGoesOn(front, last + tail, 0);
      HexRunIsNumber(front, none);
      assert front + none == front;
      assert (last + tail)[1..] == tail;
    }
  }

  /** `parseInt` reads the digits and ignores what ends them. */
  lemma ParseHexReads(digits: seq<Byte>, tail: seq<Byte>)
    requires digits != [] && AllHex(digits) && EndsDigits(tail)
    ensures ParseHex(digits + tail) == Some(HexNumber(digits))
  {
    hide ReadUnsigned, HexNumber, AllHex;
    var t, none: seq<Byte> := digits + tail, [];
    assert none + t == t;
    AfterPrefix(false, digits, tail);
    StartsAtDigit(t);
  }

  lemma StartsAtDigit(t: seq<Byte>)
    requires t != [] && HexValue(t[0]) >= 0
    ensures ParseHex(t) == ReadUnsigned(t)
  {
    hide ReadUnsigned;
  }

  lemma {:induction false} BeforeSemicolonOf(a: seq<Byte>, ext: seq<Byte>)
    requires forall k | 0 <= k < |a| :: a[k] != 59
    requires ext == [] || ext[0] == 59
    ensures BeforeSemicolon(a + ext) == a
    decreases |a|
  {
    if a == [] {
      assert a + ext == ext;
    } else {
      assert (a + ext)[1..] == a[1..] + ext && (a + ext)[0] == a[0];
      BeforeSemicolonOf(a[1..], ext);
    }
  }

  ghost predicate AllSpace(s: seq<Byte>) { forall k | 0 <= k < |s| :: s[k] == 32 || s[k] == 9 }

  /** A size line of section 7.1 of RFC 9112: digits, white space, and an extension that starts with a semicolon. */
  ghost predicate SizeLine(line: seq<Byte>, digits: seq<Byte>, blank: seq<Byte>, ext: seq<Byte>) {
    line == digits + blank + ext && digits != [] && AllHex(digits) && AllSpace(blank) && (ext == [] || ext[0] == 59)
  }

  /** The code's own rule reads every such line as the number its digits stand for. */
  lemma SizeLineReads(line: seq<Byte>, digits: seq<Byte>, blank: seq<Byte>, ext: seq<Byte>)
    requires SizeLine(line, digits, blank, ext)
    ensures ChunkSize(line) == Some(HexNumber(digits))
  {
    var a := digits + blank;
    forall k | 0 <= k < |a| ensures a[k] != 59 {
      assert a[k] == if k < |digits| then digits[k] else blank[k - |digits|];
    }
    BeforeSemicolonOf(a, ext);
    ParseHexReads(digits, blank);
  }

  /** In particular a number written in hexadecimal, with or without an extension. */
  lemma WrittenSizeReads(n: nat, ext: seq<Byte>)
    requires ext == [] || ext[0] == 59
    ensures ChunkSize(HexText(n) + ext) == Some(n)
  {
    var none: seq<Byte> := [];
    assert HexText(n) + none + ext == HexText(n) + ext;
    SizeLineReads(HexText(n) + ext, HexText(n), none, ext);
    HexTextMeans(n);
  }

  /** Bytes that may stand before a size: tab, line breaks, blank and no-break space. */
  ghost predicate White(b: Byte) { b == 32 || b == 160 || (9 <= b && b <= 13) }

  ghost predicate AllWhite(s: seq<Byte>) { forall k | 0 <= k < |s| :: White(s[k]) }

  lemma {:induction false} SkipsWhite(blank: seq<Byte>, rest: seq<Byte>)
    requires AllWhite(blank) && (rest == [] || !White(rest[0]))
    ensures SkipSpaces(blank + rest) == rest
    decreases |blank|
  {
    if blank == [] {
      assert blank + rest == rest;
    } else {
      assert (blank + rest)[1..] == blank[1..] + rest && (blank + rest)[0] == blank[0];
      SkipsWhite(blank[1..], rest);
    }
  }

  lemma {:induction false} SemicolonLater(a: seq<Byte>, rest: seq<Byte>)
    requires forall k | 0 <= k < |a| :: a[k] != 59
    ensures BeforeSemicolon(a + rest) == a + BeforeSemicolon(rest)
    decreases |a|
  {
    if a == [] {
      assert a + rest == rest;
    } else {
      assert (a + rest)[1..] == a[1..] + rest && (a + rest)[0] == a[0];
      SemicolonLater(a[1..], rest);
    }
  }

  /** The characters a size can start with: a sign or a hexadecimal digit. */
  ghost predicate StartsSize(b: Byte) {
    b == 43 || b == 45 || (48 <= b && b <= 57) || (65 <= b && b <= 70) || (97 <= b && b <= 102)
  }

  /** A line on which nothing but white space comes before something that is neither sign nor digit is malformed. */
  lemma MalformedRefused(blank: seq<Byte>, rest: seq<Byte>)
    requires AllWhite(blank) && (rest == [] || (!White(rest[0]) && !StartsSize(rest[0])))
    ensures ChunkSize(blank + rest) == None
  {
    hide SkipSpaces, BeforeSemicolon;
    SemicolonLater(blank, rest);
    var kept := BeforeSemicolon(rest);
    FrontOfKept(rest);
    SkipsWhite(blank, kept);
  }

  lemma FrontOfKept(rest: seq<Byte>)
    ensures var kept := BeforeSemicolon(rest); kept == [] || (rest != [] && kept[0] == rest[0])
  {
  }

  ghost function LeadIn(plus: bool, prefix: bool): seq<Byte> {
    (if plus then [43] else []) + if prefix then [48, 120] else []
  }

  lemma AfterPrefix(prefix: bool, digits: seq<Byte>, tail: seq<Byte>)
    requires digits != [] && AllHex(digits) && EndsDigits(tail)
    ensures var u := (if prefix then [48, 120] else []) + (digits + tail);
            ReadUnsigned(u) == Some(HexNumber(digits)) && HexValue(u[0]) >= 0
  {
    hide HexRun, HexNumber;
    var body := digits + tail;
    assert body[0] == digits[0] && (|body| >= 2 ==> body[1] == if |digits| >= 2 then digits[1] else tail[0]);
    HexRunIsNumber(digits, tail);
    if prefix {
      assert ([48, 120] + body)[2..] == body;
    } else {
      var none: seq<Byte> := [];
      assert none + body == body;
    }
  }

  lemma AfterLeadIn(plus: bool, prefix: bool, digits: seq<Byte>, tail: seq<Byte>)
    requires digits != [] && AllHex(digits) && EndsDigits(tail)
    ensures var rest := LeadIn(plus, prefix) + (digits + tail);
            !White(rest[0]) && ReadHex(rest) == Some(HexNumber(digits))
  {
    hide ReadUnsigned, HexNumber;
    var u := (if prefix then [48, 120] else []) + (digits + tail);
    var rest := LeadIn(plus, prefix) + (digits + tail);
    AfterPrefix(prefix, digits, tail);
    if plus {
      assert rest == [43] + u && rest[0] == 43 && rest[1..] == u;
    } else {
      assert rest == u;
    }
  }

  lemma ParsedPastWhite(blank: seq<Byte>, rest: seq<Byte>)
    requires AllWhite(blank) && rest != [] && !White(rest[0])
    ensures ParseHex(blank + rest) == ReadHex(rest)
  {
    hide ReadHex, SkipSpaces, AllWhite, White;
    SkipsWhite(blank, rest);
  }

  /** White space, a plus sign and `0x` before the digits make no difference. */
  lemma LeadInIgnored(blank: seq<Byte>, plus: bool, prefix: bool, digits: seq<Byte>, tail: seq<Byte>)
    requires AllWhite(blank) && digits != [] && AllHex(digits) && EndsDigits(tail) && forall k | 0 <= k < |tail| :: tail[k] != 59
    ensures ChunkSize(blank + (LeadIn(plus, prefix) + (digits + tail))) == Some(HexNumber(digits))
  {
    hide SkipSpaces, BeforeSemicolon, ParseHex, ReadHex, HexNumber;
    var rest := LeadIn(plus, prefix) + (digits + tail);
    var line, none: seq<Byte> := blank + rest, [];
    assert line + none == line;
    BeforeSemicolonOf(line, none);
    AfterLeadIn(plus, prefix, digits, tail);
    ParsedPastWhite(blank, rest);
  }

  /** How chunk headers are read; the results below hold for any grammar, and `ChunkSize` is the one in use. */
  type SizeGrammar = seq<Byte> -> Option<nat>

  // ------------------------------------------------------------------ lines and pieces of the wire

  /** The next line: up to the first CRLF, or everything when there is none. */
  ghost function LineOf(w: seq<Byte>): seq<Byte> {
    var i := IndexOf(w, CRLF);
    if i == -1 then w else w[..i]
  }

  ghost function AfterLine(w: seq<Byte>): (rest: seq<Byte>)
    ensures w != [] ==> |rest| < |w|
    ensures w == [] ==> rest == []
  {
    var i := IndexOf(w, CRLF);
    if i == -1 then [] else w[i + 2..]
  }

  ghost function Upto(w: seq<Byte>, n: nat): seq<Byte> { if n <= |w| then w[..n] else w }

  ghost function From(w: seq<Byte>, n: nat): seq<Byte> { if n <= |w| then w[n..] else [] }

  /** What is left after the trailer section and its empty line. */
  ghost function AfterTrailers(w: seq<Byte>): seq<Byte>
    decreases |w|
  {
    if LineOf(w) == [] then AfterLine(w) else AfterTrailers(AfterLine(w))
  }

  /** Every trailer line up to the empty one is complete and within the line limit. */
  ghost predicate CleanTrailers(w: seq<Byte>)
    decreases |w|
  {
    0 <= IndexOf(w, CRLF) < LINE_LIMIT && (LineOf(w) == [] || CleanTrailers(AfterLine(w)))
  }

  // ------------------------------------------------------------------ one step of chunked framing

  /**
   * What the front of a chunked stream is: a malformed size line, the last chunk, or a data chunk. `data` is what
   * follows the size line; a data chunk is complete when its payload and its CRLF are all there.
   */
  datatype Step =
    | Malformed
    | Last(lineFits: bool, data: seq<Byte>)
    | Piece(lineFits: bool, data: seq<Byte>, size: nat, part: seq<Byte>, next: seq<Byte>, complete: bool)

  ghost function Split(g: SizeGrammar, w: seq<Byte>): Step {
    var n, data, fits := g(LineOf(w)), AfterLine(w), 0 <= IndexOf(w, CRLF) < LINE_LIMIT;
    if n.None? then Malformed
    else if n.value == 0 then Last(fits, data)
    else Piece(fits, data, n.value, Upto(data, n.value), From(data, n.value + 2), |data| >= n.value + 2)
  }

  /** A part is no longer than announced, and a complete chunk takes something off the wire. */
  lemma SplitIsSound(g: SizeGrammar, w: seq<Byte>)
    ensures var s := Split(g, w);
            s.Piece? ==> |s.part| <= s.size && (s.complete ==> |s.next| < |w|)
  {
  }

  /** The concatenated chunk payloads of a chunked stream, as far as the wire goes. */
  ghost function Payload(g: SizeGrammar, w: seq<Byte>): seq<Byte>
    decreases |w|
  {
    match Split(g, w)
    case Piece(_, _, _, part, next, complete) =>
      if complete && |next| < |w| then part + Payload(g, next) else part
    case _ => []
  }

  /** Every size line and trailer of the stream is well formed, complete and within the line limit. */
  ghost predicate Clean(g: SizeGrammar, w: seq<Byte>)
    decreases |w|
  {
    match Split(g, w)
    case Malformed => false
    case Last(fits, data) => fits && CleanTrailers(data)
    case Piece(fits, _, _, _, next, complete) => fits && complete && |next| < |w| && Clean(g, next)
  }

  /** What is left on the wire once the chunks, the last chunk and the trailers are off it. */
  ghost function Beyond(g: SizeGrammar, w: seq<Byte>): seq<Byte>
    decreases |w|
  {
    match Split(g, w)
    case Malformed => w
    case Last(_, data) => AfterTrailers(data)
    case Piece(_, _, _, _, next, complete) => if complete && |next| < |w| then Beyond(g, next) else next
  }

  lemma {:induction false} TrailersShrink(w: seq<Byte>)
    ensures |AfterTrailers(w)| <= |AfterLine(w)| <= |w|
    decreases |w|
  {
    if LineOf(w) != [] {
      TrailersShrink(AfterLine(w));
    }
  }

  lemma {:induction false} BeyondIsLast(g: SizeGrammar, w: seq<Byte>)
    requires Clean(g, w)
    ensures var s := Split(g, w);
            && (s.Last? ==> Beyond(g, w) == AfterTrailers(s.data))
            && (s.Piece? ==> s.complete && Beyond(g, w) == Beyond(g, s.next) && |Beyond(g, w)| <= |s.next|)
            && |Beyond(g, w)| <= |AfterLine(w)|
    decreases |w|
  {
    hide CleanTrailers, AfterTrailers, LineOf, AfterLine, IndexOf;
    var s := Split(g, w);
    if s.Piece? {
      BeyondIsLast(g, s.next);
      LineShrinks(s.next);
      assert |s.next| <= |AfterLine(w)|;
    } else if s.Last? {
      TrailersShrink(s.data);
    }
  }

  lemma PieceLength(g: SizeGrammar, w: seq<Byte>)
    requires var s := Split(g, w); s.Piece? && s.complete
    ensures |AfterLine(w)| == Split(g, w).size + 2 + |Split(g, w).next|
  {
  }

  lemma LineShrinks(w: seq<Byte>)
    ensures |AfterLine(w)| <= |w|
  {
  }

  // ------------------------------------------------------------------ what the reader returns

  datatype Body = Body(bytes: seq<Byte>, truncated: bool, rest: seq<Byte>)

  /** Was the end signalled before `consumed` more bytes had been taken? */
  ghost predicate EndedBefore(until: Option<int>, consumed: int) { until.Some? && until.value < consumed }

  ghost function Later(until: Option<int>, consumed: int): Option<int> {
    if until.None? then None else Some(until.value - consumed)
  }

  ghost function Prepend(acc: seq<Byte>, b: Body): Body { Body(acc + b.bytes, b.truncated, b.rest) }

  /**
   * The body read from `w` with `room` bytes to spare, when the end was signalled after `until` bytes had been taken:
   * chunk by chunk, until the last chunk, a chunk that does not fit, or a chunk after which the stream had ended.
   */
  ghost function Decode(g: SizeGrammar, w: seq<Byte>, room: int, until: Option<int>): Body
    decreases |w|
  {
    match Split(g, w)
    case Malformed => Body([], false, w)
    case Last(_, data) => Body([], false, AfterTrailers(data))
    case Piece(_, data, size, part, next, complete) =>
      if size > room then Body([], true, data)
      else if !complete || |next| >= |w| || EndedBefore(until, |w| - |next|) then Body(part, false, next)
      else Prepend(part, Decode(g, next, room - size, Later(until, |w| - |next|)))
  }

  // ------------------------------------------------------------------ prefix results, for arbitrary bytes

  lemma PrefixAfter(a: seq<Byte>, b: seq<Byte>, c: seq<Byte>)
    requires b <= c
    ensures a <= a + c && a + b <= a + c
  {
  }

  /** Whenever the end comes, what is returned is a prefix of the payload, and never longer than the room. */
  lemma {:induction false} DecodedIsPrefix(g: SizeGrammar, w: seq<Byte>, room: int, until: Option<int>)
    requires 0 <= room
    ensures Decode(g, w, room, until).bytes <= Payload(g, w)
    ensures |Decode(g, w, room, until).bytes| <= room
    decreases |w|
  {
    hide Split;
    SplitIsSound(g, w);
    match Split(g, w)
    case Piece(_, _, size, part, next, complete) =>
      if complete && size <= room {
        var until' := Later(until, |w| - |next|);
        DecodedIsPrefix(g, next, room - size, until');
        PrefixAfter(part, Decode(g, next, room - size, until').bytes, Payload(g, next));
      }
    case _ =>
  }

  lemma LineOfCutWire(w: seq<Byte>, more: seq<Byte>)
    ensures IndexOf(w, CRLF) == -1 ==> AfterLine(w) == []
    ensures IndexOf(w, CRLF) != -1 ==> LineOf(w + more) == LineOf(w) && AfterLine(w + more) == AfterLine(w) + more
  {
    FoundInPrefix(w, more, CRLF);
  }

  /** The front of a wire that was cut short: the same chunk if it is complete, less of it otherwise. */
  lemma SplitOfCutWire(g: SizeGrammar, w: seq<Byte>, more: seq<Byte>)
    ensures var s, t := Split(g, w), Split(g, w + more);
            s.Piece? && s.part != [] ==>
              && t.Piece? && s.part <= t.part
              && (s.complete ==> t.complete && t.part == s.part && t.next == s.next + more)
    ensures var s := Split(g, w);
            s.Piece? && s.complete ==> s.part != []
  {
    LineOfCutWire(w, more);
    var n, data := g(LineOf(w)), AfterLine(w);
    if IndexOf(w, CRLF) != -1 && n.Some? && n.value > 0 {
      assert Upto(data, n.value) <= Upto(data + more, n.value);
      if |data| >= n.value + 2 {
        assert From(data + more, n.value + 2) == From(data, n.value + 2) + more;
      }
    }
  }

  /** Cutting the wire short only cuts the payload short: no byte of it is invented or moved. */
  lemma {:induction false} PayloadOfCutWire(g: SizeGrammar, w: seq<Byte>, more: seq<Byte>)
    ensures Payload(g, w) <= Payload(g, w + more)
    decreases |w|
  {
    SplitIsSound(g, w);
    SplitIsSound(g, w + more);
    SplitOfCutWire(g, w, more);
    var s, t := Split(g, w), Split(g, w + more);
    if s.Piece? && s.part != [] {
      if s.complete {
        assert |t.next| < |w + more|;
        PayloadOfCutWire(g, s.next, more);
        PrefixAfter(s.part, Payload(g, s.next), Payload(g, t.next));
      } else {
        assert Payload(g, w) == s.part;
        assert t.part <= Payload(g, w + more);
      }
    }
  }

  // ------------------------------------------------------------------ the encoder's side

  datatype Chunk = Chunk(header: seq<Byte>, payload: seq<Byte>)

  /** A whole chunked message: data chunks, the header of the last chunk, the trailers. */
  datatype Message = Message(chunks: seq<Chunk>, last: seq<Byte>, trailers: seq<seq<Byte>>)

  ghost predicate IsLine(line: seq<Byte>) { IndexOf(line, CRLF) == -1 && |line| < 8192 }

  ghost predicate GoodChunk(g: SizeGrammar, c: Chunk) {
    IsLine(c.header) && c.payload != [] && g(c.header) == Some(|c.payload|)
  }

  ghost predicate GoodMessage(g: SizeGrammar, m: Message) {
    && (forall c <- m.chunks :: GoodChunk(g, c))
    && IsLine(m.last) && g(m.last) == Some(0)
    && forall t <- m.trailers :: IsLine(t) && t != []
  }

  /** The line announces `n`, as section 7.1 of RFC 9112 writes sizes. */
  ghost predicate Announces(line: seq<Byte>, n: nat) {
    exists digits, blank, ext :: SizeLine(line, digits, blank, ext) && HexNumber(digits) == n
  }

  /** A message as section 7.1 of RFC 9112 lays it out, with size lines and trailers within the line limit. */
  ghost predicate StandardMessage(m: Message) {
    && (forall c <- m.chunks :: IsLine(c.header) && c.payload != [] && Announces(c.header, |c.payload|))
    && IsLine(m.last) && Announces(m.last, 0)
    && forall t <- m.trailers :: IsLine(t) && t != []
  }

  lemma AnnouncedIsRead(line: seq<Byte>, n: nat)
    requires Announces(line, n)
    ensures ChunkSize(line) == Some(n)
  {
    var digits, blank, ext :| SizeLine(line, digits, blank, ext) && HexNumber(digits) == n;
    SizeLineReads(line, digits, blank, ext);
  }

  /** So every standard message is well formed for the code's rule. */
  lemma StandardIsGood(m: Message)
    requires StandardMessage(m)
    ensures GoodMessage(ChunkSize, m)
  {
    forall c <- m.chunks ensures GoodChunk(ChunkSize, c) {
      AnnouncedIsRead(c.header, |c.payload|);
    }
    AnnouncedIsRead(m.last, 0);
  }

  /** Lines without a carriage return hold no line end. */
  lemma NoReturnNoLineEnd(line: seq<Byte>)
    requires forall k | 0 <= k < |line| :: line[k] != CR
    ensures IndexOf(line, CRLF) == -1
  {
    IndexFromIsFirst(line, CRLF, 0);
    forall i ensures !OccursAt(line, CRLF, i) {
      if 0 <= i && i + 2 <= |line| {
        assert line[i..i + 2][0] == line[i];
      }
    }
  }

  /** A chunk as a server writes it, for any payload and any extension without a carriage return that fits the line. */
  lemma WrittenChunk(payload: seq<Byte>, ext: seq<Byte>)
    requires payload != [] && (ext == [] || ext[0] == 59)
    requires (forall k | 0 <= k < |ext| :: ext[k] != CR) && |HexText(|payload|) + ext| < LINE_LIMIT
    ensures GoodChunk(ChunkSize, Chunk(HexText(|payload|) + ext, payload))
  {
    var digits := HexText(|payload|);
    var line := digits + ext;
    forall k | 0 <= k < |line| ensures line[k] != CR {
      assert line[k] == if k < |digits| then digits[k] else ext[k - |digits|];
    }
    NoReturnNoLineEnd(line);
    WrittenSizeReads(|payload|, ext);
  }

  ghost function EncodeChunk(c: Chunk): seq<Byte> { c.header + CRLF + c.payload + CRLF }

  ghost function EncodeChunks(cs: seq<Chunk>): seq<Byte> {
    if cs == [] then [] else EncodeChunk(cs[0]) + EncodeChunks(cs[1..])
  }

  ghost function EncodeTrailers(ts: seq<seq<Byte>>): seq<Byte> {
    if ts == [] then CRLF else ts[0] + CRLF + EncodeTrailers(ts[1..])
  }

  ghost function Encode(m: Message): seq<Byte> {
    EncodeChunks(m.chunks) + (m.last + CRLF + EncodeTrailers(m.trailers))
  }

  ghost function Payloads(cs: seq<Chunk>): seq<Byte> {
    if cs == [] then [] else cs[0].payload + Payloads(cs[1..])
  }

  /** A line written with its CRLF is read back as that line, whatever follows. */
  lemma LineReadBack(line: seq<Byte>, rest: seq<Byte>)
    requires IndexOf(line, CRLF) == -1
    ensures IndexOf(line + CRLF + rest, CRLF) == |line|
    ensures LineOf(line + CRLF + rest) == line && AfterLine(line + CRLF + rest) == rest
  {
    var w := line + CRLF + rest;
    IndexFromIsFirst(line, CRLF, 0);
    assert w[|line|..|line| + 2] == CRLF;
    forall j | 0 <= j < |line| ensures !OccursAt(w, CRLF, j) {
      assert !OccursAt(line, CRLF, j);
      assert w[j..j + 2] == [w[j], w[j + 1]];
      if j + 1 < |line| {
        assert line[j..j + 2] == [w[j], w[j + 1]];
      } else {
        assert w[j + 1] == CR;
      }
    }
    FirstIsIndex(w, CRLF, |line|);
    assert w[|line| + 2..] == rest;
  }

  lemma {:induction false} TrailersReadBack(ts: seq<seq<Byte>>, beyond: seq<Byte>)
    requires forall t <- ts :: IsLine(t) && t != []
    ensures AfterTrailers(EncodeTrailers(ts) + beyond) == beyond
    ensures CleanTrailers(EncodeTrailers(ts) + beyond)
  {
    if ts == [] {
      var empty: seq<Byte> := [];
      LineReadBack(empty, beyond);
      assert empty + CRLF + beyond == CRLF + beyond;
    } else {
      var rest := EncodeTrailers(ts[1..]) + beyond;
      assert EncodeTrailers(ts) + beyond == ts[0] + CRLF + rest;
      assert ts[0] in ts;
      LineReadBack(ts[0], rest);
      TrailersReadBack(ts[1..], beyond);
    }
  }

  /** A chunk at the front of the wire is taken apart into its payload and what follows it. */
  lemma SplitChunk(g: SizeGrammar, c: Chunk, next: seq<Byte>)
    requires GoodChunk(g, c)
    ensures Split(g, EncodeChunk(c) + next) == Piece(true, c.payload + CRLF + next, |c.payload|, c.payload, next, true)
  {
    var data := c.payload + CRLF + next;
    assert EncodeChunk(c) + next == c.header + CRLF + data;
    LineReadBack(c.header, data);
    assert data[..|c.payload|] == c.payload && data[|c.payload| + 2..] == next;
  }

  lemma SplitLast(g: SizeGrammar, last: seq<Byte>, data: seq<Byte>)
    requires IsLine(last) && g(last) == Some(0)
    ensures Split(g, last + CRLF + data) == Last(true, data)
  {
    LineReadBack(last, data);
  }

  /**
   * How many chunks of a message get through: all that fit, up to and including the first one after which the stream
   * had ended. `at` is how far before the first chunk the count starts.
   */
  ghost function Delivered(cs: seq<Chunk>, room: int, until: Option<int>): nat
    decreases |cs|
  {
    if cs == [] || |cs[0].payload| > room then 0
    else if EndedBefore(until, |EncodeChunk(cs[0])|) then 1
    else 1 + Delivered(cs[1..], room - |cs[0].payload|, Later(until, |EncodeChunk(cs[0])|))
  }

  /**
   * What a body must be when it was read from a message with these chunks: which chunks it consists of; that it is
   * marked truncated exactly if it stopped short without the stream having ended; and what is left on the wire.
   */
  ghost predicate ReadBack(r: Body, cs: seq<Chunk>, beyond: seq<Byte>, room: int, until: Option<int>) {
    var n := Delivered(cs, room, until);
    && n <= |cs|
    && r.bytes == Payloads(cs[..n])
    && (r.truncated <==> n < |cs| && (n == 0 || !EndedBefore(until, |EncodeChunks(cs[..n])|)))
    && (r.truncated ==> |Payloads(cs[..n + 1])| > room)
    && (n == |cs| && !EndsEarly(cs, until) ==> r.rest == beyond)
  }

  lemma TooLarge(cs: seq<Chunk>, beyond: seq<Byte>, room: int, until: Option<int>, r: Body)
    requires cs != [] && |cs[0].payload| > room && r.bytes == [] && r.truncated
    ensures ReadBack(r, cs, beyond, room, until)
  {
    FirstPayload(cs, 1);
  }

  lemma EndedAfterFirst(cs: seq<Chunk>, beyond: seq<Byte>, room: int, until: Option<int>, r: Body)
    requires cs != [] && |cs[0].payload| <= room && EndedBefore(until, |EncodeChunk(cs[0])|)
    requires r.bytes == cs[0].payload && !r.truncated
    ensures ReadBack(r, cs, beyond, room, until)
  {
    FirstPayload(cs, 1);
    assert EncodeChunks(cs) == EncodeChunk(cs[0]) + EncodeChunks(cs[1..]);
  }

  lemma OneMoreChunk(cs: seq<Chunk>, beyond: seq<Byte>, room: int, until: Option<int>, tail: Body)
    requires cs != [] && |cs[0].payload| <= room && !EndedBefore(until, |EncodeChunk(cs[0])|)
    requires ReadBack(tail, cs[1..], beyond, room - |cs[0].payload|, Later(until, |EncodeChunk(cs[0])|))
    ensures ReadBack(Prepend(cs[0].payload, tail), cs, beyond, room, until)
  {
    var n := Delivered(cs, room, until);
    FirstPayload(cs, n);
    if n < |cs| {
      FirstPayload(cs, n + 1);
    }
  }

  ghost function RestOf(m: Message): Message
    requires m.chunks != []
  {
    m.(chunks := m.chunks[1..])
  }

  lemma FirstChunk(g: SizeGrammar, m: Message, beyond: seq<Byte>)
    requires GoodMessage(g, m) && m.chunks != []
    ensures GoodMessage(g, RestOf(m))
    ensures var c, next := m.chunks[0], Encode(RestOf(m)) + beyond;
            && Split(g, Encode(m) + beyond) == Piece(true, c.payload + CRLF + next, |c.payload|, c.payload, next, true)
            && |Encode(m) + beyond| == |EncodeChunk(c)| + |next|
  {
    assert m.chunks[0] in m.chunks;
    assert Encode(m) + beyond == EncodeChunk(m.chunks[0]) + (Encode(RestOf(m)) + beyond);
    SplitChunk(g, m.chunks[0], Encode(RestOf(m)) + beyond);
  }

  lemma NoChunks(g: SizeGrammar, m: Message, beyond: seq<Byte>)
    requires GoodMessage(g, m) && m.chunks == []
    ensures Split(g, Encode(m) + beyond).Last? && Split(g, Encode(m) + beyond).lineFits
    ensures CleanTrailers(Split(g, Encode(m) + beyond).data)
    ensures AfterTrailers(Split(g, Encode(m) + beyond).data) == beyond
  {
    assert Encode(m) + beyond == m.last + CRLF + (EncodeTrailers(m.trailers) + beyond);
    SplitLast(g, m.last, EncodeTrailers(m.trailers) + beyond);
    TrailersReadBack(m.trailers, beyond);
  }

  /** A well-formed message gives the reader nothing to complain about. */
  lemma {:induction false} MessageIsClean(g: SizeGrammar, m: Message, beyond: seq<Byte>)
    requires GoodMessage(g, m)
    ensures Clean(g, Encode(m) + beyond)
    decreases |m.chunks|
  {
    hide Split;
    if m.chunks == [] {
      NoChunks(g, m, beyond);
    } else {
      FirstChunk(g, m, beyond);
      MessageIsClean(g, RestOf(m), beyond);
    }
  }

  /** Behind a well-formed message is whatever follows it. */
  lemma {:induction false} BeyondMessage(g: SizeGrammar, m: Message, beyond: seq<Byte>)
    requires GoodMessage(g, m)
    ensures Beyond(g, Encode(m) + beyond) == beyond
    decreases |m.chunks|
  {
    hide Split, Encode, AfterTrailers, CleanTrailers;
    if m.chunks == [] {
      NoChunks(g, m, beyond);
    } else {
      FirstChunk(g, m, beyond);
      BeyondMessage(g, RestOf(m), beyond);
    }
  }

  /** The exact result on a well-formed message, for every moment at which the end may be signalled. */
  lemma {:induction false} MessageReadBack(g: SizeGrammar, m: Message, beyond: seq<Byte>, room: int, until: Option<int>)
    requires GoodMessage(g, m)
    ensures ReadBack(Decode(g, Encode(m) + beyond, room, until), m.chunks, beyond, room, until)
    decreases |m.chunks|
  {
    hide Split, Decode, Encode, EncodeChunk, GoodMessage, ReadBack;
    if m.chunks == [] {
      DecodeNothing(g, m, beyond, room, until);
      NothingToRead(Decode(g, Encode(m) + beyond, room, until), beyond, room, until);
    } else {
      var room', until' := room - |m.chunks[0].payload|, Later(until, |EncodeChunk(m.chunks[0])|);
      var tail := Decode(g, Encode(RestOf(m)) + beyond, room', until');
      DecodeFirst(g, m, beyond, room, until);
      MessageReadBack(g, RestOf(m), beyond, room', until');
      FirstChunkDecides(m.chunks, beyond, room, until, tail, Decode(g, Encode(m) + beyond, room, until));
    }
  }

  lemma DecodeNothing(g: SizeGrammar, m: Message, beyond: seq<Byte>, room: int, until: Option<int>)
    requires GoodMessage(g, m) && m.chunks == []
    ensures Decode(g, Encode(m) + beyond, room, until) == Body([], false, beyond)
  {
    hide Split;
    NoChunks(g, m, beyond);
  }

  lemma NothingToRead(r: Body, beyond: seq<Byte>, room: int, until: Option<int>)
    requires r == Body([], false, beyond)
    ensures ReadBack(r, [], beyond, room, until)
  {
  }

  lemma DecodePiece(g: SizeGrammar, w: seq<Byte>, data: seq<Byte>, payload: seq<Byte>, next: seq<Byte>, room: int, until: Option<int>)
    requires Split(g, w) == Piece(true, data, |payload|, payload, next, true) && |next| < |w|
    ensures var k := |w| - |next|;
            var r, tail := Decode(g, w, room, until), Decode(g, next, room - |payload|, Later(until, k));
            && (|payload| > room ==> r.bytes == [] && r.truncated)
            && (|payload| <= room && EndedBefore(until, k) ==> r.bytes == payload && !r.truncated)
            && (|payload| <= room && !EndedBefore(until, k) ==> r == Prepend(payload, tail))
  {
    hide Split;
  }

  lemma DecodeFirst(g: SizeGrammar, m: Message, beyond: seq<Byte>, room: int, until: Option<int>)
    requires GoodMessage(g, m) && m.chunks != []
    ensures GoodMessage(g, RestOf(m))
    ensures var c, k := m.chunks[0], |EncodeChunk(m.chunks[0])|;
            var r := Decode(g, Encode(m) + beyond, room, until);
            var tail := Decode(g, Encode(RestOf(m)) + beyond, room - |c.payload|, Later(until, k));
            && (|c.payload| > room ==> r.bytes == [] && r.truncated)
            && (|c.payload| <= room && EndedBefore(until, k) ==> r.bytes == c.payload && !r.truncated)
            && (|c.payload| <= room && !EndedBefore(until, k) ==> r == Prepend(c.payload, tail))
  {
    hide Split;
    var c, next := m.chunks[0], Encode(RestOf(m)) + beyond;
    FirstChunk(g, m, beyond);
    DecodePiece(g, Encode(m) + beyond, c.payload + CRLF + next, c.payload, next, room, until);
  }

  lemma FirstChunkDecides(cs: seq<Chunk>, beyond: seq<Byte>, room: int, until: Option<int>, tail: Body, r: Body)
    requires cs != []
    requires |cs[0].payload| > room ==> r.bytes == [] && r.truncated
    requires |cs[0].payload| <= room && EndedBefore(until, |EncodeChunk(cs[0])|) ==> r.bytes == cs[0].payload && !r.truncated
    requires |cs[0].payload| <= room && !EndedBefore(until, |EncodeChunk(cs[0])|) ==>
               && ReadBack(tail, cs[1..], beyond, room - |cs[0].payload|, Later(until, |EncodeChunk(cs[0])|))
               && r == Prepend(cs[0].payload, tail)
    ensures ReadBack(r, cs, beyond, room, until)
  {
    if |cs[0].payload| > room {
      TooLarge(cs, beyond, room, until, r);
    } else if EndedBefore(until, |EncodeChunk(cs[0])|) {
      EndedAfterFirst(cs, beyond, room, until, r);
    } else {
      OneMoreChunk(cs, beyond, room, until, tail);
    }
  }

  /** The whole message comes through, and what follows it stays on the wire, if it fits and the end comes late enough. */
  lemma WholeMessage(cs: seq<Chunk>, beyond: seq<Byte>, room: int, until: Option<int>, r: Body)
    requires ReadBack(r, cs, beyond, room, until)
    requires |Payloads(cs)| <= room && !EndsEarly(cs, until)
    ensures r == Body(Payloads(cs), false, beyond)
  {
    DeliveredAll(cs, room, until);
    if cs != [] {
      FrontIsShorter(cs);
    }
    assert cs[..|cs|] == cs;
  }

  lemma {:induction false} FrontIsShorter(cs: seq<Chunk>)
    requires cs != []
    ensures |EncodeChunks(cs[..|cs| - 1])| <= |EncodeChunks(cs)|
  {
    if |cs| > 1 {
      FrontIsShorter(cs[1..]);
      assert cs[..|cs| - 1][1..] == cs[1..][..|cs| - 2];
    }
  }

  lemma FirstPayload(cs: seq<Chunk>, n: nat)
    requires cs != [] && n <= |cs|
    ensures n == 0 ==> Payloads(cs[..n]) == []
    ensures n > 0 ==> Payloads(cs[..n]) == cs[0].payload + Payloads(cs[1..][..n - 1])
    ensures n > 0 ==> EncodeChunks(cs[..n]) == EncodeChunk(cs[0]) + EncodeChunks(cs[1..][..n - 1])
  {
    if n > 0 {
      assert cs[..n][1..] == cs[1..][..n - 1];
    }
  }

  lemma FirstLength(cs: seq<Chunk>)
    requires cs != []
    ensures |Payloads(cs)| == |cs[0].payload| + |Payloads(cs[1..])|
    ensures |cs| == 1 ==> |Payloads(cs[1..])| == 0
    ensures |cs| == 2 ==> |EncodeChunks(cs[1..][..0])| == 0
    ensures |cs| > 1 ==> |EncodeChunks(cs[..|cs| - 1])| == |EncodeChunk(cs[0])| + |EncodeChunks(cs[1..][..|cs| - 2])|
  {
    if |cs| > 1 {
      FirstPayload(cs, |cs| - 1);
    }
  }

  /** Everything is delivered if and only if it fits and the end does not come before the last chunk is reached. */
  lemma {:induction false} DeliveredAll(cs: seq<Chunk>, room: int, until: Option<int>)
    ensures Delivered(cs, room, until) == |cs| <==>
              |cs| == 0 || (|Payloads(cs)| <= room && (|cs| == 1 || !EndedBefore(until, |EncodeChunks(cs[..|cs| - 1])|)))
    decreases |cs|
  {
    hide EncodeChunk, EncodeChunks, Payloads;
    if cs != [] {
      FirstLength(cs);
      DeliveredAll(cs[1..], room - |cs[0].payload|, Later(until, |EncodeChunk(cs[0])|));
    }
  }

  const TWO_CHUNKS: seq<Chunk> := [Chunk([49], [97]), Chunk([49], [98])]

  /** One-byte chunks as section 7.1 of RFC 9112 writes them. */
  lemma OneByteChunk(b: Byte)
    ensures GoodChunk(ChunkSize, Chunk([49], [b])) && |EncodeChunk(Chunk([49], [b]))| == 6
    ensures IsLine([48]) && ChunkSize([48]) == Some(0)
  {
    hide ChunkSize, IndexOf;
    var none: seq<Byte> := [];
    SmallSizes();
    assert HexText(1) + none == [49] && HexText(0) + none == [48];
    WrittenChunk([b], none);
    WrittenSizeReads(0, none);
    NoReturnNoLineEnd([48]);
  }

  lemma SmallSizes()
    ensures HexText(1) == [49] && HexText(0) == [48]
  {
  }

  lemma TwoChunks()
    ensures Payloads(TWO_CHUNKS) == [97, 98] && Payloads(TWO_CHUNKS[..1]) == [97]
    ensures |EncodeChunks(TWO_CHUNKS[..1])| == |EncodeChunk(TWO_CHUNKS[0])|
  {
    assert TWO_CHUNKS[1..] == [TWO_CHUNKS[1]] && TWO_CHUNKS[1..][1..] == [] && TWO_CHUNKS[..1][1..] == [];
    assert Payloads([TWO_CHUNKS[1]]) == [98] + Payloads([]);
  }

  /** For one: of two chunks of one byte only the first comes through when the end is signalled with it. */
  lemma EarlyEndLosesAChunk(beyond: seq<Byte>)
    ensures GoodMessage(ChunkSize, Message(TWO_CHUNKS, [48], []))
    ensures Decode(ChunkSize, Encode(Message(TWO_CHUNKS, [48], [])) + beyond, 10, Some(0)).bytes == [97]
    ensures !Decode(ChunkSize, Encode(Message(TWO_CHUNKS, [48], [])) + beyond, 10, Some(0)).truncated
    ensures Payloads(TWO_CHUNKS) == [97, 98]
  {
    hide ChunkSize, Decode, Encode, GoodChunk, EncodeChunk, EncodeChunks, Payloads, IsLine;
    var m := Message(TWO_CHUNKS, [48], []);
    OneByteChunk(97);
    OneByteChunk(98);
    TwoChunks();
    assert Delivered(TWO_CHUNKS, 10, Some(0)) == 1;
    MessageReadBack(ChunkSize, m, beyond, 10, Some(0));
  }

  /** The end was signalled before the last data chunk had been consumed. */
  ghost predicate EndsEarly(cs: seq<Chunk>, until: Option<int>) {
    cs != [] && EndedBefore(until, |EncodeChunks(cs)|)
  }
}

/** The response reader: loops over the stream while the peer delivers in segments of any size. */
module HttpReader {
  import opened Common
  import opened Bytes
  import opened ByteStream
  import opened HttpFraming

  datatype ReadError = Transport(reason: Reason) | ProtocolError

  /** A reader gives up on the connection only for a socket error, or for a wait that timed out before the end. */
  ghost predicate Excused(e: ReadError, failed: bool, endedBefore: bool) {
    e.Transport? ==> (e.reason == SocketError && failed) || (e.reason == TimedOut && !endedBefore)
  }

  datatype LineRead = Line(text: seq<Byte>) | LineFailed(error: ReadError)

  datatype BodyRead = BodyRead(bytes: seq<Byte>, truncated: bool) | BodyFailed(error: ReadError)

  /** A line end in the buffer is the line end of the wire. */
  lemma LineInBuffer(buffer: seq<Byte>, more: seq<Byte>)
    ensures var i := IndexOf(buffer, CRLF);
            i != -1 ==> && 0 <= i && i + 2 <= |buffer| && i == IndexOf(buffer + more, CRLF)
                        && LineOf(buffer + more) == buffer[..i] && AfterLine(buffer + more) == (buffer + more)[i + 2..]
    ensures IndexOf(buffer, CRLF) == -1 && |buffer| > LINE_LIMIT ==> !(0 <= IndexOf(buffer + more, CRLF) < LINE_LIMIT)
  {
    FoundInPrefix(buffer, more, CRLF);
    var i := IndexOf(buffer, CRLF);
    if i != -1 {
      assert (buffer + more)[..i] == buffer[..i];
    }
  }

  lemma LastLine(w: seq<Byte>)
    requires IndexOf(w, CRLF) == -1
    ensures LineOf(w) == w && AfterLine(w) == []
  {
  }

  lemma Regroup<T>(a: seq<T>, b: seq<T>, c: seq<T>)
    ensures (a + b) + c == a + (b + c)
  {
  }

  /** What is taken from the front of a buffer and what is left make up the whole. */
  lemma FrontAndRest<T>(buffer: seq<T>, more: seq<T>, n: nat)
    requires n <= |buffer|
    ensures buffer[..n] + (buffer + more)[n..] == buffer + more
  {
  }

  /** Taken from the front of the one, the bytes are at the end of the other. */
  ghost predicate SameBytes(taken: seq<Byte>, rest: seq<Byte>, takenBefore: seq<Byte>, restBefore: seq<Byte>) {
    taken + rest == takenBefore + restBefore
  }

  lemma OwnFault(failed: bool, endedBefore: bool)
    ensures Excused(ProtocolError, failed, endedBefore)
  {
  }

  lemma ExcusedBefore(e: ReadError, failed: bool, earlier: bool, later: bool)
    requires Excused(e, failed, later) && (earlier ==> later)
    ensures Excused(e, failed, earlier)
  {
  }

  /** A line that is not yet in the buffer is not all there. */
  lemma LineIncomplete(buffer: seq<Byte>, incoming: seq<Byte>)
    ensures IndexOf(buffer, CRLF) == -1 && IndexOf(buffer + incoming, CRLF) != -1 ==> |incoming| > |AfterLine(buffer + incoming)|
  {
    FoundInPrefix(buffer, incoming, CRLF);
  }

  method ReadLine(stream: StreamBuffer) returns (r: LineRead)
    requires stream.Valid() && stream.waiters == []
    modifies stream
    ensures stream.Valid() && stream.waiters == []
    ensures stream.sent == old(stream.sent) && stream.destroyed == old(stream.destroyed)
    ensures old(stream.ended) ==> stream.ended && stream.endedAt == old(stream.endedAt)
    ensures !old(stream.ended) && stream.ended ==> stream.endedAt == old(|stream.taken|)
    ensures r.Line? ==> r.text == LineOf(old(stream.Rest())) && stream.Rest() == AfterLine(old(stream.Rest()))
    ensures r.Line? ==> SameBytes(stream.taken, stream.Rest(), old(stream.taken), old(stream.Rest()))
    ensures r.Line? ==> |stream.taken| + |stream.Rest()| == old(|stream.taken| + |stream.Rest()|)
    ensures r.LineFailed? && r.error.ProtocolError? ==> !(0 <= IndexOf(old(stream.Rest()), CRLF) < LINE_LIMIT)
    ensures |stream.incoming| <= |old(stream.incoming)| && (old(stream.failed) ==> stream.failed)
    ensures r.LineFailed? ==> Excused(r.error, stream.failed, old(stream.ended))
    ensures IndexOf(old(stream.Rest()), CRLF) != -1 && |old(stream.incoming)| <= |AfterLine(old(stream.Rest()))| ==> r.Line?
  {
    hide Enrolled, IndexOf, LineOf, AfterLine;
    ghost var wire := stream.Rest();
    while true
      invariant stream.Valid() && stream.waiters == []
      invariant stream.Rest() == wire && stream.taken == old(stream.taken)
      invariant stream.sent == old(stream.sent) && stream.destroyed == old(stream.destroyed)
      invariant old(stream.ended) ==> stream.ended && stream.endedAt == old(stream.endedAt)
      invariant !old(stream.ended) && stream.ended ==> stream.endedAt == |stream.taken|
      invariant |stream.incoming| <= |old(stream.incoming)| && (old(stream.failed) ==> stream.failed)
      decreases |stream.incoming|, if stream.ended then 0 else 1
    {
      LineInBuffer(stream.buffer, stream.incoming);
      var index := IndexOf(stream.buffer, CRLF);
      if index != -1 {
        var line := stream.buffer[..index];
        FrontAndRest(stream.buffer, stream.incoming, index + 2);
        Regroup(stream.taken, stream.buffer[..index + 2], wire[index + 2..]);
        stream.Consume(index + 2);
        return Line(line);
      }
      LineIncomplete(stream.buffer, stream.incoming);
      if |stream.buffer| > LINE_LIMIT {
        return LineFailed(ProtocolError);
      }
      if stream.ended {
        assert stream.buffer == wire;
        LastLine(wire);
        var line := stream.Drain();
        return Line(line);
      }
      ghost var before := |stream.buffer|;
      var o := stream.Wait(|stream.buffer| + 1);
      if o.Rejected? {
        return LineFailed(Transport(o.reason));
      }
      assert |stream.buffer| + |stream.incoming| == |wire|;
    }
  }

  /** `bytes` bytes, or all there are if the stream ends first. */
  method ReadExactly(stream: StreamBuffer, bytes: nat) returns (r: LineRead)
    requires stream.Valid() && stream.waiters == []
    modifies stream
    ensures stream.Valid() && stream.waiters == []
    ensures stream.sent == old(stream.sent) && stream.destroyed == old(stream.destroyed)
    ensures old(stream.ended) ==> stream.ended && stream.endedAt == old(stream.endedAt)
    ensures !old(stream.ended) && stream.ended ==> stream.endedAt == old(|stream.taken|)
    ensures r.Line? ==> r.text == Upto(old(stream.Rest()), bytes) && stream.Rest() == From(old(stream.Rest()), bytes)
    ensures r.Line? ==> SameBytes(stream.taken, stream.Rest(), old(stream.taken), old(stream.Rest()))
    ensures r.Line? ==> |stream.taken| + |stream.Rest()| == old(|stream.taken| + |stream.Rest()|)
    ensures r.Line? && |old(stream.Rest())| < bytes ==> stream.ended
    ensures r.LineFailed? ==> r.error.Transport?
    ensures |stream.incoming| <= |old(stream.incoming)| && (old(stream.failed) ==> stream.failed)
    ensures r.LineFailed? ==> Excused(r.error, stream.failed, old(stream.ended))
    ensures !stream.failed && bytes <= |old(stream.buffer)| ==> r.Line?
  {
    hide Enrolled, Upto, From, StreamBuffer.Valid, StreamBuffer.Rest, SameBytes;
    ghost var wire, taken := stream.Rest(), stream.taken;
    var o := stream.Wait(bytes);
    if o.Rejected? {
      return LineFailed(Transport(o.reason));
    }
    if |stream.buffer| < bytes {
      EndedIsAll(stream);
      var rest := stream.Drain();
      NothingRests(stream);
      CutShort(rest, stream.Rest(), wire, bytes);
      TakenMoves(taken, rest, stream.Rest());
      return Line(rest);
    }
    var out := stream.Take(bytes);
    CutAt(out, stream.Rest(), wire, bytes);
    TakenMoves(taken, out, stream.Rest());
    r := Line(out);
  }

  lemma NothingRests(stream: StreamBuffer)
    requires stream.buffer == [] && stream.incoming == []
    ensures stream.Rest() == []
  {
  }

  lemma TakenMoves(taken: seq<Byte>, out: seq<Byte>, rest: seq<Byte>)
    ensures SameBytes(taken + out, rest, taken, out + rest) && |taken + out| + |rest| == |taken| + |out + rest|
  {
    Regroup(taken, out, rest);
  }

  lemma EndedIsAll(stream: StreamBuffer)
    requires stream.Valid() && stream.ended
    ensures stream.incoming == [] && stream.Rest() == stream.buffer
  {
    hide Enrolled;
  }

  lemma CutAt(out: seq<Byte>, rest: seq<Byte>, wire: seq<Byte>, n: nat)
    requires out + rest == wire && |out| == n
    ensures out == Upto(wire, n) && rest == From(wire, n)
  {
  }

  lemma CutShort(out: seq<Byte>, rest: seq<Byte>, wire: seq<Byte>, n: nat)
    requires out + rest == wire && |wire| < n && rest == []
    ensures out == Upto(wire, n) && rest == From(wire, n)
  {
  }

  /** Trailer lines up to and including the empty one. */
  method ReadTrailers(stream: StreamBuffer) returns (failure: Option<ReadError>)
    requires stream.Valid() && stream.waiters == []
    modifies stream
    ensures stream.Valid() && stream.waiters == []
    ensures stream.sent == old(stream.sent) && stream.destroyed == old(stream.destroyed)
    ensures old(stream.ended) ==> stream.ended && stream.endedAt == old(stream.endedAt)
    ensures !old(stream.ended) && stream.ended ==> stream.endedAt >= old(|stream.taken|)
    ensures failure.None? ==> stream.Rest() == AfterTrailers(old(stream.Rest()))
    ensures failure.Some? && failure.value.ProtocolError? ==> !CleanTrailers(old(stream.Rest()))
    ensures |stream.incoming| <= |old(stream.incoming)| && (old(stream.failed) ==> stream.failed)
    ensures failure.Some? ==> Excused(failure.value, stream.failed, old(stream.ended))
    ensures CleanTrailers(old(stream.Rest())) && |old(stream.incoming)| <= |AfterTrailers(old(stream.Rest()))| ==> failure.None?
  {
    hide Enrolled, SameBytes, StreamBuffer.Valid, StreamBuffer.Rest;
    while true
      invariant stream.Valid() && stream.waiters == []
      invariant |stream.taken| >= old(|stream.taken|)
      invariant stream.sent == old(stream.sent) && stream.destroyed == old(stream.destroyed)
      invariant old(stream.ended) ==> stream.ended && stream.endedAt == old(stream.endedAt)
      invariant !old(stream.ended) && stream.ended ==> stream.endedAt >= old(|stream.taken|)
      invariant AfterTrailers(stream.Rest()) == AfterTrailers(old(stream.Rest()))
      invariant CleanTrailers(old(stream.Rest())) ==> CleanTrailers(stream.Rest())
      invariant |stream.incoming| <= |old(stream.incoming)| && (old(stream.failed) ==> stream.failed)
      decreases |stream.Rest()|
    {
      ghost var wire, before := stream.Rest(), stream.taken;
      TrailersShrink(wire);
      var trailer := ReadLine(stream);
      if trailer.LineFailed? {
        return Some(trailer.error);
      }
      assert |stream.taken| + |stream.Rest()| == |before| + |wire|;
      if |trailer.text| == 0 {
        return None;
      }
      assert wire != [];
    }
  }

  /** How many bytes after position `start` had been taken when the end was signalled. */
  ghost function Until(stream: StreamBuffer, start: nat): Option<int>
    reads stream
  {
    if stream.ended then Some(stream.endedAt - start) else None
  }

  /** The first `n` chunks of the wire are complete and fit. */
  ghost predicate Fit(g: SizeGrammar, w: seq<Byte>, room: int, n: nat)
    decreases n
  {
    n == 0 || (var s := Split(g, w); s.Piece? && s.complete && s.size <= room && |s.next| < |w| && Fit(g, s.next, room - s.size, n - 1))
  }

  /** What the first `n` chunks carry, what follows them, and the room they leave. */
  ghost function Carried(g: SizeGrammar, w: seq<Byte>, room: int, n: nat): Progress
    requires Fit(g, w, room, n)
    decreases n
  {
    if n == 0 then Progress([], w, room)
    else
      var s := Split(g, w);
      var p := Carried(g, s.next, room - s.size, n - 1);
      p.(bytes := s.part + p.bytes)
  }

  datatype Progress = Progress(bytes: seq<Byte>, rest: seq<Byte>, room: int)

  lemma {:induction false} OneMoreFits(g: SizeGrammar, w: seq<Byte>, room: int, n: nat)
    requires Fit(g, w, room, n)
    requires var p := Carried(g, w, room, n);
             Split(g, p.rest).Piece? && Split(g, p.rest).complete && Split(g, p.rest).size <= p.room && |Split(g, p.rest).next| < |p.rest|
    ensures Fit(g, w, room, n + 1)
    ensures var p, q := Carried(g, w, room, n), Carried(g, w, room, n + 1);
            q == Progress(p.bytes + Split(g, p.rest).part, Split(g, p.rest).next, p.room - Split(g, p.rest).size)
    decreases n
  {
    hide Split;
    if n > 0 {
      OneMoreFits(g, Split(g, w).next, room - Split(g, w).size, n - 1);
    } else {
      assert Split(g, w).part + [] == Split(g, w).part;
    }
  }

  lemma DecodeStep(g: SizeGrammar, w: seq<Byte>, room: int, until: Option<int>)
    requires var s := Split(g, w); s.Piece? && s.complete && s.size <= room && |s.next| < |w| && !EndedBefore(until, |w| - |s.next|)
    ensures Decode(g, w, room, until)
            == Prepend(Split(g, w).part, Decode(g, Split(g, w).next, room - Split(g, w).size, Later(until, |w| - |Split(g, w).next|)))
  {
    hide Split;
  }

  lemma PrependTwice(a: seq<Byte>, b: seq<Byte>, body: Body)
    ensures Prepend(a, Prepend(b, body)) == Prepend(a + b, body)
  {
    Regroup(a, b, body.bytes);
  }

  lemma PrependNothing(body: Body)
    ensures Prepend([], body) == body
  {
    assert [] + body.bytes == body.bytes;
  }

  lemma LaterTwice(until: Option<int>, a: int, b: int)
    ensures Later(Later(until, a), b) == Later(until, a + b) && Later(until, 0) == until
    ensures EndedBefore(Later(until, a), b) <==> EndedBefore(until, a + b)
  {
  }

  /** Whatever end is not signalled before `n` chunks have been read, the rest decides how the body goes on. */
  lemma {:induction false} DecodeGoesOn(g: SizeGrammar, w: seq<Byte>, room: int, n: nat, until: Option<int>)
    requires Fit(g, w, room, n)
    requires n == 0 || !EndedBefore(until, |w| - |Carried(g, w, room, n).rest|)
    ensures var p := Carried(g, w, room, n);
            && |p.rest| <= |w| && (n > 0 ==> |p.rest| < |w|)
            && Decode(g, w, room, until) == Prepend(p.bytes, Decode(g, p.rest, p.room, Later(until, |w| - |p.rest|)))
    decreases n
  {
    hide Split, Decode, Prepend, Later;
    var p := Carried(g, w, room, n);
    LaterTwice(until, 0, 0);
    if n == 0 {
      PrependNothing(Decode(g, w, room, until));
    } else {
      var s := Split(g, w);
      var q := Carried(g, s.next, room - s.size, n - 1);
      RestShrinks(g, s.next, room - s.size, n - 1);
      var k, m := |w| - |s.next|, |s.next| - |q.rest|;
      LaterTwice(until, k, m);
      DecodeStep(g, w, room, until);
      DecodeGoesOn(g, s.next, room - s.size, n - 1, Later(until, k));
      PrependTwice(s.part, q.bytes, Decode(g, q.rest, q.room, Later(until, k + m)));
    }
  }

  lemma {:induction false} RestShrinks(g: SizeGrammar, w: seq<Byte>, room: int, n: nat)
    requires Fit(g, w, room, n)
    ensures |Carried(g, w, room, n).rest| <= |w| && (n > 0 ==> |Carried(g, w, room, n).rest| < |w|)
    decreases n
  {
    hide Split;
    if n > 0 {
      RestShrinks(g, Split(g, w).next, room - Split(g, w).size, n - 1);
    }
  }

  /** How the body ends after `n` chunks, once it is known when the end was signalled. */
  lemma Finish(g: SizeGrammar, w: seq<Byte>, room: int, n: nat, until: Option<int>)
    requires Fit(g, w, room, n)
    requires n == 0 || !EndedBefore(until, |w| - |Carried(g, w, room, n).rest|)
    ensures var p := Carried(g, w, room, n);
            var s, r := Split(g, p.rest), Decode(g, w, room, until);
            && (s.Last? ==> r == Body(p.bytes, false, AfterTrailers(s.data)))
            && (s.Piece? && s.size > p.room ==> r == Body(p.bytes, true, s.data))
            && (s.Piece? && s.size <= p.room && (!s.complete || EndedBefore(until, |w| - |s.next|)) ==>
                  r == Body(p.bytes + s.part, false, s.next))
  {
    hide Split;
    var p := Carried(g, w, room, n);
    DecodeGoesOn(g, w, room, n, until);
    var tail := Decode(g, p.rest, p.room, Later(until, |w| - |p.rest|));
    assert tail.bytes == [] ==> p.bytes + tail.bytes == p.bytes;
  }

  lemma NoneCarried(g: SizeGrammar, w: seq<Byte>, room: int)
    ensures Fit(g, w, room, 0) && Carried(g, w, room, 0) == Progress([], w, room)
  {
  }

  lemma CleanGoesOn(g: SizeGrammar, w: seq<Byte>)
    requires Clean(g, w)
    ensures var s := Split(g, w);
            !s.Malformed? && s.lineFits && (s.Last? ==> CleanTrailers(s.data)) && (s.Piece? ==> Clean(g, s.next))
  {
    hide Split, CleanTrailers;
  }

  /** The data of one chunk, and the CRLF after it. */
  method ReadChunk(stream: StreamBuffer, size: nat) returns (r: LineRead)
    requires stream.Valid() && stream.waiters == []
    modifies stream
    ensures stream.Valid() && stream.waiters == []
    ensures stream.sent == old(stream.sent) && stream.destroyed == old(stream.destroyed)
    ensures old(stream.ended) ==> stream.ended && stream.endedAt == old(stream.endedAt)
    ensures !old(stream.ended) && stream.ended ==> stream.endedAt >= old(|stream.taken|)
    ensures r.Line? ==> r.text == Upto(old(stream.Rest()), size) && stream.Rest() == From(old(stream.Rest()), size + 2)
    ensures r.Line? ==> SameBytes(stream.taken, stream.Rest(), old(stream.taken), old(stream.Rest()))
    ensures r.Line? ==> |stream.taken| + |stream.Rest()| == old(|stream.taken| + |stream.Rest()|)
    ensures r.Line? && |old(stream.Rest())| < size + 2 ==> stream.ended
    ensures r.Line? && stream.ended && |old(stream.Rest())| >= size + 2 ==> stream.endedAt < |stream.taken|
    ensures r.LineFailed? ==> r.error.Transport?
    ensures |stream.incoming| <= |old(stream.incoming)| && (old(stream.failed) ==> stream.failed)
    ensures r.LineFailed? ==> Excused(r.error, stream.failed, old(stream.ended))
    ensures !stream.failed && size + 2 <= |old(stream.buffer)| ==> r.Line?
  {
    hide Enrolled;
    r := ReadExactly(stream, size);
    if r.Line? {
      ghost var taken, rest := stream.taken, stream.Rest();
      var crlf := ReadExactly(stream, 2);
      assert crlf.Line? && |rest| >= 2 ==> |stream.taken| == |taken| + 2 by {
        if crlf.Line? {
          assert |stream.taken| + |stream.Rest()| == |taken| + |rest|;
        }
      }
      if crlf.LineFailed? {
        r := crlf;
      }
    }
  }

  datatype ChunkRead = More(part: seq<Byte>, size: nat) | Final(part: seq<Byte>, truncated: bool) | ChunkFailed(error: ReadError)

  /** The chunk a size line announced; a stream that has ended by then ends the body with it. */
  method ReadPiece(stream: StreamBuffer, size: nat) returns (r: ChunkRead)
    requires stream.Valid() && stream.waiters == []
    modifies stream
    ensures stream.Valid() && stream.waiters == []
    ensures stream.sent == old(stream.sent) && stream.destroyed == old(stream.destroyed)
    ensures old(stream.ended) ==> stream.ended && stream.endedAt == old(stream.endedAt)
    ensures !old(stream.ended) && stream.ended ==> stream.endedAt >= old(|stream.taken|)
    ensures !r.ChunkFailed? ==> r.part == Upto(old(stream.Rest()), size) && stream.Rest() == From(old(stream.Rest()), size + 2)
    ensures !r.ChunkFailed? ==> |stream.taken| + |stream.Rest()| == old(|stream.taken| + |stream.Rest()|)
    ensures r.More? ==> r.size == size && size + 2 <= |old(stream.Rest())| && !stream.ended
    ensures r.Final? ==> !r.truncated && stream.ended && (size + 2 <= |old(stream.Rest())| ==> stream.endedAt < |stream.taken|)
    ensures |stream.incoming| <= |old(stream.incoming)| && (old(stream.failed) ==> stream.failed)
    ensures r.ChunkFailed? ==> r.error.Transport? && Excused(r.error, stream.failed, old(stream.ended))
    ensures !stream.failed && size + 2 <= |old(stream.buffer)| ==> !r.ChunkFailed?
  {
    hide Enrolled, SameBytes, Excused, StreamBuffer.Valid, StreamBuffer.Rest, Upto, From;
    var chunk := ReadChunk(stream, size);
    if chunk.LineFailed? {
      return ChunkFailed(chunk.error);
    }
    return if stream.ended then Final(chunk.text, false) else More(chunk.text, size);
  }

  /** While a whole clean message is in the buffer, so is each part of it that is read next. */
  lemma WholeStep(g: SizeGrammar, w: seq<Byte>, incoming: nat)
    requires Clean(g, w) && incoming <= |Beyond(g, w)|
    ensures IndexOf(w, CRLF) != -1 && incoming <= |AfterLine(w)|
    ensures var s := Split(g, w);
            && !s.Malformed? && s.lineFits
            && (s.Last? ==> CleanTrailers(s.data) && incoming <= |AfterTrailers(s.data)|)
            && (s.Piece? ==> incoming + s.size + 2 <= |AfterLine(w)|)
  {
    hide Beyond, CleanTrailers, AfterTrailers, AfterLine, LineOf, IndexOf, Upto, From;
    BeyondIsLast(g, w);
    CleanGoesOn(g, w);
    if Split(g, w).Piece? {
      PieceLength(g, w);
    }
  }

  /**
   * What one round makes of the step at the front of the wire: `rest` is left, `consumed` bytes were taken of `length`,
   * and when the stream has ended, the end was signalled after `endedAfter` of them.
   */
  ghost predicate StepTaken(step: Step, room: nat, r: ChunkRead, rest: seq<Byte>, consumed: int, length: nat, ended: bool, endedAfter: int) {
    match r
    case More(part, size) =>
      && step.Piece? && step.complete && step.size == size <= room && step.part == part && !ended
      && rest == step.next && consumed + |step.next| == length
    case Final(part, truncated) =>
      || (step.Last? && part == [] && !truncated && rest == AfterTrailers(step.data))
      || (step.Piece? && step.size > room && part == [] && truncated && rest == step.data)
      || (step.Piece? && step.size <= room && part == step.part && !truncated && rest == step.next
          && ended && (step.complete ==> endedAfter < length - |step.next|))
    case ChunkFailed(error) =>
      error.ProtocolError? ==> step.Malformed? || !step.lineFits || (step.Last? && !CleanTrailers(step.data))
  }

  /** One round of the chunk loop: a size line, and what it announces. */
  method ReadNext(stream: StreamBuffer, g: SizeGrammar, room: nat) returns (r: ChunkRead)
    requires stream.Valid() && stream.waiters == []
    modifies stream
    ensures stream.Valid() && stream.waiters == []
    ensures stream.sent == old(stream.sent) && stream.destroyed == old(stream.destroyed)
    ensures old(stream.ended) ==> stream.ended && stream.endedAt == old(stream.endedAt)
    ensures !old(stream.ended) && stream.ended ==> stream.endedAt >= old(|stream.taken|)
    ensures StepTaken(Split(g, old(stream.Rest())), room, r, stream.Rest(), |stream.taken| - old(|stream.taken|), old(|stream.Rest()|),
                      stream.ended, stream.endedAt - old(|stream.taken|))
    ensures |stream.incoming| <= |old(stream.incoming)| && (old(stream.failed) ==> stream.failed)
    ensures r.ChunkFailed? ==> Excused(r.error, stream.failed, old(stream.ended))
    ensures !stream.failed && Clean(g, old(stream.Rest())) && |old(stream.incoming)| <= |Beyond(g, old(stream.Rest()))| ==> !r.ChunkFailed?
  {
    hide Enrolled, Excused, LineOf, AfterLine, AfterTrailers, CleanTrailers, Clean, Beyond, SameBytes, IndexOf, Upto, From;
    hide StreamBuffer.Valid, StreamBuffer.Rest;
    ghost var wire, start := stream.Rest(), |stream.taken|;
    ghost var whole := Clean(g, wire) && |stream.incoming| <= |Beyond(g, wire)|;
    if whole {
      WholeStep(g, wire, |stream.incoming|);
    }
    var sizeLine := ReadLine(stream);
    if sizeLine.LineFailed? {
      return ChunkFailed(sizeLine.error);
    }
    var size := g(sizeLine.text);
    if size.None? {
      OwnFault(stream.failed, old(stream.ended));
      return ChunkFailed(ProtocolError);
    }
    if size.value > room {
      return Final([], true);
    }
    ghost var ended := stream.ended;
    r := ReadAnnounced(stream, size.value, whole);
    if r.ChunkFailed? {
      ExcusedBefore(r.error, stream.failed, old(stream.ended), ended);
    }
  }

  /** What a size line announces: the trailers after a zero, otherwise a chunk. */
  method ReadAnnounced(stream: StreamBuffer, size: nat, ghost whole: bool) returns (r: ChunkRead)
    requires stream.Valid() && stream.waiters == []
    requires whole && size == 0 ==> CleanTrailers(stream.Rest()) && |stream.incoming| <= |AfterTrailers(stream.Rest())|
    requires whole && size > 0 ==> |stream.incoming| + size + 2 <= |stream.Rest()|
    modifies stream
    ensures stream.Valid() && stream.waiters == []
    ensures stream.sent == old(stream.sent) && stream.destroyed == old(stream.destroyed)
    ensures old(stream.ended) ==> stream.ended && stream.endedAt == old(stream.endedAt)
    ensures !old(stream.ended) && stream.ended ==> stream.endedAt >= old(|stream.taken|)
    ensures size == 0 ==> (r == Final([], false) && stream.Rest() == AfterTrailers(old(stream.Rest())))
                          || (r.ChunkFailed? && (r.error.ProtocolError? ==> !CleanTrailers(old(stream.Rest()))))
    ensures size > 0 && !r.ChunkFailed? ==>
              && r.part == Upto(old(stream.Rest()), size) && stream.Rest() == From(old(stream.Rest()), size + 2)
              && |stream.taken| + |stream.Rest()| == old(|stream.taken| + |stream.Rest()|)
              && (r.More? ==> r.size == size && size + 2 <= |old(stream.Rest())| && !stream.ended)
              && (r.Final? ==> !r.truncated && stream.ended && (size + 2 <= |old(stream.Rest())| ==> stream.endedAt < |stream.taken|))
    ensures size > 0 && r.ChunkFailed? ==> r.error.Transport?
    ensures |stream.incoming| <= |old(stream.incoming)| && (old(stream.failed) ==> stream.failed)
    ensures r.ChunkFailed? ==> Excused(r.error, stream.failed, old(stream.ended))
    ensures !stream.failed && whole ==> !r.ChunkFailed?
  {
    hide Enrolled, Excused, AfterTrailers, CleanTrailers, SameBytes, Upto, From, StreamBuffer.Valid, StreamBuffer.Rest;
    if size == 0 {
      var failure := ReadTrailers(stream);
      return if failure.Some? then ChunkFailed(failure.value) else Final([], false);
    }
    r := ReadPiece(stream, size);
  }

  /** A round that ends the body gives what decoding gives. */
  lemma StepEnds(g: SizeGrammar, w: seq<Byte>, room: int, n: nat, p: Progress, next: ChunkRead, rest: seq<Byte>, consumed: int,
                 ended: bool, endedAfter: int, until: Option<int>)
    requires Fit(g, w, room, n) && Carried(g, w, room, n) == p && 0 <= p.room
    requires n == 0 || !EndedBefore(until, |w| - |p.rest|)
    requires next.Final? && StepTaken(Split(g, p.rest), p.room, next, rest, consumed, |p.rest|, ended, endedAfter)
    requires ended ==> until == Some(endedAfter + |w| - |p.rest|)
    ensures Body(p.bytes + next.part, next.truncated, rest) == Decode(g, w, room, until)
  {
    hide Split, Fit, Carried, Decode, AfterTrailers;
    SplitIsSound(g, p.rest);
    Finish(g, w, room, n, until);
    assert p.bytes + [] == p.bytes;
  }

  lemma StepGoesOn(g: SizeGrammar, w: seq<Byte>, room: int, n: nat, p: Progress, next: ChunkRead, rest: seq<Byte>, consumed: int,
                   ended: bool, endedAfter: int)
    requires Fit(g, w, room, n) && Carried(g, w, room, n) == p && 0 <= p.room
    requires next.More? && StepTaken(Split(g, p.rest), p.room, next, rest, consumed, |p.rest|, ended, endedAfter)
    ensures Fit(g, w, room, n + 1) && Carried(g, w, room, n + 1) == Progress(p.bytes + next.part, rest, p.room - next.size)
    ensures next.size <= p.room && !ended && |rest| < |p.rest| && consumed + |rest| == |p.rest|
    ensures Clean(g, p.rest) ==> Clean(g, rest) && Beyond(g, rest) == Beyond(g, p.rest)
  {
    hide Split, Fit, Carried, Clean, Beyond;
    SplitIsSound(g, p.rest);
    OneMoreFits(g, w, room, n);
    if Clean(g, p.rest) {
      BeyondIsLast(g, p.rest);
      CleanGoesOn(g, p.rest);
    }
  }

  /** Only a stream that does not hold a clean stretch gives a protocol error. */
  lemma StepFails(g: SizeGrammar, w: seq<Byte>, room: nat, next: ChunkRead, rest: seq<Byte>, consumed: int, ended: bool, endedAfter: int)
    requires next.ChunkFailed? && next.error.ProtocolError?
    requires StepTaken(Split(g, w), room, next, rest, consumed, |w|, ended, endedAfter)
    ensures !Clean(g, w)
  {
    hide Split, CleanTrailers;
  }

  method ReadChunkedBody(stream: StreamBuffer, g: SizeGrammar, maxBytes: nat) returns (r: BodyRead)
    requires stream.Valid() && stream.waiters == []
    modifies stream
    ensures stream.Valid() && stream.waiters == []
    ensures stream.sent == old(stream.sent) && stream.destroyed == old(stream.destroyed)
    ensures old(stream.ended) ==> stream.ended && stream.endedAt == old(stream.endedAt)
    ensures !old(stream.ended) && stream.ended ==> stream.endedAt >= old(|stream.taken|)
    ensures r.BodyRead? ==>
              Body(r.bytes, r.truncated, stream.Rest()) ==
              Decode(g, old(stream.Rest()), maxBytes, Until(stream, old(|stream.taken|)))
    ensures r.BodyFailed? && r.error.ProtocolError? ==> !Clean(g, old(stream.Rest()))
    ensures |stream.incoming| <= |old(stream.incoming)| && (old(stream.failed) ==> stream.failed)
    ensures r.BodyFailed? ==> Excused(r.error, stream.failed, old(stream.ended))
    ensures !stream.failed && Clean(g, old(stream.Rest())) && |old(stream.incoming)| <= |Beyond(g, old(stream.Rest()))| ==> r.BodyRead?
  {
    hide Split, StepTaken, Beyond, Excused, Enrolled, Fit, Carried, Decode, Clean, CleanTrailers, AfterTrailers, StreamBuffer.Valid, StreamBuffer.Rest;
    ghost var wire, start := stream.Rest(), |stream.taken|;
    var parts: seq<Byte> := [];
    var total := 0;
    ghost var n := 0;
    NoneCarried(g, wire, maxBytes);
    while true
      invariant stream.Valid() && stream.waiters == []
      invariant stream.sent == old(stream.sent) && stream.destroyed == old(stream.destroyed)
      invariant 0 <= total <= maxBytes && Fit(g, wire, maxBytes, n)
      invariant Carried(g, wire, maxBytes, n) == Progress(parts, stream.Rest(), maxBytes - total)
      invariant |stream.taken| + |stream.Rest()| == start + |wire|
      invariant n > 0 ==> !stream.ended && !old(stream.ended)
      invariant old(stream.ended) ==> stream.ended && stream.endedAt == old(stream.endedAt)
      invariant !old(stream.ended) && stream.ended ==> stream.endedAt >= start
      invariant Clean(g, wire) ==> Clean(g, stream.Rest())
      invariant |stream.incoming| <= |old(stream.incoming)| && (old(stream.failed) ==> stream.failed)
      invariant Clean(g, wire) ==> Beyond(g, stream.Rest()) == Beyond(g, wire)
      decreases |stream.Rest()|
    {
      ghost var p := Progress(parts, stream.Rest(), maxBytes - total);
      ghost var ended, before := stream.ended, |stream.taken|;
      var next := ReadNext(stream, g, maxBytes - total);
      match next
      case ChunkFailed(error) =>
        ExcusedBefore(error, stream.failed, old(stream.ended), ended);
        if error.ProtocolError? {
          StepFails(g, p.rest, p.room, next, stream.Rest(), |stream.taken| - before, stream.ended, stream.endedAt - before);
        }
        return BodyFailed(error);
      case Final(part, truncated) =>
        StepEnds(g, wire, maxBytes, n, p, next, stream.Rest(), |stream.taken| - before, stream.ended, stream.endedAt - before,
                 Until(stream, start));
        return BodyRead(parts + part, truncated);
      case More(part, size) =>
        StepGoesOn(g, wire, maxBytes, n, p, next, stream.Rest(), |stream.taken| - before, stream.ended, stream.endedAt - before);
        parts := parts + part;
        total := total + size;
        n := n + 1;
    }
  }

  /** Whatever arrives, and whenever it ends: a prefix of the chunk payloads on the wire, within the cap. */
  method ReadAnyChunked(stream: StreamBuffer, g: SizeGrammar, maxBytes: nat) returns (r: BodyRead)
    requires stream.Valid() && stream.waiters == []
    modifies stream
    ensures stream.Valid() && stream.waiters == []
    ensures r.BodyRead? ==> r.bytes <= Payload(g, old(stream.Rest())) && |r.bytes| <= maxBytes
    ensures |stream.incoming| <= |old(stream.incoming)| && (old(stream.failed) ==> stream.failed)
    ensures r.BodyFailed? ==> Excused(r.error, stream.failed, old(stream.ended))
  {
    hide Split, Enrolled;
    r := ReadChunkedBody(stream, g, maxBytes);
    DecodedIsPrefix(g, old(stream.Rest()), maxBytes, Until(stream, old(|stream.taken|)));
  }

  /**
   * Reading a well-formed message, whatever the segments: nothing but the connection can fail; which chunks come
   * through depends only on the cap and on when the end is signalled; and if all fit and the end is not signalled
   * before the last of them is consumed, the whole payload is returned and what follows the trailers stays buffered.
   */
  method ReadMessage(stream: StreamBuffer, g: SizeGrammar, maxBytes: nat, ghost m: Message, ghost beyond: seq<Byte>)
    returns (r: BodyRead)
    requires stream.Valid() && stream.waiters == []
    requires GoodMessage(g, m) && stream.Rest() == Encode(m) + beyond
    modifies stream
    ensures stream.Valid() && stream.waiters == []
    ensures r.BodyFailed? ==> r.error.Transport?
    ensures r.BodyRead? ==>
              ReadBack(Body(r.bytes, r.truncated, stream.Rest()), m.chunks, beyond, maxBytes, Until(stream, old(|stream.taken|)))
    ensures r.BodyRead? && |Payloads(m.chunks)| <= maxBytes && !EndsEarly(m.chunks, Until(stream, old(|stream.taken|))) ==>
              Body(r.bytes, r.truncated, stream.Rest()) == Body(Payloads(m.chunks), false, beyond)
    ensures |stream.incoming| <= |old(stream.incoming)| && (old(stream.failed) ==> stream.failed)
    ensures r.BodyFailed? ==> Excused(r.error, stream.failed, old(stream.ended))
    ensures !stream.failed && |Encode(m)| <= |old(stream.buffer)| ==> r.BodyRead?
  {
    hide Enrolled, Encode, GoodChunk, ReadBack, EndsEarly, Decode, Clean, Beyond, Payloads, StreamBuffer.Valid;
    r := ReadChunkedBody(stream, g, maxBytes);
    ghost var until := Until(stream, old(|stream.taken|));
    BeyondMessage(g, m, beyond);
    MessageIsClean(g, m, beyond);
    MessageReadBack(g, m, beyond, maxBytes, until);
    if r.BodyRead? && |Payloads(m.chunks)| <= maxBytes && !EndsEarly(m.chunks, until) {
      WholeMessage(m.chunks, beyond, maxBytes, until, Body(r.bytes, r.truncated, stream.Rest()));
    }
  }

  /** The same for the code's own size rule and any message laid out as section 7.1 of RFC 9112 says. */
  method ReadStandardMessage(stream: StreamBuffer, maxBytes: nat, ghost m: Message, ghost beyond: seq<Byte>) returns (r: BodyRead)
    requires stream.Valid() && stream.waiters == []
    requires StandardMessage(m) && stream.Rest() == Encode(m) + beyond
    modifies stream
    ensures stream.Valid() && stream.waiters == []
    ensures r.BodyFailed? ==> r.error.Transport?
    ensures r.BodyRead? ==>
              ReadBack(Body(r.bytes, r.truncated, stream.Rest()), m.chunks, beyond, maxBytes, Until(stream, old(|stream.taken|)))
    ensures r.BodyRead? && |Payloads(m.chunks)| <= maxBytes && !EndsEarly(m.chunks, Until(stream, old(|stream.taken|))) ==>
              Body(r.bytes, r.truncated, stream.Rest()) == Body(Payloads(m.chunks), false, beyond)
    ensures |stream.incoming| <= |old(stream.incoming)| && (old(stream.failed) ==> stream.failed)
    ensures r.BodyFailed? ==> Excused(r.error, stream.failed, old(stream.ended))
    ensures !stream.failed && |Encode(m)| <= |old(stream.buffer)| ==> r.BodyRead?
  {
    hide Enrolled, StandardMessage, GoodMessage, ReadBack, EndsEarly;
    StandardIsGood(m);
    r := ReadMessage(stream, ChunkSize, maxBytes, m, beyond);
  }

  lemma CapReached(parts: seq<Byte>, chunk: seq<Byte>, rest: seq<Byte>, wire: seq<Byte>, maxBytes: nat)
    requires parts + (chunk + rest) == wire && |parts| <= maxBytes < |parts| + |chunk|
    ensures parts + chunk[..maxBytes - |parts|] == Upto(wire, maxBytes) && |wire| > maxBytes
  {
    assert wire == parts + chunk + rest;
  }

  lemma NothingLeft(parts: seq<Byte>, rest: seq<Byte>, wire: seq<Byte>, maxBytes: nat)
    requires parts + rest == wire && |parts| <= maxBytes
    ensures rest == [] ==> parts == Upto(wire, maxBytes) && |wire| <= maxBytes
  {
  }

  /** Everything up to the end of the stream, capped at `maxBytes`. */
  method ReadUntilEnd(stream: StreamBuffer, maxBytes: nat) returns (r: BodyRead)
    requires stream.Valid() && stream.waiters == []
    modifies stream
    ensures stream.Valid() && stream.waiters == []
    ensures stream.sent == old(stream.sent) && stream.destroyed == old(stream.destroyed)
    ensures old(stream.ended) ==> stream.ended && stream.endedAt == old(stream.endedAt)
    ensures !old(stream.ended) && stream.ended ==> stream.endedAt >= old(|stream.taken|)
    ensures r.BodyRead? ==> r.bytes == Upto(old(stream.Rest()), maxBytes)
    ensures r.BodyRead? ==> (r.truncated <==> |old(stream.Rest())| > maxBytes)
    ensures r.BodyFailed? ==> r.error.Transport?
    ensures |stream.incoming| <= |old(stream.incoming)| && (old(stream.failed) ==> stream.failed)
    ensures r.BodyFailed? ==> Excused(r.error, stream.failed, old(stream.ended))
    ensures old(stream.ended) || |old(stream.buffer)| > maxBytes ==> r.BodyRead?
  {
    hide Enrolled, Upto;
    ghost var wire := stream.Rest();
    var parts: seq<Byte> := [];
    var total := 0;
    while true
      invariant stream.Valid() && stream.waiters == []
      invariant stream.sent == old(stream.sent) && stream.destroyed == old(stream.destroyed)
      invariant old(stream.ended) ==> stream.ended && stream.endedAt == old(stream.endedAt)
      invariant !old(stream.ended) && stream.ended ==> stream.endedAt >= old(|stream.taken|)
      invariant |stream.taken| >= old(|stream.taken|)
      invariant parts + stream.Rest() == wire && total == |parts| <= maxBytes
      invariant |stream.incoming| <= |old(stream.incoming)| && (old(stream.failed) ==> stream.failed)
      decreases |stream.Rest()|, if stream.ended then 0 else 1, if stream.buffer == [] then 1 else 0
    {
      if |stream.buffer| > 0 {
        var chunk := stream.Drain();
        if total + |chunk| > maxBytes {
          CapReached(parts, chunk, stream.Rest(), wire, maxBytes);
          parts := parts + chunk[..Max(0, maxBytes - total)];
          return BodyRead(parts, true);
        }
        parts := parts + chunk;
        total := total + |chunk|;
      }
      if stream.ended {
        NothingLeft(parts, stream.Rest(), wire, maxBytes);
        return BodyRead(parts, false);
      }
      var o := stream.Wait(|stream.buffer| + 1);
      if o.Rejected? {
        return BodyFailed(Transport(o.reason));
      }
    }
  }

  // ------------------------------------------------------------------ whole responses

  /** How the head says the body is delimited; reading the head itself is a parameter. */
  datatype Framing = NoBody | ChunkedFraming | Declared(length: nat) | UntilClose

  type HeadReader = seq<Byte> -> Option<Framing>

  datatype ResponseRead = Response(head: seq<Byte>, body: seq<Byte>, truncated: bool) | ResponseFailed(error: ReadError)

  /** Up to the first empty line, which is consumed too. */
  method ReadHead(stream: StreamBuffer) returns (r: LineRead)
    requires stream.Valid() && stream.waiters == []
    modifies stream
    ensures stream.Valid() && stream.waiters == []
    ensures stream.sent == old(stream.sent) && stream.destroyed == old(stream.destroyed)
    ensures old(stream.ended) ==> stream.ended && stream.endedAt == old(stream.endedAt)
    ensures !old(stream.ended) && stream.ended ==> stream.endedAt == old(|stream.taken|)
    ensures var h := IndexOf(old(stream.Rest()), HEADER_END);
            && (r.Line? ==> h != -1 && r.text == old(stream.Rest())[..h] && stream.Rest() == old(stream.Rest())[h + 4..])
            && (r.Line? ==> |stream.taken| == old(|stream.taken|) + h + 4)
            && (r.LineFailed? && r.error.ProtocolError? ==> h == -1 || h + 4 > HEADER_LIMIT)
            && (r.LineFailed? && r.error == Transport(StreamClosed) ==> h == -1)
    ensures |stream.incoming| <= |old(stream.incoming)| && (old(stream.failed) ==> stream.failed)
    ensures r.LineFailed? && r.error != Transport(StreamClosed) ==> Excused(r.error, stream.failed, old(stream.ended))
    ensures 0 <= IndexOf(old(stream.Rest()), HEADER_END) <= |old(stream.buffer)| - 4 ==> r.Line?
  {
    hide Enrolled;
    ghost var wire := stream.Rest();
    while true
      invariant stream.Valid() && stream.waiters == []
      invariant stream.Rest() == wire && stream.taken == old(stream.taken)
      invariant stream.sent == old(stream.sent) && stream.destroyed == old(stream.destroyed)
      invariant old(stream.ended) ==> stream.ended && stream.endedAt == old(stream.endedAt)
      invariant !old(stream.ended) && stream.ended ==> stream.endedAt == |stream.taken|
      invariant |stream.incoming| <= |old(stream.incoming)| && (old(stream.failed) ==> stream.failed)
      decreases |stream.incoming|, if stream.ended then 0 else 1
    {
      FoundInPrefix(stream.buffer, stream.incoming, HEADER_END);
      var headerEnd := IndexOf(stream.buffer, HEADER_END);
      if headerEnd != -1 {
        var head := stream.buffer[..headerEnd];
        assert head == wire[..headerEnd];
        stream.Consume(headerEnd + 4);
        return Line(head);
      }
      if |stream.buffer| > HEADER_LIMIT {
        return LineFailed(ProtocolError);
      }
      if stream.ended {
        assert stream.buffer == wire;
        return LineFailed(Transport(StreamClosed));
      }
      ghost var before := |stream.buffer|;
      var o := stream.Wait(|stream.buffer| + 1);
      if o.Rejected? {
        return LineFailed(Transport(o.reason));
      }
      assert |stream.buffer| + |stream.incoming| == |wire|;
    }
  }

  /** Had the end been signalled by the time the head was read? */
  ghost predicate EndedWithHead(stream: StreamBuffer, start: nat)
    reads stream
  {
    stream.ended && stream.endedAt <= start
  }

  /** The body a head announces, from the front of what follows the head. */
  method ReadBody(stream: StreamBuffer, framing: Framing, g: SizeGrammar, maxBytes: nat) returns (r: BodyRead)
    requires stream.Valid() && stream.waiters == []
    modifies stream
    ensures stream.Valid() && stream.waiters == []
    ensures old(stream.ended) ==> stream.ended && stream.endedAt == old(stream.endedAt)
    ensures !old(stream.ended) && stream.ended ==> stream.endedAt >= old(|stream.taken|)
    ensures r.BodyRead? ==>
              var rest := old(stream.Rest());
              match framing
              case NoBody => r.bytes == [] && !r.truncated && stream.Rest() == rest
              case ChunkedFraming =>
                Body(r.bytes, r.truncated, stream.Rest()) == Decode(g, rest, maxBytes, Until(stream, old(|stream.taken|)))
              case Declared(n) => r.bytes == Upto(rest, Min(n, maxBytes)) && (r.truncated <==> n > maxBytes)
              case UntilClose =>
                if old(stream.ended) then r.bytes == [] && !r.truncated
                else r.bytes == Upto(rest, maxBytes) && (r.truncated <==> |rest| > maxBytes)
    ensures r.BodyFailed? && r.error.ProtocolError? ==> framing.ChunkedFraming? && !Clean(g, old(stream.Rest()))
    ensures |stream.incoming| <= |old(stream.incoming)| && (old(stream.failed) ==> stream.failed)
    ensures r.BodyFailed? ==> Excused(r.error, stream.failed, old(stream.ended))
    ensures !stream.failed ==>
              match framing
              case NoBody => r.BodyRead?
              case ChunkedFraming => Clean(g, old(stream.Rest())) && |old(stream.incoming)| <= |Beyond(g, old(stream.Rest()))| ==> r.BodyRead?
              case Declared(n) => Min(n, maxBytes) <= |old(stream.buffer)| ==> r.BodyRead?
              case UntilClose => old(stream.ended) || |old(stream.buffer)| > maxBytes ==> r.BodyRead?
  {
    hide Enrolled, Decode, Clean, Beyond, Upto, Excused, StreamBuffer.Valid, StreamBuffer.Rest;
    match framing
    case NoBody =>
      return BodyRead([], false);
    case ChunkedFraming =>
      r := ReadChunkedBody(stream, g, maxBytes);
    case Declared(n) =>
      var body := ReadExactly(stream, Min(n, maxBytes));
      return if body.LineFailed? then BodyFailed(body.error) else BodyRead(body.text, n > maxBytes);
    case UntilClose =>
      if stream.ended {
        return BodyRead([], false);
      }
      r := ReadUntilEnd(stream, maxBytes);
  }

  lemma IndexInside(w: seq<Byte>, needle: seq<Byte>)
    ensures var h := IndexOf(w, needle); -1 <= h && (h != -1 ==> h + |needle| <= |w|)
  {
    IndexFromIsFirst(w, needle, 0);
  }

  lemma ExcusedIsNotClosed(e: ReadError, failed: bool, endedBefore: bool)
    requires Excused(e, failed, endedBefore)
    ensures e != Transport(StreamClosed)
  {
  }

  /**
   * One response. The head and the body are functions of the wire and of when the end is signalled, never of how the
   * bytes were split. A body delimited by the close of the connection comes back empty exactly when the end had
   * already been signalled with the head, even if bytes of it were buffered.
   */
  method ReadHttpResponse(stream: StreamBuffer, maxBytes: nat, framingOf: HeadReader, g: SizeGrammar)
    returns (r: ResponseRead)
    requires stream.Valid() && stream.waiters == []
    modifies stream
    ensures stream.Valid() && stream.waiters == []
    ensures r.Response? ==>
              var wire := old(stream.Rest());
              var h := IndexOf(wire, HEADER_END);
              && h != -1 && r.head == wire[..h] && framingOf(r.head).Some?
              && var rest := wire[h + 4..];
                 match framingOf(r.head).value
                 case NoBody => r.body == [] && !r.truncated && stream.Rest() == rest
                 case ChunkedFraming =>
                   Body(r.body, r.truncated, stream.Rest())
                   == Decode(g, rest, maxBytes, Until(stream, old(|stream.taken|) + h + 4))
                 case Declared(n) =>
                   r.body == Upto(rest, Min(n, maxBytes)) && (r.truncated <==> n > maxBytes)
                 case UntilClose =>
                   if EndedWithHead(stream, old(|stream.taken|)) then r.body == [] && !r.truncated
                   else r.body == Upto(rest, maxBytes) && (r.truncated <==> |rest| > maxBytes)
    ensures r.ResponseFailed? && r.error.ProtocolError? ==>
              var wire := old(stream.Rest());
              var h := IndexOf(wire, HEADER_END);
              || h == -1 || h + 4 > HEADER_LIMIT || framingOf(wire[..h]).None?
              || (framingOf(wire[..h]).value.ChunkedFraming? && !Clean(g, wire[h + 4..]))
    ensures |stream.incoming| <= |old(stream.incoming)| && (old(stream.failed) ==> stream.failed)
    ensures r.ResponseFailed? && r.error != Transport(StreamClosed) ==> Excused(r.error, stream.failed, old(stream.ended))
    ensures r.ResponseFailed? && r.error == Transport(StreamClosed) ==> IndexOf(old(stream.Rest()), HEADER_END) == -1
    ensures var wire := old(stream.Rest());
            var h := IndexOf(wire, HEADER_END);
            h != -1 && h + 4 <= |old(stream.buffer)| && framingOf(wire[..h]).Some? && !stream.failed ==>
              var rest := wire[h + 4..];
              match framingOf(wire[..h]).value
              case NoBody => r.Response?
              case ChunkedFraming => Clean(g, rest) && |old(stream.incoming)| <= |Beyond(g, rest)| ==> r.Response?
              case Declared(n) => h + 4 + Min(n, maxBytes) <= |old(stream.buffer)| ==> r.Response?
              case UntilClose => old(stream.ended) || |old(stream.buffer)| > h + 4 + maxBytes ==> r.Response?
  {
    hide Enrolled, Decode, Clean, Beyond, Upto, IndexOf, Excused, StreamBuffer.Rest;
    IndexInside(stream.Rest(), HEADER_END);
    ghost var ended := stream.ended;
    var head := ReadHead(stream);
    if head.LineFailed? {
      return ResponseFailed(head.error);
    }
    ghost var endedByHead := stream.ended;
    var framing := framingOf(head.text);
    if framing.None? {
      OwnFault(stream.failed, ended);
      return ResponseFailed(ProtocolError);
    }
    var body := ReadBody(stream, framing.value, g, maxBytes);
    if body.BodyFailed? {
      ExcusedBefore(body.error, stream.failed, ended, endedByHead);
      ExcusedIsNotClosed(body.error, stream.failed, ended);
      return ResponseFailed(body.error);
    }
    return Response(head.text, body.bytes, body.truncated);
  }
}
