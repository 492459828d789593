/** The SOCKS5 client: greeting, optional authentication, CONNECT. */
module Socks {
  import opened Common
  import opened Bytes
  import opened ByteStream

  /** The target as the address parser classified it: four octets, sixteen octets, or a name. */
  datatype Host = V4(address: seq<Byte>) | V6(address: seq<Byte>) | Domain(name: seq<Byte>)

  type Port = p: nat | p < 65536

  function Int(b: Byte): nat { b }

  datatype Target = Target(host: Host, port: Port, username: Option<seq<Byte>>, password: Option<seq<Byte>>)

  ghost predicate WellFormed(h: Host) {
    match h
    case V4(a) => |a| == 4
    case V6(a) => |a| == 16
    case Domain(_) => true
  }

  datatype SocksError = ProtocolViolation | AuthFailed | BadGateway | Refused | ServerTimeout | Link(reason: Reason)

  datatype Outcome = Connected | Failed(error: SocksError)

  function AddressType(h: Host): Byte {
    match h
    case V4(_) => 1
    case V6(_) => 4
    case Domain(_) => 3
  }

  predicate NameTooLong(h: Host) { h.Domain? && |h.name| > 255 }

  function AddressBytes(h: Host): seq<Byte> {
    match h
    case V4(a) => a
    case V6(a) => a
    case Domain(n) => n
  }

  ghost function Word(hi: Byte, lo: Byte): Port { Int(hi) * 256 + Int(lo) }

  function PortBytes(p: Port): seq<Byte> { [p / 256, p % 256] }

  /** The CONNECT request as the client writes it. */
  function ConnectRequest(h: Host, p: Port): seq<Byte> { [5, 1, 0, AddressType(h)] + AddressBytes(h) + PortBytes(p) }

  // ------------------------------------------------------------------ the server's reading of a request

  /** A CONNECT request as section 4 of RFC 1928 lays it out; a name carries its length in the octet before it. */
  ghost function ParseRequest(s: seq<Byte>): Option<(Host, Port)> {
    if |s| < 4 || s[0] != 5 || s[1] != 1 || s[2] != 0 then None
    else
      var a := s[4..];
      if s[3] == 1 && |a| == 6 then Some((V4(a[..4]), Word(a[4], a[5])))
      else if s[3] == 4 && |a| == 18 then Some((V6(a[..16]), Word(a[16], a[17])))
      else if s[3] == 3 && |a| >= 1 && |a| == Int(a[0]) + 3 then
        Some((Domain(a[1..Int(a[0]) + 1]), Word(a[Int(a[0]) + 1], a[Int(a[0]) + 2])))
      else None
  }

  lemma PortRoundTrip(p: Port)
    ensures (p / 256) * 256 + p % 256 == p
  {
  }

  /** The server understands the client's request as the target that was meant if and only if that is an address. */
  lemma RequestRoundTrip(h: Host, p: Port)
    requires WellFormed(h)
    ensures ParseRequest(ConnectRequest(h, p)) == Some((h, p)) <==> !h.Domain?
  {
    var s := ConnectRequest(h, p);
    assert s[4..] == AddressBytes(h) + PortBytes(p);
    PortRoundTrip(p);
    match h
    case V4(a) => assert s[4..][..4] == a;
    case V6(a) => assert s[4..][..16] == a;
    case Domain(n) =>
      var a := n + PortBytes(p);
      if |a| >= 1 && |a| == Int(a[0]) + 3 {
        assert |a[1..Int(a[0]) + 1]| == |n| - 1;
      }
  }

  /** The request of section 4 of RFC 1928: version, CONNECT, zero, address type, address and port in network order. */
  ghost function StandardRequest(h: Host, p: Port): seq<Byte>
    requires WellFormed(h) && !NameTooLong(h)
  {
    var address := match h
      case V4(a) => [1] + a
      case V6(a) => [4] + a
      case Domain(n) => [3, |n|] + n;
    [5, 1, 0] + address + [p / 256, p % 256]
  }

  lemma StandardNameReads(n: seq<Byte>, p: Port)
    requires |n| <= 255
    ensures ParseRequest(StandardRequest(Domain(n), p)) == Some((Domain(n), p))
  {
    var s := StandardRequest(Domain(n), p);
    var a, rest := s[4..], n + [p / 256, p % 256];
    assert a == [|n|] + rest && s[3] == 3;
    assert a[1..|n| + 1] == rest[..|n|] == n;
    PortRoundTrip(p);
  }

  /** The server understands every such request, ... */
  lemma StandardRequestReads(h: Host, p: Port)
    requires WellFormed(h) && !NameTooLong(h)
    ensures ParseRequest(StandardRequest(h, p)) == Some((h, p))
  {
    if h.Domain? {
      StandardNameReads(h.name, p);
    } else {
      RequestRoundTrip(h, p);
      RequestIsStandardBut(h, p);
    }
  }

  /** ... and the client's request is one, but for the length octet of a name, which it leaves out. */
  lemma RequestIsStandardBut(h: Host, p: Port)
    requires WellFormed(h) && !NameTooLong(h)
    ensures var standard := StandardRequest(h, p);
            ConnectRequest(h, p) == if h.Domain? then standard[..4] + standard[5..] else standard
  {
    var standard := StandardRequest(h, p);
    if h.Domain? {
      assert standard[5..] == h.name + [p / 256, p % 256];
      assert standard[..4] == [5, 1, 0, 3];
    }
  }

  /** For one, the name `ab` is not understood at all: its first letter is taken for a length. */
  lemma NameWithoutLength()
    ensures ParseRequest(ConnectRequest(Domain([97, 98]), 80)) == None
  {
    var s := ConnectRequest(Domain([97, 98]), 80);
    assert s[4..] == [97, 98, 0, 80];
  }

  // ------------------------------------------------------------------ the reply

  /** How long a reply is, from its address type; types other than those of RFC 1928 are taken to end after four octets. */
  ghost function ReplyLength(w: seq<Byte>): nat {
    if |w| < 4 then 4
    else if w[3] == 1 then 10
    else if w[3] == 4 then 22
    else if w[3] == 3 then if |w| < 5 then 5 else 7 + Int(w[4])
    else 4
  }

  /** What the client takes for a success reply: it looks neither at the reserved octet nor at the type itself. */
  ghost predicate SuccessReply(r: seq<Byte>) {
    |r| >= 4 && r[0] == 5 && r[1] == 0
    && ((r[3] == 1 && |r| == 10) || (r[3] == 4 && |r| == 22) || (r[3] == 3 && |r| >= 5 && |r| == 7 + Int(r[4]))
        || (r[3] !in {1, 3, 4} && |r| == 4))
  }

  /** The address of a reply by its own type: how many octets it has, the length octet of a name included. */
  ghost function AddressLength(r: seq<Byte>): Option<nat> {
    if |r| < 5 then None
    else if r[3] == 1 then Some(4)
    else if r[3] == 4 then Some(16)
    else if r[3] == 3 then Some(1 + Int(r[4]))
    else None
  }

  /** A success reply exactly as section 6 of RFC 1928 lays it out: version, success, zero, an address of its type, a port. */
  ghost predicate StandardReply(r: seq<Byte>) {
    |r| >= 4 && r[0] == 5 && r[1] == 0 && r[2] == 0 && AddressLength(r).Some? && |r| == 4 + AddressLength(r).value + 2
  }

  /** It is one of RFC 1928 if and only if its address type is one of RFC 1928 and the reserved octet is zero. */
  lemma StandardByType(r: seq<Byte>)
    requires SuccessReply(r)
    ensures StandardReply(r) <==> r[2] == 0 && (r[3] == 1 || r[3] == 3 || r[3] == 4)
  {
  }

  /** For one of an unknown type, the client takes four octets and leaves the rest to the next protocol. */
  lemma UnknownTypeAccepted()
    ensures SuccessReply([5, 0, 0, 9]) && !StandardReply([5, 0, 0, 9])
  {
  }

  predicate UsesAuth(t: Target) { t.username.Some? && t.username.value != [] && t.password.Some? }

  function Greeting(t: Target): seq<Byte> { if UsesAuth(t) then [5, 2, 0, 2] else [5, 1, 0] }

  /** The credentials of RFC 1929; each length is one octet, as written into a byte buffer. */
  function Credentials(t: Target): seq<Byte> {
    var user := if t.username.Some? then t.username.value else [];
    var pass := if t.password.Some? then t.password.value else [];
    [1, |user| % 256] + user + [|pass| % 256] + pass
  }

  /** A greeting as section 3 of RFC 1928 lays it out, with the methods it offers. */
  ghost function OfferedMethods(s: seq<Byte>): Option<seq<Byte>> {
    if |s| >= 2 && s[0] == 5 && |s| == 2 + Int(s[1]) then Some(s[2..]) else None
  }

  /** The server is offered no authentication, and passwords exactly when a user name and a password are there. */
  lemma GreetingOffers(t: Target)
    ensures var offered := OfferedMethods(Greeting(t));
            && offered.Some? && (0 as Byte) in offered.value
            && ((2 as Byte) in offered.value <==> t.username.Some? && t.username.value != [] && t.password.Some?)
            && forall m <- offered.value :: m == 0 || m == 2
  {
  }

  /** A request of section 2 of RFC 1929: version, user name and password, each after its length. */
  ghost function ParseCredentials(s: seq<Byte>): Option<(seq<Byte>, seq<Byte>)> {
    if |s| < 2 || s[0] != 1 || |s| < 3 + Int(s[1]) then None
    else
      var rest := s[2 + Int(s[1])..];
      if |rest| == 1 + Int(rest[0]) then Some((s[2..2 + Int(s[1])], rest[1..])) else None
  }

  /** The server reads the credentials as meant if and only if each fits its length octet. */
  lemma CredentialsRoundTrip(t: Target)
    requires t.username.Some? && t.password.Some?
    ensures ParseCredentials(Credentials(t)) == Some((t.username.value, t.password.value))
            <==> |t.username.value| <= 255 && |t.password.value| <= 255
  {
    var user, pass, s := t.username.value, t.password.value, Credentials(t);
    assert s[2..2 + |user|] == user && s[2 + |user|..] == [|pass| % 256] + pass;
    assert ([|pass| % 256] + pass)[1..] == pass;
    if ParseCredentials(s) == Some((user, pass)) {
      assert |s[2..2 + Int(s[1])]| == Int(s[1]) == |user|;
    }
  }

  function ReplyError(rep: Byte): SocksError {
    if rep == 5 then Refused
    else if rep == 6 || rep == 7 then ServerTimeout
    else if rep == 8 || rep == 9 then ProtocolViolation
    else BadGateway
  }

  /** Why the client gives up on a method choice; `None` when it goes on. What is missing fails like what is wrong. */
  ghost function MethodRefusal(w: seq<Byte>, usesAuth: bool): Option<SocksError> {
    if |w| < 2 || w[0] != 5 then Some(ProtocolViolation)
    else if w[1] == 0 then None
    else if w[1] == 255 || (w[1] == 2 && !usesAuth) then Some(AuthFailed)
    else if w[1] != 2 || |w| < 3 || w[2] != 1 then Some(ProtocolViolation)
    else if |w| < 4 || w[3] != 0 then Some(AuthFailed)
    else None
  }

  /** Why the client gives up on a reply to CONNECT, by its version and its code (section 6 of RFC 1928). */
  ghost predicate Blamed(w: seq<Byte>, e: SocksError) {
    var whole := |w| >= 2 && w[0] == 5 && !(|w| == 4 && w[3] == 3);
    && (e == Refused <==> whole && w[1] == 5)
    && (e == ServerTimeout <==> whole && (w[1] == 6 || w[1] == 7))
    && (e == ProtocolViolation <==> |w| == 0 || w[0] != 5 || (whole && (w[1] == 8 || w[1] == 9)))
    && (e == BadGateway || e == Refused || e == ServerTimeout || e == ProtocolViolation)
  }

  /** A reply the client goes by: version 5, code 0, and the length of a name if it has one. */
  ghost predicate Accepted(w: seq<Byte>) { |w| >= 2 && w[0] == 5 && w[1] == 0 && !(|w| == 4 && w[3] == 3) }

  /** Why the connection may be blamed: an error, a wait that timed out before the end, or a socket handed over. */
  ghost predicate LinkExcused(e: SocksError, failed: bool, endedBefore: bool, destroyed: bool) {
    e.Link? ==>
      || (e.reason == SocketError && failed)
      || (e.reason == TimedOut && !endedBefore)
      || (e.reason == StreamClosed && destroyed)
  }

  /** Nothing to wait for: the stream has ended, or `n` bytes are there. */
  ghost predicate InHand(stream: StreamBuffer, n: nat)
    reads stream
  {
    stream.ended || n <= |stream.buffer|
  }

  ghost function Front(w: seq<Byte>, n: nat): seq<Byte> { w[..Min(n, |w|)] }

  /** Waits for as much of the reply as tells its length; nothing is taken yet. */
  method AwaitLength(stream: StreamBuffer) returns (length: nat, failure: Option<SocksError>)
    requires stream.Valid() && stream.waiters == []
    modifies stream
    ensures stream.Valid() && stream.waiters == []
    ensures stream.sent == old(stream.sent) && stream.destroyed == old(stream.destroyed)
    ensures stream.taken == old(stream.taken) && stream.Rest() == old(stream.Rest())
    ensures old(stream.ended) ==> stream.ended
    ensures |stream.incoming| <= |old(stream.incoming)| && (old(stream.failed) ==> stream.failed)
    ensures failure.Some? && !failure.value.Link? ==> !Accepted(stream.Rest()) && Blamed(stream.Rest(), failure.value)
    ensures failure.None? ==> |stream.Rest()| >= 1 && stream.Rest()[0] == 5 && length == ReplyLength(stream.Rest())
    ensures failure.None? ==> !(|stream.Rest()| == 4 && stream.Rest()[3] == 3)
    ensures failure.Some? ==> LinkExcused(failure.value, stream.failed, old(stream.ended), stream.destroyed)
    ensures failure.Some? && !stream.failed && old(InHand(stream, ReplyLength(stream.Rest()))) ==> !failure.value.Link?
  {
    hide Enrolled;
    length, failure := 4, None;
    ghost var wire := stream.Rest();
    var o := stream.Wait(4);
    if o.Rejected? { return 4, Some(Link(o.reason)); }
    assert forall k | 0 <= k < |stream.buffer| :: stream.buffer[k] == wire[k];
    if |stream.buffer| < 1 || stream.buffer[0] != 5 {
      return 4, Some(ProtocolViolation);
    }
    if |stream.buffer| < 4 { return; }
    var kind := stream.buffer[3];
    if kind == 1 {
      length := 10;
    } else if kind == 4 {
      length := 22;
    } else if kind == 3 {
      o := stream.Wait(5);
      if o.Rejected? { return 4, Some(Link(o.reason)); }
      if |stream.buffer| < 5 { return 4, Some(BadGateway); }
      assert stream.buffer[4] == wire[4];
      length := 7 + Int(stream.buffer[4]);
    }
  }

  lemma WholeReply(answer: seq<Byte>, wire: seq<Byte>, rest: seq<Byte>)
    requires answer + rest == wire && |wire| >= 4 && wire[0] == 5
    requires |answer| == ReplyLength(wire) && |answer| >= 2 && answer[1] == 0
    ensures SuccessReply(answer) && |answer| >= 4
  {
    assert forall k | 0 <= k < |answer| :: answer[k] == wire[k];
  }

  /** What an answer says of the wire it was taken from. */
  lemma AnswerDecides(answer: seq<Byte>, rest: seq<Byte>, wire: seq<Byte>)
    requires |wire| >= 1 && wire[0] == 5 && !(|wire| == 4 && wire[3] == 3)
    requires answer + rest == wire && |answer| == Min(ReplyLength(wire), |wire|)
    ensures answer == Front(wire, ReplyLength(wire))
    ensures |answer| < 2 ==> !Accepted(wire) && Blamed(wire, BadGateway)
    ensures |answer| >= 2 ==> answer[1] == wire[1] && (Accepted(wire) <==> answer[1] == 0)
    ensures |answer| >= 2 && answer[1] != 0 ==> Blamed(wire, ReplyError(answer[1]))
  {
    assert forall k | 0 <= k < |answer| :: answer[k] == wire[k];
  }

  /**
   * The reply to CONNECT, as a function of the wire: what is taken is as long as its address type says, or all there
   * is. On a stream that has not ended, success means exactly one whole success reply was taken.
   */
  method ReadReply(stream: StreamBuffer) returns (r: Outcome, ghost reply: seq<Byte>)
    requires stream.Valid() && stream.waiters == []
    modifies stream
    ensures stream.Valid() && stream.waiters == []
    ensures stream.sent == old(stream.sent) && stream.destroyed == old(stream.destroyed)
    ensures old(stream.ended) ==> stream.ended
    ensures |stream.incoming| <= |old(stream.incoming)| && (old(stream.failed) ==> stream.failed)
    ensures r.Connected? ==> Accepted(old(stream.Rest())) && reply == Front(old(stream.Rest()), ReplyLength(old(stream.Rest())))
    ensures r.Failed? && !r.error.Link? ==> !Accepted(old(stream.Rest())) && Blamed(old(stream.Rest()), r.error)
    ensures r.Connected? && (!stream.ended || ReplyLength(old(stream.Rest())) <= |old(stream.Rest())|) ==> SuccessReply(reply)
    ensures r.Connected? && !stream.ended ==> (StandardReply(reply) <==> reply[2] == 0 && reply[3] in {1, 3, 4})
    ensures r.Connected? ==> reply + stream.Rest() == old(stream.Rest()) && stream.taken == old(stream.taken) + reply
    ensures r.Failed? ==> LinkExcused(r.error, stream.failed, old(stream.ended), stream.destroyed)
    ensures r.Failed? && !stream.failed && old(InHand(stream, ReplyLength(stream.Rest()))) ==> !r.error.Link?
  {
    hide Enrolled, ReplyLength, SuccessReply, StandardReply, Blamed, Accepted, Front, ReplyError;
    reply := [];
    ghost var wire := stream.Rest();
    var length, failure := AwaitLength(stream);
    if failure.Some? { return Failed(failure.value), []; }
    var o := stream.Wait(length);
    if o.Rejected? { return Failed(Link(o.reason)), []; }
    assert |stream.buffer| < length ==> stream.buffer == wire;
    var answer := stream.Take(length);
    reply := answer;
    AnswerDecides(answer, stream.Rest(), wire);
    if |answer| < 2 { return Failed(BadGateway), reply; }
    if answer[1] != 0 { return Failed(ReplyError(answer[1])), reply; }
    r := Connected;
    if length <= |wire| {
      LongEnough(wire);
      WholeReply(answer, wire, stream.Rest());
      StandardByType(answer);
    }
  }

  lemma LongEnough(w: seq<Byte>)
    ensures ReplyLength(w) >= 4
  {
  }

  /** Two octets the server sends before the reply, or what there is of them. */
  method TakeTwo(stream: StreamBuffer) returns (two: seq<Byte>, failure: Option<SocksError>)
    requires stream.Valid() && stream.waiters == []
    modifies stream
    ensures stream.Valid() && stream.waiters == []
    ensures stream.sent == old(stream.sent) && stream.destroyed == old(stream.destroyed)
    ensures old(stream.ended) ==> stream.ended
    ensures |stream.incoming| <= |old(stream.incoming)| && (old(stream.failed) ==> stream.failed)
    ensures failure.Some? ==> failure.value.Link? && LinkExcused(failure.value, stream.failed, old(stream.ended), stream.destroyed)
    ensures failure.None? ==> two == Front(old(stream.Rest()), 2)
    ensures failure.None? ==> two + stream.Rest() == old(stream.Rest()) && stream.taken == old(stream.taken) + two
    ensures !stream.failed && old(InHand(stream, 2)) ==> failure.None?
  {
    hide Enrolled;
    two, failure := [], None;
    ghost var wire := stream.Rest();
    var o := stream.Wait(2);
    if o.Rejected? {
      failure := Some(Link(o.reason));
    } else {
      two := stream.Take(2);
      assert two + stream.Rest() == wire;
      assert forall k | 0 <= k < |two| :: two[k] == wire[k];
    }
  }

  /** What precedes the reply: the chosen method, and the acceptance of the credentials if that was asked for. */
  ghost predicate Preamble(h: seq<Byte>, usesAuth: bool) {
    (|h| == 2 && h[0] == 5 && h[1] == 0) || (|h| == 4 && usesAuth && h[0] == 5 && h[1] == 2 && h[2] == 1 && h[3] == 0)
  }

  /** How much the server says before its reply. */
  ghost function PreambleLength(w: seq<Byte>, usesAuth: bool): nat { if |w| >= 2 && w[0] == 5 && w[1] == 2 && usesAuth then 4 else 2 }

  /** Why the client gives up on an answer to its credentials. */
  ghost function AuthRefusal(w: seq<Byte>): Option<SocksError> {
    if |w| < 1 || w[0] != 1 then Some(ProtocolViolation) else if |w| < 2 || w[1] != 0 then Some(AuthFailed) else None
  }

  /** Sends the credentials and takes the server's answer. */
  method Authenticate(stream: StreamBuffer, target: Target) returns (failure: Option<SocksError>, auth: seq<Byte>)
    requires stream.Valid() && stream.waiters == []
    modifies stream
    ensures stream.Valid() && stream.waiters == []
    ensures old(stream.ended) ==> stream.ended
    ensures stream.destroyed == old(stream.destroyed)
    ensures |stream.incoming| <= |old(stream.incoming)| && (old(stream.failed) ==> stream.failed)
    ensures failure.Some? && !failure.value.Link? ==> AuthRefusal(old(stream.Rest())) == failure
    ensures failure.None? ==>
              && AuthRefusal(old(stream.Rest())).None? && |auth| == 2 && auth[0] == 1 && auth[1] == 0
              && auth + stream.Rest() == old(stream.Rest()) && stream.taken == old(stream.taken) + auth
              && stream.sent == old(stream.sent) + Credentials(target)
    ensures failure.Some? ==> LinkExcused(failure.value, stream.failed, old(stream.ended), stream.destroyed)
    ensures failure.Some? && !stream.failed && !stream.destroyed && old(InHand(stream, 2)) ==> !failure.value.Link?
  {
    hide Enrolled, Credentials, Front, StreamBuffer.Valid, StreamBuffer.Rest;
    auth := [];
    ghost var wire := stream.Rest();
    var ok := stream.Write(Credentials(target));
    if !ok { return Some(Link(StreamClosed)), []; }
    auth, failure := TakeTwo(stream);
    if failure.Some? { return; }
    AfterTwo(auth, stream.Rest(), wire);
    if |auth| < 1 || auth[0] != 1 { return Some(ProtocolViolation), []; }
    if |auth| < 2 || auth[1] != 0 { return Some(AuthFailed), []; }
  }

  lemma AfterTwo(two: seq<Byte>, rest: seq<Byte>, wire: seq<Byte>)
    requires two == Front(wire, 2) && two + rest == wire
    ensures |two| == Min(2, |wire|)
    ensures |two| == 2 ==> two[0] == wire[0] && two[1] == wire[1] && |wire| == 2 + |rest|
    ensures |two| == 2 ==> (forall k | 0 <= k < |rest| :: rest[k] == wire[k + 2])
    ensures |two| < 2 ==> |wire| < 2
    ensures |two| >= 1 ==> two[0] == wire[0]
  {
  }

  /** Greeting and method negotiation. */
  method Negotiate(stream: StreamBuffer, target: Target) returns (failure: Option<SocksError>, ghost preamble: seq<Byte>)
    requires stream.Valid() && stream.waiters == []
    modifies stream
    ensures stream.Valid() && stream.waiters == []
    ensures old(stream.ended) ==> stream.ended
    ensures stream.destroyed == old(stream.destroyed)
    ensures |stream.incoming| <= |old(stream.incoming)| && (old(stream.failed) ==> stream.failed)
    ensures failure.Some? && !failure.value.Link? ==> MethodRefusal(old(stream.Rest()), UsesAuth(target)) == failure
    ensures failure.None? ==>
              && MethodRefusal(old(stream.Rest()), UsesAuth(target)).None?
              && Preamble(preamble, UsesAuth(target)) && |preamble| == PreambleLength(old(stream.Rest()), UsesAuth(target))
              && preamble + stream.Rest() == old(stream.Rest()) && stream.taken == old(stream.taken) + preamble
              && stream.sent == old(stream.sent) + Greeting(target) + (if |preamble| == 4 then Credentials(target) else [])
    ensures failure.Some? ==> LinkExcused(failure.value, stream.failed, old(stream.ended), stream.destroyed)
    ensures failure.Some? && !stream.failed && !stream.destroyed ==>
              (old(InHand(stream, PreambleLength(stream.Rest(), UsesAuth(target)))) ==> !failure.value.Link?)
  {
    hide Enrolled, Greeting, Credentials, UsesAuth, Front, StreamBuffer.Valid, StreamBuffer.Rest;
    preamble := [];
    var ok := stream.Write(Greeting(target));
    if !ok { return Some(Link(StreamClosed)), []; }
    ghost var wire := stream.Rest();
    var greeting: seq<Byte>;
    greeting, failure := TakeTwo(stream);
    if failure.Some? { return; }
    AfterTwo(greeting, stream.Rest(), wire);
    if |greeting| < 1 || greeting[0] != 5 { return Some(ProtocolViolation), []; }
    if |greeting| < 2 { return Some(ProtocolViolation), []; }
    preamble := greeting;
    var choice := greeting[1];
    if choice == 255 { return Some(AuthFailed), []; }
    if choice == 2 {
      if !UsesAuth(target) { return Some(AuthFailed), []; }
      var auth: seq<Byte>;
      failure, auth := Authenticate(stream, target);
      if failure.Some? { return; }
      preamble := greeting + auth;
      Associate(greeting, auth, stream.Rest());
      Associate(old(stream.taken), greeting, auth);
    } else if choice != 0 {
      return Some(ProtocolViolation), [];
    }
  }

  /** Everything the server says in a handshake. */
  ghost function HandshakeLength(w: seq<Byte>, usesAuth: bool): nat {
    var n := PreambleLength(w, usesAuth);
    n + ReplyLength(w[Min(n, |w|)..])
  }

  /**
   * The whole handshake, decided by what the server says. If it succeeds and the stream has not ended, the bytes taken
   * from it are exactly one server handshake, and everything behind it is still there for the next protocol; what was
   * sent is the greeting, the credentials if the server chose them, and the CONNECT request. It fails for a name that
   * is too long, because of what the server answered, or by the connection, and by that only for an error, a wait that
   * timed out, or a socket handed over: never when the whole handshake is in hand.
   */
  method Socks5Connect(stream: StreamBuffer, target: Target) returns (r: Outcome, ghost preamble: seq<Byte>, ghost reply: seq<Byte>)
    requires stream.Valid() && stream.waiters == []
    modifies stream
    ensures stream.Valid() && stream.waiters == []
    ensures old(stream.ended) ==> stream.ended
    ensures r.Failed? && !r.error.Link? ==>
              || (NameTooLong(target.host) && r.error == ProtocolViolation)
              || MethodRefusal(old(stream.Rest()), UsesAuth(target)) == Some(r.error)
              || (Preamble(preamble, UsesAuth(target)) && preamble <= old(stream.Rest())
                  && !Accepted(old(stream.Rest())[|preamble|..]) && Blamed(old(stream.Rest())[|preamble|..], r.error))
    ensures r.Connected? ==> preamble + reply + stream.Rest() == old(stream.Rest())
    ensures r.Connected? ==> stream.taken == old(stream.taken) + preamble + reply
    ensures r.Connected? ==> !NameTooLong(target.host) && Preamble(preamble, UsesAuth(target)) && (!stream.ended ==> SuccessReply(reply))
    ensures r.Connected? ==> |preamble| <= |old(stream.Rest())| && Accepted(old(stream.Rest())[|preamble|..])
    ensures r.Connected? && !stream.ended ==> (StandardReply(reply) <==> reply[2] == 0 && reply[3] in {1, 3, 4})
    ensures r.Connected? ==>
              stream.sent == old(stream.sent) + Greeting(target) + (if |preamble| == 4 then Credentials(target) else [])
                             + ConnectRequest(target.host, target.port)
    ensures r.Failed? ==> LinkExcused(r.error, stream.failed, old(stream.ended), stream.destroyed)
    ensures r.Failed? && !stream.failed && !stream.destroyed ==>
              (old(InHand(stream, HandshakeLength(stream.Rest(), UsesAuth(target)))) ==> !r.error.Link?)
  {
    hide Enrolled, MethodRefusal, Blamed, Accepted, Preamble, PreambleLength, Greeting, Credentials, ConnectRequest, StandardReply;
    hide UsesAuth, ReplyLength, Front, SuccessReply;
    reply := [];
    var failure: Option<SocksError>;
    ghost var wire := stream.Rest();
    failure, preamble := Negotiate(stream, target);
    if failure.Some? { return Failed(failure.value), [], []; }
    if NameTooLong(target.host) {
      return Failed(ProtocolViolation), [], [];
    }
    var ok := stream.Write(ConnectRequest(target.host, target.port));
    if !ok { return Failed(Link(StreamClosed)), [], []; }
    ghost var rest := stream.Rest();
    CutsOff(preamble, rest, wire);
    r, reply := ReadReply(stream);
    if r.Connected? {
      Associate(preamble, reply, stream.Rest());
    }
  }

  lemma CutsOff(front: seq<Byte>, rest: seq<Byte>, whole: seq<Byte>)
    requires front + rest == whole
    ensures front <= whole && whole[|front|..] == rest
  {
  }
}
