/**
SOCKS requests byte by byte: version 4, version 4A, and version 5 (sections 3, 4
and 5 of RFC 1928).  A phase collects a known number of bytes and then decides
what comes next.
*/
module SocksSpec {
  import opened Bytes

  /** What the parser asks the stream or its own delegate to do. */
  datatype Event =
    | Connect(typ: char, host: seq<byte>, port: nat)
    | Reply(bytes: seq<byte>)
    | WriteShutdown
    | ReadStop

  /** What the bytes being collected are; user counts the bytes of the user id read so far, its NUL included. */
  datatype Phase =
    | First
    | Head4
    | User4(cd: byte, port: nat, ip: nat, user: nat)
    | Host4(cd: byte, port: nat, ip: nat, user: nat, host: seq<byte>)
    | Again4
    | Count5
    | Methods5
    | Refused5
    | Version5
    | Head5
    | Address5(cd: byte, atyp: byte)
    | Length5(cd: byte)
    | Name5(cd: byte)
    | Port5(cd: byte, atyp: byte, addr: seq<byte>)

  datatype State =
    | Reading(phase: Phase, need: nat, got: seq<byte>)
    | Closed
    /** A host name of no bytes: the stream's next read fails an assert. */
    | Stuck

  datatype Step = Step(next: State, events: seq<Event>)

  function BigEndian(b: seq<byte>): nat {
    if b == [] then 0 else BigEndian(b[..|b| - 1]) * 256 + b[|b| - 1]
  }

  /** %u */
  function Decimal(n: nat): seq<byte> {
    if n < 10 then [48 + n] else Decimal(n / 10) + [48 + n % 10]
  }

  function Dotted(ip: nat): seq<byte> {
    Decimal(ip / 0x100_0000 % 256) + [46] + Decimal(ip / 0x1_0000 % 256) + [46] + Decimal(ip / 0x100 % 256) + [46]
        + Decimal(ip % 256)
  }

  /** %x of one digit */
  function Hex(n: nat): byte
    requires n < 16
  {
    if n < 10 then 48 + n else 87 + n
  }

  /** %02x */
  function Hex2(b: byte): seq<byte> { [Hex(b / 16), Hex(b % 16)] }

  /** Pairs of bytes in hexadecimal, separated by colons. */
  function Colons(b: seq<byte>): seq<byte>
    requires |b| % 2 == 0
  {
    if |b| == 0 then []
    else (if |b| == 2 then [] else Colons(b[..|b| - 2]) + [58]) + Hex2(b[|b| - 2]) + Hex2(b[|b| - 1])
  }

  /** What a C string function sees of b: the bytes before the first NUL, at most max of them. */
  function CString(b: seq<byte>, max: nat): seq<byte> {
    if b == [] || max == 0 || b[0] == 0 then [] else [b[0]] + CString(b[1..], max - 1)
  }

  const REFUSAL: seq<Event> := [Reply([0, 91, 0, 0, 0, 0, 0, 0]), WriteShutdown]

  const FAILURE: Step := Step(Closed, [ReadStop, WriteShutdown])

  /** ft_proto_socks_on_request; accept is what the delegate's connect answers. */
  function Request(cd: byte, typ: char, host: seq<byte>, port: nat, accept: bool): seq<Event> {
    if cd != 1 || host == [] then REFUSAL
    else [Connect(typ, host, port)] + if accept then [] else REFUSAL
  }

  predicate Is4A(ip: nat) { 0 < ip <= 255 }

  function Expect(phase: Phase, need: nat): Step { Step(Reading(phase, need, []), []) }

  /** The host of a version 5 request. */
  function Host5(atyp: byte, addr: seq<byte>): seq<byte> {
    if atyp == 1 then Dotted(BigEndian(addr))
    else if atyp == 4 && |addr| % 2 == 0 then Colons(addr)
    else CString(addr, 254)
  }

  function Type5(atyp: byte): char {
    if atyp == 1 then '4' else if atyp == 4 then '6' else 'D'
  }

  /** All the bytes of a phase are there. */
  function Complete(p: Phase, got: seq<byte>, accept: bool): Step
    requires got != [] && (p.Head4? ==> |got| == 7) && (p.Head5? ==> |got| == 3)
  {
    var b := got[|got| - 1];
    match p
    case First => if b == 4 then Expect(Head4, 7) else if b == 5 then Expect(Count5, 1) else FAILURE
    case Head4 => Expect(User4(got[0], BigEndian(got[1..3]), BigEndian(got[3..7]), 0), 1)
    case User4(cd, port, ip, user) =>
      if b != 0 then Expect(User4(cd, port, ip, user + 1), 1)
      else if Is4A(ip) then Expect(Host4(cd, port, ip, user + 1, []), 1)
      else Step(Reading(Again4, 1, []), Request(cd, '4', Dotted(ip), port, accept))
    case Host4(cd, port, ip, user, host) =>
      if b != 0 then Expect(Host4(cd, port, ip, user, host + [b]), 1)
      else Step(Reading(Again4, 1, []), Request(cd, 'D', CString(host, 255), port, accept))
    case Again4 => FAILURE
    case Count5 => if b == 0 then FAILURE else Expect(Methods5, b)
    case Methods5 =>
      if 0 in got then Step(Reading(Version5, 1, []), [Reply([5, 0])])
      else Step(Reading(Refused5, 1, []), [Reply([5, 255]), WriteShutdown])
    case Refused5 => FAILURE
    case Version5 => Expect(Head5, 3)
    case Head5 =>
      if b == 1 then Expect(Address5(got[0], 1), 4)
      else if b == 3 then Expect(Length5(got[0]), 1)
      else if b == 4 then Expect(Address5(got[0], 4), 16)
      else FAILURE
    case Length5(cd) => if b == 0 then Step(Stuck, []) else Expect(Name5(cd), b)
    case Address5(cd, atyp) => Expect(Port5(cd, atyp, got), 2)
    case Name5(cd) => Expect(Port5(cd, 3, got), 2)
    case Port5(cd, atyp, addr) =>
      Step(Reading(Version5, 1, []), Request(cd, Type5(atyp), Host5(atyp, addr), BigEndian(got), accept))
  }

  /** How many bytes each phase collects. */
  predicate Sized(st: State) {
    st.Reading? ==>
      && |st.got| < st.need
      && (match st.phase
          case Head4 => st.need == 7
          case Head5 => st.need == 3
          case Methods5 => st.need < 256
          case Name5(_) => st.need < 256
          case Host4(_, _, _, _, host) => st.need == 1 && 0 !in host
          case Address5(_, atyp) => (atyp == 1 && st.need == 4) || (atyp == 4 && st.need == 16)
          case Port5(_, atyp, addr) =>
            && st.need == 2
            && (atyp == 1 ==> |addr| == 4) && (atyp == 4 ==> |addr| == 16)
            && (atyp == 1 || atyp == 4 || (atyp == 3 && 0 < |addr| < 256))
          case _ => st.need == 1)
  }

  /** One byte. */
  function Feed(st: State, b: byte, accept: bool): (r: Step)
    requires Sized(st)
    ensures Sized(r.next)
  {
    if !st.Reading? then Step(st, [])
    else if |st.got| + 1 < st.need then Step(Reading(st.phase, st.need, st.got + [b]), [])
    else
      hide Complete, Sized;
      CompletesSized(st, st.got + [b], accept);
      Complete(st.phase, st.got + [b], accept)
  }

  lemma CompletesSized(st: State, got: seq<byte>, accept: bool)
    requires Sized(st) && st.Reading? && |got| == st.need
    ensures Sized(Complete(st.phase, got, accept).next)
  {
    hide Request, Host5, BigEndian, CString, Decimal;
  }

  /** Bytes one after the other. */
  function FeedAll(st: State, bytes: seq<byte>, accept: bool): (r: Step)
    requires Sized(st)
    ensures Sized(r.next)
    decreases |bytes|
  {
    if bytes == [] then Step(st, [])
    else
      var first := Feed(st, bytes[0], accept);
      var rest := FeedAll(first.next, bytes[1..], accept);
      Step(rest.next, first.events + rest.events)
  }

  /** However a string of bytes is cut in two, the outcome is the same. */
  lemma {:induction false} FeedConcat(st: State, a: seq<byte>, b: seq<byte>, accept: bool)
    requires Sized(st)
    ensures var first := FeedAll(st, a, accept);
            var second := FeedAll(first.next, b, accept);
            FeedAll(st, a + b, accept) == Step(second.next, first.events + second.events)
    decreases |a|
  {
    if a == [] {
      assert a + b == b;
    } else {
      assert (a + b)[0] == a[0] && (a + b)[1..] == a[1..] + b;
      FeedConcat(Feed(st, a[0], accept).next, a[1..], b, accept);
    }
  }

  /** Bytes that leave a phase unfinished are only collected. */
  lemma {:induction false} Collects(st: State, bytes: seq<byte>, accept: bool)
    requires Sized(st) && st.Reading? && |st.got| + |bytes| < st.need
    ensures FeedAll(st, bytes, accept) == Step(Reading(st.phase, st.need, st.got + bytes), [])
    decreases |bytes|
  {
    if bytes == [] {
      assert st.got + bytes == st.got;
    } else {
      Collects(Reading(st.phase, st.need, st.got + [bytes[0]]), bytes[1..], accept);
      assert st.got + [bytes[0]] + bytes[1..] == st.got + bytes;
    }
  }

  /** Bytes that finish a phase complete it. */
  lemma Finishes(st: State, bytes: seq<byte>, accept: bool)
    requires Sized(st) && st.Reading? && |st.got| + |bytes| == st.need
    ensures FeedAll(st, bytes, accept) == Complete(st.phase, st.got + bytes, accept)
  {
    var last := |bytes| - 1;
    assert bytes == bytes[..last] + [bytes[last]];
    FeedConcat(st, bytes[..last], [bytes[last]], accept);
    Collects(st, bytes[..last], accept);
    assert st.got + bytes[..last] + [bytes[last]] == st.got + bytes;
    One(Reading(st.phase, st.need, st.got + bytes[..last]), bytes[last], accept);
  }

  lemma One(st: State, b: byte, accept: bool)
    requires Sized(st)
    ensures FeedAll(st, [b], accept) == Feed(st, b, accept)
  {
    var first := Feed(st, b, accept);
    assert [b][1..] == [] && first.events + [] == first.events;
  }

  // ---------------------------------------------------------------------------
  // Requests and their encoding
  // ---------------------------------------------------------------------------

  /** The n bytes of v, most significant first. */
  function ToBigEndian(n: nat, v: nat): (b: seq<byte>)
    ensures |b| == n
  {
    if n == 0 then [] else ToBigEndian(n - 1, v / 256) + [v % 256]
  }

  lemma {:induction false} BigEndianInverse(n: nat, v: nat)
    requires v < Pow256(n)
    ensures BigEndian(ToBigEndian(n, v)) == v
  {
    if n != 0 {
      BigEndianInverse(n - 1, v / 256);
      assert ToBigEndian(n, v)[..n - 1] == ToBigEndian(n - 1, v / 256);
    }
  }

  const START: State := Reading(First, 1, [])

  /** The string is kept whole exactly when it fits and holds no NUL. */
  lemma {:induction false} CStringExact(b: seq<byte>, max: nat)
    ensures CString(b, max) == b <==> |b| <= max && 0 !in b
    ensures |CString(b, max)| <= |b|
  {
    if b != [] && max != 0 && b[0] != 0 {
      CStringExact(b[1..], max - 1);
      assert b == [b[0]] + b[1..];
      if CString(b, max) == b {
        assert CString(b[1..], max - 1) == b[1..];
      }
    }
  }

  function Head4Bytes(cd: byte, port: nat, ip: nat): seq<byte> {
    [4, cd] + ToBigEndian(2, port) + ToBigEndian(4, ip)
  }

  lemma Middle(a: seq<byte>, b: seq<byte>, c: seq<byte>)
    ensures (a + b + c)[|a|..|a| + |b|] == b
  {
  }

  lemma Head4Parses(cd: byte, port: nat, ip: nat, accept: bool)
    requires port < 0x1_0000 && ip < 0x1_0000_0000
    ensures FeedAll(START, Head4Bytes(cd, port, ip), accept) == Expect(User4(cd, port, ip, 0), 1)
  {
    var rest: seq<byte> := [cd] + ToBigEndian(2, port) + ToBigEndian(4, ip);
    assert Head4Bytes(cd, port, ip) == [4] + rest;
    FeedConcat(START, [4], rest, accept);
    One(START, 4, accept);
    Finishes(Reading(Head4, 7, []), rest, accept);
    var two, four := ToBigEndian(2, port), ToBigEndian(4, ip);
    assert [] + rest == rest && rest == [cd] + two + four && rest + [] == rest;
    Middle([cd], two, four);
    Middle([cd] + two, four, []);
    assert Pow256(2) == 0x1_0000 && Pow256(4) == Pow256(2) * 0x1_0000;
    BigEndianInverse(2, port);
    BigEndianInverse(4, ip);
  }

  lemma UserByte(cd: byte, port: nat, ip: nat, read: nat, b: byte, accept: bool)
    requires b != 0
    ensures Feed(Reading(User4(cd, port, ip, read), 1, []), b, accept) == Expect(User4(cd, port, ip, read + 1), 1)
  {
  }

  lemma HostByte(cd: byte, port: nat, ip: nat, user: nat, read: seq<byte>, b: byte, accept: bool)
    requires b != 0 && 0 !in read
    ensures Feed(Reading(Host4(cd, port, ip, user, read), 1, []), b, accept)
         == Expect(Host4(cd, port, ip, user, read + [b]), 1)
  {
  }

  lemma FeedNothing(st: State, accept: bool)
    requires Sized(st)
    ensures FeedAll(st, [], accept) == Step(st, [])
  {
  }

  /** One byte, and then the others. */
  lemma FeedFirst(st: State, bytes: seq<byte>, next: State, accept: bool)
    requires Sized(st) && bytes != [] && Feed(st, bytes[0], accept) == Step(next, [])
    ensures Sized(next) && FeedAll(st, bytes, accept) == FeedAll(next, bytes[1..], accept)
  {
    hide Feed, Sized;
    var rest := FeedAll(next, bytes[1..], accept);
    assert [] + rest.events == rest.events;
  }

  lemma {:induction false} UserParses(cd: byte, port: nat, ip: nat, read: nat, user: seq<byte>, accept: bool)
    requires 0 !in user
    ensures FeedAll(Reading(User4(cd, port, ip, read), 1, []), user, accept)
         == Expect(User4(cd, port, ip, read + |user|), 1)
    decreases |user|
  {
    hide Feed;
    if user != [] {
      UserByte(cd, port, ip, read, user[0], accept);
      FeedFirst(Reading(User4(cd, port, ip, read), 1, []), user, Reading(User4(cd, port, ip, read + 1), 1, []), accept);
      UserParses(cd, port, ip, read + 1, user[1..], accept);
    }
  }

  lemma {:induction false} HostParses(cd: byte, port: nat, ip: nat, user: nat, read: seq<byte>, host: seq<byte>,
      accept: bool)
    requires 0 !in host && 0 !in read
    ensures FeedAll(Reading(Host4(cd, port, ip, user, read), 1, []), host, accept)
         == Expect(Host4(cd, port, ip, user, read + host), 1)
    decreases |host|
  {
    hide Feed, FeedAll;
    if host == [] {
      FeedNothing(Reading(Host4(cd, port, ip, user, read), 1, []), accept);
      assert read + host == read;
    } else {
      HostByte(cd, port, ip, user, read, host[0], accept);
      FeedFirst(Reading(Host4(cd, port, ip, user, read), 1, []), host,
          Reading(Host4(cd, port, ip, user, read + [host[0]]), 1, []), accept);
      HostParses(cd, port, ip, user, read + [host[0]], host[1..], accept);
      assert read + [host[0]] + host[1..] == read + host;
    }
  }

  /** One run after another. */
  lemma Then(st: State, a: seq<byte>, mid: Step, b: seq<byte>, end: Step, accept: bool)
    requires Sized(st) && Sized(mid.next) && FeedAll(st, a, accept) == mid && FeedAll(mid.next, b, accept) == end
    ensures FeedAll(st, a + b, accept) == Step(end.next, mid.events + end.events)
  {
    FeedConcat(st, a, b, accept);
  }

  lemma UserEnds(cd: byte, port: nat, ip: nat, user: nat, accept: bool)
    ensures FeedAll(Reading(User4(cd, port, ip, user), 1, []), [0], accept)
         == if Is4A(ip) then Expect(Host4(cd, port, ip, user + 1, []), 1)
            else Step(Reading(Again4, 1, []), Request(cd, '4', Dotted(ip), port, accept))
  {
    One(Reading(User4(cd, port, ip, user), 1, []), 0, accept);
  }

  lemma HostEnds(cd: byte, port: nat, ip: nat, user: nat, host: seq<byte>, accept: bool)
    requires 0 !in host
    ensures FeedAll(Reading(Host4(cd, port, ip, user, host), 1, []), [0], accept)
         == Step(Reading(Again4, 1, []), Request(cd, 'D', CString(host, 255), port, accept))
  {
    One(Reading(Host4(cd, port, ip, user, host), 1, []), 0, accept);
  }

  lemma UserRead(cd: byte, port: nat, ip: nat, user: seq<byte>, accept: bool)
    requires port < 0x1_0000 && ip < 0x1_0000_0000 && 0 !in user
    ensures FeedAll(START, Head4Bytes(cd, port, ip) + user, accept) == Expect(User4(cd, port, ip, |user|), 1)
  {
    hide FeedAll, Complete;
    Head4Parses(cd, port, ip, accept);
    UserParses(cd, port, ip, 0, user, accept);
    Then(START, Head4Bytes(cd, port, ip), Expect(User4(cd, port, ip, 0), 1), user,
        Expect(User4(cd, port, ip, |user|), 1), accept);
  }

  /**
  A version 4 request: nothing happens before its last byte, and that byte makes
  the request, with the address and port encoded.
  */
  lemma Version4(cd: byte, port: nat, ip: nat, user: seq<byte>, accept: bool)
    requires port < 0x1_0000 && ip < 0x1_0000_0000 && !Is4A(ip) && 0 !in user
    ensures FeedAll(START, Head4Bytes(cd, port, ip) + user, accept).events == []
    ensures FeedAll(START, Head4Bytes(cd, port, ip) + user + [0], accept)
         == Step(Reading(Again4, 1, []), Request(cd, '4', Dotted(ip), port, accept))
  {
    hide FeedAll, Complete, Head4Bytes;
    UserRead(cd, port, ip, user, accept);
    UserEnds(cd, port, ip, |user|, accept);
    Then(START, Head4Bytes(cd, port, ip) + user, Expect(User4(cd, port, ip, |user|), 1), [0],
         Step(Reading(Again4, 1, []), Request(cd, '4', Dotted(ip), port, accept)), accept);
  }

  lemma DottedSays(ip: nat)
    ensures Dotted(ip) != []
  {
    assert 46 in Dotted(ip);
  }

  /** A version 4A request names its host; up to 255 bytes of it reach the delegate. */
  lemma Version4A(cd: byte, port: nat, ip: nat, user: seq<byte>, host: seq<byte>, accept: bool)
    requires port < 0x1_0000 && Is4A(ip) && 0 !in user && 0 !in host
    ensures FeedAll(START, Head4Bytes(cd, port, ip) + user + [0] + host, accept).events == []
    ensures FeedAll(START, Head4Bytes(cd, port, ip) + user + [0] + host + [0], accept)
         == Step(Reading(Again4, 1, []), Request(cd, 'D', CString(host, 255), port, accept))
  {
    hide FeedAll, Complete, Head4Bytes, CString;
    UserRead(cd, port, ip, user, accept);
    UserEnds(cd, port, ip, |user|, accept);
    HostParses(cd, port, ip, |user| + 1, [], host, accept);
    assert [] + host == host;
    HostEnds(cd, port, ip, |user| + 1, host, accept);
    var named := Expect(Host4(cd, port, ip, |user| + 1, []), 1);
    var full := Expect(Host4(cd, port, ip, |user| + 1, host), 1);
    Then(START, Head4Bytes(cd, port, ip) + user, Expect(User4(cd, port, ip, |user|), 1), [0], named, accept);
    Then(START, Head4Bytes(cd, port, ip) + user + [0], named, host, full, accept);
    Then(START, Head4Bytes(cd, port, ip) + user + [0] + host, full, [0],
         Step(Reading(Again4, 1, []), Request(cd, 'D', CString(host, 255), port, accept)), accept);
  }

  function Greeting5(methods: seq<byte>): seq<byte>
    requires |methods| < 256
  {
    [5, |methods|] + methods
  }

  /** The greeting of version 5: answered at its last byte, with method 0 exactly when it is offered. */
  lemma Negotiation(methods: seq<byte>, accept: bool)
    requires 0 < |methods| < 256
    ensures FeedAll(START, Greeting5(methods), accept)
         == if 0 in methods then Step(OPEN5, [Reply([5, 0])])
            else Step(Reading(Refused5, 1, []), [Reply([5, 255]), WriteShutdown])
  {
    hide FeedAll, Request, Host5, BigEndian, CString;
    assert Greeting5(methods) == [5] + ([|methods|] + methods);
    FeedConcat(START, [5], [|methods|] + methods, accept);
    One(START, 5, accept);
    FeedConcat(Reading(Count5, 1, []), [|methods|], methods, accept);
    One(Reading(Count5, 1, []), |methods|, accept);
    Finishes(Reading(Methods5, |methods|, []), methods, accept);
    assert [] + methods == methods;
  }

  /** The address as a version 5 request carries it. */
  predicate Address(atyp: byte, addr: seq<byte>) {
    (atyp == 1 && |addr| == 4) || (atyp == 4 && |addr| == 16) || (atyp == 3 && 0 < |addr| < 256)
  }

  function Request5(cd: byte, atyp: byte, addr: seq<byte>, port: nat): seq<byte>
    requires Address(atyp, addr)
  {
    [5, cd, 0, atyp] + (if atyp == 3 then [|addr|] else []) + addr + ToBigEndian(2, port)
  }

  const OPEN5: State := Reading(Version5, 1, [])

  lemma Head5Parses(cd: byte, atyp: byte, accept: bool)
    requires atyp == 1 || atyp == 3 || atyp == 4
    ensures FeedAll(OPEN5, [5, cd, 0, atyp], accept)
         == if atyp == 3 then Expect(Length5(cd), 1) else Expect(Address5(cd, atyp), if atyp == 1 then 4 else 16)
  {
    One(OPEN5, 5, accept);
    Finishes(Reading(Head5, 3, []), [cd, 0, atyp], accept);
    assert [] + [cd, 0, atyp] == [cd, 0, atyp] && [5] + [cd, 0, atyp] == [5, cd, 0, atyp];
    Then(OPEN5, [5], Expect(Head5, 3), [cd, 0, atyp], Complete(Head5, [cd, 0, atyp], accept), accept);
  }

  lemma NameParses(cd: byte, name: seq<byte>, accept: bool)
    requires 0 < |name| < 256
    ensures FeedAll(Reading(Length5(cd), 1, []), [|name|] + name, accept) == Expect(Port5(cd, 3, name), 2)
  {
    One(Reading(Length5(cd), 1, []), |name|, accept);
    Finishes(Reading(Name5(cd), |name|, []), name, accept);
    assert [] + name == name;
    Then(Reading(Length5(cd), 1, []), [|name|], Expect(Name5(cd), |name|), name, Expect(Port5(cd, 3, name), 2), accept);
  }

  lemma AddressParses(cd: byte, atyp: byte, addr: seq<byte>, accept: bool)
    requires Address(atyp, addr)
    ensures FeedAll(OPEN5, [5, cd, 0, atyp] + ((if atyp == 3 then [|addr|] else []) + addr), accept)
         == Expect(Port5(cd, atyp, addr), 2)
  {
    Head5Parses(cd, atyp, accept);
    if atyp == 3 {
      NameParses(cd, addr, accept);
      Then(OPEN5, [5, cd, 0, atyp], Expect(Length5(cd), 1), [|addr|] + addr, Expect(Port5(cd, atyp, addr), 2), accept);
    } else {
      Finishes(Reading(Address5(cd, atyp), |addr|, []), addr, accept);
      assert [] + addr == addr;
      Then(OPEN5, [5, cd, 0, atyp], Expect(Address5(cd, atyp), |addr|), addr, Expect(Port5(cd, atyp, addr), 2), accept);
    }
  }

  lemma PortParses(cd: byte, atyp: byte, addr: seq<byte>, port: nat, accept: bool)
    requires Address(atyp, addr) && port < 0x1_0000
    ensures var at := Reading(Port5(cd, atyp, addr), 2, []);
            && FeedAll(at, [ToBigEndian(2, port)[0]], accept).events == []
            && FeedAll(at, ToBigEndian(2, port), accept)
               == Step(OPEN5, Request(cd, Type5(atyp), Host5(atyp, addr), port, accept))
  {
    hide Host5, Request;
    var at := Reading(Port5(cd, atyp, addr), 2, []);
    var tail := ToBigEndian(2, port);
    Finishes(at, tail, accept);
    assert [] + tail == tail && Pow256(2) == 0x1_0000;
    BigEndianInverse(2, port);
    One(at, tail[0], accept);
  }

  /**
  A version 5 exchange: the greeting is answered, and nothing more happens until
  the last byte of the request makes it.
  */
  lemma Version5Exchange(methods: seq<byte>, cd: byte, atyp: byte, addr: seq<byte>, port: nat, accept: bool)
    requires 0 < |methods| < 256 && 0 in methods && Address(atyp, addr) && port < 0x1_0000
    ensures var all := Greeting5(methods) + Request5(cd, atyp, addr, port);
            && FeedAll(START, all[..|all| - 1], accept).events == [Reply([5, 0])]
            && FeedAll(START, all, accept)
               == Step(OPEN5, [Reply([5, 0])] + Request(cd, Type5(atyp), Host5(atyp, addr), port, accept))
  {
    hide FeedAll, Complete, Host5, Request;
    var head := [5, cd, 0, atyp] + ((if atyp == 3 then [|addr|] else []) + addr);
    var tail := ToBigEndian(2, port);
    var all := Greeting5(methods) + Request5(cd, atyp, addr, port);
    var greeted := Step(OPEN5, [Reply([5, 0])]);
    var asked := Step(Reading(Port5(cd, atyp, addr), 2, []), [Reply([5, 0])]);
    Negotiation(methods, accept);
    AddressParses(cd, atyp, addr, accept);
    PortParses(cd, atyp, addr, port, accept);
    Then(START, Greeting5(methods), greeted, head, Expect(Port5(cd, atyp, addr), 2), accept);
    assert greeted.events + [] == asked.events;
    Then(START, Greeting5(methods) + head, asked, tail,
        Step(OPEN5, Request(cd, Type5(atyp), Host5(atyp, addr), port, accept)), accept);
    Then(START, Greeting5(methods) + head, asked, [tail[0]], FeedAll(asked.next, [tail[0]], accept), accept);
    assert all == Greeting5(methods) + head + tail;
    assert all[..|all| - 1] == Greeting5(methods) + head + [tail[0]];
  }

  lemma {:induction false} ClosedStays(bytes: seq<byte>, accept: bool)
    ensures FeedAll(Closed, bytes, accept) == Step(Closed, [])
    decreases |bytes|
  {
    if bytes != [] { ClosedStays(bytes[1..], accept); }
  }
}
