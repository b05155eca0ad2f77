/**
Whole SOCKS exchanges: requests whose size a client can check reach the delegate as
exactly one connect, however recv cuts them; and the one input the parser cannot read.
*/
module SocksExchanges {
  import opened Bytes
  import opened Vecs
  import opened SocksSpec
  import opened SocksAddresses
  import opened Socks

  // ---------------------------------------------------------------------------
  // The host name of no bytes
  // ---------------------------------------------------------------------------

  /**
  The length of the version 5 request at the start of b, or zero if its address type is unknown or
  its name empty.
  */
  function RequestLength(b: seq<byte>): nat
    requires |b| >= 5
  {
    if b[3] == 1 then 10 else if b[3] == 4 then 22 else if b[3] == 3 && b[4] != 0 then 7 + b[4] as int else 0
  }

  /** Among the requests in b is one that names a host of no bytes, behind requests that are complete. */
  predicate HangsOpen(b: seq<byte>)
    decreases |b|
  {
    |b| >= 5 &&
    if b[3] == 3 && b[4] == 0 then true
    else RequestLength(b) > 0 && RequestLength(b) <= |b| && HangsOpen(b[RequestLength(b)..])
  }

  /** A version 5 greeting that offers method 0, and behind it a request that names a host of no bytes. */
  predicate Hangs(input: seq<byte>) {
    && |input| >= 2 && input[0] == 5 && input[1] > 0 && 2 + input[1] as int <= |input|
    && 0 in input[2..2 + input[1]]
    && HangsOpen(input[2 + input[1]..])
  }

  lemma {:induction false} StuckStays(bytes: seq<byte>, accept: bool)
    ensures FeedAll(Stuck, bytes, accept) == Step(Stuck, [])
    decreases |bytes|
  {
    if bytes != [] { StuckStays(bytes[1..], accept); }
  }

  /** A phase that is not finished is not stuck; one that is goes on where it leads. */
  lemma PhaseRuns(st: State, bytes: seq<byte>, accept: bool)
    requires Sized(st) && st.Reading? && st.got == []
    ensures |bytes| < st.need ==> FeedAll(st, bytes, accept) == Step(Reading(st.phase, st.need, bytes), [])
    ensures |bytes| >= st.need ==>
              FeedAll(st, bytes, accept).next
              == FeedAll(Complete(st.phase, bytes[..st.need], accept).next, bytes[st.need..], accept).next
    ensures |bytes| >= st.need ==> Sized(Complete(st.phase, bytes[..st.need], accept).next)
  {
    hide Complete, FeedAll;
    if |bytes| < st.need {
      Collects(st, bytes, accept);
      assert [] + bytes == bytes;
    } else {
      var a, b := bytes[..st.need], bytes[st.need..];
      assert bytes == a + b && [] + a == a;
      Finishes(st, a, accept);
      FeedConcat(st, a, b, accept);
    }
  }

  lemma {:induction false} OpenHangs(b: seq<byte>, accept: bool)
    ensures FeedAll(OPEN5, b, accept).next == Stuck <==> HangsOpen(b)
    decreases |b|, 4
  {
    hide FeedAll;
    PhaseRuns(OPEN5, b, accept);
    if |b| >= 1 {
      assert Complete(Version5, b[..1], accept) == Expect(Head5, 3);
      HeadHangs(b, accept);
    }
  }

  lemma {:induction false} HeadHangs(b: seq<byte>, accept: bool)
    requires |b| >= 1
    ensures FeedAll(Reading(Head5, 3, []), b[1..], accept).next == Stuck <==> HangsOpen(b)
    decreases |b|, 3
  {
    hide FeedAll;
    PhaseRuns(Reading(Head5, 3, []), b[1..], accept);
    if |b| >= 4 {
      var head := b[1..][..3];
      assert head[2] == b[3] && b[1..][3..] == b[4..];
      if b[3] == 1 {
        AddressHangs(b, head[0], 1, accept);
      } else if b[3] == 4 {
        AddressHangs(b, head[0], 4, accept);
      } else if b[3] == 3 {
        NameHangs(b, head[0], accept);
      } else {
        ClosedStays(b[4..], accept);
      }
    }
  }

  lemma {:induction false} AddressHangs(b: seq<byte>, cd: byte, atyp: byte, accept: bool)
    requires |b| >= 4 && b[3] == atyp && (atyp == 1 || atyp == 4)
    ensures var n := if atyp == 1 then 4 else 16;
            FeedAll(Reading(Address5(cd, atyp), n, []), b[4..], accept).next == Stuck <==> HangsOpen(b)
    decreases |b|, 2
  {
    hide FeedAll;
    var n := if atyp == 1 then 4 else 16;
    PhaseRuns(Reading(Address5(cd, atyp), n, []), b[4..], accept);
    if |b| >= 4 + n {
      assert b[4..][n..] == b[4 + n..];
      PortHangs(b, 4 + n, Port5(cd, atyp, b[4..][..n]), accept);
    }
  }

  lemma {:induction false} NameHangs(b: seq<byte>, cd: byte, accept: bool)
    requires |b| >= 4 && b[3] == 3
    ensures FeedAll(Reading(Length5(cd), 1, []), b[4..], accept).next == Stuck <==> HangsOpen(b)
    decreases |b|, 2
  {
    hide FeedAll;
    PhaseRuns(Reading(Length5(cd), 1, []), b[4..], accept);
    if |b| >= 5 {
      var n: nat := b[4];
      assert b[4..][..1] == [n] && b[4..][1..] == b[5..];
      if n == 0 {
        StuckStays(b[5..], accept);
      } else {
        PhaseRuns(Reading(Name5(cd), n, []), b[5..], accept);
        if |b| >= 5 + n {
          assert b[5..][n..] == b[5 + n..];
          PortHangs(b, 5 + n, Port5(cd, 3, b[5..][..n]), accept);
        }
      }
    }
  }

  lemma {:induction false} PortHangs(b: seq<byte>, at: nat, p: Phase, accept: bool)
    requires 5 <= at <= |b| && RequestLength(b) == at + 2 && p.Port5? && Sized(Reading(p, 2, []))
    ensures FeedAll(Reading(p, 2, []), b[at..], accept).next == Stuck <==> HangsOpen(b)
    decreases |b|, 1
  {
    hide FeedAll, Host5, Request, BigEndian;
    PhaseRuns(Reading(p, 2, []), b[at..], accept);
    if |b| >= at + 2 {
      assert b[at..][2..] == b[at + 2..];
      OpenHangs(b[at + 2..], accept);
    }
  }

  /** The parser gets stuck on exactly the inputs that name a host of no bytes in a version 5 request it reads. */
  lemma StuckExactly(input: seq<byte>, accept: bool)
    ensures FeedAll(START, input, accept).next == Stuck <==> Hangs(input)
  {
    hide FeedAll, HangsOpen;
    PhaseRuns(START, input, accept);
    if input != [] {
      var rest := input[1..];
      assert input[..1] == [input[0]];
      if input[0] == 5 {
        GreetingHangs(input, accept);
      } else if input[0] == 4 {
        FourNeverStuck(Reading(Head4, 7, []), rest, accept);
      } else {
        ClosedStays(rest, accept);
      }
    }
  }

  lemma GreetingHangs(input: seq<byte>, accept: bool)
    requires input != [] && input[0] == 5
    ensures FeedAll(Reading(Count5, 1, []), input[1..], accept).next == Stuck <==> Hangs(input)
  {
    hide FeedAll, HangsOpen;
    PhaseRuns(Reading(Count5, 1, []), input[1..], accept);
    if |input| >= 2 {
      var n := input[1];
      assert input[1..][..1] == [n] && input[1..][1..] == input[2..];
      if n == 0 {
        ClosedStays(input[2..], accept);
      } else {
        MethodsHang(input, n, accept);
      }
    }
  }

  lemma MethodsHang(input: seq<byte>, n: byte, accept: bool)
    requires |input| >= 2 && input[0] == 5 && input[1] == n > 0
    ensures FeedAll(Reading(Methods5, n, []), input[2..], accept).next == Stuck <==> Hangs(input)
  {
    hide FeedAll, HangsOpen;
    PhaseRuns(Reading(Methods5, n, []), input[2..], accept);
    if |input| >= 2 + n {
      assert input[2..][..n] == input[2..2 + n] && input[2..][n..] == input[2 + n..];
      if 0 in input[2..2 + n] {
        OpenHangs(input[2 + n..], accept);
      } else {
        RefusedNeverStuck(input[2 + n..], accept);
      }
    }
  }

  lemma RefusedNeverStuck(b: seq<byte>, accept: bool)
    ensures FeedAll(Reading(Refused5, 1, []), b, accept).next != Stuck
  {
    hide FeedAll;
    PhaseRuns(Reading(Refused5, 1, []), b, accept);
    if b != [] { ClosedStays(b[1..], accept); }
  }

  /** Such an input: one method, and a request for a host of no bytes. */
  lemma EmptyNameIsStuck(accept: bool)
    ensures FeedAll(START, [5, 1, 0] + [5, 1, 0, 3, 0], accept).next == Stuck
  {
    var input: seq<byte> := [5, 1, 0, 5, 1, 0, 3, 0];
    assert [5, 1, 0] + [5, 1, 0, 3, 0] == input;
    assert input[2..3] == [0] && input[3..] == [5, 1, 0, 3, 0];
    StuckExactly(input, accept);
  }

  // ---------------------------------------------------------------------------
  // What fits the frame
  // ---------------------------------------------------------------------------

  predicate In4(st: State) {
    st.Closed? || (st.Reading? && (st.phase.Head4? || st.phase.User4? || st.phase.Host4? || st.phase.Again4?))
  }

  lemma {:induction false} FourNeverStuck(st: State, bytes: seq<byte>, accept: bool)
    requires Sized(st) && In4(st)
    ensures In4(FeedAll(st, bytes, accept).next)
    decreases |bytes|
  {
    if bytes != [] {
      FourStays(st, bytes[0], accept);
      FourNeverStuck(Feed(st, bytes[0], accept).next, bytes[1..], accept);
    }
  }

  lemma FourStays(st: State, b: byte, accept: bool)
    requires Sized(st) && In4(st)
    ensures In4(Feed(st, b, accept).next)
  {
    hide Request, Dotted, CString, BigEndian;
  }

  /** Not a state of version 4. */
  predicate In5(st: State) {
    st.Closed? || st.Stuck? || (st.Reading? && !In4(st))
  }

  lemma {:induction false} FiveStays(st: State, bytes: seq<byte>, accept: bool)
    requires Sized(st) && In5(st) && !(st.Reading? && st.phase.First?)
    ensures In5(FeedAll(st, bytes, accept).next)
    decreases |bytes|
  {
    if bytes != [] {
      FiveStep(st, bytes[0], accept);
      FiveStays(Feed(st, bytes[0], accept).next, bytes[1..], accept);
    }
  }

  lemma FiveStep(st: State, b: byte, accept: bool)
    requires Sized(st) && In5(st) && !(st.Reading? && st.phase.First?)
    ensures var next := Feed(st, b, accept).next; In5(next) && !(next.Reading? && next.phase.First?)
  {
    hide Request, Host5, BigEndian;
  }

  /** A version 5 phase always fits. */
  lemma FiveFits(st: State)
    requires Sized(st) && st != Stuck && In5(st)
    ensures Fits(st)
  {
  }

  lemma OtherVersions(a: seq<byte>, accept: bool)
    requires a == [] || a[0] != 4
    ensures In5(FeedAll(START, a, accept).next)
  {
    hide FeedAll;
    PhaseRuns(START, a, accept);
    if a != [] {
      assert a[..1] == [a[0]];
      FiveStays(Complete(First, [a[0]], accept).next, a[1..], accept);
    }
  }

  /** Other versions outgrow nothing: they fit until they are stuck. */
  lemma OtherFits(input: seq<byte>, k: nat, accept: bool)
    requires k <= |input| && (input == [] || input[0] != 4)
    ensures Fits(FeedAll(START, input[..k], accept).next) || FeedAll(START, input, accept).next == Stuck
  {
    hide FeedAll, Fits;
    var a, b := input[..k], input[k..];
    assert input == a + b;
    var st := FeedAll(START, a, accept).next;
    FeedConcat(START, a, b, accept);
    OtherVersions(a, accept);
    if st == Stuck { StuckStays(b, accept); } else { FiveFits(st); }
  }

  /** The first NUL of b from byte number i on, or its end. */
  function Nul(b: seq<byte>, i: nat): (z: nat)
    requires i <= |b|
    ensures i <= z <= |b| && (forall j :: i <= j < z ==> b[j] != 0) && (z < |b| ==> b[z] == 0)
    decreases |b| - i
  {
    if i == |b| || b[i] == 0 then i else Nul(b, i + 1)
  }

  /** The address of a version 4 request. */
  function Ip4(input: seq<byte>): nat
    requires |input| >= 8
  {
    BigEndian(input[4..8])
  }

  /**
  A version 4 request whose user id, or whose user id and host name together, grow the
  vector that holds them over the descriptors at the end of the frame.
  */
  predicate Outgrows(input: seq<byte>) {
    && |input| >= 8 && input[0] == 4
    && (var z := Nul(input, 8);
        || z + 1 > Space(3)
        || (z < |input| && Is4A(Ip4(input)) && Nul(input, z + 1) + 1 > Space(4)))
  }

  /** The state behind the head of a version 4 request and user bytes of its user id. */
  function InUser(input: seq<byte>, user: nat): State
    requires |input| >= 8
  {
    Reading(User4(input[1], BigEndian(input[2..4]), Ip4(input), user), 1, [])
  }

  function InHost(input: seq<byte>, user: nat, host: seq<byte>): State
    requires |input| >= 8
  {
    Reading(Host4(input[1], BigEndian(input[2..4]), Ip4(input), user, host), 1, [])
  }

  lemma HeadSlices(input: seq<byte>)
    requires |input| >= 8 && input[0] == 4
    ensures input[..8][..1] == [4] && input[..8][1..] == input[1..8]
    ensures input[1..8][1..3] == input[2..4] && input[1..8][3..7] == input[4..8]
    ensures input[1..8][..7] == input[1..8] && input[1..8][7..] == [] && input[1..8][0] == input[1]
  {
  }

  lemma AtHead(input: seq<byte>, accept: bool)
    requires |input| >= 8 && input[0] == 4
    ensures FeedAll(START, input[..8], accept).next == InUser(input, 0)
  {
    hide FeedAll, BigEndian;
    HeadSlices(input);
    PhaseRuns(START, input[..8], accept);
    PhaseRuns(Reading(Head4, 7, []), input[1..8], accept);
    FeedNothing(InUser(input, 0), accept);
  }

  lemma AtUser(input: seq<byte>, k: nat, accept: bool)
    requires |input| >= 8 && input[0] == 4 && 8 <= k <= Nul(input, 8)
    ensures FeedAll(START, input[..k], accept).next == InUser(input, k - 8)
  {
    hide FeedAll, BigEndian;
    AtHead(input, accept);
    assert input[..k] == input[..8] + input[8..k];
    FeedConcat(START, input[..8], input[8..k], accept);
    UserParses(input[1], BigEndian(input[2..4]), Ip4(input), 0, input[8..k], accept);
  }

  lemma AtHost(input: seq<byte>, k: nat, accept: bool)
    requires |input| >= 8 && input[0] == 4 && Nul(input, 8) < |input| && Is4A(Ip4(input))
    requires Nul(input, 8) + 1 <= k <= Nul(input, Nul(input, 8) + 1)
    ensures FeedAll(START, input[..k], accept).next == InHost(input, Nul(input, 8) - 7, input[Nul(input, 8) + 1..k])
  {
    hide FeedAll, BigEndian, Nul;
    var z := Nul(input, 8);
    AtUser(input, z, accept);
    FeedOne(input, z, accept);
    assert Feed(InUser(input, z - 8), input[z], accept).next == InHost(input, z - 7, []);
    var host := input[z + 1..k];
    assert input[..k] == input[..z + 1] + host;
    FeedConcat(START, input[..z + 1], host, accept);
    HostParses(input[1], BigEndian(input[2..4]), Ip4(input), z - 7, [], host, accept);
    assert [] + host == host;
  }

  lemma FeedOne(input: seq<byte>, k: nat, accept: bool)
    requires k < |input|
    ensures var st := FeedAll(START, input[..k], accept).next;
            FeedAll(START, input[..k + 1], accept).next == Feed(st, input[k], accept).next
  {
    hide Feed, FeedAll;
    assert input[..k + 1] == input[..k] + [input[k]];
    FeedConcat(START, input[..k], [input[k]], accept);
    One(FeedAll(START, input[..k], accept).next, input[k], accept);
  }

  /** Behind the request nothing but failure follows. */
  lemma BehindFits(input: seq<byte>, from: nat, k: nat, accept: bool)
    requires from <= k <= |input| && FeedAll(START, input[..from], accept).next == Reading(Again4, 1, [])
    ensures Fits(FeedAll(START, input[..k], accept).next)
  {
    hide FeedAll;
    var rest := input[from..k];
    assert input[..k] == input[..from] + rest;
    FeedConcat(START, input[..from], rest, accept);
    PhaseRuns(Reading(Again4, 1, []), rest, accept);
    if rest != [] { ClosedStays(rest[1..], accept); }
  }

  lemma RequestEnds(input: seq<byte>, accept: bool)
    requires |input| >= 8 && input[0] == 4 && Nul(input, 8) < |input|
    ensures !Is4A(Ip4(input)) ==> FeedAll(START, input[..Nul(input, 8) + 1], accept).next == Reading(Again4, 1, [])
    ensures var n := Nul(input, Nul(input, 8) + 1);
            Is4A(Ip4(input)) && n < |input| ==>
              FeedAll(START, input[..n + 1], accept).next == Reading(Again4, 1, [])
  {
    hide FeedAll, BigEndian, Nul;
    var z := Nul(input, 8);
    AtUser(input, z, accept);
    FeedOne(input, z, accept);
    var n := Nul(input, z + 1);
    if Is4A(Ip4(input)) && n < |input| {
      AtHost(input, n, accept);
      FeedOne(input, n, accept);
    }
  }

  lemma HeadFits(input: seq<byte>, k: nat, accept: bool)
    requires k <= |input| && k < 8 && input != [] && input[0] == 4
    ensures Fits(FeedAll(START, input[..k], accept).next)
  {
    hide FeedAll;
    var a := input[..k];
    PhaseRuns(START, a, accept);
    if k > 0 {
      assert a[..1] == [4];
      PhaseRuns(Reading(Head4, 7, []), a[1..], accept);
    }
  }

  /** A version 4 request fits at every byte exactly when it does not outgrow the frame. */
  lemma FourFits(input: seq<byte>, k: nat, accept: bool)
    requires k <= |input| && input != [] && input[0] == 4 && !Outgrows(input)
    ensures Fits(FeedAll(START, input[..k], accept).next)
  {
    hide FeedAll, BigEndian, Nul;
    if k < 8 {
      HeadFits(input, k, accept);
    } else {
      var z := Nul(input, 8);
      if k <= z {
        AtUser(input, k, accept);
      } else {
        RequestEnds(input, accept);
        if !Is4A(Ip4(input)) {
          BehindFits(input, z + 1, k, accept);
        } else if k <= Nul(input, z + 1) {
          AtHost(input, k, accept);
        } else {
          BehindFits(input, Nul(input, z + 1) + 1, k, accept);
        }
      }
    }
  }

  lemma OutgrowsSomewhere(input: seq<byte>, accept: bool)
    requires Outgrows(input)
    ensures exists k :: 0 <= k <= |input| && !Fits(FeedAll(START, input[..k], accept).next)
  {
    hide FeedAll, BigEndian, Nul;
    var z := Nul(input, 8);
    if z + 1 > Space(3) {
      AtUser(input, z, accept);
      assert !Fits(FeedAll(START, input[..z], accept).next);
    } else {
      var n := Nul(input, z + 1);
      AtHost(input, n, accept);
      assert !Fits(FeedAll(START, input[..n], accept).next);
    }
  }

  /**
  The inputs the parser reads within its frame, of all inputs: no version 5 request in it
  names a host of no bytes, and no version 4 request outgrows the frame.
  */
  lemma FitsExactly(input: seq<byte>, accept: bool)
    ensures (forall k :: 0 <= k <= |input| ==> Fits(FeedAll(START, input[..k], accept).next)) <==>
            !Hangs(input) && !Outgrows(input)
  {
    hide FeedAll, Fits, Hangs, Outgrows;
    StuckExactly(input, accept);
    assert input[..|input|] == input;
    StuckDoesNotFit();
    if Outgrows(input) {
      OutgrowsSomewhere(input, accept);
    } else if !Hangs(input) {
      forall k | 0 <= k <= |input| ensures Fits(FeedAll(START, input[..k], accept).next) {
        if input == [] || input[0] != 4 { OtherFits(input, k, accept); } else { FourFits(input, k, accept); }
      }
    }
  }

  lemma StuckDoesNotFit()
    ensures !Fits(Stuck)
  {
  }

  /** A user id as long as the frame: its last bytes are stored over the descriptors. */
  lemma LongUserOutgrows(n: nat)
    requires n + 9 > Space(3)
    ensures Outgrows([4, 1, 0, 80, 10, 0, 0, 1] + seq(n, _ => 120))
  {
    hide BigEndian;
    var input: seq<byte> := [4, 1, 0, 80, 10, 0, 0, 1] + seq(n, _ => 120);
    assert forall j :: 8 <= j < |input| ==> input[j] == 120;
    assert Nul(input, 8) == |input|;
  }

  // ---------------------------------------------------------------------------
  // Exchanges
  // ---------------------------------------------------------------------------

  /** A connection from its first byte on, cut by recv as it likes. */
  method Serve(parser: Parser, input: seq<byte>)
    requires parser.At(START) && parser.out == [] && !Hangs(input) && !Outgrows(input)
    modifies parser
    ensures parser.At(FeedAll(START, input, parser.accept).next)
    ensures parser.out == FeedAll(START, input, parser.accept).events
  {
    hide FeedAll, Fits, Hangs, Outgrows;
    FitsExactly(input, parser.accept);
    parser.ReadAll(input);
  }

  lemma HeadIp(cd: byte, port: nat, ip: nat, rest: seq<byte>)
    requires port < 0x1_0000 && ip < 0x1_0000_0000
    ensures var input := Head4Bytes(cd, port, ip) + rest; input[0] == 4 && |input| == 8 + |rest| && Ip4(input) == ip
  {
    var input := Head4Bytes(cd, port, ip) + rest;
    assert input[4..8] == ToBigEndian(4, ip);
    assert Pow256(2) == 0x1_0000 && Pow256(4) == Pow256(2) * 0x1_0000;
    BigEndianInverse(4, ip);
  }

  lemma NulIs(b: seq<byte>, i: nat, z: nat)
    requires i <= z < |b| && b[z] == 0 && forall j :: i <= j < z ==> b[j] != 0
    ensures Nul(b, i) == z
  {
    hide Nul;
  }

  lemma Request4Fits(cd: byte, port: nat, ip: nat, user: seq<byte>)
    requires port < 0x1_0000 && ip < 0x1_0000_0000 && !Is4A(ip) && 0 !in user && |user| + 9 <= Space(3)
    ensures !Outgrows(Head4Bytes(cd, port, ip) + user + [0]) && !Hangs(Head4Bytes(cd, port, ip) + user + [0])
  {
    hide Nul, HangsOpen, Head4Bytes;
    var input := Head4Bytes(cd, port, ip) + user + [0];
    assert input == Head4Bytes(cd, port, ip) + (user + [0]);
    HeadIp(cd, port, ip, user + [0]);
    assert forall j :: 8 <= j < 8 + |user| ==> input[j] == user[j - 8] && user[j - 8] in user;
    NulIs(input, 8, 8 + |user|);
  }

  lemma Request4AFits(cd: byte, port: nat, ip: nat, user: seq<byte>, host: seq<byte>)
    requires port < 0x1_0000 && Is4A(ip) && 0 !in user && 0 !in host && |user| + |host| + 10 <= Space(4)
    ensures var input := Head4Bytes(cd, port, ip) + user + [0] + host + [0]; !Outgrows(input) && !Hangs(input)
  {
    hide Nul, HangsOpen, Head4Bytes;
    var input := Head4Bytes(cd, port, ip) + user + [0] + host + [0];
    assert input == Head4Bytes(cd, port, ip) + (user + [0] + host + [0]);
    HeadIp(cd, port, ip, user + [0] + host + [0]);
    var z := 8 + |user|;
    assert forall j :: 8 <= j < z ==> input[j] == user[j - 8] && user[j - 8] in user;
    NulIs(input, 8, z);
    assert forall j :: z + 1 <= j < z + 1 + |host| ==> input[j] == host[j - z - 1] && host[j - z - 1] in host;
    NulIs(input, z + 1, z + 1 + |host|);
  }

  /**
  A version 4 request: the address that the connect names, in decimal numbers, has the octets of
  the request, and the port is that of its two bytes.
  */
  method Serve4(parser: Parser, input: seq<byte>, ghost cd: byte, ghost hi: byte, ghost lo: byte,
                ghost octets: seq<byte>, ghost user: seq<byte>)
    returns (ghost host: seq<byte>)
    requires parser.At(START) && parser.out == []
    requires |octets| == 4 && !(octets[..3] == [0, 0, 0] && octets[3] != 0) && 0 !in user && |user| + 9 <= Space(3)
    requires input == [4, cd, hi, lo] + octets + user + [0]
    modifies parser
    ensures Numerals(host) && Numbers(host) == octets
    ensures parser.out == Outcome(cd, '4', host, 256 * hi as int + lo as int, parser.accept)
  {
    hide FeedAll, Parser.At, Dotted, BigEndian, Head4Bytes, Is4A, Request, Outcome, Numbers, Numerals;
    ghost var port, ip := 256 * hi as int + lo as int, BigEndian(octets);
    host := Dotted(ip);
    HeadIs(cd, hi, lo, octets);
    DottedReads(octets);
    DottedSays(ip);
    Version4(cd, port, ip, user, parser.accept);
    RequestComesTo(cd, '4', host, port, parser.accept);
    Request4Fits(cd, port, ip, user);
    Serve(parser, input);
  }

  /** A version 4A request, of any name that holds no NUL; the connect gets the first 255 bytes of the name. */
  method Serve4A(parser: Parser, input: seq<byte>, ghost cd: byte, ghost hi: byte, ghost lo: byte, ghost last: byte,
                 ghost user: seq<byte>, ghost host: seq<byte>)
    requires parser.At(START) && parser.out == []
    requires last != 0 && 0 !in user && 0 !in host && |user| + |host| + 10 <= Space(4)
    requires input == [4, cd, hi, lo] + [0, 0, 0, last] + user + [0] + host + [0]
    modifies parser
    ensures var name := if |host| <= 255 then host else host[..255];
            parser.out == if host == [] then REFUSED
                          else Outcome(cd, 'D', name, 256 * hi as int + lo as int, parser.accept)
  {
    hide FeedAll, Parser.At, CString, BigEndian, Head4Bytes, Is4A, Request, Outcome;
    ghost var octets: seq<byte> := [0, 0, 0, last];
    ghost var port, ip := 256 * hi as int + lo as int, BigEndian(octets);
    HeadIs(cd, hi, lo, octets);
    Version4A(cd, port, ip, user, host, parser.accept);
    CStringIs(host, 255);
    NameKept(host, 255);
    RequestComesTo(cd, 'D', CString(host, 255), port, parser.accept);
    Request4AFits(cd, port, ip, user, host);
    Serve(parser, input);
  }

  /** A name without a NUL is cut only for its length. */
  lemma NameKept(name: seq<byte>, max: nat)
    requires 0 !in name
    ensures CString(name, max) == if |name| <= max then name else name[..max]
  {
    CStringIs(name, max);
    var s := CString(name, max);
    assert s == name[..|s|];
  }

  lemma FiveDoesNotOutgrow(input: seq<byte>)
    requires input == [] || input[0] != 4
    ensures !Outgrows(input)
  {
  }

  /** The greeting and the head of a version 5 request. */
  function Opening5(methods: seq<byte>, cd: byte, atyp: byte): seq<byte>
    requires |methods| < 256
  {
    [5, |methods|] + methods + [5, cd, 0, atyp]
  }

  /** Any version 5 exchange, in terms of the request that its last byte makes. */
  method Serve5(parser: Parser, input: seq<byte>, ghost methods: seq<byte>, ghost cd: byte, ghost atyp: byte,
                ghost addr: seq<byte>, ghost hi: byte, ghost lo: byte)
    requires parser.At(START) && parser.out == []
    requires 0 < |methods| < 256 && 0 in methods && Address(atyp, addr)
    requires input == Opening5(methods, cd, atyp) + (if atyp == 3 then [|addr|] else []) + addr + [hi, lo]
    modifies parser
    ensures parser.out == [Reply([5, 0])]
                          + Request(cd, Type5(atyp), Host5(atyp, addr), 256 * hi as int + lo as int, parser.accept)
  {
    hide FeedAll, Parser.At, Host5, Type5, Request, Hangs;
    ghost var port := 256 * hi as int + lo as int;
    TwoBytes(hi, lo);
    assert input == Greeting5(methods) + Request5(cd, atyp, addr, port);
    Version5Exchange(methods, cd, atyp, addr, port, parser.accept);
    StuckExactly(input, parser.accept);
    FiveDoesNotOutgrow(input);
    Serve(parser, input);
  }

  /** A version 5 request for a version 4 address. */
  method Serve5Four(parser: Parser, input: seq<byte>, ghost methods: seq<byte>, ghost cd: byte,
                    ghost octets: seq<byte>, ghost hi: byte, ghost lo: byte)
    returns (ghost host: seq<byte>)
    requires parser.At(START) && parser.out == []
    requires 0 < |methods| < 256 && 0 in methods && |octets| == 4
    requires input == Opening5(methods, cd, 1) + octets + [hi, lo]
    modifies parser
    ensures Numerals(host) && Numbers(host) == octets
    ensures parser.out == [Reply([5, 0])] + Outcome(cd, '4', host, 256 * hi as int + lo as int, parser.accept)
  {
    hide Parser.At, Dotted, BigEndian, Request, Outcome, Numbers, Numerals;
    host := Dotted(BigEndian(octets));
    DottedReads(octets);
    DottedSays(BigEndian(octets));
    RequestComesTo(cd, '4', host, 256 * hi as int + lo as int, parser.accept);
    Empty(Opening5(methods, cd, 1));
    Serve5(parser, input, methods, cd, 1, octets, hi, lo);
  }

  lemma Empty(s: seq<byte>)
    ensures s + [] == s
  {
  }

  /** A version 5 request for a version 6 address: eight groups of four digits, which have its sixteen bytes. */
  method Serve5Six(parser: Parser, input: seq<byte>, ghost methods: seq<byte>, ghost cd: byte,
                   ghost octets: seq<byte>, ghost hi: byte, ghost lo: byte)
    returns (ghost host: seq<byte>)
    requires parser.At(START) && parser.out == []
    requires 0 < |methods| < 256 && 0 in methods && |octets| == 16
    requires input == Opening5(methods, cd, 4) + octets + [hi, lo]
    modifies parser
    ensures Groups(host) && |Split(host, 58)| == 8 && AllBytes(Split(host, 58)) == octets
    ensures parser.out == [Reply([5, 0])] + Outcome(cd, '6', host, 256 * hi as int + lo as int, parser.accept)
  {
    hide Parser.At, Colons, Request, Outcome, AllBytes, Split;
    host := Colons(octets);
    ColonsReads(octets);
    ColonsSay(octets);
    RequestComesTo(cd, '6', host, 256 * hi as int + lo as int, parser.accept);
    Empty(Opening5(methods, cd, 4));
    Serve5(parser, input, methods, cd, 4, octets, hi, lo);
  }

  lemma ColonsSay(b: seq<byte>)
    requires |b| % 2 == 0 && b != []
    ensures Colons(b) != []
  {
    ColonsSnoc(b);
  }

  /** A version 5 request for a host name: its first 254 bytes are kept; one that starts with a NUL is refused. */
  method Serve5Name(parser: Parser, input: seq<byte>, ghost methods: seq<byte>, ghost cd: byte, ghost name: seq<byte>,
                    ghost hi: byte, ghost lo: byte)
    requires parser.At(START) && parser.out == []
    requires 0 < |methods| < 256 && 0 in methods && 0 < |name| < 256
    requires input == Opening5(methods, cd, 3) + [|name|] + name + [hi, lo]
    modifies parser
    ensures name[0] == 0 ==> parser.out == [Reply([5, 0])] + REFUSED
    ensures 0 !in name ==>
        parser.out == [Reply([5, 0])] + Outcome(cd, 'D', if |name| <= 254 then name else name[..254],
                                                256 * hi as int + lo as int, parser.accept)
  {
    hide Parser.At, CString, Request, Outcome;
    CStringIs(name, 254);
    if 0 !in name { NameKept(name, 254); }
    RequestComesTo(cd, 'D', CString(name, 254), 256 * hi as int + lo as int, parser.accept);
    Serve5(parser, input, methods, cd, 3, name, hi, lo);
  }

  /** What is no version 4 or 5 request is not read any further. */
  method ServeOther(parser: Parser, input: seq<byte>)
    requires parser.At(START) && parser.out == []
    requires input != [] && input[0] != 4 && input[0] != 5
    modifies parser
    ensures parser.out == [ReadStop, WriteShutdown]
  {
    hide FeedAll, Parser.At;
    assert input == [input[0]] + input[1..];
    One(START, input[0], parser.accept);
    ClosedStays(input[1..], parser.accept);
    Then(START, [input[0]], FAILURE, input[1..], Step(Closed, []), parser.accept);
    FiveDoesNotOutgrow(input);
    StuckExactly(input, parser.accept);
    Serve(parser, input);
  }

  /** A greeting is answered with method 0 if that is among those offered, and else refused. */
  method Greet5(parser: Parser, input: seq<byte>, ghost methods: seq<byte>)
    requires parser.At(START) && parser.out == []
    requires 0 < |methods| < 256 && input == [5, |methods|] + methods
    modifies parser
    ensures parser.out == if 0 in methods then [Reply([5, 0])] else [Reply([5, 255]), WriteShutdown]
  {
    hide FeedAll, Parser.At;
    Negotiation(methods, parser.accept);
    FiveDoesNotOutgrow(input);
    StuckExactly(input, parser.accept);
    Serve(parser, input);
  }
}
