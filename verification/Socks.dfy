/**
The SOCKS parser (src/proto/socks.c) as a delegate of a stream that reads in
pieces of any size.  It asks for bytes by growing the vectors of its frame.
*/
module Socks {
  import opened Bytes
  import opened Vecs
  import opened SocksSpec

  const ONE: Vec := Vec(0, 1, 1, 1)

  /** Phases that begin with a new frame. */
  predicate Opens(p: Phase) { p.First? || p.Again4? || p.Refused5? || p.Version5? }

  /** The bytes a version 5 address takes in the frame, a length byte included. */
  function Width(atyp: byte, addr: seq<byte>): nat { |addr| + if atyp == 3 then 1 else 0 }

  /** The vectors of the frame when n of the need bytes of phase p are there. */
  function Layout(p: Phase, need: nat, n: nat): (vecs: seq<Vec>)
    ensures vecs != []
  {
    match p
    case Head4 => [ONE, Vec(1, n, 7, 7)]
    case User4(_, _, _, u) => [ONE, Vec(1, 7, 7, 7), Vec(8, u + n, u + 1, u + 1)]
    case Host4(_, _, _, u, host) => [ONE, Vec(1, 7, 7, 7), Vec(8, u, u, u),
        Vec(8 + u, |host| + n, |host| + 1, |host| + 1)]
    case Count5 => [ONE, Vec(1, n, 1, 1)]
    case Methods5 => [ONE, Vec(1, 1, 1, 1), Vec(2, n, need, need)]
    case Head5 => [ONE, Vec(1, n, 3, 3)]
    case Address5(_, _) => [ONE, Vec(1, 3, 3, 3), Vec(4, n, need, need)]
    case Length5(_) => [ONE, Vec(1, 3, 3, 3), Vec(4, n, 1, 1)]
    case Name5(_) => [ONE, Vec(1, 3, 3, 3), Vec(4, 1 + n, 1 + need, 1 + need)]
    case Port5(_, atyp, addr) =>
      var w := Width(atyp, addr);
      [ONE, Vec(1, 3, 3, 3), Vec(4, w, w, w), Vec(4 + w, n, 2, 2)]
    case _ => [Vec(0, n, 1, 1)]
  }

  /** Where in the frame the bytes of phase p begin. */
  function Offset(p: Phase): nat {
    match p
    case Head4 => 1
    case User4(_, _, _, u) => 8 + u
    case Host4(_, _, _, u, host) => 8 + u + |host|
    case Count5 => 1
    case Methods5 => 2
    case Head5 => 1
    case Address5(_, _) => 4
    case Length5(_) => 4
    case Name5(_) => 5
    case Port5(_, atyp, addr) => 4 + Width(atyp, addr)
    case _ => 0
  }

  /** The request, as far as it has come, fits the frame; a host name of no bytes does not parse. */
  predicate Fits(st: State) {
    match st
    case Closed => true
    case Stuck => false
    case Reading(p, need, _) => Offset(p) + need <= Space(|Layout(p, need, 0)|)
  }

  /** The bytes at position at of the frame are b. */
  predicate Holds(data: FrameData, at: nat, b: seq<byte>) {
    at + |b| <= FRAME_SIZE && data[at..at + |b|] == b
  }

  /** Earlier bytes of the frame that are still needed. */
  predicate Remembers(data: FrameData, p: Phase, need: nat) {
    match p
    case Host4(_, _, _, u, host) => Holds(data, 8 + u, host)
    case Name5(_) => data[4] == need
    case Port5(_, atyp, addr) =>
      if atyp == 3 then data[4] == |addr| && Holds(data, 5, addr) else Holds(data, 4, addr)
    case _ => true
  }

  /** memcpy of what recv delivers leaves what lies before it alone. */
  lemma HoldsStill(data: FrameData, at: nat, b: seq<byte>, place: nat, more: seq<byte>)
    requires Holds(data, at, b) && at + |b| <= place && place + |more| <= FRAME_SIZE
    ensures Holds(Splice(data, place, more), at, b)
    ensures forall i :: 0 <= i < place ==> Splice(data, place, more)[i] == data[i]
  {
  }

  lemma HoldsMore(data: FrameData, at: nat, b: seq<byte>, more: seq<byte>)
    requires Holds(data, at, b) && at + |b| + |more| <= FRAME_SIZE
    ensures Holds(Splice(data, at + |b|, more), at, b + more)
  {
  }

  lemma Within(data: FrameData, at: nat, b: seq<byte>, i: nat, j: nat)
    requires Holds(data, at, b) && i <= j <= |b|
    ensures data[at + i..at + j] == b[i..j]
  {
    var held := data[at..at + |b|];
    forall k | i <= k < j ensures data[at + k] == b[k] {
      assert held[k] == data[at + k];
    }
  }

  lemma RemembersStill(data: FrameData, p: Phase, need: nat, place: nat, more: seq<byte>)
    requires Remembers(data, p, need) && Offset(p) <= place && place + |more| <= FRAME_SIZE
    ensures Remembers(Splice(data, place, more), p, need)
  {
    match p
    case Host4(_, _, _, u, host) => HoldsStill(data, 8 + u, host, place, more);
    case Port5(_, atyp, addr) => HoldsStill(data, if atyp == 3 then 5 else 4, addr, place, more);
    case _ =>
  }

  /** What recv adds lies in the last vector, which is full when the phase is. */
  lemma LayoutGrows(p: Phase, need: nat, got: seq<byte>, k: nat)
    requires Sized(Reading(p, need, got)) && Fits(Reading(p, need, got)) && 0 < k <= need - |got|
    ensures var vecs := Layout(p, need, |got|); var last := |vecs| - 1; var v := vecs[last];
            && v.offset + v.position == Offset(p) + |got| && Offset(p) + |got| + k <= FRAME_SIZE
            && Layout(p, need, |got| + k) == vecs[last := v.(position := v.position + k)]
            && k <= v.limit - v.position && (v.position + k == v.limit <==> |got| + k == need)
  {
  }

  class Parser {
    /** What the delegate's connect answers. */
    const accept: bool
    var vn: byte
    var cd: byte
    var dstport: nat
    var dstip: nat
    var authorized: bool
    var selmethod: byte
    var atyp: byte

    /** The frame in the stream's read slot, if there is one. */
    var hasFrame: bool
    var vecs: seq<Vec>
    var vecPosition: nat
    var data: FrameData
    /** READ_WANT_READ */
    var wantRead: bool
    var out: seq<Event>

    constructor (accept: bool)
      ensures this.accept == accept && At(START) && out == []
    {
      this.accept := accept;
      vn, cd, dstport, dstip := 0, 0, 0, 0;
      authorized, selmethod, atyp := false, 0xFF, 0;
      hasFrame, vecs, vecPosition, wantRead, out := false, [], 0, true, [];
      data := seq(FRAME_SIZE, _ => 0);
    }

    predicate Fields(p: Phase)
      reads this`vn, this`cd, this`dstport, this`dstip, this`authorized, this`selmethod, this`atyp
    {
      match p
      case First => vn == 0 && !authorized && selmethod == 0xFF
      case Head4 => vn == 4
      case User4(c, port, ip, _) => vn == 4 && cd == c && dstport == port && dstip == ip
      case Host4(c, port, ip, _, _) => vn == 4 && cd == c && dstport == port && dstip == ip && Is4A(ip)
      case Again4 => vn == 4
      case Count5 => vn == 5 && !authorized && selmethod == 0xFF
      case Methods5 => vn == 5 && !authorized && selmethod == 0xFF
      case Refused5 => vn == 5 && !authorized && selmethod == 0xFF
      case Version5 => vn == 5 && authorized
      case Head5 => vn == 5 && authorized
      case Address5(c, a) => vn == 5 && authorized && cd == c && atyp == a
      case Length5(c) => vn == 5 && authorized && cd == c && atyp == 3
      case Name5(c) => vn == 5 && authorized && cd == c && atyp == 3
      case Port5(c, a, _) => vn == 5 && authorized && cd == c && atyp == a
    }

    /** The frame holds n of the bytes of phase p, got, and waits for the rest. */
    predicate Frame(p: Phase, need: nat, got: seq<byte>)
      reads this`vecs, this`vecPosition, this`data
    {
      && vecs == Layout(p, need, |got|)
      && vecPosition == |vecs| - (if |got| < need then 1 else 0)
      && Holds(data, Offset(p), got)
      && Remembers(data, p, need)
    }

    /** The parser and its frame stand for the state st. */
    predicate At(st: State)
      reads this
    {
      match st
      case Closed => !wantRead
      case Stuck => false
      case Reading(p, need, got) =>
        && Sized(st) && Fits(st) && wantRead && Fields(p)
        && (if Opens(p) then !hasFrame && got == [] else hasFrame && Frame(p, need, got))
    }

    // -------------------------------------------------------------------------
    // The frame's vectors
    // -------------------------------------------------------------------------

    /** ft_frame_append_vec */
    method AppendVec(capacity: nat) returns (ok: bool)
      modifies this`vecs
      ensures ok <==> Ends(old(vecs), |old(vecs)|) + capacity <= Space(|old(vecs)| + 1)
      ensures vecs == old(vecs) + if ok then [Vec(Ends(old(vecs), |old(vecs)|), 0, capacity, capacity)] else []
    {
      var offset := 0;
      if |vecs| > 0 {
        offset := vecs[|vecs| - 1].offset + vecs[|vecs| - 1].capacity;
      }
      if Space(|vecs| + 1) < offset + capacity {
        return false;
      }
      vecs := vecs + [Vec(offset, 0, capacity, capacity)];
      ok := true;
    }

    /** ft_frame_prev_vec, and then the room of the current vector grows by n. */
    method GrowVec(n: nat)
      requires 0 < vecPosition <= |vecs|
      modifies this`vecs, this`vecPosition
      ensures vecPosition == old(vecPosition) - 1
      ensures var v := old(vecs)[vecPosition];
              vecs == old(vecs)[vecPosition := v.(limit := v.capacity + n, capacity := v.capacity + n)]
    {
      vecPosition := vecPosition - 1;
      var v := vecs[vecPosition];
      vecs := vecs[vecPosition := v.(limit := v.capacity + n, capacity := v.capacity + n)];
    }

    // -------------------------------------------------------------------------
    // ft_proto_socks_on_request
    // -------------------------------------------------------------------------

    method SendRefusal()
      modifies this`out
      ensures out == old(out) + REFUSAL
    {
      out := out + [Reply([0, 91, 0, 0, 0, 0, 0, 0])];
      out := out + [WriteShutdown];
    }

    method OnRequest()
      requires |vecs| >= 3 && |vecs| == if vn == 4 && !Is4A(dstip) then 3 else 4
      requires vn == 4 || (vn == 5 && (atyp == 1 || atyp == 3 || atyp == 4))
      requires vn == 4 && Is4A(dstip) ==> vecs[3].offset <= FRAME_SIZE
      requires vn == 5 ==> vecs[2].offset == 4
      modifies this`out, this`dstip
      ensures vn == 4 && !Is4A(old(dstip)) ==> out == old(out) + Request(cd, '4', Dotted(old(dstip)), dstport, accept)
      ensures vn == 4 && Is4A(old(dstip)) ==>
          out == old(out) + Request(cd, 'D', CString(data[vecs[3].offset..], 255), dstport, accept)
      ensures vn == 5 && atyp == 1 ==>
          out == old(out) + Request(cd, '4', Dotted(BigEndian(data[4..8])), dstport, accept)
      ensures vn == 5 && atyp == 3 ==>
          out == old(out) + Request(cd, 'D', CString(data[5..5 + data[4]], 254), dstport, accept)
      ensures vn == 5 && atyp == 4 ==> out == old(out) + Request(cd, '6', Colons(data[4..20]), dstport, accept)
      ensures vn == 4 ==> dstip == old(dstip)
    {
      if cd != 1 {
        SendRefusal();
        return;
      }
      var typ, host;
      if vn == 4 && dstip > 0 && dstip <= 255 {
        host := CString(data[vecs[3].offset..], 255);
        typ := 'D';
      } else if vn == 4 {
        host := Dotted(dstip);
        typ := '4';
      } else if atyp == 1 {
        dstip := BigEndian(data[4..8]);
        host := Dotted(dstip);
        typ := '4';
      } else if atyp == 3 {
        var len := data[4];
        host := CString(data[5..5 + len], 254);
        typ := 'D';
      } else {
        host := Colons(data[4..20]);
        typ := '6';
      }
      if host == [] {
        SendRefusal();
        return;
      }
      out := out + [Connect(typ, host, dstport)];
      if !accept {
        SendRefusal();
      }
    }

    // -------------------------------------------------------------------------
    // The delegate's read callback
    // -------------------------------------------------------------------------

    /** Phase p has all its bytes. */
    ghost predicate Filled(p: Phase, need: nat, got: seq<byte>)
      reads this
    {
      && |got| == need && need > 0 && Sized(Reading(p, need, [])) && Fits(Reading(p, need, []))
      && Fields(p) && Frame(p, need, got)
    }

    /** The parser has done what the last byte of a phase asks for, and the frame has gone up or asks for more. */
    ghost predicate Moved(next: State, up: bool)
      reads this
    {
      match next
      case Closed => up && !wantRead
      case Stuck => false
      case Reading(p, need, got) =>
        Fields(p) && wantRead && got == [] && (up <==> Opens(p)) && (!up ==> Frame(p, need, []))
    }

    /** ft_proto_socks_4_on_read, case 2 */
    method AfterHead4(ghost got: seq<byte>) returns (up: bool)
      requires Filled(Head4, 7, got) && wantRead
      modifies this`cd, this`dstport, this`dstip, this`vecs
      ensures Moved(Complete(Head4, got, accept).next, up)
    {
      assert data[1..8] == got;
      Within(data, 1, got, 0, 1);
      Within(data, 1, got, 1, 3);
      Within(data, 1, got, 3, 7);
      assert data[1..2] == got[0..1] && data[1..2][0] == data[1];
      cd := data[1];
      dstport := BigEndian(data[2..4]);
      dstip := BigEndian(data[4..8]);
      var _ := AppendVec(1);
      return false;
    }

    /** ft_proto_socks_4_on_read, case 3 */
    method AfterUser4(ghost p: Phase, ghost got: seq<byte>) returns (up: bool)
      requires p.User4? && Filled(p, 1, got) && wantRead && Fits(Complete(p, got, accept).next)
      modifies this`vecs, this`vecPosition, this`out, this`dstip
      ensures Moved(Complete(p, got, accept).next, up)
      ensures out == old(out) + Complete(p, got, accept).events
    {
      var at := vecs[2].offset + vecs[2].position;
      assert data[at - 1] == got[0];
      if data[at - 1] == 0 {
        if dstip > 0 && dstip <= 255 {
          var _ := AppendVec(1);
          return false;
        } else {
          OnRequest();
          return true;
        }
      }
      GrowVec(1);
      return false;
    }

    /** ft_proto_socks_4_on_read, case 4 */
    method AfterHost4(ghost p: Phase, ghost got: seq<byte>) returns (up: bool)
      requires p.Host4? && Filled(p, 1, got) && wantRead && Fits(Complete(p, got, accept).next)
      modifies this`vecs, this`vecPosition, this`out, this`dstip
      ensures Moved(Complete(p, got, accept).next, up)
      ensures out == old(out) + Complete(p, got, accept).events
    {
      var at := vecs[3].offset + vecs[3].position;
      assert data[at - 1] == got[0];
      if data[at - 1] == 0 {
        HostEndsThere(p, got);
        OnRequest();
        return true;
      }
      GrowVec(1);
      return false;
    }

    lemma HostEndsThere(p: Phase, got: seq<byte>)
      requires p.Host4? && Filled(p, 1, got) && got[0] == 0 && 0 !in p.host
      ensures CString(data[8 + p.user..], 255) == CString(p.host, 255)
    {
      var b := data[8 + p.user..];
      assert b[..|p.host|] == p.host && b[|p.host|] == got[0];
      assert b == p.host + [0] + b[|p.host| + 1..];
      CStringStops(p.host, b[|p.host| + 1..], 255);
    }

    /** sock_relay_on_socks5_method_selection_request */
    method AfterMethods5(ghost need: nat, ghost got: seq<byte>) returns (up: bool)
      requires Filled(Methods5, need, got) && wantRead
      modifies this`selmethod, this`authorized, this`out
      ensures Moved(Complete(Methods5, got, accept).next, up)
      ensures out == old(out) + Complete(Methods5, got, accept).events
    {
      var v := vecs[2];
      assert data[2..2 + need] == got;
      for i := 0 to v.position
        invariant selmethod == if 0 in got[..i] then 0 else 0xFF
        invariant authorized == old(authorized) && out == old(out)
      {
        assert got[..i + 1] == got[..i] + [got[i]] && data[2 + i] == got[i];
        if data[v.offset + i] == 0 {
          selmethod := 0;
        }
      }
      assert got[..v.position] == got;
      out := out + [Reply([5, selmethod])];
      if selmethod == 0xFF {
        out := out + [WriteShutdown];
      }
      if selmethod == 0 {
        authorized := true;
      }
      return true;
    }

    /** ft_proto_socks_5_on_read before authorization; ok is false when it breaks out of its switch. */
    method Negotiate(ghost p: Phase, ghost need: nat, ghost got: seq<byte>) returns (up: bool, ok: bool)
      requires p.Count5? || p.Methods5? || p.Refused5?
      requires Filled(p, need, got) && wantRead
      modifies this`selmethod, this`authorized, this`out, this`vecs
      ensures ok ==> Moved(Complete(p, got, accept).next, up) && out == old(out) + Complete(p, got, accept).events
      ensures !ok ==> Complete(p, got, accept) == FAILURE && out == old(out)
    {
      if selmethod == 0xFF {
        if |vecs| == 2 {
          var b := data[1];
          assert got == [b];
          if b == 0 {
            return true, false;
          }
          var _ := AppendVec(b);
          return false, true;
        } else if |vecs| == 3 {
          up := AfterMethods5(need, got);
          return up, true;
        }
      }
      return true, false;
    }

    /** ft_proto_socks_5_on_read, authorized, cases 1 and 2: the head of the request. */
    method AfterHead5(ghost p: Phase, ghost need: nat, ghost got: seq<byte>) returns (up: bool, ok: bool)
      requires (p.Version5? || p.Head5?) && Filled(p, need, got) && wantRead
      modifies this`cd, this`atyp, this`vecs
      ensures ok ==> Moved(Complete(p, got, accept).next, up) && Complete(p, got, accept).events == []
      ensures !ok ==> Complete(p, got, accept) == FAILURE
    {
      if |vecs| == 1 {
        var _ := AppendVec(3);
        return false, true;
      }
      assert data[1..4] == got;
      cd := data[1];
      atyp := data[3];
      if atyp == 1 {
        var _ := AppendVec(4);
        return false, true;
      } else if atyp == 3 {
        var _ := AppendVec(1);
        return false, true;
      } else if atyp == 4 {
        var _ := AppendVec(16);
        return false, true;
      }
      return true, false;
    }

    /** ft_proto_socks_5_on_read, authorized, case 3: the address. */
    method AfterAddress5(ghost p: Phase, ghost need: nat, ghost got: seq<byte>) returns (up: bool)
      requires (p.Address5? || p.Length5? || p.Name5?) && Filled(p, need, got) && wantRead
      requires Fits(Complete(p, got, accept).next)
      modifies this`vecs, this`vecPosition
      ensures Moved(Complete(p, got, accept).next, up) && Complete(p, got, accept).events == []
    {
      if atyp == 3 {
        var v := vecs[2];
        if v.capacity == 1 {
          assert data[4..5] == got;
          GrowVec(data[v.offset + v.position - 1]);
          return false;
        }
      }
      var _ := AppendVec(2);
      return false;
    }

    /** ft_proto_socks_5_on_read, authorized, case 4: the port, and the request is there. */
    method AfterPort5(ghost p: Phase, ghost got: seq<byte>) returns (up: bool)
      requires p.Port5? && Filled(p, 2, got) && wantRead
      modifies this`dstport, this`out, this`dstip
      ensures Moved(Complete(p, got, accept).next, up)
      ensures out == old(out) + Complete(p, got, accept).events
    {
      var at := vecs[3].offset;
      dstport := BigEndian(data[at..at + 2]);
      OnRequest();
      return true;
    }

    /** Closes the connection. */
    method Fail()
      modifies this`wantRead, this`out
      ensures !wantRead && out == old(out) + [ReadStop, WriteShutdown]
    {
      out := out + [ReadStop];
      wantRead := false;
      out := out + [WriteShutdown];
    }

    /** ft_proto_socks_stream_delegate_read, on the first byte */
    method AfterFirst(ghost got: seq<byte>) returns (up: bool, ok: bool)
      requires Filled(First, 1, got) && wantRead
      modifies this`vn, this`vecs
      ensures ok ==> Moved(Complete(First, got, accept).next, up) && Complete(First, got, accept).events == []
      ensures !ok ==> Complete(First, got, accept) == FAILURE
    {
      assert data[0..1] == got;
      vn := data[0];
      if vn == 4 {
        var _ := AppendVec(7);
        return false, true;
      } else if vn == 5 {
        var _ := AppendVec(1);
        return false, true;
      }
      return true, false;
    }

    method On4Read(ghost p: Phase, ghost need: nat, ghost got: seq<byte>) returns (up: bool, ok: bool)
      requires p.Head4? || p.User4? || p.Host4? || p.Again4?
      requires Filled(p, need, got) && wantRead && Fits(Complete(p, got, accept).next)
      modifies this`cd, this`dstport, this`dstip, this`vecs, this`vecPosition, this`out
      ensures ok ==> Moved(Complete(p, got, accept).next, up) && out == old(out) + Complete(p, got, accept).events
      ensures !ok ==> Complete(p, got, accept) == FAILURE && out == old(out)
    {
      if |vecs| == 2 {
        up := AfterHead4(got);
        return up, true;
      } else if |vecs| == 3 {
        up := AfterUser4(p, got);
        return up, true;
      } else if |vecs| == 4 && dstip > 0 && dstip <= 255 {
        up := AfterHost4(p, got);
        return up, true;
      }
      return false, false;
    }

    method On5Read(ghost p: Phase, ghost need: nat, ghost got: seq<byte>) returns (up: bool, ok: bool)
      requires !p.First? && !p.Head4? && !p.User4? && !p.Host4? && !p.Again4?
      requires Filled(p, need, got) && wantRead && Fits(Complete(p, got, accept).next)
      modifies this`cd, this`dstport, this`dstip, this`selmethod, this`authorized, this`atyp, this`vecs,
          this`vecPosition, this`out
      ensures ok ==> Moved(Complete(p, got, accept).next, up) && out == old(out) + Complete(p, got, accept).events
      ensures !ok ==> Complete(p, got, accept) == FAILURE && out == old(out)
    {
      if !authorized {
        up, ok := Negotiate(p, need, got);
      } else if |vecs| <= 2 {
        up, ok := AfterHead5(p, need, got);
      } else if |vecs| == 3 {
        up := AfterAddress5(p, need, got);
        ok := true;
      } else {
        up := AfterPort5(p, got);
        ok := true;
      }
    }

    /** ft_proto_socks_stream_delegate_read */
    method DelegateRead(ghost p: Phase, ghost need: nat, ghost got: seq<byte>) returns (up: bool)
      requires Filled(p, need, got) && wantRead && Fits(Complete(p, got, accept).next)
      modifies this
      ensures Moved(Complete(p, got, accept).next, up)
      ensures out == old(out) + Complete(p, got, accept).events
    {
      var ok := false;
      if vn == 0 && |vecs| == 1 {
        up, ok := AfterFirst(got);
      } else if vn == 4 {
        up, ok := On4Read(p, need, got);
      } else if vn == 5 {
        up, ok := On5Read(p, need, got);
      }
      if !ok {
        Fail();
        up := true;
      }
    }

    // -------------------------------------------------------------------------
    // Reading
    // -------------------------------------------------------------------------

    /** ft_proto_socks_stream_delegate_get_read_frame */
    method GetReadFrame()
      modifies this`hasFrame, this`vecs, this`vecPosition
      ensures hasFrame && vecs == [Vec(0, 0, 1, 1)] && vecPosition == 0
    {
      hasFrame := true;
      vecs, vecPosition := [], 0;
      var _ := AppendVec(1);
    }

    /** How much the next recv may deliver. */
    function Room(st: State): nat
      requires Sized(st)
    {
      if st.Reading? then st.need - |st.got| else 0
    }

    /** recv() into the current vector, and on to the next one when it is full. */
    method Receive(ghost p: Phase, ghost need: nat, ghost got: seq<byte>, chunk: seq<byte>)
      requires Frame(p, need, got) && 0 < |chunk| <= need - |got|
      requires Sized(Reading(p, need, got)) && Fits(Reading(p, need, got))
      modifies this`vecs, this`vecPosition, this`data
      ensures Frame(p, need, got + chunk)
    {
      hide Layout, Remembers, Holds, Offset, Sized, Fits;
      LayoutGrows(p, need, got, |chunk|);
      var v := vecs[vecPosition];
      HoldsMore(data, Offset(p), got, chunk);
      RemembersStill(data, p, need, Offset(p) + |got|, chunk);
      data := Splice(data, v.offset + v.position, chunk);
      vecs := vecs[vecPosition := v.(position := v.position + |chunk|)];
      if v.position + |chunk| == v.limit {
        vecPosition := vecPosition + 1;
      }
    }

    /** The parser stands for st, with a frame in the read slot. */
    ghost predicate Ready(st: State)
      reads this
    {
      st.Reading? && Sized(st) && Fits(st) && wantRead && Fields(st.phase) && hasFrame
          && Frame(st.phase, st.need, st.got)
    }

    /** A frame for the read slot, if there is none. */
    method Prepare(ghost st: State)
      requires At(st) && Sized(st) && wantRead
      modifies this`hasFrame, this`vecs, this`vecPosition
      ensures Ready(st)
    {
      if !hasFrame {
        GetReadFrame();
      }
    }

    /**
    One round of the stream's read loop: a piece of any size recv may choose takes
    the parser where the same bytes fed one by one would.
    */
    method Read(ghost st: State, chunk: seq<byte>)
      requires Ready(st) && 0 < |chunk| <= Room(st) && Fits(FeedAll(st, chunk, accept).next)
      modifies this
      ensures At(FeedAll(st, chunk, accept).next)
      ensures out == old(out) + FeedAll(st, chunk, accept).events
    {
      hide FeedAll, Complete, Remembers, Layout;
      ghost var p, need, got := st.phase, st.need, st.got;
      Receive(p, need, got, chunk);
      if vecPosition < |vecs| {
        Collects(st, chunk, accept);
        NotOpening(st, chunk);
        return;
      }
      Finishes(st, chunk, accept);
      assert Filled(p, need, got + chunk);
      hide Filled, Frame, Fields, Fits;
      var up := DelegateRead(p, need, got + chunk);
      hasFrame := !up;
      Arrived(Complete(p, got + chunk, accept).next, up);
    }

    lemma NotOpening(st: State, chunk: seq<byte>)
      requires Sized(st) && st.Reading? && 0 < |chunk| && |st.got| + |chunk| < st.need
      ensures !Opens(st.phase)
    {
    }

    lemma Arrived(next: State, up: bool)
      requires Moved(next, up) && Sized(next) && Fits(next) && hasFrame == !up
      ensures At(next)
    {
    }

    /**
    The bytes of a connection, cut up by recv as it likes.  The parser ends where
    the same bytes fed one by one would end, and has done the same things in the
    same order.
    */
    method ReadAll(input: seq<byte>)
      requires At(START) && out == []
      requires forall k :: 0 <= k <= |input| ==> Fits(FeedAll(START, input[..k], accept).next)
      modifies this
      ensures At(FeedAll(START, input, accept).next)
      ensures out == FeedAll(START, input, accept).events
    {
      hide Complete, FeedAll, At, Ready, Fits;
      var k := 0;
      ghost var st := START;
      assert input[..0] == [];
      NothingFed();
      while k < |input| && wantRead
        invariant 0 <= k <= |input|
        invariant FeedAll(START, input[..k], accept) == Step(st, out) && Sized(st) && At(st)
        decreases |input| - k
      {
        Prepare(st);
        WithRoom(st);
        var room := vecs[vecPosition].limit - vecs[vecPosition].position;
        assert 0 < 1 <= room && k + 1 <= |input|;
        var n: nat :| 0 < n <= room && k + n <= |input|;
        OnePiece(st, input, k, n);
        Read(st, input[k..k + n]);
        st := FeedAll(st, input[k..k + n], accept).next;
        k := k + n;
      }
      AllRead(st, input, k);
    }

    lemma NothingFed()
      ensures FeedAll(START, [], accept) == Step(START, [])
    {
    }

    /** The current vector has the room the state says. */
    lemma WithRoom(st: State)
      requires Ready(st)
      ensures 0 <= vecPosition < |vecs| && Room(st) == vecs[vecPosition].limit - vecs[vecPosition].position > 0
    {
    }

    lemma OnePiece(st: State, input: seq<byte>, k: nat, n: nat)
      requires k + n <= |input| && Sized(st) && FeedAll(START, input[..k], accept).next == st
      ensures var before, piece := FeedAll(START, input[..k], accept), FeedAll(st, input[k..k + n], accept);
              FeedAll(START, input[..k + n], accept) == Step(piece.next, before.events + piece.events)
    {
      assert input[..k + n] == input[..k] + input[k..k + n];
      FeedConcat(START, input[..k], input[k..k + n], accept);
    }

    lemma AllRead(st: State, input: seq<byte>, k: nat)
      requires k <= |input| && Sized(st) && At(st) && (k == |input| || !wantRead)
      requires FeedAll(START, input[..k], accept).next == st
      ensures FeedAll(START, input, accept) == FeedAll(START, input[..k], accept)
    {
      hide FeedAll, At;
      if k == |input| {
        assert input[..k] == input;
      } else {
        NoMore(st);
        assert input[..|input|] == input;
        OnePiece(st, input, k, |input| - k);
        ClosedStays(input[k..|input|], accept);
      }
    }

    lemma NoMore(st: State)
      requires At(st) && !wantRead
      ensures st == Closed
    {
    }
  }

  /** A C string function sees nothing behind the first NUL. */
  lemma {:induction false} CStringStops(host: seq<byte>, rest: seq<byte>, max: nat)
    requires 0 !in host
    ensures CString(host + [0] + rest, max) == CString(host, max)
  {
    if host != [] && max > 0 {
      assert (host + [0] + rest)[1..] == host[1..] + [0] + rest;
      CStringStops(host[1..], rest, max - 1);
    }
  }
}
