/** HNetSession: the fields that its own methods keep, proved against the modules that say what
    they stand for. */
module NetSession {
  import opened NetId
  import opened SessionSocket
  import opened SessionAddress

  class HNetSession {
    var netId: int
    var socket: int
    const address: array<Byte>
    /** Every handle obtained and closed so far. */
    ghost var log: seq<Event>
    /** The port that belongs to the stored address. */
    ghost var port: UShort

    ghost predicate Valid()
      reads this, address
    {
      Tracks(log, socket) && address.Length == STORAGE && PortOf(address[..]) == port
    }

    constructor (index: int, counter: IdCounter)
      requires IsUShort(index) && IsUShort(counter.id)
      modifies counter
      ensures Valid() && fresh(address) && socket == INVALID_SOCKET && log == [] && port == 0
      ensures forall k :: 0 <= k < STORAGE ==> address[k] == 0
      ensures Id() == index && netId / HALF == counter.id
      ensures counter.id == (old(counter.id) + 1) % HALF
    {
      netId, socket, log, port := index, INVALID_SOCKET, [], 0;
      address := new Byte[STORAGE](_ => 0);
      new;
      assert forall k :: 0 <= k < STORAGE ==> address[..][k] == 0;
      var _ := NewNetId(counter);
    }

    /** The destructor. */
    method Destroy()
      requires Valid()
      modifies this`socket, this`log
      ensures Valid() && Live(log) == {} && log == AfterClosing(old(log), old(socket))
    {
      Close();
    }

    // ---- Identifier ----

    /** With no other call in between: the session keeps its Id, and the counter, moved on by one,
        stands above it. */
    method NewNetId(counter: IdCounter) returns (r: int)
      requires IsUShort(counter.id)
      modifies this`netId, counter
      ensures IsUShort(counter.id) && counter.id == (old(counter.id) + 1) % HALF
      ensures r == netId && Id() == old(Id()) && r / HALF == counter.id
      ensures r % HALF == old(Id())
    {
      counter.id := (counter.id + 1) % HALF;
      HalvesOf(counter.id, IdOf(netId));
      netId := Joined(counter.id, netId);
      r := netId;
    }

    function Id(): int
      reads this`netId
    {
      IdOf(netId)
    }

    // ---- Socket ----

    /** `made` is what WSASocketW returns, INVALID_SOCKET when it fails, any handle not open
        otherwise, the one just closed included; `optionSet` are the results of the setsockopt
        calls in order. The call succeeds exactly when the socket and every option it sets did;
        a failed option leaves the new socket in place. */
    method Open(af: int, made: int, optionSet: seq<bool>) returns (ok: bool)
      requires Valid() && |optionSet| >= 6
      modifies this`socket, this`log
      ensures Valid()
      ensures socket == made && log == AfterOpening(old(log), old(socket), made)
      ensures ok <==> made != INVALID_SOCKET
                      && forall k :: 0 <= k < (if af == 23 then 6 else 5) ==> optionSet[k]
    {
      OpeningTracks(log, socket, made);
      log := AfterClosing(log, socket);
      socket := made;
      if socket == INVALID_SOCKET { return false; }
      log := log + [Obtained(made)];
      if !optionSet[0] { return false; } // SO_REUSEADDR
      if !optionSet[1] { return false; } // SO_SNDBUF
      if !optionSet[2] { return false; } // SO_RCVBUF
      if !optionSet[3] { return false; } // TCP_NODELAY
      if !optionSet[4] { return false; } // SO_LINGER
      if af == AF_INET6 {
        if !optionSet[5] { return false; } // IPV6_V6ONLY
      }
      return true;
    }

    /** Open without a family takes the one of the stored address, if there is one. */
    method OpenStored(made: int, optionSet: seq<bool>) returns (ok: bool)
      requires Valid() && |optionSet| >= 6
      modifies this`socket, this`log
      ensures Valid()
      ensures address[0] == 0 == address[1] ==> !ok && socket == old(socket) && log == old(log)
      ensures address[0] != 0 || address[1] != 0 ==>
                && socket == made && log == AfterOpening(old(log), old(socket), made)
                && (ok <==>
                      && made != INVALID_SOCKET
                      && forall k :: 0 <= k < (if address[0] as int + 256 * (address[1] as int) == 23 then 6 else 5) ==> optionSet[k])
    {
      var family := FamilyOf(address[..]);
      if family == 0 { return false; }
      ok := Open(family, made, optionSet);
    }

    method Close()
      requires Valid()
      modifies this`socket, this`log
      ensures Valid() && socket == INVALID_SOCKET && log == AfterClosing(old(log), old(socket))
    {
      ClosingTracks(log, socket);
      log := AfterClosing(log, socket);
      socket := INVALID_SOCKET;
    }

    // ---- Address ----

    /** Walks the resolver's list: the first IPv4 or IPv6 entry, which is `at`, is stored with the
        port, and if there is none nothing changes. */
    method HostToAddr(results: seq<AddrInfo>, given: UShort) returns (ok: bool, ghost at: nat)
      requires Valid()
      requires forall k :: 0 <= k < |results| ==> Complete(results[k])
      modifies this`port, address
      ensures Valid()
      ensures at <= |results| && (ok <==> at < |results|)
      ensures forall k :: 0 <= k < at ==> results[k].family != 2 && results[k].family != 23
      ensures ok ==> (results[at].family == 2 || results[at].family == 23) && Complete(results[at]) && port == given
      ensures ok ==> forall k :: 0 <= k < 128 ==>
                address[k] == if k == 2 then given / 256 else if k == 3 then given % 256
                              else if k < (if results[at].family == 2 then 16 else 28) then results[at].addr[k]
                              else old(address[k])
      ensures !ok ==> address[..] == old(address[..]) && port == old(port)
    {
      var i := 0;
      while i < |results|
        invariant 0 <= i <= |results| && address[..] == old(address[..]) && port == old(port)
        invariant forall k :: 0 <= k < i ==> results[k].family != 2 && results[k].family != 23
      {
        if results[i].family == AF_INET || results[i].family == AF_INET6 {
          ghost var before := address[..];
          StoredBytes(before, results[i], given);
          PortRoundTrip(before, results[i], given);
          WriteResult(results[i], given);
          assert forall k :: 0 <= k < 128 ==> address[k] == address[..][k] && before[k] == old(address[k]);
          port := given;
          return true, i;
        }
        i := i + 1;
      }
      return false, i;
    }

    /** The copy and the port of one result, in the layout of its family. */
    method WriteResult(p: AddrInfo, given: UShort)
      requires address.Length == STORAGE && Usable(p) && Complete(p)
      modifies address
      ensures address[..] == StoredAddress(old(address[..]), p, given)
    {
      ghost var before := address[..];
      var n := if p.family == AF_INET then IN_SIZE else IN6_SIZE;
      forall k | 0 <= k < n { address[k] := p.addr[k]; }
      assert address[..] == p.addr[..n] + before[n..];
      var at := if p.family == AF_INET then IN_PORT else IN6_PORT;
      var net := Swap(given);
      address[at] := net % 256;
      address[at + 1] := net / 256;
    }

    /** The port given when the address was stored. */
    method GetPort() returns (r: UShort)
      requires Valid()
      ensures r == port == 256 * (address[2] as int) + address[3]
    {
      var net: UShort := 0;
      if FamilyOf(address[..]) == AF_INET {
        net := UShortAt(address[..], IN_PORT);
      } else {
        net := UShortAt(address[..], IN6_PORT);
      }
      r := Swap(net);
    }

    /** Copies an address over the whole storage and resolves it again with its own port. */
    method SetAddress(from: seq<Byte>, results: seq<AddrInfo>) returns (ok: bool, ghost at: nat)
      requires Valid() && |from| == STORAGE
      requires forall k :: 0 <= k < |results| ==> Complete(results[k])
      modifies this`port, address
      ensures Valid() && port == 256 * (from[2] as int) + from[3]
      ensures at <= |results| && (ok <==> at < |results|)
      ensures forall k :: 0 <= k < at ==> results[k].family != 2 && results[k].family != 23
      ensures ok ==> (results[at].family == 2 || results[at].family == 23) && Complete(results[at])
      ensures ok ==> forall k :: 0 <= k < 128 ==>
                address[k] == if k == 2 || k == 3 then from[k]
                              else if k < (if results[at].family == 2 then 16 else 28) then results[at].addr[k]
                              else from[k]
      ensures !ok ==> address[..] == from
    {
      forall k | 0 <= k < STORAGE { address[k] := from[k]; }
      assert address[..] == from;
      PortBytes(from);
      port := PortOf(from);
      var own := GetPort();
      ok, at := HostToAddr(results, own);
    }
  }

  lemma HalvesOf(high: int, low: int)
    requires IsUShort(low)
    ensures (high * HALF + low) / HALF == high && (high * HALF + low) % HALF == low
  {
  }
}
