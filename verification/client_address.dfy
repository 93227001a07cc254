/** Client address resolution: which address the proxy attributes a request to, and how
    that address is taken apart into an IP and a port. */
module ClientAddress {
  import opened Text
  import opened Mime
  import opened Header
  import opened NetAddr

  /** The forwarding headers consulted, highest priority first. */
  const ForwardingHeaders: seq<string> := ["x-forwarded-for", "cf-connecting-ip", "x-real-ip"]

  /** Resolved (IP, port); either part may be empty. */
  datatype Address = Address(ip: string, port: string)

  /** `extractClientAddressFromRequest`, first half: the first forwarding header with a
      non-empty first value supplies the candidate (its text before the first comma);
      when none has one, the peer address `remoteAddr` is the candidate. */
  function Candidate(h: Header, remoteAddr: string): (c: string)
    ensures
      || (c == remoteAddr && EmptyBelow(h, |ForwardingHeaders|))
      || exists n :: 0 <= n < |ForwardingHeaders| && ChosenFrom(h, n, c)
  {
    var xff := Get(h, ForwardingHeaders[0]);
    if |xff| > 0 then
      assert ChosenFrom(h, 0, FirstField(xff));
      FirstField(xff)
    else
      var cf := Get(h, ForwardingHeaders[1]);
      assert EmptyBelow(h, 1);
      if |cf| > 0 then
        assert ChosenFrom(h, 1, FirstField(cf));
        FirstField(cf)
      else
        var realIp := Get(h, ForwardingHeaders[2]);
        assert EmptyBelow(h, 2);
        if |realIp| > 0 then
          assert ChosenFrom(h, 2, FirstField(realIp));
          FirstField(realIp)
        else
          assert EmptyBelow(h, 3);
          remoteAddr
  }

  /** None of the first `n` forwarding headers has a non-empty first value. */
  predicate EmptyBelow(h: Header, n: nat)
    requires n <= |ForwardingHeaders|
  {
    forall m :: 0 <= m < n ==> Get(h, ForwardingHeaders[m]) == ""
  }

  /** Header number `n` is the first with a non-empty value, and `c` is that value's
      first comma-separated entry. */
  predicate ChosenFrom(h: Header, n: nat, c: string)
    requires n < |ForwardingHeaders|
  {
    && Get(h, ForwardingHeaders[n]) != ""
    && EmptyBelow(h, n)
    && c == FirstField(Get(h, ForwardingHeaders[n]))
  }

  /** `extractClientAddress`: an empty candidate resolves to nothing; otherwise the trimmed
      candidate is split into host and port. A missing port or too many colons make the
      whole trimmed candidate the IP; any other split error resolves to nothing. */
  function Resolve(clientAddr: string): (a: Address)
    ensures clientAddr != "" ==> match SplitHostPort(TrimSpace(clientAddr))
      case Ok(host, port) => a == Address(host, port)
      case Err(MissingPort) => a == Address(TrimSpace(clientAddr), "")
      case Err(TooManyColons) => a == Address(TrimSpace(clientAddr), "")
      case Err(_) => a == Address("", "")
    ensures clientAddr == "" ==> a == Address("", "")
  {
    if clientAddr == "" then Address("", "")
    else
      var trimmed := TrimSpace(clientAddr);
      match SplitHostPort(trimmed)
      case Ok(host, port) => Address(host, port)
      case Err(why) =>
        if why == MissingPort || why == TooManyColons then Address(trimmed, "") else Address("", "")
  }

  /** Trimming leaves a string that neither starts nor ends with a space unchanged. */
  lemma TrimSpaceUnchanged(s: string)
    requires s == [] || (!IsSpace(s[0]) && !IsSpace(s[|s| - 1]))
    ensures TrimSpace(s) == s
  {
    var r := TrimSpace(s);
    var start: nat :| IsTrimmedAt(s, r, start);
    assert start == 0;
    assert |r| == |s|;
  }

  /** A candidate built by `JoinHostPort` from a bracket-free IP and a colon-free port,
      with no space at either end, resolves back to that IP and port. */
  lemma ResolveJoined(ip: string, port: string)
    requires '[' !in ip && ']' !in ip
    requires ':' !in port && '[' !in port && ']' !in port
    requires ip == [] || !IsSpace(ip[0])
    requires port == [] || !IsSpace(port[|port| - 1])
    ensures Resolve(JoinHostPort(ip, port)) == Address(ip, port)
  {
    var joined := JoinHostPort(ip, port);
    if ':' in ip {
      assert joined[0] == '[';
    } else if ip != [] {
      assert joined[0] == ip[0];
    } else {
      assert joined[0] == ':';
    }
    if port != [] {
      assert joined[|joined| - 1] == port[|port| - 1];
    } else {
      assert joined[|joined| - 1] == ':';
    }
    TrimSpaceUnchanged(joined);
    SplitJoin(ip, port);
  }

  /** A candidate without any colon (a bare IPv4 address or host name) is its own IP,
      with no port. An empty or all-space candidate is the empty case of this. */
  lemma ResolveBareHost(clientAddr: string)
    requires ':' !in TrimSpace(clientAddr)
    ensures Resolve(clientAddr) == Address(TrimSpace(clientAddr), "")
  {
  }

  /** An unbracketed candidate with two or more colons (an IPv6 literal written without
      brackets or port) splits with "too many colons", so it too becomes the IP whole. */
  lemma ResolveUnbracketedColons(clientAddr: string, i: nat, j: nat)
    requires i < j < |TrimSpace(clientAddr)|
    requires TrimSpace(clientAddr)[i] == ':' && TrimSpace(clientAddr)[j] == ':'
    requires TrimSpace(clientAddr)[0] != '['
    ensures Resolve(clientAddr) == Address(TrimSpace(clientAddr), "")
  {
    var t := TrimSpace(clientAddr);
    var start: nat :| IsTrimmedAt(clientAddr, t, start);
    assert clientAddr != "";
    var last := LastIndexOf(t, ':');
    assert last >= j by {
      assert t[j] !in t[last + 1..];
    }
    assert t[..last][i] == ':';
    assert SplitHostPort(t) == Err(TooManyColons);
  }

  /** A bracketed candidate that holds a colon but no ']' resolves to nothing. */
  lemma ResolveUnclosedBracket(clientAddr: string)
    requires TrimSpace(clientAddr) != "" && TrimSpace(clientAddr)[0] == '['
    requires ':' in TrimSpace(clientAddr) && ']' !in TrimSpace(clientAddr)
    ensures Resolve(clientAddr) == Address("", "")
  {
    var start: nat :| IsTrimmedAt(clientAddr, TrimSpace(clientAddr), start);
    assert clientAddr != "";
  }

  /** `extractClientAddressFromRequest`: the peer address is resolved only when no
      forwarding header has a non-empty first value; otherwise the first such header's
      first entry is. */
  function ClientAddressOf(h: Header, remoteAddr: string): (a: Address)
    ensures EmptyBelow(h, |ForwardingHeaders|) ==> a == Resolve(remoteAddr)
    ensures !EmptyBelow(h, |ForwardingHeaders|) ==>
      exists n :: 0 <= n < |ForwardingHeaders| && ChosenFrom(h, n, FirstField(Get(h, ForwardingHeaders[n])))
        && a == Resolve(FirstField(Get(h, ForwardingHeaders[n])))
  {
    Resolve(Candidate(h, remoteAddr))
  }

  /** When a forwarding header supplies the candidate, the peer address plays no part:
      the result is the resolution of that header's first entry, whatever it is, even an
      empty one. */
  lemma ClientAddressOfChosen(h: Header, n: nat, c: string, remoteAddr: string)
    requires n < |ForwardingHeaders| && ChosenFrom(h, n, c)
    ensures ClientAddressOf(h, remoteAddr) == Resolve(c)
  {
    var chosen := Candidate(h, remoteAddr);
    assert Get(h, ForwardingHeaders[n]) != "";
    assert !EmptyBelow(h, |ForwardingHeaders|);
    var m :| 0 <= m < |ForwardingHeaders| && ChosenFrom(h, m, chosen);
    assert Get(h, ForwardingHeaders[m]) != "";
    assert m == n;
  }

  /** When no forwarding header has a value, the peer address that the server printed
      with `JoinHostPort` is resolved back to its IP and port. */
  lemma ClientAddressOfPeer(h: Header, ip: string, port: string)
    requires EmptyBelow(h, |ForwardingHeaders|)
    requires '[' !in ip && ']' !in ip
    requires ':' !in port && '[' !in port && ']' !in port
    requires ip == [] || !IsSpace(ip[0])
    requires port == [] || !IsSpace(port[|port| - 1])
    ensures ClientAddressOf(h, JoinHostPort(ip, port)) == Address(ip, port)
  {
    assert Candidate(h, JoinHostPort(ip, port)) == JoinHostPort(ip, port);
    ResolveJoined(ip, port);
  }

  /** A bare IPv4 address is its own IP, with no port. */
  lemma BareIpv4Example()
    ensures Resolve("203.0.113.5") == Address("203.0.113.5", "")
  {
    assert ':' !in "203.0.113.5";
    TrimSpaceUnchanged("203.0.113.5");
    ResolveBareHost("203.0.113.5");
  }

  /** An `X-Forwarded-For` chain resolves to its first hop, without a port. */
  lemma ForwardedForExample(remoteAddr: string)
    ensures ClientAddressOf(map[Canonical("x-forwarded-for") := ["203.0.113.5, 10.0.0.1"]], remoteAddr)
      == Address("203.0.113.5", "")
  {
    var chain := "203.0.113.5, 10.0.0.1";
    var h := map[Canonical("x-forwarded-for") := [chain]];
    assert Get(h, ForwardingHeaders[0]) == chain;
    assert chain[..11] == "203.0.113.5";
    FirstFieldUpTo(chain, 11);
    assert Candidate(h, remoteAddr) == "203.0.113.5";
    BareIpv4Example();
  }

  /** With no forwarding header, the peer address is split into IP and port. */
  lemma PeerAddressExample()
    ensures ClientAddressOf(map[], "198.51.100.7:54321") == Address("198.51.100.7", "54321")
  {
    assert ':' !in "198.51.100.7" && '[' !in "198.51.100.7" && ']' !in "198.51.100.7";
    assert ':' !in "54321" && '[' !in "54321" && ']' !in "54321";
    assert JoinHostPort("198.51.100.7", "54321") == "198.51.100.7:54321";
    ClientAddressOfPeer(map[], "198.51.100.7", "54321");
  }

  /** A forwarding header whose value starts with a comma yields an empty candidate, which
      resolves to nothing; the peer address is not consulted. */
  lemma LeadingCommaExample(remoteAddr: string)
    ensures ClientAddressOf(map[Canonical("x-forwarded-for") := [",1.2.3.4"]], remoteAddr)
      == Address("", "")
  {
    var h := map[Canonical("x-forwarded-for") := [",1.2.3.4"]];
    assert Get(h, ForwardingHeaders[0]) == ",1.2.3.4";
    assert FirstField(",1.2.3.4") == "";
    assert ChosenFrom(h, 0, "");
    ClientAddressOfChosen(h, 0, "", remoteAddr);
  }

  /** An IPv6 literal without brackets or port becomes the IP whole. */
  lemma Ipv6LiteralExample()
    ensures Resolve("2001:db8::1") == Address("2001:db8::1", "")
  {
    var t := "2001:db8::1";
    TrimSpaceUnchanged(t);
    assert t[4] == ':' && t[8] == ':' && t[0] != '[';
    ResolveUnbracketedColons(t, 4, 8);
  }
}
