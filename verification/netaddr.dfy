/** Go's `net.SplitHostPort` and `net.JoinHostPort`, which the proxy uses to take a client
    address apart and to print it again. They are library code; the definitions below follow
    the library's branches, and `JoinHostPort` serves as the inverse `SplitHostPort` is proved
    against. */
module NetAddr {

  /** The reason texts of the `*net.AddrError` that `SplitHostPort` returns. */
  datatype AddrError =
    | MissingPort             // "missing port in address"
    | TooManyColons           // "too many colons in address"
    | MissingBracket          // "missing ']' in address"
    | UnexpectedOpenBracket   // "unexpected '[' in address"
    | UnexpectedCloseBracket  // "unexpected ']' in address"

  datatype Split = Ok(host: string, port: string) | Err(why: AddrError)

  /** Index of the first `c` in `s`, or -1. */
  function IndexOf(s: string, c: char): (i: int)
    ensures -1 <= i < |s|
    ensures i == -1 <==> c !in s
    ensures i >= 0 ==> s[i] == c && c !in s[..i]
  {
    if s == [] then -1
    else if s[0] == c then 0
    else
      var j := IndexOf(s[1..], c);
      if j < 0 then -1
      else
        assert s[..j + 1] == [s[0]] + s[1..][..j];
        j + 1
  }

  /** Index of the last `c` in `s`, or -1. */
  function LastIndexOf(s: string, c: char): (i: int)
    ensures -1 <= i < |s|
    ensures i == -1 <==> c !in s
    ensures i >= 0 ==> s[i] == c && c !in s[i + 1..]
  {
    if s == [] then -1
    else if s[|s| - 1] == c then |s| - 1
    else
      var j := LastIndexOf(s[..|s| - 1], c);
      assert s[j + 1..] == s[..|s| - 1][j + 1..] + [s[|s| - 1]] by {
        assert s == s[..|s| - 1] + [s[|s| - 1]];
      }
      j
  }

  /** The final bracket checks: no '[' from position `j` on, no ']' from position `k` on;
      the port is everything after the last colon at `i`. Both checked tails cover the
      port, so a port that passes holds no bracket. */
  function CheckBrackets(hostport: string, host: string, i: nat, j: nat, k: nat): (r: Split)
    requires i < |hostport| && j <= i + 1 && k <= i + 1
    ensures r.Ok? ==> r.host == host && r.port == hostport[i + 1..]
    ensures r.Ok? ==> '[' !in r.port && ']' !in r.port
    ensures r.Err? ==> r.why == UnexpectedOpenBracket || r.why == UnexpectedCloseBracket
  {
    if '[' in hostport[j..] then Err(UnexpectedOpenBracket)
    else if ']' in hostport[k..] then Err(UnexpectedCloseBracket)
    else
      assert hostport[i + 1..] == hostport[j..][i + 1 - j..];
      assert hostport[i + 1..] == hostport[k..][i + 1 - k..];
      Ok(host, hostport[i + 1..])
  }

  /** What a successful split promises about its parts. */
  predicate SplitsInto(hostport: string, host: string, port: string) {
    && ':' !in port && '[' !in port && ']' !in port
    && (hostport == host + ":" + port || hostport == "[" + host + "]:" + port)
  }

  /** The branch for "[host]:port": the first ']' must sit right before the last colon. */
  function SplitBracketed(hostport: string, i: nat): (r: Split)
    requires i < |hostport| && hostport[0] == '[' && hostport[i] == ':' && ':' !in hostport[i + 1..]
    ensures r.Ok? ==> SplitsInto(hostport, r.host, r.port)
  {
    var end := IndexOf(hostport, ']');
    if end < 0 then Err(MissingBracket)
    else if end + 1 == |hostport| then Err(MissingPort)
    else if end + 1 != i then
      if hostport[end + 1] == ':' then Err(TooManyColons) else Err(MissingPort)
    else
      var r := CheckBrackets(hostport, hostport[1..end], i, 1, end + 1);
      if r.Ok? then
        BracketedParts(hostport, end, i);
        r
      else r
  }

  /** "[host]:port" taken apart at its first ']' (at `end`) and the colon after it. */
  lemma BracketedParts(hostport: string, end: nat, i: nat)
    requires 0 < end && end + 1 == i < |hostport| && hostport[0] == '[' && hostport[end] == ']' && hostport[i] == ':'
    requires '[' !in hostport[1..] && ']' !in hostport[end + 1..]
    ensures hostport == "[" + hostport[1..end] + "]:" + hostport[i + 1..]
    ensures '[' !in hostport[i + 1..] && ']' !in hostport[i + 1..]
  {
    assert hostport == hostport[..1] + hostport[1..end] + hostport[end..i + 1] + hostport[i + 1..];
    assert hostport[end..i + 1] == "]:";
    assert hostport[i + 1..] == hostport[end + 1..][1..];
    assert hostport[end + 1..] == hostport[1..][end..];
  }

  /** The branch for "host:port": the host before the last colon may hold no other colon. */
  function SplitPlain(hostport: string, i: nat): (r: Split)
    requires i < |hostport| && hostport[i] == ':' && ':' !in hostport[i + 1..]
    ensures r.Ok? ==> SplitsInto(hostport, r.host, r.port) && ':' !in r.host
  {
    var host := hostport[..i];
    if ':' in host then Err(TooManyColons)
    else
      var r := CheckBrackets(hostport, host, i, 0, 0);
      assert hostport == host + ":" + hostport[i + 1..] by {
        assert hostport == hostport[..i] + hostport[i..i + 1] + hostport[i + 1..];
      }
      r
  }

  /** `net.SplitHostPort`: splits "host:port", "[host]:port" or "[host%zone]:port" at the
      last colon. A successful split is an inverse image of `JoinHostPort`, either without
      brackets or with the host bracketed; an address with no colon lacks its port. */
  function SplitHostPort(hostport: string): (r: Split)
    ensures ':' !in hostport ==> r == Err(MissingPort)
    ensures r.Ok? ==> SplitsInto(hostport, r.host, r.port)
    ensures r.Ok? && hostport[0] != '[' ==> ':' !in r.host
  {
    var i := LastIndexOf(hostport, ':');
    if i < 0 then Err(MissingPort)
    else if hostport[0] == '[' then SplitBracketed(hostport, i)
    else SplitPlain(hostport, i)
  }

  /** `net.JoinHostPort`: "host:port", with the host in brackets when it holds a colon. */
  function JoinHostPort(host: string, port: string): string {
    if ':' in host then "[" + host + "]:" + port else host + ":" + port
  }

  /** A `c` at `i` with none before it is the first. */
  lemma IndexOfAt(s: string, c: char, i: nat)
    requires i < |s| && s[i] == c && c !in s[..i]
    ensures IndexOf(s, c) == i
  {
  }

  /** A `c` at `i` with none after it is the last. */
  lemma LastIndexOfAt(s: string, c: char, i: nat)
    requires i < |s| && s[i] == c && c !in s[i + 1..]
    ensures LastIndexOf(s, c) == i
  {
  }

  /** The bracketed branch succeeds when the first ']' is followed by the last colon and
      no bracket appears where the library forbids one. */
  lemma SplitBracketedOk(s: string, i: nat)
    requires 1 < i < |s| && s[0] == '[' && s[i] == ':' && ':' !in s[i + 1..]
    requires IndexOf(s, ']') == i - 1
    requires '[' !in s[1..] && ']' !in s[i..]
    ensures SplitBracketed(s, i) == Ok(s[1..i - 1], s[i + 1..])
  {
  }

  /** The bracketed half of `SplitJoin`: a host holding a colon. */
  lemma SplitJoinBracketed(host: string, port: string)
    requires '[' !in host && ']' !in host
    requires ':' !in port && '[' !in port && ']' !in port
    ensures SplitHostPort("[" + host + "]:" + port) == Ok(host, port)
  {
    var s := "[" + host + "]:" + port;
    var i := |host| + 2;
    assert s[i + 1..] == port;
    assert s[i..] == ":" + port;
    assert s[1..] == host + "]:" + port;
    assert s[..|host| + 1] == "[" + host;
    LastIndexOfAt(s, ':', i);
    IndexOfAt(s, ']', |host| + 1);
    SplitBracketedOk(s, i);
    assert s[1..i - 1] == host;
  }

  /** The plain half of `SplitJoin`: a host without a colon. */
  lemma SplitJoinPlain(host: string, port: string)
    requires ':' !in host && '[' !in host && ']' !in host
    requires ':' !in port && '[' !in port && ']' !in port
    ensures SplitHostPort(host + ":" + port) == Ok(host, port)
  {
    var s := host + ":" + port;
    assert s[|host|] == ':';
    assert s[|host| + 1..] == port;
    assert LastIndexOf(s, ':') == |host|;
    assert s[..|host|] == host;
    assert s[0..] == s;
  }

  /** Splitting a joined address gives back its parts, for any host and port free of
      brackets whose port holds no colon. */
  lemma SplitJoin(host: string, port: string)
    requires '[' !in host && ']' !in host
    requires ':' !in port && '[' !in port && ']' !in port
    ensures SplitHostPort(JoinHostPort(host, port)) == Ok(host, port)
  {
    if ':' in host {
      SplitJoinBracketed(host, port);
    } else {
      SplitJoinPlain(host, port);
    }
  }

  /** A successful split is undone by `JoinHostPort`, except that a bracketed host without
      a colon comes back without its brackets. */
  lemma JoinSplit(hostport: string)
    requires SplitHostPort(hostport).Ok?
    ensures var r := SplitHostPort(hostport);
      JoinHostPort(r.host, r.port) == hostport || (hostport == "[" + r.host + "]:" + r.port && ':' !in r.host)
  {
    var r := SplitHostPort(hostport);
    if hostport[0] != '[' {
      assert hostport == r.host + ":" + r.port;
      assert JoinHostPort(r.host, r.port) == r.host + ":" + r.port;
    }
  }
}
