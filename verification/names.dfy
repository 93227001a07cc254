/** The hop-by-hop header names, proved to be written in canonical form. Each literal is
    checked in short pieces joined by `Mime.FixedFromConcat`, which keeps every proof
    small: a piece at the start of a name or after a hyphen is checked in the upper-case
    state, any other piece in the lower-case state. Each name has a lemma of its own
    because checking the whole list in one proof is too large for the solver. */
module HeaderNames {
  import opened Mime

  lemma ProxyPrefixKeepsCanonical(rest: string)
    requires IsCanonical(rest)
    ensures IsCanonical("Proxy-" + rest)
  {
    assert FixedFrom("Proxy-", true);
    FixedFromConcat("Proxy-", rest, true);
  }

  lemma ConnectionIsCanonical()
    ensures IsCanonical("Connection")
  {
    assert FixedFrom("Conn", true) && FixedFrom("ection", false);
    FixedFromConcat("Conn", "ection", true);
    assert "Conn" + "ection" == "Connection";
  }

  lemma ProxyConnectionIsCanonical()
    ensures IsCanonical("Proxy-Connection")
  {
    ConnectionIsCanonical();
    ProxyPrefixKeepsCanonical("Connection");
    assert "Proxy-" + "Connection" == "Proxy-Connection";
  }

  lemma AuthenticateIsCanonical()
    ensures IsCanonical("Authenticate")
  {
    assert FixedFrom("Authen", true) && FixedFrom("ticate", false);
    FixedFromConcat("Authen", "ticate", true);
    assert "Authen" + "ticate" == "Authenticate";
  }

  lemma ProxyAuthenticateIsCanonical()
    ensures IsCanonical("Proxy-Authenticate")
  {
    AuthenticateIsCanonical();
    ProxyPrefixKeepsCanonical("Authenticate");
    assert "Proxy-" + "Authenticate" == "Proxy-Authenticate";
  }

  lemma AuthorizationIsCanonical()
    ensures IsCanonical("Authorization")
  {
    assert FixedFrom("Author", true) && FixedFrom("ization", false);
    FixedFromConcat("Author", "ization", true);
    assert "Author" + "ization" == "Authorization";
  }

  lemma ProxyAuthorizationIsCanonical()
    ensures IsCanonical("Proxy-Authorization")
  {
    AuthorizationIsCanonical();
    ProxyPrefixKeepsCanonical("Authorization");
    assert "Proxy-" + "Authorization" == "Proxy-Authorization";
  }

  lemma KeepAliveIsCanonical()
    ensures IsCanonical("Keep-Alive")
  {
    assert FixedFrom("Keep-", true) && FixedFrom("Alive", true);
    FixedFromConcat("Keep-", "Alive", true);
    assert "Keep-" + "Alive" == "Keep-Alive";
  }

  lemma EncodingIsCanonical()
    ensures IsCanonical("Encoding")
  {
    assert FixedFrom("Enc", true) && FixedFrom("oding", false);
    FixedFromConcat("Enc", "oding", true);
    assert "Enc" + "oding" == "Encoding";
  }

  lemma TransferEncodingIsCanonical()
    ensures IsCanonical("Transfer-Encoding")
  {
    assert FixedFrom("Trans", true) && FixedFrom("fer-", false);
    FixedFromConcat("Trans", "fer-", true);
    assert "Trans" + "fer-" == "Transfer-";
    EncodingIsCanonical();
    FixedFromConcat("Transfer-", "Encoding", true);
    assert "Transfer-" + "Encoding" == "Transfer-Encoding";
  }

  lemma TrailersIsCanonical()
    ensures IsCanonical("Trailers")
  {
    assert FixedFrom("Trail", true) && FixedFrom("ers", false);
    FixedFromConcat("Trail", "ers", true);
    assert "Trail" + "ers" == "Trailers";
  }

  lemma UpgradeAndTeAreCanonical()
    ensures IsCanonical("Upgrade") && IsCanonical("Te")
  {
    assert FixedFrom("Upg", true) && FixedFrom("rade", false);
    FixedFromConcat("Upg", "rade", true);
    assert "Upg" + "rade" == "Upgrade";
  }

  /** "Te" is the canonical form of the `TE` header that RFC 7230 names. */
  lemma TeIsCanonicalTE()
    ensures Canonical("TE") == "Te"
  {
  }
}
