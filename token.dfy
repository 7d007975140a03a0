/**
 * Access and refresh tokens: a certificate and the time it expires, kept in the key chain
 * as "<certificate>@<expiration seconds>", sent as a bearer header, and treated as expired
 * a minute before the expiration time. Times are whole seconds since 1970.
 */
module Tokens {
  import opened Wrappers
  import opened Text

  /** A token counts as expired this many seconds before its expiration time. */
  const RENEW_ACCESS_BUFFER_TIME: int := 60
  const TOKEN_SEPARATOR: char := '@'

  datatype Token = Token(certificate: string, expirationDate: int)

  /** The key-chain form: the certificate, the separator, then the expiration in decimal. */
  function ToKeyChainString(t: Token): (s: string)
    ensures |s| > |t.certificate| + 1
    ensures s[..|t.certificate|] == t.certificate && s[|t.certificate|] == TOKEN_SEPARATOR
    ensures ParseInt(s[|t.certificate| + 1..]) == Some(t.expirationDate)
  {
    var s := t.certificate + [TOKEN_SEPARATOR] + IntToString(t.expirationDate);
    assert s[|t.certificate| + 1..] == IntToString(t.expirationDate);
    IntToStringRoundTrip(t.expirationDate);
    s
  }

  /**
   * Reading a key-chain string back: the certificate is the first non-empty piece between
   * separators and the expiration the second. None where the source would trap: fewer
   * than two pieces, or a second piece that is not a number.
   */
  function FromKeyChainString(s: string): (r: Option<Token>)
    ensures r.Some? ==> r.value.certificate != [] && TOKEN_SEPARATOR !in r.value.certificate
    ensures r.Some? ==> TOKEN_SEPARATOR in s
  {
    var parts := Split(s, TOKEN_SEPARATOR);
    if |parts| < 2 then None
    else
      match ParseInt(parts[1])
      case None => None
      case Some(e) =>
        assert TOKEN_SEPARATOR in s by { SplitHasSeparator(s, TOKEN_SEPARATOR); }
        Some(Token(parts[0], e))
  }

  /** Two pieces come only from a string holding the separator. */
  lemma SplitHasSeparator(s: string, sep: char)
    requires |Split(s, sep)| >= 2
    ensures sep in s
  {
    if sep !in s {
      SplitWithoutSeparator(s, sep);
    }
  }

  lemma SplitWithoutSeparator(s: string, sep: char)
    requires sep !in s
    ensures |Split(s, sep)| <= 1
  {
    assert Components(s, sep) == [s];
    assert NonEmpty([s][1..]) == [];
  }

  /** A certificate that is non-empty and free of the separator survives the key chain. */
  lemma KeyChainRoundTrip(t: Token)
    requires t.certificate != [] && TOKEN_SEPARATOR !in t.certificate
    ensures FromKeyChainString(ToKeyChainString(t)) == Some(t)
  {
    var e := IntToString(t.expirationDate);
    assert forall k :: 0 <= k < |e| ==> e[k] != TOKEN_SEPARATOR;
    SplitAroundSeparator(t.certificate, TOKEN_SEPARATOR, e);
    IntToStringRoundTrip(t.expirationDate);
  }

  /** Whatever a key-chain string decodes to is stored again and read back unchanged. */
  lemma ReadBackStable(s: string)
    requires FromKeyChainString(s).Some?
    ensures FromKeyChainString(ToKeyChainString(FromKeyChainString(s).value)) == FromKeyChainString(s)
  {
    KeyChainRoundTrip(FromKeyChainString(s).value);
  }

  /** A certificate holding the separator does not survive: its second piece is read as the expiration. */
  lemma SeparatorInCertificate()
    ensures FromKeyChainString(ToKeyChainString(Token("ab@cd", 5))) == None
  {
    SeparatorKeyChainString();
    SeparatorPieces();
    SecondPieceNotANumber();
  }

  lemma SecondPieceNotANumber()
    ensures ParseInt("cd") == None
  {
    assert !IsDigit('c');
  }

  lemma SeparatorKeyChainString()
    ensures ToKeyChainString(Token("ab@cd", 5)) == Join(["ab", "cd", "5"], "@")
  {
    assert IntToString(5) == "5";
  }

  lemma SeparatorPieces()
    ensures Split(Join(["ab", "cd", "5"], "@"), '@') == ["ab", "cd", "5"]
  {
    var parts := ["ab", "cd", "5"];
    ComponentsOfJoin(parts, '@');
    assert parts[1..][1..] == ["5"] && ["5"][1..] == [];
  }

  /** The value of the Authorization header. */
  function ToHttpHeaderString(t: Token): (h: string)
    ensures |h| == 7 + |t.certificate| && h[..7] == "Bearer " && h[7..] == t.certificate
  {
    "Bearer " + t.certificate
  }

  /** Two tokens send the same header exactly when they hold the same certificate. */
  lemma HeaderDeterminesCertificate(t: Token, u: Token)
    ensures ToHttpHeaderString(t) == ToHttpHeaderString(u) <==> t.certificate == u.certificate
  {
    if ToHttpHeaderString(t) == ToHttpHeaderString(u) {
      assert t.certificate == ToHttpHeaderString(t)[7..];
    }
  }

  /** A missing token is expired; otherwise it is once fewer than 60 seconds are left at now. */
  function IsExpired(token: Option<Token>, now: int): (r: bool)
    ensures token.None? ==> r
    ensures token.Some? && now + RENEW_ACCESS_BUFFER_TIME <= token.value.expirationDate ==> !r
    ensures token.Some? && now + RENEW_ACCESS_BUFFER_TIME > token.value.expirationDate ==> r
  {
    token.None? || now + RENEW_ACCESS_BUFFER_TIME > token.value.expirationDate
  }

  /** Once expired, a token stays expired as time goes on. */
  lemma ExpiryIsPermanent(token: Option<Token>, now: int, later: int)
    requires now <= later && IsExpired(token, now)
    ensures IsExpired(token, later)
  {
  }
}
