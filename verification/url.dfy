/**
 * http::url: a URL of the form scheme://host[:port][/path], parsed by
 * scanning left to right and printed back by `update` after any setter.
 */
module Url {
  import opened Wrappers
  import opened Bytes

  /** The parsed text and its four parts (url_, scheme_, port_, host_, path_). */
  datatype Url = Url(text: string, scheme: string, port: u16, host: string, path: string)

  datatype UrlError =
    | InvalidUrl       // "Invalid URL"
    | UnknownScheme    // "Invalid URL: Don't know default port number for scheme"
    | PortOverflow     // atoi of a digit run beyond INT_MAX is undefined

  const INT_MAX: int := 0x7fff_ffff

  function DefaultPort(scheme: string): (p: Option<u16>)
    ensures p.Some? <==> scheme in {"http", "https", "mysql", "ftp"}
  {
    if scheme == "http" then Some(80)
    else if scheme == "https" then Some(443)
    else if scheme == "mysql" then Some(3306)
    else if scheme == "ftp" then Some(21)
    else None
  }

  /**
   * The port loop: after each digit port_ = atoi(digits so far), and a
   * prefix that lands on 0 in the 16-bit port_ throws.
   */
  function CheckPrefixes(digits: string, k: nat): (r: Result<(), UrlError>)
    requires AllDigits(digits) && k <= |digits|
    decreases |digits| - k
  {
    if k == |digits| then Success(())
    else
      var v := DigitsValue(digits[..k + 1]);
      if v > INT_MAX then Failure(PortOverflow)
      else if v % 0x1_0000 == 0 then Failure(InvalidUrl)
      else CheckPrefixes(digits, k + 1)
  }

  function IsColon(c: char): bool { c == ':' }
  function EndsHost(c: char): bool { c == ':' || c == '/' }
  function NotDigit(c: char): bool { !IsDigit(c) }

  predicate GoodScheme(scheme: string) { ':' !in scheme }
  predicate GoodHost(host: string) { ':' !in host && '/' !in host }
  predicate GoodPath(path: string) { |path| == 0 || path[0] == '/' }

  /**
   * The port part of url::parse, from the index b where the host ends: an
   * explicit ':' and digits, or else the scheme's default port. `junk` is
   * what port_ holds when a ':' is followed by no digit at all: the member
   * is never initialised in that case. The second component is where the
   * path starts.
   */
  function ParsePort(s: string, b: nat, scheme: string, junk: u16): (r: Result<(u16, nat), UrlError>)
    requires b <= |s|
    ensures r.Success? ==> b <= r.value.1 <= |s|
    ensures b < |s| && s[b] == ':' && r.Success? ==> b < r.value.1 && AllDigits(s[b + 1..r.value.1])
    ensures !(b < |s| && s[b] == ':') ==> r.Success? == DefaultPort(scheme).Some?
  {
    if b < |s| && s[b] == ':' then
      var e := Scan(s, b + 1, NotDigit);
      var digits := s[b + 1..e];
      var ok :- CheckPrefixes(digits, 0);
      Success((if |digits| == 0 then junk else DigitsValue(digits) % 0x1_0000, e))
    else if DefaultPort(scheme).Some? then Success((DefaultPort(scheme).value, b))
    else Failure(UnknownScheme)
  }

  /** The path part of url::parse: the rest of the text, which must start with '/' when there is any. */
  function ParsePath(s: string, n: nat): (r: Result<string, UrlError>)
    requires n <= |s|
    ensures r.Success? <==> GoodPath(s[n..])
    ensures r.Success? ==> r.value == s[n..]
  {
    if n < |s| && s[n] != '/' then Failure(InvalidUrl)
    else if n < |s| then Success(s[n..])
    else Success("")
  }

  /** The end of url::parse, once the scheme and the host are known and the host ends at b. */
  function Assemble(s: string, scheme: string, host: string, b: nat, junk: u16): (r: Result<Url, UrlError>)
    requires b <= |s|
    ensures r.Success? ==> r.value.text == s && r.value.scheme == scheme && r.value.host == host
    ensures r.Success? ==> GoodPath(r.value.path)
    ensures r.Success? ==> |r.value.path| <= |s| && s[|s| - |r.value.path|..] == r.value.path
  {
    var portEnd :- ParsePort(s, b, scheme, junk);
    var path :- ParsePath(s, portEnd.1);
    assert |s| - |path| == portEnd.1;
    Success(Url(s, scheme, portEnd.0, host, path))
  }

  /** Assemble once the port and the path are known. */
  lemma AssembleOf(s: string, scheme: string, host: string, b: nat, port: u16, n: nat, junk: u16)
    requires b <= n <= |s| && ParsePort(s, b, scheme, junk) == Success((port, n)) && GoodPath(s[n..])
    ensures Assemble(s, scheme, host, b, junk) == Success(Url(s, scheme, port, host, s[n..]))
  {
  }

  /** url::parse: scheme up to the first ':', then "//", the host, an optional port and the path. */
  function Parse(s: string, junk: u16): (r: Result<Url, UrlError>)
    ensures r.Success? ==> r.value.text == s
    ensures r.Success? ==> GoodScheme(r.value.scheme) && GoodHost(r.value.host) && GoodPath(r.value.path)
    ensures r.Success? ==>
      var n := |r.value.scheme| + 3 + |r.value.host|;
      n <= |s| && s[..n] == r.value.scheme + "://" + r.value.host
      && |r.value.path| <= |s| && s[|s| - |r.value.path|..] == r.value.path
  {
    var a := Scan(s, 0, IsColon);
    if !(a + 2 < |s| && s[a + 1] == '/' && s[a + 2] == '/') then Failure(InvalidUrl)
    else
      var b := Scan(s, a + 3, EndsHost);
      assert s[..b] == s[..a] + "://" + s[a + 3..b];
      assert ':' !in s[..a] && ':' !in s[a + 3..b] && '/' !in s[a + 3..b];
      Assemble(s, s[..a], s[a + 3..b], b, junk)
  }

  /** A text that starts with a printable scheme, "://" and a printable host is parsed by Assemble. */
  lemma ParseParts(s: string, scheme: string, host: string, junk: u16)
    requires GoodScheme(scheme) && GoodHost(host)
    requires |scheme| + 3 + |host| <= |s| && s[..|scheme| + 3 + |host|] == scheme + "://" + host
    requires var b := |scheme| + 3 + |host|; b < |s| ==> EndsHost(s[b])
    ensures Parse(s, junk) == Assemble(s, scheme, host, |scheme| + 3 + |host|, junk)
  {
    var a := |scheme|;
    var b := a + 3 + |host|;
    PartsShape(s, scheme, host);
    ScanIs(s, 0, IsColon, a);
    ScanIs(s, a + 3, EndsHost, b);
  }

  /** The scans of url::parse stop at the end of the scheme and of the host. */
  lemma PartsShape(s: string, scheme: string, host: string)
    requires GoodScheme(scheme) && GoodHost(host)
    requires |scheme| + 3 + |host| <= |s| && s[..|scheme| + 3 + |host|] == scheme + "://" + host
    ensures var a := |scheme|;
      s[..a] == scheme && s[a] == ':' && s[a + 1] == '/' && s[a + 2] == '/'
      && s[a + 3..a + 3 + |host|] == host
      && (forall i :: 0 <= i < a ==> !IsColon(s[i]))
      && (forall i :: a + 3 <= i < a + 3 + |host| ==> !EndsHost(s[i]))
  {
    var a := |scheme|;
    var p := s[..a + 3 + |host|];
    assert p[..a] == scheme && p[a] == ':' && p[a + 1] == '/' && p[a + 2] == '/' && p[a + 3..] == host;
    assert forall i :: 0 <= i < a ==> s[i] == scheme[i];
    assert forall i :: a + 3 <= i < a + 3 + |host| ==> s[i] == host[i - (a + 3)];
  }

  /** url::update: scheme://host:port followed by the path (nothing when it is empty). */
  function Compose(scheme: string, host: string, port: u16, path: string): (s: string)
  {
    scheme + "://" + host + ":" + Decimal(port) + path
  }

  function SetScheme(u: Url, scheme: string): (v: Url)
    ensures v.scheme == scheme && v.host == u.host && v.port == u.port && v.path == u.path
    ensures v.text == Compose(scheme, u.host, u.port, u.path)
  {
    Url(Compose(scheme, u.host, u.port, u.path), scheme, u.port, u.host, u.path)
  }

  function SetHost(u: Url, host: string): (v: Url)
    ensures v.host == host && v.scheme == u.scheme && v.port == u.port && v.path == u.path
    ensures v.text == Compose(u.scheme, host, u.port, u.path)
  {
    Url(Compose(u.scheme, host, u.port, u.path), u.scheme, u.port, host, u.path)
  }

  function SetPort(u: Url, port: u16): (v: Url)
    ensures v.port == port && v.scheme == u.scheme && v.host == u.host && v.path == u.path
    ensures v.text == Compose(u.scheme, u.host, port, u.path)
  {
    Url(Compose(u.scheme, u.host, port, u.path), u.scheme, port, u.host, u.path)
  }

  function SetPath(u: Url, path: string): (v: Url)
    ensures v.path == path && v.scheme == u.scheme && v.host == u.host && v.port == u.port
    ensures v.text == Compose(u.scheme, u.host, u.port, path)
  {
    Url(Compose(u.scheme, u.host, u.port, path), u.scheme, u.port, u.host, path)
  }

  // ------------------------------------------------------------ round trip

  /** A prefix of a decimal numeral is worth at most the whole numeral. */
  lemma {:induction false} PrefixAtMost(d: string, k: nat)
    requires AllDigits(d) && k <= |d|
    ensures DigitsValue(d[..k]) <= DigitsValue(d)
    decreases |d|
  {
    if k < |d| {
      var p := d[..|d| - 1];
      assert d[..k] == p[..k];
      PrefixAtMost(p, k);
    } else {
      assert d[..k] == d;
    }
  }

  /** A non-empty numeral is worth at least its first digit. */
  lemma {:induction false} AtLeastFirst(d: string)
    requires AllDigits(d) && |d| >= 1
    ensures DigitValue(d[0]) <= DigitsValue(d)
    decreases |d|
  {
    if |d| > 1 {
      var p := d[..|d| - 1];
      assert p[0] == d[0];
      AtLeastFirst(p);
    }
  }

  /** The digits of a port from 1 to 65535 pass the prefix check. */
  lemma {:induction false} CheckDecimal(p: u16, k: nat)
    requires 1 <= p && k <= |Decimal(p)|
    ensures CheckPrefixes(Decimal(p), k) == Success(())
    decreases |Decimal(p)| - k
  {
    var d := Decimal(p);
    if k < |d| {
      var q := d[..k + 1];
      PrefixAtMost(d, k + 1);
      assert q[0] == d[0];
      AtLeastFirst(q);
      DecimalValue(p);
      assert d[0] != '0' by {
        if |d| == 1 {
          assert d[..1] == d;
        }
      }
      assert 1 <= DigitsValue(q) <= p as int;
      CheckDecimal(p, k + 1);
    }
  }

  /** An explicit port written as lexical_cast writes it is read back. */
  lemma ParsePortExplicit(s: string, b: nat, scheme: string, port: u16, path: string, junk: u16)
    requires b < |s| && s[b] == ':' && s[b + 1..] == Decimal(port) + path
    requires GoodPath(path) && port >= 1
    ensures ParsePort(s, b, scheme, junk) == Success((port, |s| - |path|))
  {
    var d := Decimal(port);
    var e := |s| - |path|;
    assert s[b + 1..e] == d;
    assert forall i :: b + 1 <= i < e ==> s[i] == d[i - (b + 1)];
    assert e < |s| ==> s[e] == path[0];
    ScanIs(s, b + 1, NotDigit, e);
    CheckDecimal(port, 0);
    DecimalValue(port);
  }

  /** Where the parts of a composed URL sit. */
  lemma ComposeShape(scheme: string, host: string, port: u16, path: string)
    ensures var s := Compose(scheme, host, port, path);
      var b := |scheme| + 3 + |host|;
      b < |s| && s[..b] == scheme + "://" + host && s[b] == ':' && s[b + 1..] == Decimal(port) + path
      && |path| <= |s| && s[|s| - |path|..] == path
  {
    var s := Compose(scheme, host, port, path);
    assert s == (scheme + "://" + host) + ":" + (Decimal(port) + path);
  }

  /** Printing a URL and parsing the text gives the same URL back, when the parts are printable. */
  lemma ParseCompose(scheme: string, host: string, port: u16, path: string, junk: u16)
    requires GoodScheme(scheme) && GoodHost(host) && GoodPath(path) && port >= 1
    ensures var s := Compose(scheme, host, port, path);
      Parse(s, junk) == Success(Url(s, scheme, port, host, path))
  {
    ComposeShape(scheme, host, port, path);
    ParseShaped(Compose(scheme, host, port, path), scheme, host, port, path, junk);
  }

  /** The round trip on any text laid out as Compose lays it out. */
  lemma ParseShaped(s: string, scheme: string, host: string, port: u16, path: string, junk: u16)
    requires GoodScheme(scheme) && GoodHost(host) && GoodPath(path) && port >= 1
    requires var b := |scheme| + 3 + |host|;
      b < |s| && s[..b] == scheme + "://" + host && s[b] == ':' && s[b + 1..] == Decimal(port) + path
      && |path| <= |s| && s[|s| - |path|..] == path
    ensures Parse(s, junk) == Success(Url(s, scheme, port, host, path))
  {
    AssembleShaped(s, scheme, host, port, path, junk);
    ParseParts(s, scheme, host, junk);
  }

  lemma AssembleShaped(s: string, scheme: string, host: string, port: u16, path: string, junk: u16)
    requires GoodPath(path) && port >= 1
    requires var b := |scheme| + 3 + |host|;
      b < |s| && s[b] == ':' && s[b + 1..] == Decimal(port) + path
      && |path| <= |s| && s[|s| - |path|..] == path
    ensures Assemble(s, scheme, host, |scheme| + 3 + |host|, junk) == Success(Url(s, scheme, port, host, path))
  {
    var b := |scheme| + 3 + |host|;
    ParsePortExplicit(s, b, scheme, port, path, junk);
    AssembleOf(s, scheme, host, b, port, |s| - |path|, junk);
  }

  /** After any setter the printed text parses back to the new parts, when they are printable. */
  lemma SettersReparse(u: Url, scheme: string, host: string, port: u16, path: string, junk: u16)
    requires GoodScheme(u.scheme) && GoodHost(u.host) && GoodPath(u.path) && u.port >= 1
    requires GoodScheme(scheme) && GoodHost(host) && GoodPath(path) && port >= 1
    ensures Parse(SetScheme(u, scheme).text, junk) == Success(SetScheme(u, scheme))
    ensures Parse(SetHost(u, host).text, junk) == Success(SetHost(u, host))
    ensures Parse(SetPort(u, port).text, junk) == Success(SetPort(u, port))
    ensures Parse(SetPath(u, path).text, junk) == Success(SetPath(u, path))
  {
    ParseCompose(scheme, u.host, u.port, u.path, junk);
    ParseCompose(u.scheme, host, u.port, u.path, junk);
    ParseCompose(u.scheme, u.host, port, u.path, junk);
    ParseCompose(u.scheme, u.host, u.port, path, junk);
  }

  /** Without an explicit port the scheme's default is used, and an unknown scheme is refused. */
  lemma ParseDefaultPort(scheme: string, host: string, path: string, junk: u16)
    requires GoodScheme(scheme) && GoodHost(host) && GoodPath(path)
    ensures var s := scheme + "://" + host + path;
      Parse(s, junk) == if DefaultPort(scheme).Some?
        then Success(Url(s, scheme, DefaultPort(scheme).value, host, path))
        else Failure(UnknownScheme)
  {
    var s := scheme + "://" + host + path;
    var b := |scheme| + 3 + |host|;
    assert s[..b] == scheme + "://" + host && s[b..] == path;
    ParseParts(s, scheme, host, junk);
  }

  /** A port whose first digit is 0 is refused: atoi of that first digit is 0. */
  lemma LeadingZeroPortRejected(s: string, b: nat, scheme: string, junk: u16)
    requires b + 1 < |s| && s[b] == ':' && s[b + 1] == '0'
    ensures ParsePort(s, b, scheme, junk) == Failure(InvalidUrl)
  {
    var e := Scan(s, b + 1, NotDigit);
    assert e > b + 1;
    var digits := s[b + 1..e];
    assert digits[..1] == "0";
    assert DigitsValue(digits[..1]) == 0;
  }

  /** So a URL with such a port does not parse. */
  lemma ZeroPortUrlRejected(scheme: string, host: string, rest: string, junk: u16)
    requires GoodScheme(scheme) && GoodHost(host)
    ensures Parse(scheme + "://" + host + ":0" + rest, junk) == Failure(InvalidUrl)
  {
    ZeroPortShape(scheme, host, rest);
    ZeroPortTextRejected(scheme + "://" + host + ":0" + rest, scheme, host, junk);
  }

  lemma ZeroPortTextRejected(s: string, scheme: string, host: string, junk: u16)
    requires GoodScheme(scheme) && GoodHost(host)
    requires var b := |scheme| + 3 + |host|;
      b + 1 < |s| && s[..b] == scheme + "://" + host && s[b] == ':' && s[b + 1] == '0'
    ensures Parse(s, junk) == Failure(InvalidUrl)
  {
    var b := |scheme| + 3 + |host|;
    LeadingZeroPortRejected(s, b, scheme, junk);
    assert Assemble(s, scheme, host, b, junk) == Failure(InvalidUrl);
    ParseParts(s, scheme, host, junk);
  }

  lemma ZeroPortShape(scheme: string, host: string, rest: string)
    ensures var s := scheme + "://" + host + ":0" + rest;
      var b := |scheme| + 3 + |host|;
      b + 1 < |s| && s[..b] == scheme + "://" + host && s[b] == ':' && s[b + 1] == '0'
  {
  }
}
