/** The "host:port" text of TCP endpoints as Go's net package writes and splits it:
    net.JoinHostPort, net.SplitHostPort, the decimal port, and TCPAddr.String for the IPv4
    endpoints of this model. Text is a sequence of ASCII codes. */
module HostPort {
  import opened Bytes
  import opened Wrappers
  import Ip

  const Colon: byte := 58
  const LBracket: byte := 91
  const RBracket: byte := 93

  type Port = p: nat | p < 65536

  /** A net.TCPAddr holding an IPv4 address. */
  datatype TcpAddr = TcpAddr(ip: Ip.Addr, port: Port)

  /** The index of the last c in s, or -1 when there is none. */
  function LastIndex(s: seq<byte>, c: byte): (i: int)
    ensures -1 <= i < |s|
    ensures i >= 0 ==> s[i] == c
    ensures forall j :: i < j < |s| ==> s[j] != c
  {
    if s == [] then -1
    else if s[|s| - 1] == c then |s| - 1
    else LastIndex(s[..|s| - 1], c)
  }

  /** The index of the first c in s, or -1 when there is none (bytealg.IndexByteString). */
  function FirstIndex(s: seq<byte>, c: byte): (i: int)
    ensures -1 <= i < |s|
    ensures i >= 0 ==> s[i] == c && forall j :: 0 <= j < i ==> s[j] != c
    ensures i < 0 ==> c !in s
  {
    if s == [] then -1
    else if s[0] == c then 0
    else
      var k := FirstIndex(s[1..], c);
      assert forall j :: 1 <= j < |s| ==> s[j] == s[1..][j - 1];
      if k < 0 then -1 else k + 1
  }

  /** net.JoinHostPort: "host:port", with the host in brackets when it holds a colon. */
  function JoinHostPort(host: seq<byte>, port: seq<byte>): (r: seq<byte>)
    ensures r == (if Colon in host then [LBracket] + host + [RBracket] else host) + [Colon] + port
  {
    if Colon in host then [LBracket] + host + [RBracket, Colon] + port
    else host + [Colon] + port
  }

  const MissingPortText: string := "missing port in address"
  const TooManyColonsText: string := "too many colons in address"

  /** The index of the last c is the k at which c stands with no c after it. */
  lemma LastIndexAt(s: seq<byte>, c: byte, k: nat)
    requires k < |s| && s[k] == c && forall j :: k < j < |s| ==> s[j] != c
    ensures LastIndex(s, c) == k
  {
  }

  /** The index of the first c is the k at which c stands with no c before it. */
  lemma FirstIndexAt(s: seq<byte>, c: byte, k: nat)
    requires k < |s| && s[k] == c && forall j :: 0 <= j < k ==> s[j] != c
    ensures FirstIndex(s, c) == k
  {
  }

  /** The checks net.SplitHostPort makes once it has found the host: no '[' from `j` on and
      no ']' from `k` on; then the port is everything after the last colon, at `i`. */
  function SplitRest(hp: seq<byte>, host: seq<byte>, j: nat, k: nat, i: nat): (r: Result<(seq<byte>, seq<byte>)>)
    requires j <= |hp| && k <= |hp| && i < |hp|
    ensures r.Ok? ==> r.value == (host, hp[i + 1..])
  {
    if LBracket in hp[j..] then Err(AddrError("unexpected '[' in address", hp))
    else if RBracket in hp[k..] then Err(AddrError("unexpected ']' in address", hp))
    else Ok((host, hp[i + 1..]))
  }

  /** The last colon of hp is at i. */
  predicate LastColonAt(hp: seq<byte>, i: nat) {
    i < |hp| && hp[i] == Colon && forall j :: i < j < |hp| ==> hp[j] != Colon
  }

  /** No colon follows the last one. */
  lemma NoColonAfter(hp: seq<byte>, i: nat)
    requires LastColonAt(hp, i)
    ensures Colon !in hp[i + 1..]
  {
    assert forall m :: i + 1 <= m < |hp| ==> hp[m] == hp[i + 1..][m - i - 1];
  }

  /** SplitHostPort on a text that starts with '[': the host is what stands between it and
      the first ']', which the last colon must follow directly. */
  function SplitBracketed(hp: seq<byte>, i: nat): (r: Result<(seq<byte>, seq<byte>)>)
    requires LastColonAt(hp, i) && hp[0] == LBracket
    ensures r.Ok? ==> r.value.1 == hp[i + 1..]
  {
    var end := FirstIndex(hp, RBracket);
    if end < 0 then Err(AddrError("missing ']' in address", hp))
    else if end + 1 == |hp| then Err(AddrError(MissingPortText, hp))
    else if end + 1 != i then
      if hp[end + 1] == Colon then Err(AddrError(TooManyColonsText, hp))
      else Err(AddrError(MissingPortText, hp))
    else SplitRest(hp, hp[1..end], 1, end + 1, i)
  }

  /** SplitHostPort on any other text: the host is everything before the last colon, and
      may not hold a colon itself. */
  function SplitPlain(hp: seq<byte>, i: nat): (r: Result<(seq<byte>, seq<byte>)>)
    requires LastColonAt(hp, i)
    ensures r.Ok? ==> r.value.1 == hp[i + 1..] && Colon !in r.value.0 && hp == r.value.0 + [Colon] + r.value.1
  {
    var host := hp[..i];
    if Colon in host then Err(AddrError(TooManyColonsText, hp))
    else
      assert hp == host + [Colon] + hp[i + 1..];
      SplitRest(hp, host, 0, 0, i)
  }

  /** net.SplitHostPort: the text before and after the last colon, the host taken out of
      its brackets when the text starts with '['; an AddrError naming the text otherwise. */
  function SplitHostPort(hp: seq<byte>): (r: Result<(seq<byte>, seq<byte>)>)
    ensures Colon !in hp ==> r == Err(AddrError(MissingPortText, hp))
    ensures r.Ok? ==> LastIndex(hp, Colon) >= 0 && r.value.1 == hp[LastIndex(hp, Colon) + 1..]
    ensures r.Ok? ==> Colon !in r.value.1
    ensures r.Ok? && hp[0] != LBracket ==> hp == r.value.0 + [Colon] + r.value.1 && Colon !in r.value.0
  {
    var i := LastIndex(hp, Colon);
    if i < 0 then Err(AddrError(MissingPortText, hp))
    else
      NoColonAfter(hp, i);
      if hp[0] == LBracket then SplitBracketed(hp, i) else SplitPlain(hp, i)
  }

  /** Splitting what JoinHostPort joined gives back the host and the port, for a host
      without brackets and a port without colons or brackets. */
  lemma SplitJoin(host: seq<byte>, port: seq<byte>)
    requires LBracket !in host && RBracket !in host
    requires Colon !in port && LBracket !in port && RBracket !in port
    ensures SplitHostPort(JoinHostPort(host, port)) == Ok((host, port))
  {
    if Colon in host {
      SplitJoinBracketed(host, port);
    } else {
      SplitJoinPlain(host, port);
    }
  }

  /** Where the pieces of a bracketed "[host]:port" stand. */
  lemma BracketedShape(host: seq<byte>, port: seq<byte>)
    requires LBracket !in host && RBracket !in host
    requires Colon !in port && LBracket !in port && RBracket !in port
    ensures var hp := [LBracket] + host + [RBracket, Colon] + port; var n := |host|;
      LastColonAt(hp, n + 2) && hp[0] == LBracket && FirstIndex(hp, RBracket) == n + 1
      && hp[1..n + 1] == host && hp[n + 3..] == port
      && LBracket !in hp[1..] && RBracket !in hp[n + 2..]
  {
    BracketedPort(host, port);
    BracketedHost(host, port);
  }

  /** After the ']' of "[host]:port" come the colon and the port, and nothing else. */
  lemma BracketedPort(host: seq<byte>, port: seq<byte>)
    requires Colon !in port && LBracket !in port && RBracket !in port
    ensures var hp := [LBracket] + host + [RBracket, Colon] + port; var n := |host|;
      LastColonAt(hp, n + 2) && hp[n + 2..] == [Colon] + port && hp[n + 3..] == port
      && RBracket !in hp[n + 2..]
  {
    var n := |host|;
    var after := [Colon] + port;
    var hp := ([LBracket] + host + [RBracket]) + after;
    assert hp == [LBracket] + host + [RBracket, Colon] + port;
    assert hp[n + 2..] == after;
    assert hp[n + 3..] == port;
    assert forall m :: n + 2 < m < |hp| ==> hp[m] == port[m - n - 3];
  }

  /** Between the '[' and the first ']' of "[host]:port" stands the host. */
  lemma BracketedHost(host: seq<byte>, port: seq<byte>)
    requires LBracket !in host && RBracket !in host
    requires LBracket !in port
    ensures var hp := [LBracket] + host + [RBracket, Colon] + port; var n := |host|;
      hp[0] == LBracket && FirstIndex(hp, RBracket) == n + 1 && hp[1..n + 1] == host
      && LBracket !in hp[1..]
  {
    var n := |host|;
    var tail := host + [RBracket, Colon] + port;
    var hp := [LBracket] + tail;
    assert hp == [LBracket] + host + [RBracket, Colon] + port;
    assert hp[1..] == tail;
    assert hp[1..n + 1] == host;
    assert forall m :: 0 < m <= n ==> hp[m] == host[m - 1];
    FirstIndexAt(hp, RBracket, n + 1);
    assert LBracket !in tail by {
      assert tail == host + ([RBracket, Colon] + port);
    }
  }

  lemma SplitJoinBracketed(host: seq<byte>, port: seq<byte>)
    requires Colon in host && LBracket !in host && RBracket !in host
    requires Colon !in port && LBracket !in port && RBracket !in port
    ensures SplitHostPort(JoinHostPort(host, port)) == Ok((host, port))
  {
    var hp := [LBracket] + host + [RBracket, Colon] + port;
    var n := |host|;
    BracketedShape(host, port);
    LastIndexAt(hp, Colon, n + 2);
    assert SplitBracketed(hp, n + 2) == Ok((host, port));
  }

  lemma SplitJoinPlain(host: seq<byte>, port: seq<byte>)
    requires Colon !in host && LBracket !in host && RBracket !in host
    requires Colon !in port && LBracket !in port && RBracket !in port
    ensures SplitHostPort(JoinHostPort(host, port)) == Ok((host, port))
  {
    var hp := JoinHostPort(host, port);
    var n := |host|;
    assert hp == host + [Colon] + port;
    assert forall m :: n < m < |hp| ==> hp[m] == port[m - n - 1];
    LastIndexAt(hp, Colon, n);
    assert hp[..n] == host && hp[n + 1..] == port && hp[0..] == hp && hp[0] != LBracket;
  }

  /** The port of a text that ends in ":port" is that port, whatever comes before it. */
  lemma SplitPortOf(prefix: seq<byte>, port: seq<byte>)
    requires Colon !in port
    requires SplitHostPort(prefix + [Colon] + port).Ok?
    ensures SplitHostPort(prefix + [Colon] + port).value.1 == port
  {
    LastColonOf(prefix, port);
  }

  /** In "prefix:port" with a colon-free port, the last colon is the one before the port. */
  lemma LastColonOf(prefix: seq<byte>, port: seq<byte>)
    requires Colon !in port
    ensures var hp := prefix + [Colon] + port;
      LastIndex(hp, Colon) == |prefix| && hp[|prefix| + 1..] == port
  {
    var hp := prefix + [Colon] + port;
    assert forall m :: |prefix| < m < |hp| ==> hp[m] == port[m - |prefix| - 1];
    LastIndexAt(hp, Colon, |prefix|);
    assert hp[|prefix| + 1..] == port;
  }

  /** strconv.Itoa on a non-negative number: decimal digits, most significant first. */
  function Itoa(n: nat): (r: seq<byte>)
    ensures |r| >= 1 && forall i :: 0 <= i < |r| ==> Ip.IsDigit(r[i])
  {
    if n < 10 then [48 + n] else Itoa(n / 10) + [48 + n % 10]
  }

  /** The decimal text of a number reads back as that number. */
  lemma {:induction false} ItoaValue(n: nat)
    ensures Ip.DecimalValue(Itoa(n)) == n
  {
    var r := Itoa(n);
    if n < 10 {
      assert r[..|r| - 1] == [];
    } else {
      ItoaValue(n / 10);
      assert r[..|r| - 1] == Itoa(n / 10);
    }
  }

  /** The port number of the text of a TCP address, as net.Dial reads it: one or more
      decimal digits of a value of at most 65535. */
  function PortValue(text: seq<byte>): (r: Option<Port>)
    ensures r.Some? <==> text != [] && (forall i :: 0 <= i < |text| ==> Ip.IsDigit(text[i])) && Ip.DecimalValue(text) < 65536
    ensures r.Some? ==> r.value == Ip.DecimalValue(text)
  {
    if text != [] && (forall i :: 0 <= i < |text| ==> Ip.IsDigit(text[i])) && Ip.DecimalValue(text) < 65536
    then Some(Ip.DecimalValue(text))
    else None
  }

  /** TCPAddr.String: the address and the decimal port, joined. */
  function TcpString(a: TcpAddr): seq<byte> {
    JoinHostPort(Ip.String(a.ip), Itoa(a.port))
  }

  /** The text of an endpoint splits into the text of its address and of its port, which
      parse back to the address and the port. */
  lemma SplitTcpString(a: TcpAddr)
    ensures SplitHostPort(TcpString(a)) == Ok((Ip.String(a.ip), Itoa(a.port)))
    ensures Ip.ParseAddr(Ip.String(a.ip)) == Ok(a.ip) && PortValue(Itoa(a.port)) == Some(a.port)
  {
    var host, port := Ip.String(a.ip), Itoa(a.port);
    assert LBracket !in host && RBracket !in host;
    assert Colon !in port && LBracket !in port && RBracket !in port;
    SplitJoin(host, port);
    Ip.ParseString(a.ip);
    ItoaValue(a.port);
  }

  /** The whole text of an endpoint, port included, is never an address. */
  lemma TcpStringNeverParses(a: TcpAddr)
    ensures Ip.ParseAddr(TcpString(a)).Err?
  {
    var host := Ip.String(a.ip);
    assert Colon !in host;
    Ip.ColonNeverParses(TcpString(a), |host|);
  }
}
