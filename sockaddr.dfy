/**
 * `Client::parse_sockaddr` and `Client::tcp_connect`: the address text is
 * split into an address part and an optional port part, the port is read with
 * `atoi` and range-checked, and the address part is handed to `inet_pton`,
 * which is an oracle here.
 */
module SockAddr {
  import opened Results

  datatype Family = Inet | Inet6

  /** The socket address `parse_sockaddr` fills in (the binary address stays with `inet_pton`). */
  datatype SockAddr = SockAddr(family: Family, addr: string, port: int)

  /** The result of splitting, before the port is read and the address is converted. */
  datatype Split = Split(family: Family, addr: string, port: Option<string>)

  const SizeofSockaddrIn: int := 16
  const SizeofSockaddrIn6: int := 28
  /** `char buf[128]` in `parse_sockaddr`: an address part copied into it has at most 127 chars. */
  const AddrBufLen: int := 128

  /** A C string: the text before its terminating NUL. */
  predicate IsCString(s: string) {
    '\0' !in s
  }

  /** `strchr`: the index of the first `c` in `s`. */
  function IndexOf(s: string, c: char): (r: Option<nat>)
    ensures r.Some? ==> r.value < |s| && s[r.value] == c && c !in s[..r.value]
    ensures r.None? <==> c !in s
  {
    if |s| == 0 then None
    else if s[0] == c then Some(0)
    else match IndexOf(s[1..], c)
      case None => None
      case Some(i) => assert s[..i + 1] == [s[0]] + s[1..][..i]; Some(i + 1)
  }

  /** The first `c` is at `i` when `s[i]` is `c` and none comes before. */
  lemma IndexOfFirst(s: string, c: char, i: nat)
    requires i < |s| && s[i] == c && c !in s[..i]
    ensures IndexOf(s, c) == Some(i)
  {
  }

  /** `isspace` in the C locale. */
  predicate IsSpace(c: char) {
    c == ' ' || ('\t' <= c <= '\r')
  }

  predicate IsDigit(c: char) {
    '0' <= c <= '9'
  }

  predicate AllDigits(s: string) {
    forall i :: 0 <= i < |s| ==> IsDigit(s[i])
  }

  function DigitOf(c: char): nat
    requires IsDigit(c)
  {
    c as int - '0' as int
  }

  function Pow10(n: nat): (p: nat)
    ensures p >= 1
  {
    if n == 0 then 1 else 10 * Pow10(n - 1)
  }

  /** The positional value of a digit string: ten times the value of all but the last digit, plus the last. */
  function Decimal(d: string): nat
    requires AllDigits(d)
  {
    if |d| == 0 then 0 else 10 * Decimal(d[..|d| - 1]) + DigitOf(d[|d| - 1])
  }

  /** The leading digit of a digit string is worth its place value. */
  lemma {:induction false} DecimalFront(d: string)
    requires AllDigits(d) && |d| > 0
    ensures Decimal(d) == DigitOf(d[0]) * Pow10(|d| - 1) + Decimal(d[1..])
  {
    if |d| > 1 {
      var init := d[..|d| - 1];
      var tail := d[1..];
      DecimalFront(init);
      assert init[0] == d[0];
      assert init[1..] == tail[..|tail| - 1];
      assert tail[|tail| - 1] == d[|d| - 1];
      assert Decimal(d) == 10 * Decimal(init) + DigitOf(d[|d| - 1]);
      assert Decimal(tail) == 10 * Decimal(tail[..|tail| - 1]) + DigitOf(d[|d| - 1]);
      ShiftPlace(DigitOf(d[0]), Pow10(|d| - 2), Decimal(init[1..]), DigitOf(d[|d| - 1]));
    } else {
      assert d[..0] == [];
      assert d[1..] == [];
    }
  }

  /** Appending a digit `l` to a value `c * p + x` shifts both parts one place. */
  lemma ShiftPlace(c: nat, p: nat, x: nat, l: nat)
    ensures 10 * (c * p + x) + l == c * (10 * p) + (10 * x + l)
  {
  }

  /**
   * The value of the leading decimal digits of `s`, accumulated onto `acc`:
   * for a digit string, `acc` shifted past the digits plus their decimal value.
   */
  function DigitsValue(s: string, acc: nat): (v: nat)
    ensures v >= acc
    ensures AllDigits(s) ==> v == acc * Pow10(|s|) + Decimal(s)
  {
    if |s| > 0 && IsDigit(s[0]) then
      var v := DigitsValue(s[1..], acc * 10 + DigitOf(s[0]));
      assert AllDigits(s) ==> v == acc * Pow10(|s|) + Decimal(s) by {
        if AllDigits(s) {
          assert AllDigits(s[1..]);
          DecimalFront(s);
          ShiftDigit(acc, DigitOf(s[0]), Pow10(|s| - 1), Decimal(s[1..]));
        }
      }
      v
    else acc
  }

  /** Accumulating digit `d` and then shifting by `p` shifts `acc` by `10 * p` and `d` by `p`. */
  lemma ShiftDigit(acc: nat, d: nat, p: nat, rest: nat)
    ensures (acc * 10 + d) * p + rest == acc * (10 * p) + (d * p + rest)
  {
  }

  /** Digits after the leading run are not read. */
  lemma {:induction false} DigitsValueStops(d: string, rest: string, acc: nat)
    requires AllDigits(d) && (|rest| == 0 || !IsDigit(rest[0]))
    ensures DigitsValue(d + rest, acc) == DigitsValue(d, acc)
  {
    if |d| > 0 {
      assert (d + rest)[1..] == d[1..] + rest;
      DigitsValueStops(d[1..], rest, acc * 10 + DigitOf(d[0]));
    } else {
      assert d + rest == rest;
    }
  }

  /** The decimal text of `n`, without leading zeros ("0" for zero). */
  function DecimalString(n: nat): (s: string)
    ensures |s| > 0 && AllDigits(s)
    ensures Decimal(s) == n
  {
    var last := ['0' + (n % 10) as char];
    if n < 10 then
      assert last[..0] == [];
      last
    else
      var init := DecimalString(n / 10);
      var s := init + last;
      assert s[..|s| - 1] == init;
      s
  }

  /** `atoi`: optional leading white space and sign, then decimal digits; 0 when there are none. */
  function Atoi(s: string): (r: int)
    ensures AllDigits(s) ==> r == Decimal(s)
    decreases |s|
  {
    if |s| > 0 && IsSpace(s[0]) then Atoi(s[1..])
    else if |s| > 0 && s[0] == '-' then 0 - DigitsValue(s[1..], 0) as int
    else if |s| > 0 && s[0] == '+' then DigitsValue(s[1..], 0)
    else DigitsValue(s, 0)
  }

  /**
   * The splitting rules of `parse_sockaddr`: `[addr]` with an optional `:port`
   * after the bracket; two or more colons is a bare IPv6 address; one colon is
   * `host:port`; anything else is a bare IPv4 address. None is the `-1` of a
   * missing `]` or an address part that does not fit `buf`.
   */
  function SplitAddress(str: string): (r: Option<Split>)
    requires IsCString(str)
    ensures r.Some? && r.value.family == Inet ==> r.value.addr == str || |r.value.addr| < AddrBufLen
    ensures r.Some? && (|str| == 0 || str[0] != '[') ==> r.value.port.None? ==> r.value.addr == str
  {
    var colon := IndexOf(str, ':');
    if |str| > 0 && str[0] == '[' then
      match IndexOf(str, ']')
      case None => None
      case Some(close) =>
        if close - 1 > AddrBufLen - 1 then None
        else
          var port := if close + 1 < |str| && str[close + 1] == ':' then Some(str[close + 2..]) else None;
          Some(Split(Inet6, str[1..close], port))
    else if colon.Some? && IndexOf(str[colon.value + 1..], ':').Some? then
      Some(Split(Inet6, str, None))
    else if colon.Some? then
      if colon.value > AddrBufLen - 1 then None
      else Some(Split(Inet, str[..colon.value], Some(str[colon.value + 1..])))
    else
      Some(Split(Inet, str, None))
  }

  /** The port `parse_sockaddr` uses: 0 when none is given, else `atoi` of it, which must lie in 1..65535. */
  function PortOf(port: Option<string>): (r: Option<int>)
    ensures r.Some? ==> 0 <= r.value <= 65535
    ensures r.Some? && port.Some? ==> 1 <= r.value
  {
    match port
    case None => Some(0)
    case Some(p) => var n := Atoi(p); if n <= 0 || n > 65535 then None else Some(n)
  }

  /** A port written in decimal within 1..65535 is that port. */
  lemma PortOfDecimal(n: nat)
    requires 1 <= n <= 65535
    ensures PortOf(Some(DecimalString(n))) == Some(n)
  {
  }

  /** The size of the socket address structure of each family. */
  function SockaddrSize(f: Family): int {
    if f == Inet6 then SizeofSockaddrIn6 else SizeofSockaddrIn
  }

  /**
   * `parse_sockaddr(str, out, &outlen)`: the address and the length written
   * back to `outlen`, or None for `-1`. `pton` is `inet_pton(family, addr) == 1`.
   */
  function ParseSockaddr(str: string, outlen: int, pton: (Family, string) -> bool): (r: Option<(SockAddr, int)>)
    requires IsCString(str)
    ensures r.Some? ==> SplitAddress(str).Some?
    ensures r.Some? ==> var s := SplitAddress(str).value;
      && PortOf(s.port).Some?
      && r.value.0 == SockAddr(s.family, s.addr, PortOf(s.port).value)
      && pton(s.family, s.addr)
      && r.value.1 <= outlen
      && r.value.1 == SockaddrSize(s.family)
    ensures r.None? ==> SplitAddress(str).None? || var s := SplitAddress(str).value;
      PortOf(s.port).None? || !pton(s.family, s.addr) || SockaddrSize(s.family) > outlen
  {
    match SplitAddress(str)
    case None => None
    case Some(s) =>
      match PortOf(s.port)
      case None => None
      case Some(port) =>
        var size := SockaddrSize(s.family);
        if !pton(s.family, s.addr) then None
        else if size > outlen then None
        else Some((SockAddr(s.family, s.addr, port), size))
  }

  /** What the socket calls of `tcp_connect` (socket, connect, non-blocking, no-delay) achieve. */
  datatype SocketOutcome = SocketReady(fd: nat) | SocketError

  /** The C string `std::string::c_str` presents: everything before the first NUL. */
  function CStr(s: string): (r: string)
    ensures IsCString(r) && r <= s
    ensures IsCString(s) ==> r == s
    ensures |r| < |s| ==> s[|r|] == '\0'
  {
    match IndexOf(s, '\0')
    case None => s
    case Some(i) => s[..i]
  }

  /**
   * `tcp_connect`: -1 when the peer address does not parse into the
   * `sockaddr_in` it passes (16 bytes), else the socket calls decide.
   */
  function TcpConnect(svraddr: string, pton: (Family, string) -> bool, sys: SocketOutcome): (fd: int)
    ensures fd >= -1
    ensures fd >= 0 ==> ParseSockaddr(CStr(svraddr), SizeofSockaddrIn, pton).Some? && sys == SocketReady(fd)
    ensures ParseSockaddr(CStr(svraddr), SizeofSockaddrIn, pton).Some? && sys.SocketReady? ==> fd == sys.fd
  {
    match ParseSockaddr(CStr(svraddr), SizeofSockaddrIn, pton)
    case None => -1
    case Some(_) => match sys
      case SocketError => -1
      case SocketReady(fd) => fd
  }

  // ----- the splitting rules, each stated on the text it applies to -----

  /** `[` without a later `]` is rejected. */
  lemma UnclosedBracketFails(rest: string)
    requires IsCString(rest) && ']' !in rest
    ensures SplitAddress("[" + rest).None?
  {
    assert ']' !in "[" + rest;
  }

  /** `[addr]:port` takes the address inside the brackets and the port after `]:`. */
  lemma BracketedWithPort(addr: string, port: string)
    requires IsCString(addr) && IsCString(port) && ']' !in addr && |addr| < AddrBufLen
    ensures SplitAddress("[" + addr + "]:" + port) == Some(Split(Inet6, addr, Some(port)))
  {
    var str := "[" + addr + "]:" + port;
    assert IsCString(str) by { assert str == "[" + addr + "]" + (":" + port); }
    var close := |addr| + 1;
    assert str[..close] == "[" + addr;
    assert str[close] == ']';
    assert IndexOf(str, ']') == Some(close);
    assert str[close + 1] == ':';
    assert str[1..close] == addr;
    assert str[close + 2..] == port;
  }

  /** `[addr]` with no colon after the bracket is IPv6 without a port. */
  lemma BracketedNoPort(addr: string)
    requires IsCString(addr) && ']' !in addr && |addr| < AddrBufLen
    ensures SplitAddress("[" + addr + "]") == Some(Split(Inet6, addr, None))
  {
    var str := "[" + addr + "]";
    var close := |addr| + 1;
    assert str[..close] == "[" + addr;
    assert IndexOf(str, ']') == Some(close);
    assert str[1..close] == addr;
  }

  /** An address inside brackets longer than 127 chars does not fit `buf` and is rejected. */
  lemma BracketedTooLongFails(addr: string, rest: string)
    requires IsCString(addr) && IsCString(rest) && ']' !in addr && |addr| >= AddrBufLen
    ensures SplitAddress("[" + addr + "]" + rest).None?
  {
    var str := "[" + addr + "]" + rest;
    var close := |addr| + 1;
    assert str[..close] == "[" + addr;
    assert str[close] == ']';
    assert IndexOf(str, ']') == Some(close);
  }

  /** Text not starting with `[` that holds two or more colons is an IPv6 address without a port. */
  lemma TwoColonsIsIpv6(a: string, b: string, c: string)
    requires IsCString(a) && IsCString(b) && IsCString(c)
    requires ':' !in a && ':' !in b && (|a| == 0 || a[0] != '[')
    ensures SplitAddress(a + ":" + b + ":" + c) == Some(Split(Inet6, a + ":" + b + ":" + c, None))
  {
    var str := a + ":" + b + ":" + c;
    assert str[..|a|] == a && str[|a|] == ':';
    IndexOfFirst(str, ':', |a|);
    var after := str[|a| + 1..];
    assert after == b + ":" + c;
    assert after[|b|] == ':';
    assert ':' in after;
    assert str[0] != '[' by {
      if |a| > 0 { assert str[0] == a[0]; }
    }
  }

  /** `host:port` with exactly one colon is IPv4 with that port. */
  lemma OneColonIsHostPort(host: string, port: string)
    requires IsCString(host) && IsCString(port)
    requires ':' !in host && ':' !in port && (|host| == 0 || host[0] != '[') && |host| < AddrBufLen
    ensures SplitAddress(host + ":" + port) == Some(Split(Inet, host, Some(port)))
  {
    var str := host + ":" + port;
    assert str[..|host|] == host;
    assert str[|host|] == ':';
    assert IndexOf(str, ':') == Some(|host|);
    assert str[|host| + 1..] == port;
    assert IndexOf(port, ':').None?;
    assert |host| > 0 ==> str[0] == host[0];
  }

  /** A host part longer than 127 chars before the only colon is rejected. */
  lemma HostTooLongFails(host: string, port: string)
    requires IsCString(host) && IsCString(port)
    requires ':' !in host && ':' !in port && (|host| == 0 || host[0] != '[') && |host| >= AddrBufLen
    ensures SplitAddress(host + ":" + port).None?
  {
    var str := host + ":" + port;
    assert str[..|host|] == host;
    assert str[|host|] == ':';
    assert IndexOf(str, ':') == Some(|host|);
    assert str[|host| + 1..] == port;
    assert str[0] == host[0];
  }

  /** Text with no colon that does not start with `[` is an IPv4 address without a port. */
  lemma NoColonIsBareIpv4(str: string)
    requires IsCString(str) && ':' !in str && (|str| == 0 || str[0] != '[')
    ensures SplitAddress(str) == Some(Split(Inet, str, None))
  {
  }

  /** A given port outside 1..65535 makes `parse_sockaddr` fail, whatever `inet_pton` says. */
  lemma PortOutOfRangeFails(str: string, outlen: int, pton: (Family, string) -> bool)
    requires IsCString(str) && SplitAddress(str).Some? && SplitAddress(str).value.port.Some?
    requires var n := Atoi(SplitAddress(str).value.port.value); n <= 0 || n > 65535
    ensures ParseSockaddr(str, outlen, pton).None?
  {
  }

  /**
   * `host:port` with a decimal port in range and an address `inet_pton`
   * accepts parses into that IPv4 address and port, for any room of at least
   * a `sockaddr_in`.
   */
  lemma HostPortParses(host: string, n: nat, outlen: int, pton: (Family, string) -> bool)
    requires IsCString(host) && ':' !in host && (|host| == 0 || host[0] != '[') && |host| < AddrBufLen
    requires 1 <= n <= 65535 && pton(Inet, host) && outlen >= SizeofSockaddrIn
    ensures IsCString(host + ":" + DecimalString(n))
    ensures ParseSockaddr(host + ":" + DecimalString(n), outlen, pton) == Some((SockAddr(Inet, host, n), SizeofSockaddrIn))
  {
    var port := DecimalString(n);
    assert ':' !in port && IsCString(port) by {
      forall i | 0 <= i < |port| ensures port[i] != ':' && port[i] != '\0' {
        assert IsDigit(port[i]);
      }
    }
    assert IsCString(host + ":" + port) by {
      assert host + ":" + port == host + (":" + port);
    }
    OneColonIsHostPort(host, port);
    PortOfDecimal(n);
  }

  /**
   * `tcp_connect` hands `parse_sockaddr` a 16-byte `sockaddr_in`, so no IPv6
   * form ever gets past it: only IPv4 peers can be reached.
   */
  lemma TcpConnectNeverIpv6(str: string, pton: (Family, string) -> bool)
    requires IsCString(str)
    ensures ParseSockaddr(str, SizeofSockaddrIn, pton).Some? ==>
      ParseSockaddr(str, SizeofSockaddrIn, pton).value.0.family == Inet
  {
  }
}
