/**
  Proxy-chain route text (`validate_network_path_contract` and the functions it uses in plan.rs): hops
  `scheme://host:port` separated by two underscores.  A host with a colon is bracketed, in the form of section 3.2.2 of
  RFC 3986; whether it is an IPv6 address is the platform's address parser's to say, here the parameter `isIpv6`.
 */
module RouteText {
  import opened Basics

  const CHAIN_LEN_BOUND: nat := 1024

  datatype Hop = Hop(scheme: string, host: string, port: nat)

  // ---- Text operations of the standard library ----

  function SplitHops(s: string): (hops: seq<string>)
    ensures hops != []
  {
    if s == [] then [[]]
    else if |s| >= 2 && s[0] == '_' && s[1] == '_' then [[]] + SplitHops(s[2..])
    else
      var rest := SplitHops(s[1..]);
      [[s[0]] + rest[0]] + rest[1..]
  }

  function JoinHops(hops: seq<string>): string
    requires hops != []
  {
    if |hops| == 1 then hops[0] else hops[0] + "__" + JoinHops(hops[1..])
  }

  /** Split at the first "://". */
  function SplitScheme(s: string): Option<(string, string)> {
    if |s| < 3 then None
    else if s[..3] == "://" then Some(([], s[3..]))
    else match SplitScheme(s[1..])
      case None => None
      case Some((scheme, rest)) => Some(([s[0]] + scheme, rest))
  }

  /** Split at the last colon. */
  function SplitLastColon(s: string): Option<(string, string)> {
    if s == [] then None
    else
      var init, last := s[..|s| - 1], s[|s| - 1];
      if last == ':' then Some((init, []))
      else match SplitLastColon(init)
        case None => None
        case Some((host, port)) => Some((host, port + [last]))
  }

  /** Text before and after the first closing bracket. */
  function SplitClose(s: string): Option<(string, string)> {
    if s == [] then None
    else if s[0] == ']' then Some(([], s[1..]))
    else match SplitClose(s[1..])
      case None => None
      case Some((host, rest)) => Some(([s[0]] + host, rest))
  }

  predicate AllDigits(s: string) {
    forall c :: c in s ==> IsDigit(c)
  }

  function DigitOf(c: char): nat {
    if IsDigit(c) then c as int - '0' as int else 0
  }

  function DigitsValue(s: string): nat
    requires AllDigits(s)
  {
    if s == [] then 0
    else 10 * DigitsValue(s[..|s| - 1]) + DigitOf(s[|s| - 1])
  }

  /** Decimal text of an unsigned 16-bit integer; a leading plus sign is allowed. */
  function ParseU16(s: string): Option<nat> {
    var digits := if |s| > 1 && s[0] == '+' then s[1..] else s;
    if digits == [] || !AllDigits(digits) || DigitsValue(digits) > 65535 then None
    else Some(DigitsValue(digits))
  }

  function Decimal(n: nat): (s: string)
    ensures s != [] && AllDigits(s)
  {
    if n < 10 then [('0' as int + n) as char]
    else Decimal(n / 10) + [('0' as int + n % 10) as char]
  }

  // ---- Validation ----

  predicate KnownScheme(scheme: string) {
    scheme in {"http", "socks4", "socks4a", "socks5"}
  }

  predicate EndpointChar(c: char) {
    IsAlphanumeric(c) || c in ".-:[]"
  }

  predicate HostChar(c: char) {
    IsAlphanumeric(c) || c in ".-"
  }

  /** Host and port of an endpoint, or the error category. */
  function ParseEndpoint(endpoint: string, isIpv6: string -> bool): Result<(string, nat), string> {
    if endpoint != [] && endpoint[0] == '[' then
      match SplitClose(endpoint[1..])
      case None => Err("invalid_route")
      case Some((host, suffix)) =>
        if suffix == [] || suffix[0] != ':' || !isIpv6(host) then Err("invalid_route")
        else ParsePortOf(host, suffix[1..])
    else
      match SplitLastColon(endpoint)
      case None => Err("invalid_route")
      case Some((host, port)) =>
        if host == [] || ':' in host then Err("invalid_route")
        else ParsePortOf(host, port)
  }

  function ParsePortOf(host: string, portText: string): Result<(string, nat), string> {
    match ParseU16(portText)
    case None => Err("invalid_route")
    case Some(port) =>
      if port == 0 then Err("invalid_route")
      else if ':' in host then Ok((host, port))
      else if exists c :: c in host && !HostChar(c) then Err("invalid_route")
      else Ok((host, port))
  }

  function ParseHop(hop: string, isIpv6: string -> bool): Result<Hop, string> {
    match SplitScheme(hop)
    case None => Err("invalid_route")
    case Some((scheme, endpoint)) =>
      if !KnownScheme(scheme) then Err("unsupported_route")
      else if endpoint == [] || exists c :: c in endpoint && !EndpointChar(c) then Err("invalid_route")
      else match ParseEndpoint(endpoint, isIpv6)
        case Err(category) => Err(category)
        case Ok((host, port)) => Ok(Hop(scheme, host, port))
  }

  /** The error of the first bad hop, if any. */
  function ShapeError(hops: seq<string>, isIpv6: string -> bool): Option<string> {
    if hops == [] then None
    else match ParseHop(hops[0], isIpv6)
      case Err(category) => Some(category)
      case Ok(_) => ShapeError(hops[1..], isIpv6)
  }

  /** `validate_route_endpoint`, with the host and port it reads. */
  method ValidateRouteEndpoint(endpoint: string, isIpv6: string -> bool) returns (r: Result<(string, nat), string>)
    ensures r == ParseEndpoint(endpoint, isIpv6)
  {
    var host, portText: string := [], [];
    if endpoint != [] && endpoint[0] == '[' {
      var split := SplitClose(endpoint[1..]);
      if split.None? {
        return Err("invalid_route");
      }
      var (bracketed, suffix) := split.value;
      if suffix == [] || suffix[0] != ':' {
        return Err("invalid_route");
      }
      if !isIpv6(bracketed) {
        return Err("invalid_route");
      }
      host, portText := bracketed, suffix[1..];
    } else {
      var split := SplitLastColon(endpoint);
      if split.None? {
        return Err("invalid_route");
      }
      host, portText := split.value.0, split.value.1;
      if host == [] || ':' in host {
        return Err("invalid_route");
      }
    }
    var port := ParseU16(portText);
    if port.None? || port.value == 0 {
      return Err("invalid_route");
    }
    if ':' in host {
      return Ok((host, port.value));
    }
    if exists c :: c in host && !(IsAlphanumeric(c) || c == '.' || c == '-') {
      return Err("invalid_route");
    }
    return Ok((host, port.value));
  }

  method ValidateProxyChainShape(chain: string, isIpv6: string -> bool) returns (error: Option<string>)
    ensures error == ShapeError(SplitHops(chain), isIpv6)
  {
    var hops := SplitHops(chain);
    for i := 0 to |hops|
      invariant ShapeError(hops[i..], isIpv6) == ShapeError(hops, isIpv6)
    {
      assert hops[i..][1..] == hops[i + 1..];
      var split := SplitScheme(hops[i]);
      if split.None? {
        return Some("invalid_route");
      }
      var (scheme, endpoint) := split.value;
      if scheme != "http" && scheme != "socks4" && scheme != "socks4a" && scheme != "socks5" {
        return Some("unsupported_route");
      }
      if endpoint == [] || exists c :: c in endpoint && !(IsAlphanumeric(c) || c in ['.', '-', ':', '[', ']']) {
        return Some("invalid_route");
      }
      var parsed := ValidateRouteEndpoint(endpoint, isIpv6);
      if parsed.Err? {
        return Some(parsed.error);
      }
    }
    return None;
  }

  /** The route part of `validate_network_path_contract`. */
  function RouteError(chain: string, isIpv6: string -> bool): Option<string> {
    if chain == [] || Utf8Length(chain) > CHAIN_LEN_BOUND then Some("invalid_route")
    else if exists c :: c in chain && IsControl(c) then Some("invalid_route")
    else if exists c :: c in chain && c in "@%?#" then Some("route_credentials_not_supported")
    else ShapeError(SplitHops(chain), isIpv6)
  }

  method ValidateRoute(chain: string, isIpv6: string -> bool) returns (error: Option<string>)
    ensures error == RouteError(chain, isIpv6)
  {
    hide Utf8Length, ShapeError;
    if chain == [] || Utf8Length(chain) > 1024 {
      return Some("invalid_route");
    }
    if exists c :: c in chain && IsControl(c) {
      return Some("invalid_route");
    }
    if exists c :: c in chain && (c == '@' || c == '%' || c == '?' || c == '#') {
      return Some("route_credentials_not_supported");
    }
    error := ValidateProxyChainShape(chain, isIpv6);
  }

  // ---- Canonical text ----

  function CanonicalScheme(scheme: string): string {
    if scheme == "socks4a" then "socks4" else scheme
  }

  function Bracketed(host: string): string {
    if ':' in host then "[" + host + "]" else host
  }

  /** Canonical text of one validated hop; the impossible cases stay as they are. */
  function CanonicalHop(hop: string): string {
    match SplitScheme(hop)
    case None => hop
    case Some((scheme, endpoint)) =>
      var parts :=
        if endpoint != [] && endpoint[0] == '[' then
          match SplitClose(endpoint[1..])
          case None => ([], [])
          case Some((host, suffix)) => (host, if suffix == [] then [] else suffix[1..])
        else
          match SplitLastColon(endpoint)
          case None => ([], [])
          case Some(split) => split;
      match ParseU16(parts.1)
      case None => hop
      case Some(port) => CanonicalScheme(scheme) + "://" + Bracketed(parts.0) + ":" + Decimal(port)
  }

  function CanonicalHops(hops: seq<string>): (r: seq<string>)
    ensures |r| == |hops|
    ensures forall i :: 0 <= i < |hops| ==> r[i] == CanonicalHop(hops[i])
  {
    if hops == [] then [] else [CanonicalHop(hops[0])] + CanonicalHops(hops[1..])
  }

  function CanonicalProxyChainText(chain: string): string {
    JoinHops(CanonicalHops(SplitHops(chain)))
  }
}
