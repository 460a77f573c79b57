/**
  Laws of route canonicalization: the canonical text of an accepted chain is accepted,
  means the same hops, and is a fixed point.

  They rest on three round trips: splitting a chain into hops undoes joining them, splitting
  a hop undoes formatting it, and reading a decimal port undoes writing it.  The meaning of
  a chain is the list of its parsed hops, with socks4a read as socks4.
 */
module RouteLaws {
  import opened Basics
  import opened RouteText

  /** The address parser accepts no host without a colon. */
  ghost predicate AddressesHaveColons(isIpv6: string -> bool) {
    forall host :: isIpv6(host) ==> ':' in host
  }

  // ---- Splitting undoes joining ----

  lemma Regroup(a: string, b: string, c: string)
    ensures (a + b) + "__" + c == a + (b + "__" + c)
  {
  }

  lemma JoinLongerFirst(c: char, hops: seq<string>)
    requires hops != []
    ensures JoinHops([[c] + hops[0]] + hops[1..]) == [c] + JoinHops(hops)
  {
    var first, rest := hops[0], hops[1..];
    var longer := [[c] + first] + rest;
    assert longer[1..] == rest && longer[0] == [c] + first;
    if |hops| > 1 {
      Regroup([c], first, JoinHops(rest));
    }
  }

  lemma {:induction false} JoinSplit(s: string)
    ensures JoinHops(SplitHops(s)) == s
  {
    if s == [] {
    } else if |s| >= 2 && s[0] == '_' && s[1] == '_' {
      JoinSplit(s[2..]);
      assert ([[]] + SplitHops(s[2..]))[1..] == SplitHops(s[2..]);
      assert s == "__" + s[2..];
    } else {
      JoinSplit(s[1..]);
      JoinLongerFirst(s[0], SplitHops(s[1..]));
      assert s == [s[0]] + s[1..];
    }
  }

  lemma {:induction false} SplitPlain(s: string)
    requires '_' !in s
    ensures SplitHops(s) == [s]
  {
    if s != [] {
      SplitPlain(s[1..]);
      assert s == [s[0]] + s[1..];
      assert s[0] in s;
    }
  }

  lemma {:induction false} SplitFirst(hop: string, rest: string)
    requires '_' !in hop
    ensures SplitHops(hop + "__" + rest) == [hop] + SplitHops(rest)
  {
    var s := hop + "__" + rest;
    if hop == [] {
      assert s[2..] == rest;
    } else {
      SplitFirst(hop[1..], rest);
      assert s[1..] == hop[1..] + "__" + rest;
      assert s[0] == hop[0] && hop[0] in hop;
      assert [s[0]] + hop[1..] == hop;
      assert ([hop[1..]] + SplitHops(rest))[1..] == SplitHops(rest);
    }
  }

  lemma {:induction false} SplitJoin(hops: seq<string>)
    requires hops != [] && forall h :: h in hops ==> '_' !in h
    ensures SplitHops(JoinHops(hops)) == hops
    decreases |hops|
  {
    if |hops| == 1 {
      SplitPlain(hops[0]);
    } else {
      SplitFirst(hops[0], JoinHops(hops[1..]));
      SplitJoin(hops[1..]);
    }
  }

  // ---- Splitting one hop undoes formatting it ----

  lemma SplitSchemeSkips(c: char, tail: string)
    requires c != ':' && |tail| >= 2 && SplitScheme(tail).Some?
    ensures SplitScheme([c] + tail)
         == Some(([c] + SplitScheme(tail).value.0, SplitScheme(tail).value.1))
  {
    var s := [c] + tail;
    assert s[..3][0] == c && s[1..] == tail;
  }

  lemma {:induction false} SplitSchemeFormat(scheme: string, rest: string)
    requires ':' !in scheme
    ensures SplitScheme(scheme + "://" + rest) == Some((scheme, rest))
  {
    var s := scheme + "://" + rest;
    if scheme == [] {
      assert s[..3] == "://" && s[3..] == rest;
    } else {
      var tail := scheme[1..] + "://" + rest;
      assert scheme[0] in scheme;
      SplitSchemeFormat(scheme[1..], rest);
      assert s == [scheme[0]] + tail;
      SplitSchemeSkips(scheme[0], tail);
      assert [scheme[0]] + scheme[1..] == scheme;
    }
  }

  lemma {:induction false} SplitLastColonFormat(host: string, port: string)
    requires ':' !in port
    ensures SplitLastColon(host + ":" + port) == Some((host, port))
  {
    var s := host + ":" + port;
    if port == [] {
      assert s[..|s| - 1] == host;
    } else {
      var n := |port| - 1;
      SplitLastColonFormat(host, port[..n]);
      assert s[..|s| - 1] == host + ":" + port[..n];
      assert s[|s| - 1] == port[n] && port[n] in port;
      assert port[..n] + [port[n]] == port;
    }
  }

  lemma {:induction false} SplitCloseFormat(host: string, rest: string)
    requires ']' !in host
    ensures SplitClose(host + "]" + rest) == Some((host, rest))
  {
    var s := host + "]" + rest;
    if host == [] {
      assert s[1..] == rest;
    } else {
      SplitCloseFormat(host[1..], rest);
      assert s[1..] == host[1..] + "]" + rest;
      assert s[0] == host[0] && host[0] in host;
      assert [s[0]] + host[1..] == host;
    }
  }

  lemma {:induction false} SplitSchemeParts(s: string)
    ensures SplitScheme(s).Some? ==> s == SplitScheme(s).value.0 + "://" + SplitScheme(s).value.1
  {
    if |s| >= 3 {
      if s[..3] == "://" {
        assert s == s[..3] + s[3..];
      } else {
        SplitSchemeParts(s[1..]);
        assert s == [s[0]] + s[1..];
      }
    }
  }

  lemma {:induction false} SplitLastColonParts(s: string)
    ensures SplitLastColon(s).Some? ==>
              var (host, port) := SplitLastColon(s).value; s == host + ":" + port && ':' !in port
  {
    if s != [] {
      SplitLastColonParts(s[..|s| - 1]);
      assert s == s[..|s| - 1] + [s[|s| - 1]];
    }
  }

  lemma {:induction false} SplitCloseParts(s: string)
    ensures SplitClose(s).Some? ==>
              var (host, rest) := SplitClose(s).value; s == host + "]" + rest && ']' !in host
  {
    if s != [] {
      SplitCloseParts(s[1..]);
      assert s == [s[0]] + s[1..];
    }
  }

  // ---- Decimal text ----

  lemma {:induction false} DecimalValue(n: nat)
    ensures DigitsValue(Decimal(n)) == n
  {
    if n >= 10 {
      DecimalValue(n / 10);
      var s := Decimal(n);
      assert s[..|s| - 1] == Decimal(n / 10);
      assert s[|s| - 1] == ('0' as int + n % 10) as char;
    } else {
      var s := Decimal(n);
      assert s[..0] == [];
    }
  }

  lemma ParseDecimal(n: nat)
    requires n <= 65535
    ensures ParseU16(Decimal(n)) == Some(n)
  {
    var s := Decimal(n);
    DecimalValue(n);
    assert s[0] in s;
  }

  /** Canonical digits are the shortest text of their value. */
  lemma {:induction false} DecimalShortest(digits: string)
    requires digits != [] && AllDigits(digits)
    ensures |Decimal(DigitsValue(digits))| <= |digits|
  {
    var init, last := digits[..|digits| - 1], digits[|digits| - 1];
    assert last in digits;
    var v := DigitsValue(digits);
    if init != [] {
      DecimalShortest(init);
      assert v / 10 == DigitsValue(init);
    } else {
      assert DigitsValue(init) == 0;
    }
  }

  // ---- One hop ----

  /** A hop as the validator lets it through. */
  ghost predicate ValidHop(hop: Hop, isIpv6: string -> bool) {
    && KnownScheme(hop.scheme)
    && 1 <= hop.port <= 65535
    && hop.host != []
    && if ':' in hop.host
       then isIpv6(hop.host) && ']' !in hop.host && (forall c :: c in hop.host ==> EndpointChar(c))
       else forall c :: c in hop.host ==> HostChar(c)
  }

  function Format(hop: Hop): string {
    hop.scheme + "://" + (Bracketed(hop.host) + ":" + Decimal(hop.port))
  }

  /** The same hop with socks4a read as socks4. */
  function CanonicalOf(hop: Hop): Hop {
    if hop.scheme == "socks4a" then hop.(scheme := "socks4") else hop
  }

  lemma SchemesArePlain(scheme: string)
    requires KnownScheme(scheme)
    ensures ':' !in scheme && '_' !in scheme
    ensures forall c :: c in scheme ==> IsAlphanumeric(c)
    ensures KnownScheme(CanonicalScheme(scheme)) && |CanonicalScheme(scheme)| <= |scheme|
    ensures CanonicalScheme(CanonicalScheme(scheme)) == CanonicalScheme(scheme)
  {
  }

  lemma AcceptedHopIsValid(text: string, isIpv6: string -> bool)
    requires AddressesHaveColons(isIpv6) && ParseHop(text, isIpv6).Ok?
    ensures ValidHop(ParseHop(text, isIpv6).value, isIpv6)
  {
    var (scheme, endpoint) := SplitScheme(text).value;
    if endpoint[0] == '[' {
      SplitCloseParts(endpoint[1..]);
      var (host, suffix) := SplitClose(endpoint[1..]).value;
      assert endpoint == ['['] + endpoint[1..];
      assert forall c :: c in host ==> c in endpoint;
    } else {
      SplitLastColonParts(endpoint);
    }
  }

  lemma EndpointCharsFormat(hop: Hop, isIpv6: string -> bool)
    requires ValidHop(hop, isIpv6)
    ensures var endpoint := Bracketed(hop.host) + ":" + Decimal(hop.port);
            forall c :: c in endpoint ==> EndpointChar(c)
  {
    var digits := Decimal(hop.port);
    assert forall c :: c in digits ==> IsDigit(c);
  }

  lemma ParseEndpointFormat(hop: Hop, isIpv6: string -> bool)
    requires ValidHop(hop, isIpv6)
    ensures ParseEndpoint(Bracketed(hop.host) + ":" + Decimal(hop.port), isIpv6) == Ok((hop.host, hop.port))
  {
    hide ParseEndpoint, EndpointChar, KnownScheme, Decimal;
    if ':' in hop.host {
      ParseBracketed(hop.host, hop.port, isIpv6);
    } else {
      ParsePlain(hop.host, hop.port, isIpv6);
    }
  }

  lemma ParseBracketed(host: string, port: nat, isIpv6: string -> bool)
    requires ':' in host && ']' !in host && isIpv6(host) && 1 <= port <= 65535
    ensures ParseEndpoint("[" + host + "]" + ":" + Decimal(port), isIpv6) == Ok((host, port))
  {
    hide ParseU16, SplitClose, SplitLastColon, Decimal, HostChar;
    var text := Decimal(port);
    var endpoint := "[" + host + "]" + ":" + text;
    ParseDecimal(port);
    assert endpoint[1..] == host + "]" + (":" + text);
    SplitCloseFormat(host, ":" + text);
    assert (":" + text)[1..] == text;
  }

  lemma ParsePlain(host: string, port: nat, isIpv6: string -> bool)
    requires ':' !in host && host != [] && (forall c :: c in host ==> HostChar(c)) && 1 <= port <= 65535
    ensures ParseEndpoint(host + ":" + Decimal(port), isIpv6) == Ok((host, port))
  {
    hide ParseU16, SplitClose, SplitLastColon, Decimal, HostChar;
    var text := Decimal(port);
    ParseDecimal(port);
    DigitsHaveNoColon(text);
    SplitLastColonFormat(host, text);
    assert (host + ":" + text)[0] == host[0] && host[0] in host;
    HostCharIsNoBracket(host[0]);
  }

  lemma HostCharIsNoBracket(c: char)
    requires HostChar(c)
    ensures c != '['
  {
  }

  lemma DigitsHaveNoColon(digits: string)
    requires AllDigits(digits)
    ensures ':' !in digits
  {
  }

  /** Parsing undoes formatting. */
  lemma ParseFormat(hop: Hop, isIpv6: string -> bool)
    requires ValidHop(hop, isIpv6)
    ensures ParseHop(Format(hop), isIpv6) == Ok(hop)
  {
    hide ParseEndpoint, EndpointChar, SplitScheme, HostChar, Decimal;
    SchemesArePlain(hop.scheme);
    SplitSchemeFormat(hop.scheme, Bracketed(hop.host) + ":" + Decimal(hop.port));
    EndpointCharsFormat(hop, isIpv6);
    ParseEndpointFormat(hop, isIpv6);
  }

  lemma CanonicalHopIsFormat(text: string, isIpv6: string -> bool)
    requires ParseHop(text, isIpv6).Ok?
    ensures CanonicalHop(text) == Format(CanonicalOf(ParseHop(text, isIpv6).value))
  {
    hide ParseU16, SplitClose, SplitLastColon, SplitScheme, KnownScheme, EndpointChar, HostChar, Decimal;
    var hop := CanonicalOf(ParseHop(text, isIpv6).value);
    var tail := Decimal(hop.port);
    assert hop.scheme + "://" + Bracketed(hop.host) + ":" + tail
        == hop.scheme + "://" + (Bracketed(hop.host) + ":" + tail);
  }

  lemma FormatHasNoUnderscore(hop: Hop, isIpv6: string -> bool)
    requires ValidHop(hop, isIpv6)
    ensures forall c :: c in Format(hop) ==> EndpointChar(c) || c == '/'
    ensures '_' !in Format(hop)
  {
    SchemesArePlain(hop.scheme);
    EndpointCharsFormat(hop, isIpv6);
  }

  lemma {:induction false} CanonicalHopNotLonger(text: string, isIpv6: string -> bool)
    requires AddressesHaveColons(isIpv6) && ParseHop(text, isIpv6).Ok?
    ensures |CanonicalHop(text)| <= |text|
  {
    CanonicalHopIsFormat(text, isIpv6);
    SplitSchemeParts(text);
    var (scheme, endpoint) := SplitScheme(text).value;
    var hop := ParseHop(text, isIpv6).value;
    SchemesArePlain(scheme);
    if endpoint[0] == '[' {
      SplitCloseParts(endpoint[1..]);
      var (host, suffix) := SplitClose(endpoint[1..]).value;
      PortNotLonger(suffix[1..]);
      assert |endpoint| == 1 + |host| + 1 + |suffix|;
    } else {
      SplitLastColonParts(endpoint);
      var (host, port) := SplitLastColon(endpoint).value;
      PortNotLonger(port);
      assert |endpoint| == |host| + 1 + |port|;
    }
  }

  lemma PortNotLonger(text: string)
    requires ParseU16(text).Some?
    ensures |Decimal(ParseU16(text).value)| <= |text|
  {
    DecimalShortest(if |text| > 1 && text[0] == '+' then text[1..] else text);
  }

  // ---- Whole chains ----

  /** The hops an accepted list of texts denotes. */
  function ParsedHops(texts: seq<string>, isIpv6: string -> bool): (hops: seq<Hop>)
    requires ShapeError(texts, isIpv6).None?
    ensures |hops| == |texts|
    ensures forall i :: 0 <= i < |texts| ==> ParseHop(texts[i], isIpv6) == Ok(hops[i])
  {
    if texts == [] then [] else [ParseHop(texts[0], isIpv6).value] + ParsedHops(texts[1..], isIpv6)
  }

  /** What a chain means: its hops, with socks4a read as socks4. */
  function Meaning(chain: string, isIpv6: string -> bool): seq<Hop>
    requires ShapeError(SplitHops(chain), isIpv6).None?
  {
    CanonicalAll(ParsedHops(SplitHops(chain), isIpv6))
  }

  function CanonicalAll(hops: seq<Hop>): (r: seq<Hop>)
    ensures |r| == |hops| && forall i :: 0 <= i < |hops| ==> r[i] == CanonicalOf(hops[i])
  {
    if hops == [] then [] else [CanonicalOf(hops[0])] + CanonicalAll(hops[1..])
  }

  lemma {:induction false} CanonicalHopsParse(texts: seq<string>, isIpv6: string -> bool)
    requires AddressesHaveColons(isIpv6) && ShapeError(texts, isIpv6).None?
    ensures ShapeError(CanonicalHops(texts), isIpv6).None?
    ensures ParsedHops(CanonicalHops(texts), isIpv6) == CanonicalAll(ParsedHops(texts, isIpv6))
    ensures forall h :: h in CanonicalHops(texts) ==> '_' !in h && forall c :: c in h ==> EndpointChar(c) || c == '/'
    decreases |texts|
  {
    if texts != [] {
      var hop := ParseHop(texts[0], isIpv6).value;
      AcceptedHopIsValid(texts[0], isIpv6);
      CanonicalHopIsFormat(texts[0], isIpv6);
      SchemesArePlain(hop.scheme);
      ParseFormat(CanonicalOf(hop), isIpv6);
      FormatHasNoUnderscore(CanonicalOf(hop), isIpv6);
      CanonicalHopsParse(texts[1..], isIpv6);
      assert CanonicalHops(texts)[1..] == CanonicalHops(texts[1..]);
    }
  }

  /** For every accepted chain the canonical text is accepted, has as many hops, and
      means the same. */
  lemma {:induction false} CanonicalMeansTheSame(chain: string, isIpv6: string -> bool)
    requires AddressesHaveColons(isIpv6) && ShapeError(SplitHops(chain), isIpv6).None?
    ensures var canonical := CanonicalProxyChainText(chain);
            && SplitHops(canonical) == CanonicalHops(SplitHops(chain))
            && |SplitHops(canonical)| == |SplitHops(chain)|
            && ShapeError(SplitHops(canonical), isIpv6).None?
            && ParsedHops(SplitHops(canonical), isIpv6) == Meaning(chain, isIpv6)
            && Meaning(canonical, isIpv6) == Meaning(chain, isIpv6)
  {
    var texts := SplitHops(chain);
    CanonicalHopsParse(texts, isIpv6);
    SplitJoin(CanonicalHops(texts));
    var hops := ParsedHops(texts, isIpv6);
    forall i | 0 <= i < |hops|
      ensures CanonicalOf(CanonicalOf(hops[i])) == CanonicalOf(hops[i])
    {
    }
    assert CanonicalAll(CanonicalAll(hops)) == CanonicalAll(hops);
  }

  lemma {:induction false} TextFollowsMeaning(a: seq<string>, b: seq<string>, isIpv6: string -> bool)
    requires ShapeError(a, isIpv6).None? && ShapeError(b, isIpv6).None?
    requires CanonicalAll(ParsedHops(a, isIpv6)) == CanonicalAll(ParsedHops(b, isIpv6))
    ensures CanonicalHops(a) == CanonicalHops(b)
  {
    var x, y := ParsedHops(a, isIpv6), ParsedHops(b, isIpv6);
    assert |CanonicalAll(x)| == |CanonicalAll(y)|;
    forall i | 0 <= i < |a|
      ensures CanonicalHop(a[i]) == CanonicalHop(b[i])
    {
      CanonicalHopIsFormat(a[i], isIpv6);
      CanonicalHopIsFormat(b[i], isIpv6);
      assert CanonicalAll(x)[i] == CanonicalAll(y)[i];
    }
  }

  /** Two accepted chains have the same canonical text exactly when they mean the
      same; in particular canonicalization is idempotent. */
  lemma {:induction false} CanonicalTextIsCanonical(a: string, b: string, isIpv6: string -> bool)
    requires AddressesHaveColons(isIpv6)
    requires ShapeError(SplitHops(a), isIpv6).None? && ShapeError(SplitHops(b), isIpv6).None?
    ensures CanonicalProxyChainText(a) == CanonicalProxyChainText(b) <==> Meaning(a, isIpv6) == Meaning(b, isIpv6)
    ensures CanonicalProxyChainText(CanonicalProxyChainText(a)) == CanonicalProxyChainText(a)
  {
    CanonicalMeansTheSame(a, isIpv6);
    CanonicalMeansTheSame(b, isIpv6);
    if Meaning(a, isIpv6) == Meaning(b, isIpv6) {
      TextFollowsMeaning(SplitHops(a), SplitHops(b), isIpv6);
    }
    TextFollowsMeaning(SplitHops(CanonicalProxyChainText(a)), SplitHops(a), isIpv6);
  }

  lemma {:induction false} JoinNotLonger(a: seq<string>, b: seq<string>)
    requires a != [] && |a| == |b| && forall i :: 0 <= i < |a| ==> |a[i]| <= |b[i]|
    ensures |JoinHops(a)| <= |JoinHops(b)|
    decreases |a|
  {
    if |a| > 1 {
      JoinNotLonger(a[1..], b[1..]);
    }
  }

  lemma {:induction false} JoinChars(hops: seq<string>)
    requires hops != []
    ensures forall c :: c in JoinHops(hops) ==> c == '_' || exists h :: h in hops && c in h
    ensures hops[0] != [] ==> JoinHops(hops) != []
    decreases |hops|
  {
    if |hops| > 1 {
      JoinChars(hops[1..]);
    }
  }

  lemma {:induction false} CanonicalNotLonger(chain: string, isIpv6: string -> bool)
    requires AddressesHaveColons(isIpv6) && ShapeError(SplitHops(chain), isIpv6).None?
    ensures |CanonicalProxyChainText(chain)| <= |chain|
  {
    var texts := SplitHops(chain);
    var hops := ParsedHops(texts, isIpv6);
    forall i | 0 <= i < |texts|
      ensures |CanonicalHop(texts[i])| <= |texts[i]|
    {
      assert ParseHop(texts[i], isIpv6) == Ok(hops[i]);
      CanonicalHopNotLonger(texts[i], isIpv6);
    }
    JoinNotLonger(CanonicalHops(texts), texts);
    JoinSplit(chain);
  }

  predicate RouteChar(c: char) { EndpointChar(c) || c == '/' || c == '_' }

  lemma RouteCharIsSafe(c: char)
    requires RouteChar(c)
    ensures !IsControl(c) && c !in "@%?#" && c < '\U{80}'
  {
  }

  lemma {:induction false} CanonicalChars(chain: string, isIpv6: string -> bool)
    requires AddressesHaveColons(isIpv6) && ShapeError(SplitHops(chain), isIpv6).None?
    ensures CanonicalProxyChainText(chain) != []
    ensures forall c :: c in CanonicalProxyChainText(chain) ==> RouteChar(c)
  {
    hide EndpointChar;
    var texts := SplitHops(chain);
    CanonicalHopsParse(texts, isIpv6);
    JoinChars(CanonicalHops(texts));
    CanonicalHopIsFormat(texts[0], isIpv6);
    assert CanonicalHops(texts)[0] != [];
  }

  /** A chain that passes the whole route check keeps passing it once canonical. */
  lemma {:induction false} CanonicalRouteAccepted(chain: string, isIpv6: string -> bool)
    requires AddressesHaveColons(isIpv6) && RouteError(chain, isIpv6).None?
    ensures RouteError(CanonicalProxyChainText(chain), isIpv6).None?
  {
    hide IsControl, RouteChar, CanonicalProxyChainText, SplitHops, ShapeError;
    var canonical := CanonicalProxyChainText(chain);
    CanonicalMeansTheSame(chain, isIpv6);
    CanonicalNotLonger(chain, isIpv6);
    CanonicalChars(chain, isIpv6);
    Utf8LengthBounds(chain);
    Utf8LengthBounds(canonical);
    forall c | c in canonical
      ensures c < '\U{80}'
    {
      RouteCharIsSafe(c);
    }
    forall c | c in canonical
      ensures !IsControl(c) && c !in "@%?#"
    {
      RouteCharIsSafe(c);
    }
  }
}
