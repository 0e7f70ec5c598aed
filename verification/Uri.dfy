/**
 * The WebSocket URI of uri.hpp (section 3 of RFC 6455): the string-parsing constructor, the port conversion and
 * the printer `str`. An invalid URI is `None`.
 */
module Uri {
  import opened Wrappers

  const URI_DEFAULT_PORT := 80
  const URI_DEFAULT_SECURE_PORT := 443

  datatype Uri = Uri(scheme: string, secure: bool, host: string, port: nat, resource: string)

  function DefaultPort(secure: bool): nat {
    if secure then URI_DEFAULT_SECURE_PORT else URI_DEFAULT_PORT
  }

  // ---------- searching ----------

  /** The first position from i on that holds one of the characters, or the end. */
  function Find(s: string, i: nat, stops: set<char>): (j: nat)
    requires i <= |s|
    ensures i <= j <= |s|
    ensures forall k :: i <= k < j ==> s[k] !in stops
    ensures j < |s| ==> s[j] in stops
    decreases |s| - i
  {
    if i == |s| || s[i] in stops then i else Find(s, i + 1, stops)
  }

  lemma {:induction false} FindUnique(s: string, i: nat, stops: set<char>, j: nat)
    requires i <= j <= |s| && (forall k :: i <= k < j ==> s[k] !in stops) && (j < |s| ==> s[j] in stops)
    ensures Find(s, i, stops) == j
    decreases j - i
  {
    if i < j {
      FindUnique(s, i + 1, stops, j);
    }
  }

  // ---------- ports ----------

  predicate Digit(c: char) {
    '0' <= c <= '9'
  }

  predicate Space(c: char) {
    c == ' ' || '\U{0009}' <= c <= '\U{000D}'
  }

  function DigitValue(c: char): nat
    requires Digit(c)
  {
    c as int - '0' as int
  }

  /** The number the leading digits of s continue, after those that gave n. */
  function ReadDigits(s: string, n: nat): nat {
    if s == "" || !Digit(s[0]) then n else ReadDigits(s[1..], 10 * n + DigitValue(s[0]))
  }

  /** `atoi` of the C library, before its result is fitted into an `int`. */
  function Atoi(s: string): int {
    if s == "" then 0
    else if Space(s[0]) then Atoi(s[1..])
    else if s[0] == '-' then
      var n: int := ReadDigits(s[1..], 0);
      -n
    else if s[0] == '+' then ReadDigits(s[1..], 0)
    else ReadDigits(s, 0)
  }

  /** `static_cast<unsigned int>` */
  function AsUnsigned(n: int): nat {
    n % 0x1_0000_0000
  }

  /** `get_port_from_string`; a number no `int` can hold is counted as invalid. */
  function GetPortFromString(port: string, secure: bool): (r: Option<nat>)
    ensures r.Some? ==> 1 <= r.value <= 65535
  {
    if port == "" then Some(DefaultPort(secure))
    else if !(-0x8000_0000 <= Atoi(port) < 0x8000_0000) then None
    else
      var t := AsUnsigned(Atoi(port));
      if t > 65535 || t == 0 then None else Some(t)
  }

  /** A number as `operator<<` prints it. */
  function Decimal(n: nat): (s: string)
    ensures s != ""
  {
    if n < 10 then [('0' as int + n) as char]
    else Decimal(n / 10) + [('0' as int + n % 10) as char]
  }

  // ---------- parsing ----------

  /** Scheme, security and the position after "://". At least one character must follow. */
  function SchemeOf(s: string): (r: Option<(string, bool, nat)>)
    ensures r.Some? ==> r.value.2 < |s|
  {
    if |s| >= 7 && s[..6] == "wss://" then Some(("wss", true, 6))
    else if |s| >= 6 && s[..5] == "ws://" then Some(("ws", false, 5))
    else if |s| >= 8 && s[..7] == "http://" then Some(("http", false, 7))
    else if |s| >= 9 && s[..8] == "https://" then Some(("https", true, 8))
    else None
  }

  /** Host and the position after it; a bracketed host is the text between the brackets. */
  function HostOf(s: string, start: nat): (r: Option<(string, nat)>)
    requires start < |s|
    ensures r.Some? ==> r.value.1 <= |s| && (r.value.1 < |s| ==> s[r.value.1] == '/' || s[r.value.1] == ':')
  {
    if s[start] == '[' then
      var close := Find(s, start + 1, {']'});
      if close == |s| then None
      else if close + 1 < |s| && s[close + 1] != '/' && s[close + 1] != ':' then None
      else Some((s[start + 1..close], close + 1))
    else
      var end := Find(s, start, {':', '/'});
      Some((s[start..end], end))
  }

  /** Port text and what follows the slash after it. */
  function PortAndRest(s: string, at: nat): (string, string)
    requires at <= |s| && (at < |s| ==> s[at] == '/' || s[at] == ':')
  {
    if at == |s| then ("", "")
    else if s[at] == '/' then ("", s[at + 1..])
    else
      var end := Find(s, at + 1, {'/'});
      (s[at + 1..end], if end < |s| then s[end + 1..] else "")
  }

  function Parse(s: string): (r: Option<Uri>)
  {
    match SchemeOf(s)
    case None => None
    case Some((scheme, secure, start)) =>
      match HostOf(s, start)
      case None => None
      case Some((host, at)) =>
        var (portText, rest) := PortAndRest(s, at);
        match GetPortFromString(portText, secure)
        case None => None
        case Some(port) => Some(Uri(scheme, secure, host, port, "/" + rest))
  }

  /** `str` */
  function Str(u: Uri): string {
    u.scheme + "://" + u.host + (if u.port != DefaultPort(u.secure) then ":" + Decimal(u.port) else "") + u.resource
  }

  /** The constructor as written: an iterator moved through the string under a state variable. */
  method ParseUri(s: string) returns (r: Option<Uri>)
    ensures r == Parse(s)
  {
    var scheme, secure;
    var it: nat;
    if |s| >= 7 && s[..6] == "wss://" {
      scheme, secure, it := "wss", true, 6;
    } else if |s| >= 6 && s[..5] == "ws://" {
      scheme, secure, it := "ws", false, 5;
    } else if |s| >= 8 && s[..7] == "http://" {
      scheme, secure, it := "http", false, 7;
    } else if |s| >= 9 && s[..8] == "https://" {
      scheme, secure, it := "https", true, 8;
    } else {
      return None;
    }
    assert SchemeOf(s) == Some((scheme, secure, it));
    hide SchemeOf, HostOf, PortAndRest, GetPortFromString;
    var start := it;
    var ok, host, state;
    ok, host, state, it := ScanHost(s, start);
    if !ok {
      return None;
    }
    ghost var at := HostOf(s, start).value.1;
    var port;
    port, it := ScanPort(s, state, it, at);
    var number := GetPortFromString(port, secure);
    if number.None? {
      return None;
    }
    r := Some(Uri(scheme, secure, host, number.value, "/" + s[it..]));
  }

  /** The port part of the constructor: nothing in state 2, up to the next slash in state 1. */
  method ScanPort(s: string, startState: int, from: nat, ghost at: nat) returns (port: string, it: nat)
    requires at <= |s| && (at < |s| ==> s[at] == '/' || s[at] == ':')
    requires from <= |s| && (startState == 1 || startState == 2)
    requires startState == 1 ==> at < |s| && s[at] == ':' && from == at + 1
    requires startState == 2 ==> PortAndRest(s, at).0 == "" && s[from..] == PortAndRest(s, at).1
    ensures it <= |s| && port == PortAndRest(s, at).0 && s[it..] == PortAndRest(s, at).1
  {
    var state := startState;
    port, it := "", from;
    while state == 1
      invariant it <= |s| && (state == 1 || state == 2 || state == 3)
      invariant state == 1 ==> at < it && s[at] == ':' && port == s[at + 1..it] && Find(s, it, {'/'}) == Find(s, at + 1, {'/'})
      invariant state != 1 ==> port == PortAndRest(s, at).0 && s[it..] == PortAndRest(s, at).1
      decreases if state == 1 then |s| - it + 1 else 0
    {
      if it == |s| {
        break;
      } else if s[it] == '/' {
        state := 3;
      } else {
        port := port + [s[it]];
      }
      it := it + 1;
    }
  }

  /** The host was read and the iterator moved past it: state 1 is before a port, state 2 after the last slash or at the end. */
  ghost predicate HostRead(s: string, start: nat, host: string, state: int, it: nat)
    requires start < |s|
  {
    match HostOf(s, start)
    case None => false
    case Some((text, at)) =>
      && host == text && it <= |s|
      && ((state == 1 && at < |s| && s[at] == ':' && it == at + 1)
          || (state == 2 && PortAndRest(s, at).0 == "" && s[it..] == PortAndRest(s, at).1))
  }

  /** The host part of the constructor. */
  method ScanHost(s: string, start: nat) returns (ok: bool, host: string, state: int, it: nat)
    requires start < |s|
    ensures ok <==> HostOf(s, start).Some?
    ensures ok ==> HostRead(s, start, host, state, it)
  {
    hide HostOf, PortAndRest, HostRead;
    if s[start] == '[' {
      ok, host, state, it := ScanBracketed(s, start);
    } else {
      host, state, it := ScanPlain(s, start);
      ok := true;
    }
  }

  lemma BracketedHostOf(s: string, start: nat)
    requires start < |s| && s[start] == '['
    ensures var close := Find(s, start + 1, {']'});
            HostOf(s, start) == if close == |s| || (close + 1 < |s| && s[close + 1] != '/' && s[close + 1] != ':') then None
                                else Some((s[start + 1..close], close + 1))
  {
    hide Find;
  }

  lemma NoPort(s: string, at: nat)
    requires at <= |s| && (at < |s| ==> s[at] == '/')
    ensures PortAndRest(s, at) == ("", if at < |s| then s[at + 1..] else "")
  {
  }

  /** The IPv6 literal branch. */
  method ScanBracketed(s: string, start: nat) returns (ok: bool, host: string, state: int, it: nat)
    requires start < |s| && s[start] == '['
    ensures ok <==> HostOf(s, start).Some?
    ensures ok ==> HostRead(s, start, host, state, it)
  {
    hide HostOf, PortAndRest;
    BracketedHostOf(s, start);
    it, state, host := start + 1, 0, "";
    var temp := it;
    while temp != |s|
      invariant it <= temp <= |s| && Find(s, temp, {']'}) == Find(s, it, {']'})
    {
      if s[temp] == ']' {
        break;
      }
      temp := temp + 1;
    }
    if temp == |s| {
      return false, host, state, it;
    }
    assert Find(s, it, {']'}) == temp;
    hide Find;
    host := s[it..temp];
    it := temp + 1;
    if it == |s| {
      NoPort(s, it);
      state := 2;
    } else if s[it] == '/' {
      NoPort(s, it);
      state := 2;
      it := it + 1;
    } else if s[it] == ':' {
      state := 1;
      it := it + 1;
    } else {
      return false, host, state, it;
    }
    ok := true;
  }

  /** The IPv4 or hostname branch. */
  method ScanPlain(s: string, start: nat) returns (host: string, state: int, it: nat)
    requires start < |s| && s[start] != '['
    ensures HostOf(s, start).Some? && HostRead(s, start, host, state, it)
  {
    it, state, host := start, 0, "";
    ghost var end := Find(s, start, {':', '/'});
    while state == 0
      invariant start <= it <= |s| && 0 <= state <= 2
      invariant state == 0 ==> host == s[start..it] && Find(s, it, {':', '/'}) == end
      invariant state != 0 ==> host == s[start..end]
      invariant state == 1 ==> end < |s| && s[end] == ':' && it == end + 1
      invariant state == 2 ==> PortAndRest(s, end).0 == "" && s[it..] == PortAndRest(s, end).1
      decreases if state == 0 then |s| - it + 1 else 0
    {
      if it == |s| {
        state := 2;
        break;
      } else if s[it] == '/' {
        state := 2;
      } else if s[it] == ':' {
        state := 1;
      } else {
        host := host + [s[it]];
      }
      it := it + 1;
    }
    assert HostOf(s, start) == Some((s[start..end], end));
    hide HostOf, Find, PortAndRest;
  }

  // ---------- ports: print and read ----------

  predicate AllDigits(s: string) {
    forall c :: c in s ==> Digit(c)
  }

  lemma {:induction false} ReadInTwo(a: string, b: string, n: nat)
    requires AllDigits(a)
    ensures ReadDigits(a + b, n) == ReadDigits(b, ReadDigits(a, n))
    decreases |a|
  {
    if a == "" {
      assert a + b == b;
    } else {
      assert a[0] in a;
      assert (a + b)[1..] == a[1..] + b;
      ReadInTwo(a[1..], b, 10 * n + DigitValue(a[0]));
    }
  }

  lemma {:induction false} DecimalReads(n: nat)
    ensures AllDigits(Decimal(n)) && ReadDigits(Decimal(n), 0) == n
  {
    var last := [('0' as int + n % 10) as char];
    assert last[1..] == "" && ReadDigits(last, 0) == n % 10;
    if n >= 10 {
      DecimalReads(n / 10);
      ReadInTwo(Decimal(n / 10), last, 0);
      assert ReadDigits(last, n / 10) == 10 * (n / 10) + n % 10;
    }
  }

  /** A port that is printed is read back. */
  lemma PortRoundTrip(port: nat, secure: bool)
    requires 1 <= port <= 65535
    ensures GetPortFromString(Decimal(port), secure) == Some(port)
    ensures '/' !in Decimal(port)
  {
    hide Decimal, ReadDigits, Atoi;
    DecimalReads(port);
    var text := Decimal(port);
    assert text[0] in text;
    AtoiOfDigits(text);
  }

  lemma AtoiOfDigits(s: string)
    requires s != "" && Digit(s[0])
    ensures Atoi(s) == ReadDigits(s, 0)
  {
  }

  // ---------- printing and parsing again ----------

  predicate SchemeFits(scheme: string, secure: bool) {
    || (scheme == "wss" && secure) || (scheme == "ws" && !secure)
    || (scheme == "http" && !secure) || (scheme == "https" && secure)
  }

  /** What holds of every URI the parser accepts. */
  predicate Proper(u: Uri) {
    SchemeFits(u.scheme, u.secure) && 1 <= u.port <= 65535 && u.resource != "" && u.resource[0] == '/'
  }

  lemma ParsedIsProper(s: string)
    ensures Parse(s).Some? ==> Proper(Parse(s).value)
  {
    hide HostOf, PortAndRest, GetPortFromString;
  }

  lemma PrintedScheme(scheme: string, secure: bool, rest: string)
    requires SchemeFits(scheme, secure) && |rest| >= 1
    ensures SchemeOf(scheme + "://" + rest) == Some((scheme, secure, |scheme| + 3))
  {
    var s := scheme + "://" + rest;
    assert s[..|scheme| + 3] == scheme + "://";
    assert s[2] == (scheme + "://")[2] && s[4] == (scheme + "://")[4];
    assert scheme != "wss" && |s| >= 6 ==> s[..6][2] != "wss://"[2];
  }

  /** The host text can be found again: no delimiter in it, and no bracket in front. */
  predicate Reprintable(host: string) {
    ':' !in host && '/' !in host && (host == "" || host[0] != '[')
  }

  function PortPart(u: Uri): string {
    if u.port != DefaultPort(u.secure) then ":" + Decimal(u.port) else ""
  }

  lemma PrintedHost(pre: string, host: string, rest: string)
    requires Reprintable(host) && rest != "" && (rest[0] == ':' || rest[0] == '/')
    ensures HostOf(pre + host + rest, |pre|) == Some((host, |pre| + |host|))
  {
    var s, end := pre + host + rest, |pre| + |host|;
    assert s[end] == rest[0];
    assert forall k :: |pre| <= k < end ==> s[k] == host[k - |pre|] && s[k] in host;
    FindUnique(s, |pre|, {':', '/'}, end);
    assert s[|pre|..end] == host;
    assert s[|pre|] != '[' by {
      assert s[|pre|] == if host == "" then rest[0] else host[0];
    }
    hide Find;
  }

  lemma PrintedPort(pre: string, u: Uri)
    requires Proper(u)
    ensures var s := pre + (PortPart(u) + u.resource);
            && s[|pre|] == (PortPart(u) + u.resource)[0] && (s[|pre|] == ':' || s[|pre|] == '/')
            && GetPortFromString(PortAndRest(s, |pre|).0, u.secure) == Some(u.port)
            && "/" + PortAndRest(s, |pre|).1 == u.resource
  {
    hide GetPortFromString, Decimal, PortAndRest;
    assert "/" + u.resource[1..] == u.resource;
    if u.port == DefaultPort(u.secure) {
      assert PortPart(u) + u.resource == u.resource;
      RestAlone(pre, u.resource);
      NoPortText(u.secure);
    } else {
      PortRoundTrip(u.port, u.secure);
      assert PortPart(u) + u.resource == ":" + Decimal(u.port) + u.resource;
      RestAfterPort(pre, Decimal(u.port), u.resource);
    }
  }

  lemma NoPortText(secure: bool)
    ensures GetPortFromString("", secure) == Some(DefaultPort(secure))
  {
  }

  lemma RestAlone(pre: string, resource: string)
    requires resource != "" && resource[0] == '/'
    ensures (pre + resource)[|pre|] == '/' && PortAndRest(pre + resource, |pre|) == ("", resource[1..])
  {
    assert (pre + resource)[|pre| + 1..] == resource[1..];
  }

  lemma BehindPrefix(pre: string, tail: string, a: nat, b: nat)
    requires a <= b <= |tail|
    ensures (pre + tail)[|pre| + a..|pre| + b] == tail[a..b] && (pre + tail)[|pre| + b..] == tail[b..]
    ensures b < |tail| ==> (pre + tail)[|pre| + b] == tail[b]
  {
  }

  lemma PortBetween(s: string, at: nat, end: nat)
    requires at < end < |s| && s[at] == ':' && s[end] == '/' && '/' !in s[at + 1..end]
    ensures PortAndRest(s, at) == (s[at + 1..end], s[end + 1..])
  {
    forall k | at + 1 <= k < end
      ensures s[k] != '/'
    {
      assert s[k] == s[at + 1..end][k - at - 1];
    }
    FindUnique(s, at + 1, {'/'}, end);
    hide Find;
  }

  lemma PortTail(text: string, resource: string)
    requires resource != ""
    ensures var tail := ":" + text + resource;
            && tail[0] == ':' && tail[1..|text| + 1] == text
            && tail[|text| + 1] == resource[0] && tail[|text| + 2..] == resource[1..]
  {
  }

  lemma RestAfterPort(pre: string, text: string, resource: string)
    requires '/' !in text && resource != "" && resource[0] == '/'
    ensures var s := pre + (":" + text + resource);
            s[|pre|] == ':' && PortAndRest(s, |pre|) == (text, resource[1..])
  {
    hide *;
    var tail, n := ":" + text + resource, |text|;
    PortTail(text, resource);
    var s := pre + tail;
    BehindPrefix(pre, tail, 0, 0);
    BehindPrefix(pre, tail, 1, n + 1);
    BehindPrefix(pre, tail, n + 2, n + 2);
    PortBetween(s, |pre|, |pre| + n + 1);
  }

  /** Printing a proper URI whose host can be found again, and parsing, gives the same URI. */
  lemma ReparsesPrinted(u: Uri)
    requires Proper(u) && Reprintable(u.host)
    ensures Parse(Str(u)) == Some(u)
  {
    hide *;
    StrParts(u);
    ParseParts(Str(u));
    var pre, rest := u.scheme + "://", PortPart(u) + u.resource;
    assert Str(u) == pre + (u.host + rest) == pre + u.host + rest == (pre + u.host) + rest;
    SchemeOfProper(u);
    PrintedScheme(u.scheme, u.secure, u.host + rest);
    PrintedPort(pre + u.host, u);
    PrintedHost(pre, u.host, rest);
  }

  lemma StrParts(u: Uri)
    ensures Str(u) == u.scheme + "://" + u.host + PortPart(u) + u.resource
  {
  }

  lemma SchemeOfProper(u: Uri)
    requires Proper(u)
    ensures SchemeFits(u.scheme, u.secure) && |PortPart(u) + u.resource| >= 1
  {
  }

  lemma ParseParts(s: string)
    ensures match SchemeOf(s)
            case None => Parse(s) == None
            case Some((scheme, secure, start)) =>
              match HostOf(s, start)
              case None => Parse(s) == None
              case Some((host, at)) =>
                match GetPortFromString(PortAndRest(s, at).0, secure)
                case None => Parse(s) == None
                case Some(port) => Parse(s) == Some(Uri(scheme, secure, host, port, "/" + PortAndRest(s, at).1))
  {
  }

  /** A bracketed host that comes back unchanged would be all brackets, and then run into the delimiter after it. */
  lemma {:induction false} AllBrackets(s: string, start: nat, host: string, k: nat)
    requires start + 1 + |host| <= |s| && host != "" && host[0] == '['
    requires s[start..start + |host|] == host && s[start + 1..start + 1 + |host|] == host
    requires k <= |host|
    ensures s[start + k] == '['
  {
    if k == 0 {
      assert s[start] == s[start..start + |host|][0];
    } else {
      AllBrackets(s, start, host, k - 1);
      assert s[start + k] == s[start + 1..start + 1 + |host|][k - 1] == host[k - 1];
      assert s[start + k - 1] == s[start..start + |host|][k - 1] == host[k - 1];
    }
  }

  lemma OtherHost(pre: string, host: string, rest: string)
    requires !Reprintable(host) && rest != "" && (rest[0] == ':' || rest[0] == '/')
    ensures var s := pre + host + rest;
            HostOf(s, |pre|).Some? ==> HostOf(s, |pre|).value.0 != host
  {
    var s, start := pre + host + rest, |pre|;
    assert s[start + |host|] == rest[0];
    assert s[start..start + |host|] == host;
    assert s[start] == host[0];
    if s[start] == '[' {
      var close := Find(s, start + 1, {']'});
      if close < |s| && s[start + 1..close] == host {
        assert host != "" && host[0] == '[';
        assert close == start + 1 + |host|;
        AllBrackets(s, start, host, |host|);
      }
    } else {
      var end := Find(s, start, {':', '/'});
      var found := s[start..end];
      assert ':' !in found && '/' !in found;
    }
    hide Find;
  }

  lemma ReparseDiffers(u: Uri)
    requires Proper(u) && !Reprintable(u.host)
    ensures Parse(Str(u)) != Some(u)
  {
    hide *;
    StrParts(u);
    ParseParts(Str(u));
    var pre, rest := u.scheme + "://", PortPart(u) + u.resource;
    assert Str(u) == pre + (u.host + rest) == pre + u.host + rest == (pre + u.host) + rest;
    SchemeOfProper(u);
    PrintedScheme(u.scheme, u.secure, u.host + rest);
    PrintedPort(pre + u.host, u);
    OtherHost(pre, u.host, rest);
  }

  /** For every string the parser accepts: printing and parsing again gives the same URI exactly when the host text
      has no ':' or '/' and does not start with '['. */
  lemma NormalisesIff(s: string)
    requires Parse(s).Some?
    ensures var u := Parse(s).value;
            Parse(Str(u)) == Some(u) <==> Reprintable(u.host)
  {
    hide *;
    var u := Parse(s).value;
    ParsedIsProper(s);
    if Reprintable(u.host) {
      ReparsesPrinted(u);
    } else {
      ReparseDiffers(u);
    }
  }

  /** A host written without brackets always qualifies. */
  lemma UnbracketedNormalises(s: string)
    requires Parse(s).Some? && s[SchemeOf(s).value.2] != '['
    ensures var u := Parse(s).value;
            Reprintable(u.host) && Parse(Str(u)) == Some(u)
  {
    var start := SchemeOf(s).value.2;
    var end := Find(s, start, {':', '/'});
    var host := s[start..end];
    assert HostOf(s, start) == Some((host, end));
    assert ':' !in host && '/' !in host;
    assert host != "" ==> host[0] == s[start];
    ParseParts(s);
    NormalisesIff(s);
    hide *;
  }

  /** The brackets of an IPv6 host are not printed, so its colons no longer belong to the host. */
  lemma BracketedHostIsLost()
    ensures Parse("ws://[::1]/") == Some(Uri("ws", false, "::1", 80, "/"))
    ensures Parse(Str(Uri("ws", false, "::1", 80, "/"))) != Some(Uri("ws", false, "::1", 80, "/"))
  {
    hide *;
    var s := "ws://[::1]/";
    assert s == "ws" + "://" + "[::1]/";
    WsIsScheme();
    PrintedScheme("ws", false, "[::1]/");
    BracketedHost(s);
    assert "/" + "" == "/";
    ParseParts(s);
    NormalisesIff(s);
  }

  lemma WsIsScheme()
    ensures SchemeFits("ws", false) && !Reprintable("::1")
  {
    assert "::1"[0] == ':';
  }

  lemma BracketedHost(s: string)
    requires s == "ws://[::1]/"
    ensures HostOf(s, 5) == Some(("::1", 10)) && PortAndRest(s, 10) == ("", "")
    ensures GetPortFromString("", false) == Some(80)
  {
    FindUnique(s, 6, {']'}, 9);
    assert s[6..9] == "::1" && s[11..] == "";
    hide Find;
  }
}
