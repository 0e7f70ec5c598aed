/**
 * What the parser of uri.hpp answers on strings written from their parts: every fitting scheme, a host with or without
 * brackets, any port text and any resource. Strings are put together here; nothing is searched for.
 */
module UriStrings {
  import opened Wrappers
  import opened U = Uri

  // ---------- port texts ----------

  predicate AllSpaces(s: string) {
    forall c :: c in s ==> c == ' ' || c == '\t' || c == '\n' || c == '\U{000B}' || c == '\U{000C}' || c == '\r'
  }

  predicate AllZeros(s: string) {
    forall c :: c in s ==> c == '0'
  }

  /** Nothing a number could go on with. */
  predicate Junk(s: string) {
    s != "" ==> !('0' <= s[0] <= '9')
  }

  lemma {:induction false} SpacesAreSkipped(spaces: string, s: string)
    requires AllSpaces(spaces)
    ensures Atoi(spaces + s) == Atoi(s)
    decreases |spaces|
  {
    if spaces == "" {
      assert spaces + s == s;
    } else {
      assert spaces[0] in spaces && (spaces + s)[1..] == spaces[1..] + s;
      assert forall c :: c in spaces[1..] ==> c in spaces;
      SpacesAreSkipped(spaces[1..], s);
    }
  }

  lemma {:induction false} ZerosAddNothing(zeros: string, s: string)
    requires AllZeros(zeros)
    ensures ReadDigits(zeros + s, 0) == ReadDigits(s, 0)
    decreases |zeros|
  {
    if zeros == "" {
      assert zeros + s == s;
    } else {
      assert zeros[0] in zeros && (zeros + s)[1..] == zeros[1..] + s;
      assert forall c :: c in zeros[1..] ==> c in zeros;
      ZerosAddNothing(zeros[1..], s);
    }
  }

  lemma DigitsRead(zeros: string, n: nat, junk: string)
    requires AllZeros(zeros) && Junk(junk)
    ensures ReadDigits(zeros + Decimal(n) + junk, 0) == n
    ensures Digit((zeros + Decimal(n) + junk)[0])
  {
    DecimalReads(n);
    hide Decimal;
    assert zeros + Decimal(n) + junk == zeros + (Decimal(n) + junk);
    ZerosAddNothing(zeros, Decimal(n) + junk);
    ReadInTwo(Decimal(n), junk, 0);
    assert Decimal(n)[0] in Decimal(n);
    assert (zeros + Decimal(n) + junk)[0] == if zeros == "" then Decimal(n)[0] else zeros[0];
    assert zeros != "" ==> zeros[0] in zeros;
  }

  /** `atoi` on a sign and digits. */
  lemma SignedNumber(sign: string, digits: string)
    requires sign == "" || sign == "+" || sign == "-"
    requires digits != "" && Digit(digits[0])
    ensures sign == "-" ==> Atoi(sign + digits) == 0 - ReadDigits(digits, 0)
    ensures sign != "-" ==> Atoi(sign + digits) == ReadDigits(digits, 0)
  {
    if sign == "" {
      assert sign + digits == digits;
    } else {
      assert (sign + digits)[0] == sign[0] && (sign + digits)[1..] == digits;
    }
    hide ReadDigits;
  }

  /** A port text may have spaces, a sign and zeros in front of its digits, and anything else behind them. */
  lemma PortOfNumber(spaces: string, sign: string, zeros: string, n: nat, junk: string, secure: bool)
    requires AllSpaces(spaces) && AllZeros(zeros) && Junk(junk)
    requires sign == "" || sign == "+" || sign == "-"
    ensures GetPortFromString(spaces + (sign + (zeros + Decimal(n) + junk)), secure)
         == if sign != "-" && 1 <= n <= 65535 then Some(n) else None
  {
    hide *;
    var digits := zeros + Decimal(n) + junk;
    DigitsRead(zeros, n, junk);
    SignedNumber(sign, digits);
    SpacesAreSkipped(spaces, sign + digits);
    PortOfAtoi(spaces + (sign + digits), secure);
  }

  lemma PortOfAtoi(text: string, secure: bool)
    requires text != ""
    ensures GetPortFromString(text, secure) == if 1 <= Atoi(text) <= 65535 then Some(Atoi(text)) else None
  {
    var n := Atoi(text);
    hide Atoi;
    if n < 0 && n >= -0x8000_0000 {
      assert AsUnsigned(n) == n + 0x1_0000_0000;
    }
  }

  /** A port text without digits where a number should be is refused. */
  lemma PortOfNoNumber(spaces: string, sign: string, junk: string, secure: bool)
    requires AllSpaces(spaces) && Junk(junk) && spaces + (sign + junk) != ""
    requires sign == "+" || sign == "-" || (sign == "" && (junk != "" ==> !Space(junk[0]) && junk[0] != '+' && junk[0] != '-'))
    ensures GetPortFromString(spaces + (sign + junk), secure) == None
  {
    SpacesAreSkipped(spaces, sign + junk);
    if sign == "" {
      assert sign + junk == junk;
    } else {
      assert (sign + junk)[0] == sign[0] && (sign + junk)[1..] == junk;
    }
    assert Atoi(sign + junk) == 0;
    hide Atoi, ReadDigits;
  }

  lemma PlainPort(n: nat, secure: bool)
    ensures GetPortFromString(Decimal(n), secure) == if 1 <= n <= 65535 then Some(n) else None
    ensures '/' !in Decimal(n)
    ensures GetPortFromString("", secure) == Some(if secure then 443 else 80)
  {
    PortOfNumber("", "", "", n, "", secure);
    assert "" + ("" + ("" + Decimal(n) + "")) == Decimal(n);
    DecimalReads(n);
    hide Decimal, Atoi;
  }

  // ---------- whole strings ----------

  /** What may follow a host. */
  datatype Rest = End | Path(tail: string) | Port(text: string) | PortPath(text: string, tail: string)

  function RestText(rest: Rest): string {
    match rest
    case End => ""
    case Path(tail) => "/" + tail
    case Port(text) => ":" + text
    case PortPath(text, tail) => ":" + text + ("/" + tail)
  }

  function PortText(rest: Rest): string {
    if rest.Port? || rest.PortPath? then rest.text else ""
  }

  function Tail(rest: Rest): string {
    if rest.Path? || rest.PortPath? then rest.tail else ""
  }

  predicate ProperRest(rest: Rest) {
    '/' !in PortText(rest)
  }

  function HostText(bracketed: bool, host: string): string {
    if bracketed then "[" + host + "]" else host
  }

  predicate ProperHost(bracketed: bool, host: string) {
    if bracketed then ']' !in host else ':' !in host && '/' !in host && (host != "" ==> host[0] != '[')
  }

  predicate StartsRest(rest: string) {
    rest == "" || rest[0] == ':' || rest[0] == '/'
  }

  lemma PlainHostOf(pre: string, host: string, rest: string)
    requires ProperHost(false, host) && StartsRest(rest) && host + rest != ""
    ensures HostOf(pre + host + rest, |pre|) == Some((host, |pre| + |host|))
  {
    var s, end := pre + host + rest, |pre| + |host|;
    assert rest != "" ==> s[end] == rest[0];
    assert forall k :: |pre| <= k < end ==> s[k] == host[k - |pre|] && s[k] in host;
    FindUnique(s, |pre|, {':', '/'}, end);
    assert s[|pre|..end] == host;
    assert s[|pre|] == if host == "" then rest[0] else host[0];
    hide Find;
  }

  lemma BracketedText(pre: string, host: string, rest: string)
    requires ']' !in host
    ensures var s := pre + ("[" + host + "]") + rest;
            var close := |pre| + 1 + |host|;
            && close < |s| && s[|pre|] == '[' && s[close] == ']' && s[|pre| + 1..close] == host && s[close + 1..] == rest
            && Find(s, |pre| + 1, {']'}) == close
  {
    var s, close := pre + ("[" + host + "]") + rest, |pre| + 1 + |host|;
    assert s[|pre| + 1..close] == host;
    assert forall k :: |pre| + 1 <= k < close ==> s[k] == host[k - |pre| - 1] && s[k] in host;
    FindUnique(s, |pre| + 1, {']'}, close);
    hide Find;
  }

  lemma BracketHostOf(pre: string, host: string, rest: string)
    requires ']' !in host
    ensures HostOf(pre + ("[" + host + "]") + rest, |pre|)
         == if StartsRest(rest) then Some((host, |pre| + |host| + 2)) else None
  {
    BracketedText(pre, host, rest);
    var s := pre + ("[" + host + "]") + rest;
    hide Find, HostOf;
    BracketedHostOf(s, |pre|);
    assert rest != "" ==> s[|pre| + |host| + 2] == s[|pre| + 1 + |host| + 1..][0];
  }

  lemma PortAtEnd(pre: string, text: string)
    requires '/' !in text
    ensures PortAndRest(pre + (":" + text), |pre|) == (text, "") && (pre + (":" + text))[|pre|] == ':'
  {
    var s := pre + (":" + text);
    assert s[|pre| + 1..] == text && s[|pre| + 1..|s|] == text;
    assert forall k :: |pre| + 1 <= k < |s| ==> s[k] == text[k - |pre| - 1] && s[k] in text;
    FindUnique(s, |pre| + 1, {'/'}, |s|);
    hide Find;
  }

  lemma RestIsRead(pre: string, rest: Rest)
    requires ProperRest(rest)
    ensures var s := pre + RestText(rest);
            (|pre| < |s| ==> s[|pre|] == '/' || s[|pre|] == ':') && PortAndRest(s, |pre|) == (PortText(rest), Tail(rest))
  {
    hide PortAndRest;
    match rest
    case End =>
      assert pre + "" == pre;
      NoPort(pre, |pre|);
    case Path(tail) =>
      RestAlone(pre, "/" + tail);
    case Port(text) => PortAtEnd(pre, text);
    case PortPath(text, tail) =>
      assert ":" + text + ("/" + tail) == RestText(rest);
      RestAfterPort(pre, text, "/" + tail);
  }

  lemma RestStarts(rest: Rest)
    ensures StartsRest(RestText(rest)) && (RestText(rest) == "" <==> rest == End)
  {
  }

  function Written(scheme: string, bracketed: bool, host: string, rest: Rest): string {
    scheme + "://" + HostText(bracketed, host) + RestText(rest)
  }

  lemma HostIsRead(pre: string, bracketed: bool, host: string, rest: string)
    requires ProperHost(bracketed, host) && StartsRest(rest) && HostText(bracketed, host) + rest != ""
    ensures HostOf(pre + HostText(bracketed, host) + rest, |pre|) == Some((host, |pre + HostText(bracketed, host)|))
  {
    if bracketed {
      BracketHostOf(pre, host, rest);
    } else {
      PlainHostOf(pre, host, rest);
    }
    hide HostOf;
  }

  lemma Regroup(a: string, b: string, c: string)
    ensures a + (b + c) == a + b + c
  {
  }

  /** Any string written from its parts is read as those parts, and refused exactly when its port text is. */
  lemma ParsesWritten(scheme: string, secure: bool, bracketed: bool, host: string, rest: Rest)
    requires SchemeFits(scheme, secure) && ProperHost(bracketed, host) && ProperRest(rest)
    requires HostText(bracketed, host) != "" || rest != End
    ensures Parse(Written(scheme, bracketed, host, rest))
         == match GetPortFromString(PortText(rest), secure)
            case None => None
            case Some(port) => Some(Uri(scheme, secure, host, port, "/" + Tail(rest)))
  {
    var pre, name, after := scheme + "://", HostText(bracketed, host), RestText(rest);
    var s := pre + name + after;
    assert Written(scheme, bracketed, host, rest) == s;
    hide *;
    RestStarts(rest);
    assert |name + after| >= 1;
    PrintedScheme(scheme, secure, name + after);
    Regroup(pre, name, after);
    HostIsRead(pre, bracketed, host, after);
    RestIsRead(pre + name, rest);
    ParseParts(s);
  }

  /** The strings of a host, a decimal port and a resource, one by one. */
  lemma ParsesHostPortResource(scheme: string, secure: bool, bracketed: bool, host: string, n: nat, tail: string)
    requires SchemeFits(scheme, secure) && ProperHost(bracketed, host)
    ensures var front, usual := scheme + "://" + HostText(bracketed, host), if secure then 443 else 80;
            && (HostText(bracketed, host) != "" ==> Parse(front) == Some(Uri(scheme, secure, host, usual, "/")))
            && Parse(front + "/" + tail) == Some(Uri(scheme, secure, host, usual, "/" + tail))
            && Parse(front + ":") == Some(Uri(scheme, secure, host, usual, "/"))
            && Parse(front + ":" + "/" + tail) == Some(Uri(scheme, secure, host, usual, "/" + tail))
    ensures var front := scheme + "://" + HostText(bracketed, host);
            && Parse(front + ":" + Decimal(n)) == (if 1 <= n <= 65535 then Some(Uri(scheme, secure, host, n, "/")) else None)
            && Parse(front + ":" + Decimal(n) + "/" + tail)
            == (if 1 <= n <= 65535 then Some(Uri(scheme, secure, host, n, "/" + tail)) else None)
  {
    hide *;
    PlainPort(n, secure);
    WrittenOut(scheme, bracketed, host, Decimal(n), tail);
    RestParts(Decimal(n), tail);
    assert "/" + "" == "/";
    if HostText(bracketed, host) != "" {
      ParsesWritten(scheme, secure, bracketed, host, End);
    }
    ParsesWritten(scheme, secure, bracketed, host, Path(tail));
    ParsesWritten(scheme, secure, bracketed, host, Port(""));
    ParsesWritten(scheme, secure, bracketed, host, PortPath("", tail));
    ParsesWritten(scheme, secure, bracketed, host, Port(Decimal(n)));
    ParsesWritten(scheme, secure, bracketed, host, PortPath(Decimal(n), tail));
  }

  lemma RestParts(text: string, tail: string)
    ensures PortText(End) == "" && Tail(End) == "" && ProperRest(End)
    ensures PortText(Path(tail)) == "" && Tail(Path(tail)) == tail && ProperRest(Path(tail))
    ensures PortText(Port(text)) == text && Tail(Port(text)) == "" && (ProperRest(Port(text)) <==> '/' !in text)
    ensures PortText(PortPath(text, tail)) == text && Tail(PortPath(text, tail)) == tail
    ensures ProperRest(PortPath(text, tail)) <==> '/' !in text
    ensures PortText(Port("")) == "" && Tail(Port("")) == "" && ProperRest(Port(""))
    ensures PortText(PortPath("", tail)) == "" && Tail(PortPath("", tail)) == tail && ProperRest(PortPath("", tail))
  {
  }

  lemma WrittenOut(scheme: string, bracketed: bool, host: string, text: string, tail: string)
    ensures var front := scheme + "://" + HostText(bracketed, host);
            && Written(scheme, bracketed, host, End) == front
            && Written(scheme, bracketed, host, Path(tail)) == front + "/" + tail
            && Written(scheme, bracketed, host, Port("")) == front + ":"
            && Written(scheme, bracketed, host, PortPath("", tail)) == front + ":" + "/" + tail
            && Written(scheme, bracketed, host, Port(text)) == front + ":" + text
            && Written(scheme, bracketed, host, PortPath(text, tail)) == front + ":" + text + "/" + tail
  {
    RestOut(scheme + "://" + HostText(bracketed, host), text, tail);
    RestOut(scheme + "://" + HostText(bracketed, host), "", tail);
    hide RestText, HostText;
  }

  lemma RestOut(front: string, text: string, tail: string)
    ensures front + RestText(End) == front && front + RestText(Path(tail)) == front + "/" + tail
    ensures front + RestText(Port(text)) == front + ":" + text && front + ":" + "" == front + ":"
    ensures front + RestText(PortPath(text, tail)) == front + ":" + text + "/" + tail
  {
    Regroup(front, "/", tail);
    Regroup(front, ":", text);
    Regroup(front, ":" + text, "/" + tail);
    Regroup(front + ":" + text, "/", tail);
  }

  // ---------- what is refused, and that nothing else is accepted ----------

  lemma SchemeNeeded(s: string)
    ensures Parse(s).Some? ==> "ws://" <= s || "wss://" <= s || "http://" <= s || "https://" <= s
  {
    ParseParts(s);
    hide Parse, HostOf, PortAndRest, GetPortFromString;
  }

  lemma HostNeeded(scheme: string, secure: bool)
    requires SchemeFits(scheme, secure)
    ensures Parse(scheme + "://") == None
  {
    var s := scheme + "://";
    ParseParts(s);
    hide Parse, HostOf, PortAndRest, GetPortFromString;
    assert s[0] == scheme[0];
    if |s| >= 6 {
      assert s[..5][0] == s[..6][0] == s[0] && s[..5][2] == s[2];
    }
    if |s| >= 8 {
      assert s[..7][4] == s[4];
    }
  }

  lemma OpenBracket(pre: string, host: string)
    requires ']' !in host
    ensures HostOf(pre + ("[" + host), |pre|) == None
  {
    var s := pre + ("[" + host);
    assert s[|pre|] == '[';
    assert forall k :: |pre| + 1 <= k < |s| ==> s[k] == host[k - |pre| - 1] && s[k] in host;
    FindUnique(s, |pre| + 1, {']'}, |s|);
    hide Find, HostOf;
    BracketedHostOf(s, |pre|);
  }

  lemma BracketNeeded(scheme: string, secure: bool, host: string)
    requires SchemeFits(scheme, secure) && ']' !in host
    ensures Parse(scheme + "://" + ("[" + host)) == None
  {
    hide *;
    PrintedScheme(scheme, secure, "[" + host);
    OpenBracket(scheme + "://", host);
    ParseParts(scheme + "://" + ("[" + host));
  }

  lemma DelimiterNeeded(scheme: string, secure: bool, host: string, rest: string)
    requires SchemeFits(scheme, secure) && ']' !in host && !StartsRest(rest)
    ensures Parse(scheme + "://" + ("[" + host + "]" + rest)) == None
  {
    hide *;
    var pre := scheme + "://";
    PrintedScheme(scheme, secure, "[" + host + "]" + rest);
    assert pre + ("[" + host + "]" + rest) == pre + ("[" + host + "]") + rest;
    BracketHostOf(pre, host, rest);
    ParseParts(pre + ("[" + host + "]" + rest));
  }

  lemma SchemeIsWritten(s: string)
    requires SchemeOf(s).Some?
    ensures var (scheme, secure, start) := SchemeOf(s).value;
            SchemeFits(scheme, secure) && s[..start] == scheme + "://"
  {
  }

  lemma HostIsWritten(s: string, start: nat)
    requires start < |s| && HostOf(s, start).Some?
    ensures var (host, at) := HostOf(s, start).value;
            && start <= at <= |s| && (at == start ==> at < |s|) && s[start..at] == HostText(s[start] == '[', host)
            && ProperHost(s[start] == '[', host)
  {
    if s[start] == '[' {
      var close := Find(s, start + 1, {']'});
      assert s[start..close + 1] == "[" + s[start + 1..close] + "]";
    } else {
      var end := Find(s, start, {':', '/'});
      assert start < end ==> s[start..end][0] == s[start];
    }
    hide Find;
  }

  lemma RestIsWritten(s: string, at: nat) returns (rest: Rest)
    requires at <= |s| && (at < |s| ==> s[at] == '/' || s[at] == ':')
    ensures ProperRest(rest) && s[at..] == RestText(rest)
  {
    if at == |s| {
      rest := End;
    } else if s[at] == '/' {
      rest := Path(s[at + 1..]);
    } else {
      var end := Find(s, at + 1, {'/'});
      hide Find;
      if end == |s| {
        rest := Port(s[at + 1..]);
      } else {
        rest := PortPath(s[at + 1..end], s[end + 1..]);
        assert s[at..] == ":" + s[at + 1..end] + ("/" + s[end + 1..]);
      }
    }
  }

  /** Only strings written from proper parts are accepted. */
  lemma AcceptedIsWritten(s: string) returns (scheme: string, secure: bool, bracketed: bool, host: string, rest: Rest)
    requires Parse(s).Some?
    ensures SchemeFits(scheme, secure) && ProperHost(bracketed, host) && ProperRest(rest)
    ensures s == Written(scheme, bracketed, host, rest) && (HostText(bracketed, host) != "" || rest != End)
  {
    hide SchemeOf, HostOf, PortAndRest, GetPortFromString, Parse, SchemeFits, ProperHost, ProperRest, HostText, RestText;
    ParseParts(s);
    var start := SchemeOf(s).value.2;
    scheme, secure := SchemeOf(s).value.0, SchemeOf(s).value.1;
    SchemeIsWritten(s);
    var at := HostOf(s, start).value.1;
    host, bracketed := HostOf(s, start).value.0, s[start] == '[';
    HostIsWritten(s, start);
    rest := RestIsWritten(s, at);
    RestStarts(rest);
    assert s == s[..start] + s[start..at] + s[at..];
  }

  /** Printing: the port is left out exactly when it is the usual one. */
  lemma PrintsWritten(scheme: string, secure: bool, host: string, port: nat, tail: string)
    ensures Str(Uri(scheme, secure, host, port, "/" + tail))
         == Written(scheme, false, host, if port == (if secure then 443 else 80) then Path(tail) else PortPath(Decimal(port), tail))
  {
    hide Decimal;
  }

  /** So parsing a string with an unbracketed host and a decimal port and printing it again drops a usual port and
      changes nothing else. */
  lemma NormalForm(scheme: string, secure: bool, host: string, port: nat, tail: string)
    requires SchemeFits(scheme, secure) && ProperHost(false, host) && 1 <= port <= 65535
    ensures var front := scheme + "://" + host;
            var u := Parse(front + ":" + Decimal(port) + "/" + tail);
            && u.Some?
            && Str(u.value) == if port == (if secure then 443 else 80) then front + "/" + tail
                               else front + ":" + Decimal(port) + "/" + tail
  {
    ParsesHostPortResource(scheme, secure, false, host, port, tail);
    assert HostText(false, host) == host;
    hide *;
    PrintsWritten(scheme, secure, host, port, tail);
    WrittenOut(scheme, false, host, Decimal(port), tail);
  }

  lemma PortDigits()
    ensures Decimal(9002) == "9002"
  {
    assert Decimal(90) == "90";
    assert Decimal(900) == "900";
  }

  lemma LocalHost()
    ensures SchemeFits("ws", false) && ProperHost(false, "localhost") && HostText(false, "localhost") == "localhost"
    ensures "ws" + "://" + "localhost" + ":" + "9002" == "ws://localhost:9002"
  {
    assert "ws" + "://" == "ws://";
    assert "ws://" + "localhost" == "ws://localhost";
  }

  /** A port at the end of the string. */
  lemma PortAtEndIsRead()
    ensures Parse("ws://localhost:9002") == Some(Uri("ws", false, "localhost", 9002, "/"))
  {
    hide *;
    PortDigits();
    LocalHost();
    ParsesHostPortResource("ws", false, false, "localhost", 9002, "");
  }
}
