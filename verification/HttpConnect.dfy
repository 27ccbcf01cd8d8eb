/**
 The CONNECT tunnel: the request and response of section 9.3.6 of RFC 9110 in the
 authority form of section 3.2.3 of RFC 9112, as the client and the stub proxy
 write and read them.
 */
module HttpConnect {
  import opened Basics
  import opened Connection
  import opened Reports
  import opened PyText
  import opened Authority

  const CRLF: string := "\r\n"
  const HEADER_TERMINATOR: Bytes := [13, 10, 13, 10]
  const HEAD_LIMIT := 65536

  // --- text and octets ----------------------------------------------------------

  predicate Ascii(text: string) {
    forall i :: 0 <= i < |text| ==> text[i] < '\U{80}'
  }

  function Octets(text: string): (data: Bytes)
    requires Ascii(text)
    ensures |data| == |text|
  {
    seq(|text|, i requires 0 <= i < |text| => text[i] as int)
  }

  function Latin1(data: Bytes): (text: string)
    ensures |text| == |data|
  {
    seq(|data|, i requires 0 <= i < |data| => data[i] as char)
  }

  lemma Latin1UndoesOctets(text: string)
    requires Ascii(text)
    ensures Latin1(Octets(text)) == text
  {
  }

  // --- searching -----------------------------------------------------------------

  predicate At<T(==)>(s: seq<T>, sep: seq<T>, i: nat) {
    i + |sep| <= |s| && s[i..i + |sep|] == sep
  }

  /** The first occurrence of `sep` at `i` or later. */
  function Search<T(==)>(s: seq<T>, sep: seq<T>, i: nat): (r: Option<nat>)
    ensures r.Some? ==> i <= r.value && At(s, sep, r.value)
    ensures forall j: nat :: i <= j && (r.Some? ==> j < r.value) ==> !At(s, sep, j)
    decreases |s| - i
  {
    if At(s, sep, i) then Some(i) else if i >= |s| then None else Search(s, sep, i + 1)
  }

  /** `split(sep, 1)[0]`. */
  function Before<T(==)>(s: seq<T>, sep: seq<T>): seq<T> {
    match Search(s, sep, 0)
    case Some(i) => s[..i]
    case None => s
  }

  /** A complete header block: its only terminator is its end. */
  predicate IsHead(head: Bytes) {
    |head| >= 4 && Search(head, HEADER_TERMINATOR, 0) == Some(|head| - 4)
  }

  // --- the client ------------------------------------------------------------------

  function RequestText(host: string, port: int): string {
    var authority := FormatAuthority(host, port);
    "CONNECT " + authority + " HTTP/1.1" + CRLF + "Host: " + authority + CRLF + CRLF
  }

  function BuildRequest(host: string, port: int): Result<Bytes, Failure> {
    if Ascii(RequestText(host, port)) then Ok(Octets(RequestText(host, port))) else Err(Unencodable)
  }

  function Singles(data: Bytes): seq<Io> {
    seq(|data|, i requires 0 <= i < |data| => Got([data[i]]))
  }

  /** The connection after `n` one-byte reads. */
  function Skip(net: Net, n: nat): Net
    requires n <= |net.inbound|
  {
    net.(inbound := net.inbound[n..], log := net.log + Singles(net.inbound[..n]))
  }

  /** Reading a header block: the shortest front of the stream that ends in the
      terminator, if it is within the limit. */
  function ReadHead(net: Net): (Result<Bytes, Failure>, Net) {
    match Search(net.inbound, HEADER_TERMINATOR, 0)
    case Some(i) =>
      if i + 4 <= HEAD_LIMIT then (Ok(net.inbound[..i + 4]), Skip(net, i + 4))
      else (Err(ProtocolViolation), Skip(net, HEAD_LIMIT + 1))
    case None =>
      if |net.inbound| > HEAD_LIMIT then (Err(ProtocolViolation), Skip(net, HEAD_LIMIT + 1))
      else (Err(ReadFailure(net.closing)), Skip(net, |net.inbound|))
  }

  function Upper(c: char): char {
    if 'a' <= c <= 'z' then c - 'a' + 'A' else c
  }

  /** `upper().startswith("HTTP/")`. */
  predicate IsHttpVersion(text: string) {
    |text| >= 5 && forall i :: 0 <= i < 5 ==> Upper(text[i]) == "HTTP/"[i]
  }

  function ParseResponse(raw: Bytes): Result<Response, Failure> {
    var line := Latin1(Before(Before(raw, HEADER_TERMINATOR), [13, 10]));
    var first := Partition(line, ' ');
    if line == "" || ' ' !in line || !IsHttpVersion(first.0) then Err(ProtocolViolation)
    else
      var second := Partition(first.1, ' ');
      match IntOf(second.0)
      case None => Err(ProtocolViolation)
      case Some(status) => Ok(Response(status, second.1))
  }

  function Establish(host: string, port: int, net: Net): (Result<Response, Failure>, Net) {
    match BuildRequest(host, port)
    case Err(e) => (Err(e), net)
    case Ok(request) =>
      var (failed, sent) := Send(net, request);
      if failed.Some? then (Err(failed.value), sent)
      else
        var (head, after) := ReadHead(sent);
        match head
        case Err(e) => (Err(e), after)
        case Ok(raw) =>
          match ParseResponse(raw)
          case Err(e) => (Err(e), after)
          case Ok(response) =>
            (if response.TunnelEstablished() then Ok(response) else Err(Refused(Http(response))), after)
  }

  // --- never over-reading ------------------------------------------------------------

  lemma SearchIs<T>(s: seq<T>, sep: seq<T>, i: nat)
    requires At(s, sep, i) && forall j: nat :: j < i ==> !At(s, sep, j)
    ensures Search(s, sep, 0) == Some(i)
  {
    hide *;
    var r := Search(s, sep, 0);
    assert !(r.Some? && r.value < i);
  }

  lemma SearchSame<T>(a: seq<T>, b: seq<T>, sep: seq<T>, i: nat)
    requires Search(a, sep, 0) == Some(i) && forall j: nat :: j <= i ==> At(a, sep, j) == At(b, sep, j)
    ensures Search(b, sep, 0) == Some(i)
  {
    hide *;
    SearchIs(b, sep, i);
  }

  /** The first occurrence in a front of a sequence, when it fits there, is the
      first occurrence in the whole. */
  lemma SearchInFront<T>(front: seq<T>, sep: seq<T>, rest: seq<T>)
    requires Search(front, sep, 0).Some?
    ensures Search(front + rest, sep, 0) == Search(front, sep, 0)
  {
    var i := Search(front, sep, 0).value;
    var s := front + rest;
    forall j: nat | j <= i ensures At(front, sep, j) == At(s, sep, j) {
      AtInFront(s, front, sep, j);
    }
    SearchSame(front, s, sep, i);
  }

  lemma AtInFront<T>(s: seq<T>, front: seq<T>, sep: seq<T>, j: nat)
    requires front <= s && j + |sep| <= |front|
    ensures At(s, sep, j) == At(front, sep, j)
  {
    assert s[j..j + |sep|] == front[j..j + |sep|];
  }

  lemma CutKeeps<T>(s: seq<T>, sep: seq<T>, n: nat)
    requires n + |sep| <= |s|
    ensures forall j: nat :: j <= n ==> At(s, sep, j) == At(s[..n + |sep|], sep, j)
  {
    forall j: nat | j <= n ensures At(s, sep, j) == At(s[..n + |sep|], sep, j) {
      AtInFront(s, s[..n + |sep|], sep, j);
    }
  }

  /** The other way: cutting right behind the first occurrence keeps it. */
  lemma SearchInCut<T>(s: seq<T>, sep: seq<T>)
    requires Search(s, sep, 0).Some?
    ensures var n := Search(s, sep, 0).value; Search(s[..n + |sep|], sep, 0) == Some(n)
  {
    var n := Search(s, sep, 0).value;
    CutKeeps(s, sep, n);
    hide *;
    SearchSame(s, s[..n + |sep|], sep, n);
  }

  /** A header block is read, leaving `tail`, exactly when the stream is a complete
      header block within the limit followed by `tail`. */
  lemma {:induction false} HeadIffComplete(net: Net, head: Bytes, tail: Bytes)
    ensures (ReadHead(net).0 == Ok(head) && ReadHead(net).1.inbound == tail)
       <==> (net.inbound == head + tail && IsHead(head) && |head| <= 65536)
  {
    hide Search, Singles;
    var found := Search(net.inbound, HEADER_TERMINATOR, 0);
    if ReadHead(net).0 == Ok(head) && ReadHead(net).1.inbound == tail {
      SearchInCut(net.inbound, HEADER_TERMINATOR);
      assert head == net.inbound[..found.value + 4];
    }
    if net.inbound == head + tail && IsHead(head) && |head| <= HEAD_LIMIT {
      SearchInFront(head, HEADER_TERMINATOR, tail);
      assert net.inbound[..|head|] == head && net.inbound[|head|..] == tail;
    }
  }

  /** The tunnel is established with `response`, leaving `tail`, exactly when the
      request can be built and sent, and the stream is a complete header block
      within the limit that carries this 2xx response, followed by `tail`. */
  lemma {:induction false} EstablishedIff(host: string, port: int, net: Net, response: Response, tail: Bytes)
    ensures (Establish(host, port, net).0 == Ok(response) && Establish(host, port, net).1.inbound == tail)
       <==> (BuildRequest(host, port).Ok? && net.accepts > 0 && 200 <= response.status <= 299
             && exists head: Bytes :: net.inbound == head + tail && IsHead(head) && |head| <= 65536
                                      && ParseResponse(head) == Ok(response))
  {
    hide ReadHead, ParseResponse, IsHead, BuildRequest;
    if BuildRequest(host, port).Ok? && net.accepts > 0 {
      var (_, sent) := Send(net, BuildRequest(host, port).value);
      var (head, after) := ReadHead(sent);
      if head.Ok? { HeadIffComplete(sent, head.value, after.inbound); }
      forall h: Bytes | net.inbound == h + tail && IsHead(h) && |h| <= HEAD_LIMIT
        ensures head == Ok(h) && after.inbound == tail
      {
        HeadIffComplete(sent, h, tail);
      }
    }
  }

  /** The refusal of a tunnel, reported with the response, exactly when everything is as
      above but the response is not 2xx. */
  lemma {:induction false} RefusedIff(host: string, port: int, net: Net, response: Response, tail: Bytes)
    ensures (&& Establish(host, port, net).0 == Err(Refused(Http(response)))
             && Establish(host, port, net).1.inbound == tail)
       <==> (BuildRequest(host, port).Ok? && net.accepts > 0 && !(200 <= response.status <= 299)
             && exists head: Bytes :: net.inbound == head + tail && IsHead(head) && |head| <= 65536
                                      && ParseResponse(head) == Ok(response))
  {
    FailuresAreNoRefusals(host, port, net);
    hide ReadHead, ParseResponse, IsHead, BuildRequest;
    if BuildRequest(host, port).Ok? && net.accepts > 0 {
      var (_, sent) := Send(net, BuildRequest(host, port).value);
      var (head, after) := ReadHead(sent);
      if head.Ok? { HeadIffComplete(sent, head.value, after.inbound); }
      forall h: Bytes | net.inbound == h + tail && IsHead(h) && |h| <= HEAD_LIMIT
        ensures head == Ok(h) && after.inbound == tail
      {
        HeadIffComplete(sent, h, tail);
      }
    }
  }

  lemma FailuresAreNoRefusals(host: string, port: int, net: Net)
    ensures BuildRequest(host, port).Err? ==> !BuildRequest(host, port).error.Refused?
    ensures forall n: Net :: ReadHead(n).0.Err? ==> !ReadHead(n).0.error.Refused?
    ensures forall head: Bytes :: ParseResponse(head).Err? ==> !ParseResponse(head).error.Refused?
  {
  }

  // --- the status line ------------------------------------------------------------------

  lemma AtHasBytes(data: Bytes, sep: Bytes, i: nat, k: nat)
    requires At(data, sep, i) && k < |sep|
    ensures data[i + k] == sep[k]
  {
    assert data[i..i + |sep|][k] == data[i + k];
  }

  lemma AtFromBytes(data: Bytes, i: nat)
    requires i + 2 <= |data| && data[i] == 13 && data[i + 1] == 10
    ensures At(data, [13, 10], i)
  {
    assert data[i..i + 2] == [data[i], data[i + 1]];
  }

  /** The first line of a header block. */
  lemma {:induction false} FirstLine(raw: Bytes, line: Bytes)
    requires IsHead(raw) && line + [13, 10] <= raw && 13 !in line
    ensures Before(Before(raw, HEADER_TERMINATOR), [13, 10]) == line
  {
    var head := raw[..|raw| - 4];
    HeadEnds(raw);
    LineInFront(raw, line, |head|);
    hide *;
    assert line <= head;
    FirstBreakAt(head, line, |line| < |head|);
  }

  lemma HeadEnds(raw: Bytes)
    requires IsHead(raw)
    ensures Before(raw, HEADER_TERMINATOR) == raw[..|raw| - 4] && raw[|raw| - 4] == 13 && raw[|raw| - 3] == 10
  {
    AtHasBytes(raw, HEADER_TERMINATOR, |raw| - 4, 0);
    AtHasBytes(raw, HEADER_TERMINATOR, |raw| - 4, 1);
  }

  /** A line without carriage returns ends before any of them. */
  lemma LineInFront(raw: Bytes, line: Bytes, k: nat)
    requires line + [13, 10] <= raw && 13 !in line && k + 1 < |raw| && raw[k] == 13 && raw[k + 1] == 10
    ensures line <= raw && |line| <= k && raw[|line|] == 13 && raw[|line| + 1] == 10
  {
    assert raw[..|line|] == (line + [13, 10])[..|line|] == line;
    assert raw[|line|] == (line + [13, 10])[|line|] && raw[|line| + 1] == (line + [13, 10])[|line| + 1];
    assert forall j :: 0 <= j < |line| ==> raw[j] == line[j] && line[j] in line;
  }

  lemma FirstBreakAt(head: Bytes, line: Bytes, more: bool)
    requires line <= head && 13 !in line && more == (|line| < |head|)
    requires more ==> |line| + 2 <= |head| && head[|line|] == 13 && head[|line| + 1] == 10
    ensures Before(head, [13, 10]) == line
  {
    forall j: nat | j < |line| ensures !At(head, [13, 10], j) {
      assert head[j] == line[j] && line[j] in line;
      NotAtOtherByte(head, [13, 10], j);
    }
    if more {
      AtFromBytes(head, |line|);
      SearchIs(head, [13, 10], |line|);
    }
  }

  /** Any status line a server writes is read back: every version that starts like
      one, every status code, every reason phrase, whatever header lines follow. */
  lemma {:induction false} StatusLineReadsBack(raw: Bytes, line: Bytes, version: string, status: int, reason: string)
    requires IsHead(raw) && line + [13, 10] <= raw && 13 !in line
    requires Latin1(line) == version + " " + (Str(status) + " " + reason)
    requires IsHttpVersion(version) && ' ' !in version
    ensures ParseResponse(raw) == Ok(Response(status, reason))
  {
    FirstLine(raw, line);
    var rest := Str(status) + " " + reason;
    PartitionAt(version, ' ', rest);
    StrIsVisible(status);
    PartitionAt(Str(status), ' ', reason);
    IntReadsBack(status);
    assert Latin1(line)[|version|] == ' ';
  }

  /** The status line a header block starts with. */
  function StatusLine(raw: Bytes): string {
    Latin1(Before(Before(raw, HEADER_TERMINATOR), [13, 10]))
  }

  /** A version, a code and perhaps a reason, one space apart. */
  ghost predicate IsStatusLine(line: string, version: string, code: string, response: Response) {
    && IsHttpVersion(version) && ' ' !in version && ' ' !in code && IntOf(code) == Some(response.status)
    && (line == version + [' '] + (code + [' '] + response.reason)
        || (line == version + [' '] + code && response.reason == ""))
  }

  lemma PartitionJoins(s: string, c: char)
    ensures c !in Partition(s, c).0
    ensures if c in s then s == Partition(s, c).0 + [c] + Partition(s, c).1
            else Partition(s, c) == (s, "")
  {
  }

  lemma PartitionWithout(s: string, c: char)
    requires c !in s
    ensures Partition(s, c) == (s, "")
  {
  }

  /** A response is read exactly from the blocks that start with its status line. */
  lemma {:induction false} ParsedIffStatusLine(raw: Bytes, response: Response)
    ensures ParseResponse(raw) == Ok(response)
       <==> exists version: string, code: string :: IsStatusLine(StatusLine(raw), version, code, response)
  {
    var line := StatusLine(raw);
    hide IntOf, Before, Latin1, Partition, IsHttpVersion;
    if ParseResponse(raw) == Ok(response) {
      var rest := Partition(line, ' ').1;
      PartitionJoins(line, ' ');
      PartitionJoins(rest, ' ');
      assert IsStatusLine(line, Partition(line, ' ').0, Partition(rest, ' ').0, response);
    }
    if version: string, code: string :| IsStatusLine(line, version, code, response) {
      if line == version + [' '] + (code + [' '] + response.reason) {
        PartitionAt(version, ' ', code + [' '] + response.reason);
        PartitionAt(code, ' ', response.reason);
      } else {
        PartitionAt(version, ' ', code);
        PartitionWithout(code, ' ');
      }
      assert line[|version|] == ' ';
    }
  }

  /** A version is read in either case, and whatever its number is. */
  lemma VersionIff(text: string)
    ensures IsHttpVersion(text)
       <==> |text| >= 5 && (text[0] == 'H' || text[0] == 'h') && (text[1] == 'T' || text[1] == 't')
            && (text[2] == 'T' || text[2] == 't') && (text[3] == 'P' || text[3] == 'p') && text[4] == '/'
  {
    if |text| >= 5 {
      var five := "HTTP/";
      assert five[0] == 'H' && five[1] == 'T' && five[2] == 'T' && five[3] == 'P' && five[4] == '/';
      assert IsHttpVersion(text) <==> Upper(text[0]) == 'H' && Upper(text[1]) == 'T' && Upper(text[2]) == 'T'
                                      && Upper(text[3]) == 'P' && Upper(text[4]) == '/';
    }
  }

  // --- the stub proxy ----------------------------------------------------------------------

  /** A thread that dies of an unhandled exception has `Crashed`. */
  datatype StubOutcome = Target(host: string, port: int) | NoTarget | Crashed

  function StubStatus(fail: bool): Response {
    if fail then Response(403, "Forbidden") else Response(200, "Connection Established")
  }

  function StubLine(fail: bool): string {
    "HTTP/1.1" + " " + ((if fail then "403" else "200") + " " + StubStatus(fail).reason)
  }

  function StubReply(fail: bool): Bytes {
    StubLineForm(fail);
    Octets(StubLine(fail)) + HEADER_TERMINATOR
  }

  predicate IsBracket(c: char) {
    c == '[' || c == ']'
  }

  function StripBrackets(s: string): string {
    LStrip(RStrip(s, IsBracket), IsBracket)
  }

  /** What the stub makes of a request line: nothing if it dies on it. */
  function ParseRequestLine(line: Bytes): Option<string> {
    var text := Latin1(line);
    var first := Partition(text, ' ');
    if Ascii(text) && ' ' in text && ' ' in first.1 && first.0 == "CONNECT" then Some(Partition(first.1, ' ').0)
    else None
  }

  function ParseTarget(authority: string): StubOutcome {
    var parts := RPartition(authority, ':');
    match IntOf(parts.1)
    case None => Crashed
    case Some(port) => Target(StripBrackets(parts.0), port)
  }

  /** `_negotiate_http`: the answer goes out before the port is looked at. */
  function StubNegotiate(net: Net, fail: bool): (StubOutcome, Net) {
    match Search(net.inbound, HEADER_TERMINATOR, 0)
    case None => (NoTarget, Skip(net, |net.inbound|))
    case Some(i) =>
      var after := Skip(net, i + 4);
      match ParseRequestLine(Before(net.inbound[..i + 4], [13, 10]))
      case None => (Crashed, after)
      case Some(authority) =>
        var (failed, answered) := Send(after, StubReply(fail));
        (if failed.Some? || fail then NoTarget else ParseTarget(authority), answered)
  }

  predicate Breaks(text: string, j: nat) {
    j + 1 < |text| && text[j] == '\r' && text[j + 1] == '\n'
  }

  predicate NoCrlf(text: string) {
    forall j: nat :: j < |text| ==> !Breaks(text, j)
  }

  /** The hosts a CONNECT request carries through to the stub. */
  predicate Carriable(host: string) {
    && ' ' !in host && NoCrlf(host)
    && (host == "" || (!IsBracket(host[0]) && !IsBracket(host[|host| - 1])))
  }

  lemma BreakIsCrlf(text: string, j: nat)
    requires Ascii(text)
    ensures At(Octets(text), [13, 10], j) <==> Breaks(text, j)
  {
    if j + 1 < |text| {
      assert Octets(text)[j..j + 2] == [text[j] as int, text[j + 1] as int];
    }
  }

  lemma TerminatorIsTwoBreaks(text: string, j: nat)
    requires Ascii(text)
    ensures At(Octets(text), HEADER_TERMINATOR, j) <==> Breaks(text, j) && Breaks(text, j + 2)
  {
    if j + 3 < |text| {
      assert Octets(text)[j..j + 4]
          == [text[j] as int, text[j + 1] as int, text[j + 2] as int, text[j + 3] as int];
    }
  }

  /** Two lines and an empty one. */
  function TwoLines(first: string, second: string): string {
    first + CRLF + (second + CRLF + CRLF)
  }

  lemma {:induction false} OnlyBreaks(first: string, second: string, j: nat)
    requires NoCrlf(first) && first != "" && first[|first| - 1] != '\r'
    requires NoCrlf(second) && second != "" && second[|second| - 1] != '\r'
    ensures var a, b := |first|, |first| + 2 + |second|;
            Breaks(TwoLines(first, second), j) <==> j == a || j == b || j == b + 2
  {
    var text := TwoLines(first, second);
    var a := |first|;
    if j < a {
      assert text[j] == first[j] && (j + 1 < a ==> text[j + 1] == first[j + 1]);
      assert !Breaks(first, j);
    } else if a + 2 <= j < a + 2 + |second| {
      var k := j - a - 2;
      assert text[j] == second[k] && (k + 1 < |second| ==> text[j + 1] == second[k + 1]);
      assert !Breaks(second, k);
    }
  }

  lemma {:induction false} FoundInTwoLines(first: string, second: string, j: nat)
    requires Ascii(TwoLines(first, second))
    requires NoCrlf(first) && first != "" && first[|first| - 1] != '\r'
    requires NoCrlf(second) && second != "" && second[|second| - 1] != '\r'
    ensures var data := Octets(TwoLines(first, second));
            var a, b := |first|, |first| + 2 + |second|;
            && (At(data, [13, 10], j) <==> j == a || j == b || j == b + 2)
            && (At(data, HEADER_TERMINATOR, j) <==> j == b)
  {
    var text := TwoLines(first, second);
    hide TwoLines, At, Breaks, Octets, NoCrlf, Ascii;
    OnlyBreaks(first, second, j);
    OnlyBreaks(first, second, j + 2);
    BreakIsCrlf(text, j);
    TerminatorIsTwoBreaks(text, j);
  }

  lemma {:induction false} FirstInTwoLines(first: string, second: string)
    requires Ascii(TwoLines(first, second))
    requires NoCrlf(first) && first != "" && first[|first| - 1] != '\r'
    requires NoCrlf(second) && second != "" && second[|second| - 1] != '\r'
    ensures var data := Octets(TwoLines(first, second));
            && Search(data, [13, 10], 0) == Some(|first|)
            && Search(data, HEADER_TERMINATOR, 0) == Some(|first| + 2 + |second|)
  {
    hide *;
    var data := Octets(TwoLines(first, second));
    var a, b := |first|, |first| + 2 + |second|;
    forall j: nat
      ensures At(data, [13, 10], j) <==> j == a || j == b || j == b + 2
      ensures At(data, HEADER_TERMINATOR, j) <==> j == b
    {
      FoundInTwoLines(first, second, j);
    }
    SearchIs(data, [13, 10], a);
    SearchIs(data, HEADER_TERMINATOR, b);
  }

  /** Such a text is a header block whose first line is the first one written. */
  lemma {:induction false} TwoLinesRead(first: string, second: string)
    requires Ascii(TwoLines(first, second)) && Ascii(first)
    requires NoCrlf(first) && first != "" && first[|first| - 1] != '\r'
    requires NoCrlf(second) && second != "" && second[|second| - 1] != '\r'
    ensures var data := Octets(TwoLines(first, second));
            IsHead(data) && Before(data, [13, 10]) == Octets(first)
  {
    hide Search, NoCrlf, Ascii;
    var data := Octets(TwoLines(first, second));
    assert data[..|first|] == Octets(first);
    FirstInTwoLines(first, second);
  }

  // --- the stub undoes the client --------------------------------------------------------------

  lemma {:induction false} Surrounded(left: string, middle: string, right: string)
    requires NoCrlf(middle) && '\r' !in left && '\r' !in right && (right == "" || right[0] != '\n')
    ensures NoCrlf(left + middle + right)
  {
    var text := left + middle + right;
    forall j: nat | j < |text| ensures !Breaks(text, j) {
      var k := j - |left|;
      if k < 0 {
        assert text[j] == left[j];
      } else if k < |middle| {
        assert text[j] == middle[k] && !Breaks(middle, k);
        if k + 1 < |middle| {
          assert text[j + 1] == middle[k + 1];
        } else if right != "" {
          assert text[j + 1] == right[0];
        }
      } else {
        assert text[j] == right[k - |middle|];
      }
    }
  }

  /** What goes around a carriable host keeps it free of spaces and line breaks. */
  lemma PlainSurrounded(left: string, host: string, right: string)
    requires ' ' !in host && NoCrlf(host)
    requires ' ' !in left && '\r' !in left && ' ' !in right && '\r' !in right && right != "" && right[0] != '\n'
    ensures var s := left + host + right; ' ' !in s && NoCrlf(s) && s != "" && s[|s| - 1] != '\r'
  {
    Surrounded(left, host, right);
    hide NoCrlf;
    assert (left + host + right)[|left + host + right| - 1] == right[|right| - 1];
  }

  /** The authority of a carriable host has no space and no line break. */
  lemma {:induction false} AuthorityIsPlain(host: string, port: int)
    requires Carriable(host)
    ensures var s := FormatAuthority(host, port);
            ' ' !in s && NoCrlf(s) && s != "" && s[|s| - 1] != '\r'
  {
    StrIsVisible(port);
    var digits := Str(port);
    assert '\r' !in digits && ' ' !in digits;
    if ':' in host {
      assert FormatAuthority(host, port) == "[" + host + ("]:" + digits);
      hide *;
      PlainSurrounded("[", host, "]:" + digits);
    } else {
      assert FormatAuthority(host, port) == "" + host + (":" + digits);
      hide *;
      PlainSurrounded("", host, ":" + digits);
    }
  }

  lemma BracketsStripped(host: string)
    requires host != "" && !IsBracket(host[0]) && !IsBracket(host[|host| - 1])
    ensures StripBrackets("[" + host + "]") == host && StripBrackets(host) == host
  {
    var left := "[" + host + "]";
    assert left[..|left| - 1] == "[" + host;
    assert RStrip(left, IsBracket) == "[" + host;
    assert ("[" + host)[1..] == host;
    assert LStrip(host, IsBracket) == host;
  }

  lemma TargetAt(left: string, digits: string, port: int)
    requires ':' !in digits && IntOf(digits) == Some(port)
    ensures ParseTarget(left + [':'] + digits) == Target(StripBrackets(left), port)
  {
    hide RPartition, IntOf, StripBrackets;
    RPartitionAt(left, ':', digits);
  }

  /** The host as it stands in an authority. */
  function Bracketed(host: string): string {
    if ':' in host then "[" + host + "]" else host
  }

  lemma BracketedStripped(host: string)
    requires Carriable(host)
    ensures StripBrackets(Bracketed(host)) == host
  {
    if host == "" { assert StripBrackets("") == ""; } else { BracketsStripped(host); }
  }

  lemma AuthorityForm(host: string, port: int)
    requires Carriable(host)
    ensures FormatAuthority(host, port) == Bracketed(host) + [':'] + Str(port)
  {
    hide Str;
  }

  lemma DigitsHaveNoColon(port: int)
    ensures ':' !in Str(port)
  {
    StrIsVisible(port);
  }

  /** Taking the brackets and the port off again. */
  lemma {:induction false} TargetReadsBack(host: string, port: int)
    requires Carriable(host)
    ensures ParseTarget(FormatAuthority(host, port)) == Target(host, port)
  {
    hide *;
    AuthorityForm(host, port);
    BracketedStripped(host);
    DigitsHaveNoColon(port);
    IntReadsBack(port);
    TargetAt(Bracketed(host), Str(port), port);
  }

  lemma RequestLineAt(line: string, authority: string, version: string)
    requires line == "CONNECT" + [' '] + (authority + [' '] + version) && ' ' !in authority && Ascii(line)
    ensures ParseRequestLine(Octets(line)) == Some(authority)
  {
    Latin1UndoesOctets(line);
    assert line[7] == ' ' && (authority + [' '] + version)[|authority|] == ' ';
    hide Partition, Octets, Latin1, Ascii;
    PartitionAt("CONNECT", ' ', authority + [' '] + version);
    PartitionAt(authority, ' ', version);
  }

  /** The stub reads the authority the client wrote. */
  lemma {:induction false} RequestLineReadsBack(host: string, port: int, line: string)
    requires Carriable(host) && line == RequestLine(host, port) && Ascii(line)
    ensures ParseRequestLine(Octets(line)) == Some(FormatAuthority(host, port))
  {
    AuthorityIsPlain(host, port);
    var authority := FormatAuthority(host, port);
    assert line == "CONNECT " + authority + " HTTP/1.1";
    hide *;
    assert line == "CONNECT" + [' '] + (authority + [' '] + "HTTP/1.1");
    RequestLineAt(line, authority, "HTTP/1.1");
  }

  /** The two lines of a request, each a text in one piece. */
  function RequestLine(host: string, port: int): string {
    "CONNECT " + FormatAuthority(host, port) + " HTTP/1.1"
  }

  function HostLine(host: string, port: int): string {
    "Host: " + FormatAuthority(host, port)
  }

  lemma RequestIsTwoLines(host: string, port: int)
    ensures RequestText(host, port) == TwoLines(RequestLine(host, port), HostLine(host, port))
  {
    hide FormatAuthority;
  }

  lemma FirstLineIsAscii(first: string, second: string)
    requires Ascii(TwoLines(first, second))
    ensures Ascii(first)
  {
    assert forall j :: 0 <= j < |first| ==> TwoLines(first, second)[j] == first[j];
  }

  lemma RequestLineIsOneLine(host: string, port: int)
    requires Carriable(host)
    ensures var line := RequestLine(host, port);
            NoCrlf(line) && line != "" && line[|line| - 1] != '\r'
  {
    AuthorityIsPlain(host, port);
    hide FormatAuthority, NoCrlf, Carriable;
    Surrounded("CONNECT ", FormatAuthority(host, port), " HTTP/1.1");
    var line := RequestLine(host, port);
    assert line[|line| - 1] == '1';
  }

  lemma HostLineIsOneLine(host: string, port: int)
    requires Carriable(host)
    ensures var line := HostLine(host, port);
            NoCrlf(line) && line != "" && line[|line| - 1] != '\r'
  {
    AuthorityIsPlain(host, port);
    hide FormatAuthority, NoCrlf, Carriable;
    var authority := FormatAuthority(host, port);
    Surrounded("Host: ", authority, "");
    var line := HostLine(host, port);
    assert "Host: " + authority + "" == line && line[|line| - 1] == authority[|authority| - 1];
  }

  /** The bytes of a request for a carriable host: one header block, whose first
      line is the request line. */
  lemma {:induction false} RequestIsHead(host: string, port: int)
    requires Carriable(host) && Ascii(RequestText(host, port))
    ensures var data := Octets(RequestText(host, port));
            Ascii(RequestLine(host, port)) && IsHead(data) && Before(data, [13, 10]) == Octets(RequestLine(host, port))
  {
    hide *;
    RequestIsTwoLines(host, port);
    FirstLineIsAscii(RequestLine(host, port), HostLine(host, port));
    RequestLineIsOneLine(host, port);
    HostLineIsOneLine(host, port);
    TwoLinesRead(RequestLine(host, port), HostLine(host, port));
  }

  lemma TwoLinesBytes(first: string, second: string)
    requires Ascii(TwoLines(first, second))
    ensures Ascii(first) && Ascii(second)
    ensures var data := Octets(TwoLines(first, second)); var rest := data[|first| + 2..];
            && |rest| == |second| + 4
            && rest[..|second|] == Octets(second) && rest[|second|..] == [13, 10, 13, 10]
  {
    var text := TwoLines(first, second);
    assert text[..|first|] == first && text[|first| + 2..][..|second|] == second;
    assert text[|first| + 2..][|second|..] == "\r\n\r\n";
  }

  /** The Host header of a request, its only one, is the request's target: the two lines
      are a request line and a Host line of the same authority. */
  lemma {:induction false} HostRepeatsTarget(host: string, port: int)
    requires Carriable(host) && BuildRequest(host, port).Ok?
    ensures var data := BuildRequest(host, port).value;
            var first := Before(data, [13, 10]);
            && |first| + 2 <= |data| && ParseRequestLine(first).Some?
            && var target, rest := ParseRequestLine(first).value, data[|first| + 2..];
               && Latin1(first) == "CONNECT " + target + " HTTP/1.1"
               && Latin1(Before(rest, [13, 10])) == "Host: " + target
               && rest == Before(rest, [13, 10]) + [13, 10, 13, 10]
  {
    assert BuildRequest(host, port).value == Octets(RequestText(host, port));
    hide *;
    RequestLinesReadBack(host, port);
    LinesSpelled(host, port);
    RequestIsHead(host, port);
    RequestLineReadsBack(host, port, RequestLine(host, port));
    Latin1UndoesOctets(RequestLine(host, port));
    Latin1UndoesOctets(HostLine(host, port));
  }

  /** The second line of a request, and what is behind it. */
  lemma {:induction false} RequestLinesReadBack(host: string, port: int)
    requires Carriable(host) && Ascii(RequestText(host, port))
    ensures Ascii(HostLine(host, port))
    ensures var data, n := Octets(RequestText(host, port)), |RequestLine(host, port)| + 2;
            && n <= |data| && Before(data[n..], [13, 10]) == Octets(HostLine(host, port))
            && data[n..] == Octets(HostLine(host, port)) + [13, 10, 13, 10]
  {
    hide *;
    var first, second := RequestLine(host, port), HostLine(host, port);
    RequestIsTwoLines(host, port);
    RequestLineIsOneLine(host, port);
    HostLineIsOneLine(host, port);
    TwoLinesBytes(first, second);
    SecondOfTwoLines(first, second);
    CutInTwo(Octets(TwoLines(first, second))[|first| + 2..], |second|);
  }

  lemma CutInTwo(data: Bytes, n: nat)
    requires n <= |data|
    ensures data == data[..n] + data[n..]
  {
  }

  lemma LinesSpelled(host: string, port: int)
    ensures RequestLine(host, port) == "CONNECT " + FormatAuthority(host, port) + " HTTP/1.1"
    ensures HostLine(host, port) == "Host: " + FormatAuthority(host, port)
  {
  }

  lemma {:induction false} SecondOfTwoLines(first: string, second: string)
    requires Ascii(TwoLines(first, second)) && Ascii(second)
    requires NoCrlf(first) && first != "" && first[|first| - 1] != '\r'
    requires NoCrlf(second) && second != "" && second[|second| - 1] != '\r'
    ensures var data := Octets(TwoLines(first, second));
            |first| + 2 <= |data| && Before(data[|first| + 2..], [13, 10]) == Octets(second)
  {
    var data := Octets(TwoLines(first, second));
    TwoLinesBytes(first, second);
    var rest := data[|first| + 2..];
    hide NoCrlf, Ascii, At, TwoLines, Octets, Search;
    forall j: nat | j <= |second| ensures At(rest, [13, 10], j) <==> j == |second| {
      FoundInTwoLines(first, second, |first| + 2 + j);
      AtBehind(data, |first| + 2, j);
    }
    SearchIs(rest, [13, 10], |second|);
  }

  lemma AtBehind(data: Bytes, n: nat, j: nat)
    requires n <= |data|
    ensures At(data[n..], [13, 10], j) == At(data, [13, 10], n + j)
  {
    if n + j + 2 <= |data| { assert data[n..][j..j + 2] == data[n + j..n + j + 2]; }
  }

  /** A request can be built exactly for a host of ASCII characters. */
  lemma {:induction false} BuildableIff(host: string, port: int)
    ensures BuildRequest(host, port).Ok? <==> forall i :: 0 <= i < |host| ==> host[i] as int < 128
  {
    var a, digits, text := FormatAuthority(host, port), Str(port), RequestText(host, port);
    StrIsVisible(port);
    assert Ascii(digits);
    hide FormatAuthority, Str;
    AuthorityIsAscii(host, port);
    AroundAuthority(a);
    assert text == "CONNECT " + a + " HTTP/1.1\r\nHost: " + a + "\r\n\r\n";
  }

  lemma AuthorityIsAscii(host: string, port: int)
    requires Ascii(Str(port))
    ensures Ascii(FormatAuthority(host, port)) <==> Ascii(host)
  {
    var a, digits := FormatAuthority(host, port), Str(port);
    hide Str;
    if ':' in host && host[0] != '[' {
      assert a == "[" + host + "]:" + digits;
      assert forall i :: 0 <= i < |host| ==> a[i + 1] == host[i];
    } else {
      assert a == host + ":" + digits;
      assert forall i :: 0 <= i < |host| ==> a[i] == host[i];
    }
  }

  lemma AroundAuthority(a: string)
    ensures Ascii("CONNECT " + a + " HTTP/1.1\r\nHost: " + a + "\r\n\r\n") <==> Ascii(a)
  {
    var text := "CONNECT " + a + " HTTP/1.1\r\nHost: " + a + "\r\n\r\n";
    assert forall i :: 0 <= i < |a| ==> text[i + 8] == a[i];
    assert Ascii("CONNECT ") && Ascii(" HTTP/1.1\r\nHost: ") && Ascii("\r\n\r\n");
  }

  /** The stub on a stream that starts with a header block. */
  lemma {:induction false} StubOnHead(net: Net, data: Bytes, tail: Bytes, authority: string)
    requires IsHead(data) && net.inbound == data + tail && net.accepts > 0
    requires ParseRequestLine(Before(data, [13, 10])) == Some(authority)
    ensures StubNegotiate(net, false).0 == ParseTarget(authority) && StubNegotiate(net, false).1.inbound == tail
  {
    hide ParseRequestLine, ParseTarget, Before, StubReply, Search;
    SearchInFront(data, HEADER_TERMINATOR, tail);
    assert net.inbound[..|data|] == data && net.inbound[|data|..] == tail;
  }

  /** For every carriable host, IPv6 literals included, and every port, the stub
      decodes the client's request to them, and consumes exactly the request. */
  lemma {:induction false} StubUndoesRequest(host: string, port: int, net: Net, tail: Bytes)
    requires BuildRequest(host, port).Ok? && net.inbound == BuildRequest(host, port).value + tail
    requires Carriable(host) && net.accepts > 0
    ensures StubNegotiate(net, false).0 == Target(host, port)
    ensures StubNegotiate(net, false).1.inbound == tail
  {
    assert BuildRequest(host, port).value == Octets(RequestText(host, port));
    RequestIsHead(host, port);
    TargetReadsBack(host, port);
    hide *;
    RequestLineReadsBack(host, port, RequestLine(host, port));
    StubOnHead(net, BuildRequest(host, port).value, tail, FormatAuthority(host, port));
  }

  // --- and only for such hosts -------------------------------------------------------------------

  lemma NoCrlfSlice(s: string, i: nat, j: nat)
    requires i <= j <= |s| && NoCrlf(s)
    ensures NoCrlf(s[i..j])
  {
    forall k: nat | k < j - i ensures !Breaks(s[i..j], k) {
      assert !Breaks(s, i + k);
    }
  }

  lemma {:induction false} RStripIsFront(s: string, drop: char -> bool) returns (k: nat)
    ensures k <= |s| && RStrip(s, drop) == s[..k]
  {
    if s == "" || !drop(s[|s| - 1]) {
      k := |s|;
    } else {
      k := RStripIsFront(s[..|s| - 1], drop);
      assert s[..|s| - 1][..k] == s[..k];
    }
  }

  /** Stripping brackets leaves a slice with no bracket at either end. */
  lemma {:induction false} StrippedIsSlice(s: string) returns (i: nat, j: nat)
    ensures i <= j <= |s| && StripBrackets(s) == s[i..j]
    ensures var r := StripBrackets(s); r != "" ==> !IsBracket(r[0]) && !IsBracket(r[|r| - 1])
  {
    j := RStripIsFront(s, IsBracket);
    i := LStripIsTail(s[..j], IsBracket);
    assert s[..j][i..] == s[i..j];
  }

  lemma FirstLineIsOneLine(raw: Bytes)
    ensures NoCrlf(Latin1(Before(raw, [13, 10])))
  {
    var line := Before(raw, [13, 10]);
    forall j: nat | j < |line| ensures !Breaks(Latin1(line), j) {
      if j + 1 < |line| {
        assert line[j] == raw[j] && line[j + 1] == raw[j + 1];
        assert raw[j..j + 2] == [raw[j], raw[j + 1]];
        assert !At(raw, [13, 10], j);
      }
    }
  }

  /** A request line yields an authority without spaces and line breaks. */
  lemma {:induction false} ParsedAuthorityIsPlain(raw: Bytes)
    requires ParseRequestLine(Before(raw, [13, 10])).Some?
    ensures var s := ParseRequestLine(Before(raw, [13, 10])).value; ' ' !in s && NoCrlf(s)
  {
    FirstLineIsOneLine(raw);
    hide Before, Latin1, NoCrlf, Partition;
    SecondFieldIsPlain(Latin1(Before(raw, [13, 10])));
  }

  lemma SecondFieldIsPlain(text: string)
    requires NoCrlf(text)
    ensures var s := Partition(Partition(text, ' ').1, ' ').0; ' ' !in s && NoCrlf(s)
  {
    hide NoCrlf;
    var n := Find(text, ' ');
    var rest := Partition(text, ' ').1;
    var m := Find(rest, ' ');
    var s := Partition(rest, ' ').0;
    assert s == rest[..m];
    if n < |text| {
      NoCrlfSlice(text, n + 1, n + 1 + m);
      assert rest[..m] == text[n + 1..n + 1 + m];
    } else {
      NoCrlfSlice(text, 0, 0);
      assert s == text[0..0];
    }
  }

  lemma {:induction false} DecodedHostIsCarriable(authority: string)
    requires ' ' !in authority && NoCrlf(authority) && ParseTarget(authority).Target?
    ensures Carriable(ParseTarget(authority).host)
  {
    var n := RFind(authority, ':');
    var left := RPartition(authority, ':').0;
    NoCrlfSlice(authority, 0, if n == 0 then 0 else n - 1);
    assert left == authority[0..if n == 0 then 0 else n - 1];
    var i, j := StrippedIsSlice(left);
    NoCrlfSlice(left, i, j);
    assert forall k :: i <= k < j ==> left[k] == authority[k];
  }

  /** The stub decodes the client's request to the origin the client asked for, for
      every port, exactly when the host is carriable. */
  lemma {:induction false} StubUndoesRequestIff(host: string, port: int, net: Net, tail: Bytes)
    requires BuildRequest(host, port).Ok? && net.inbound == BuildRequest(host, port).value + tail
    requires net.accepts > 0
    ensures StubNegotiate(net, false).0 == Target(host, port) <==> Carriable(host)
  {
    hide ParseRequestLine, ParseTarget, Before, BuildRequest, Carriable, NoCrlf, StubReply, Search;
    if Carriable(host) {
      StubUndoesRequest(host, port, net, tail);
    }
    if StubNegotiate(net, false).0 == Target(host, port) {
      var raw := net.inbound[..Search(net.inbound, HEADER_TERMINATOR, 0).value + 4];
      ParsedAuthorityIsPlain(raw);
      DecodedHostIsCarriable(ParseRequestLine(Before(raw, [13, 10])).value);
    }
  }

  /** A host that brings its own brackets: the stub dials the address inside. */
  lemma {:induction false} StubStripsBrackets(port: int, net: Net, tail: Bytes)
    requires BuildRequest("[::1]", port).Ok? && net.inbound == BuildRequest("[::1]", port).value + tail
    requires net.accepts > 0
    ensures !Carriable("[::1]") && StubNegotiate(net, false).0 == Target("::1", port)
  {
    assert Carriable("::1") && !Carriable("[::1]") by { assert IsBracket("[::1]"[0]); }
    hide Carriable, StubNegotiate, FormatAuthority;
    SameWithBrackets(port);
    assert RequestText("[::1]", port) == RequestText("::1", port);
    hide RequestText;
    assert BuildRequest("[::1]", port) == BuildRequest("::1", port);
    StubUndoesRequest("::1", port, net, tail);
  }

  // --- client and stub together ---------------------------------------------------------------------

  lemma CodesAsText()
    ensures Str(200) == "200" && Str(403) == "403"
  {
    assert Decimal(2) == "2" && Decimal(4) == "4";
    assert Decimal(20) == "20" && Decimal(40) == "40";
  }

  lemma OneLineIsHead(line: Bytes)
    requires 13 !in line
    ensures IsHead(line + HEADER_TERMINATOR) && line + [13, 10] <= line + HEADER_TERMINATOR
  {
    var data := line + HEADER_TERMINATOR;
    forall j: nat | j < |line| ensures !At(data, HEADER_TERMINATOR, j) {
      assert data[j] == line[j] && line[j] in line;
      NotAtOtherByte(data, HEADER_TERMINATOR, j);
    }
    assert data[|line|..|line| + 4] == HEADER_TERMINATOR;
    SearchIs(data, HEADER_TERMINATOR, |line|);
    assert line + HEADER_TERMINATOR == line + [13, 10] + [13, 10];
  }

  lemma NotAtOtherByte(data: Bytes, sep: Bytes, j: nat)
    requires j < |data| && sep != [] && data[j] != sep[0]
    ensures !At(data, sep, j)
  {
    if j + |sep| <= |data| {
      assert data[j..j + |sep|][0] == data[j];
    }
  }

  lemma NoReturnInOctets(text: string)
    requires Ascii(text) && '\r' !in text
    ensures 13 !in Octets(text)
  {
    assert forall j :: 0 <= j < |text| ==> Octets(text)[j] == text[j] as int && text[j] != '\r';
  }

  /** A status line with no header lines. */
  lemma {:induction false} LoneStatusLine(line: string, version: string, status: int, reason: string)
    requires Ascii(line) && '\r' !in line && line == version + " " + (Str(status) + " " + reason)
    requires IsHttpVersion(version) && ' ' !in version
    ensures var data := Octets(line) + HEADER_TERMINATOR;
            IsHead(data) && ParseResponse(data) == Ok(Response(status, reason))
  {
    Latin1UndoesOctets(line);
    hide *;
    NoReturnInOctets(line);
    OneLineIsHead(Octets(line));
    StatusLineReadsBack(Octets(line) + HEADER_TERMINATOR, Octets(line), version, status, reason);
  }

  predicate Clean(text: string) {
    Ascii(text) && '\r' !in text
  }

  lemma VersionIsClean()
    ensures Clean("HTTP/1.1") && Clean("200") && Clean("403") && Clean("Forbidden")
  {
  }

  lemma ReasonIsClean()
    ensures Clean("Connection Established")
  {
    assert "Connection Established" == "Connection" + " " + "Established";
    assert Clean("Connection") && Clean("Established");
  }

  lemma JoinedIsClean(a: string, b: string, c: string)
    requires Clean(a) && Clean(b) && Clean(c)
    ensures Clean(a + " " + (b + " " + c))
  {
    assert forall x :: x in a + " " + (b + " " + c) ==> x in a || x in b || x in c || x == ' ';
    var text := a + " " + (b + " " + c);
    forall i | 0 <= i < |text| ensures text[i] < '\U{80}' {
      assert text[i] in text;
    }
  }

  lemma StubLineForm(fail: bool)
    ensures var line := StubLine(fail);
            && Clean(line) && |line| <= 100
            && line == "HTTP/1.1" + " " + (Str(StubStatus(fail).status) + " " + StubStatus(fail).reason)
  {
    CodesAsText();
    VersionIsClean();
    ReasonIsClean();
    assert |StubStatus(fail).reason| <= 50;
    hide Str, Clean;
    JoinedIsClean("HTTP/1.1", if fail then "403" else "200", StubStatus(fail).reason);
  }

  lemma ReplyIsHead(fail: bool)
    ensures IsHead(StubReply(fail)) && |StubReply(fail)| <= HEAD_LIMIT
    ensures ParseResponse(StubReply(fail)) == Ok(StubStatus(fail))
  {
    assert IsHttpVersion("HTTP/1.1") && ' ' !in "HTTP/1.1";
    hide ParseResponse, Str, IsHead, Search, Octets, StubLine, StubStatus, IsHttpVersion;
    StubLineForm(fail);
    LoneStatusLine(StubLine(fail), "HTTP/1.1", StubStatus(fail).status, StubStatus(fail).reason);
  }

  lemma {:induction false} ReadHeadOnlyReads(net: Net)
    ensures ReadHead(net).1.accepts == net.accepts && SentBytes(ReadHead(net).1.log) == SentBytes(net.log)
  {
    var i := Search(net.inbound, HEADER_TERMINATOR, 0);
    var n := if i.Some? && i.value + 4 <= HEAD_LIMIT then i.value + 4
             else if |net.inbound| > HEAD_LIMIT then HEAD_LIMIT + 1 else |net.inbound|;
    assert ReadHead(net).1 == Skip(net, n);
    var gots := Singles(net.inbound[..n]);
    ReadsSendNothing(gots);
    SentBytesOfBoth(net.log, gots);
  }

  /** An established tunnel has sent the request and nothing else. */
  lemma {:induction false} EstablishedSends(host: string, port: int, net: Net)
    requires Establish(host, port, net).0.Ok?
    ensures BuildRequest(host, port).Ok?
    ensures var after := Establish(host, port, net).1;
            && after.accepts + 1 == net.accepts
            && SentBytes(after.log) == SentBytes(net.log) + BuildRequest(host, port).value
  {
    hide ReadHead, ParseResponse, BuildRequest;
    var request := BuildRequest(host, port).value;
    var (_, sent) := Send(net, request);
    SentBytesOfBoth(net.log, [Sent(request)]);
    assert SentBytes([Sent(request)]) == request;
    ReadHeadOnlyReads(sent);
  }

  /** The two answers of the stub proxy. */
  lemma StubAnswers()
    ensures Latin1(StubReply(false)) == "HTTP/1.1 200 Connection Established\r\n\r\n"
    ensures Latin1(StubReply(true)) == "HTTP/1.1 403 Forbidden\r\n\r\n"
  {
    StubText(false);
    StubText(true);
  }

  lemma StubText(fail: bool)
    ensures Latin1(StubReply(fail)) == StubLine(fail) + "\r\n\r\n"
    ensures StubLine(fail) == if fail then "HTTP/1.1 403 Forbidden" else "HTTP/1.1 200 Connection Established"
  {
    StubLineSpelled(fail);
    StubBytes(fail);
    hide *;
    TerminatedText(StubLine(fail));
  }

  lemma StubBytes(fail: bool)
    ensures Ascii(StubLine(fail)) && StubReply(fail) == Octets(StubLine(fail)) + HEADER_TERMINATOR
  {
    StubLineForm(fail);
    hide StubLine, Str, Octets;
  }

  lemma StubLineSpelled(fail: bool)
    ensures StubLine(fail) == if fail then "HTTP/1.1 403 Forbidden" else "HTTP/1.1 200 Connection Established"
  {
  }

  lemma TerminatedText(line: string)
    requires Ascii(line)
    ensures Latin1(Octets(line) + HEADER_TERMINATOR) == line + "\r\n\r\n"
  {
    var end := "\r\n\r\n";
    assert end[0] == '\r' && end[1] == '\n' && end[2] == '\r' && end[3] == '\n';
  }

  /** A stub that is told to fail answers so and has no target. */
  lemma StubRefuses(net: Net)
    ensures var (target, after) := StubNegotiate(net, true);
            && !target.Target?
            && (target == NoTarget && net.accepts > 0 && Search(net.inbound, HEADER_TERMINATOR, 0).Some? ==>
                  after.log != [] && after.log[|after.log| - 1] == Sent(StubReply(true)))
  {
    hide Search, StubReply;
  }

  /** The client accepts exactly the stub's grant, and leaves the tunnel bytes alone. */
  lemma {:induction false} ClientMeetsStub(host: string, port: int, net: Net, fail: bool, tail: Bytes)
    requires BuildRequest(host, port).Ok? && net.accepts > 0
    requires net.inbound == StubReply(fail) + tail
    ensures Establish(host, port, net).0 == if fail then Err(Refused(Http(Response(403, "Forbidden"))))
            else Ok(Response(200, "Connection Established"))
    ensures Establish(host, port, net).1.inbound == tail
  {
    ReplyIsHead(fail);
    assert StubStatus(fail).TunnelEstablished() == !fail;
    hide ReadHead, ParseResponse, IsHead, BuildRequest, StubReply;
    var (_, sent) := Send(net, BuildRequest(host, port).value);
    HeadIffComplete(sent, StubReply(fail), tail);
  }
}
