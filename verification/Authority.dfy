/** `host:port` as both ends write and read it. */
module Authority {
  import opened Basics
  import opened PyText

  /** The authority-form target of section 3.2.3 of RFC 9112; IPv6 literals get brackets. */
  function FormatAuthority(host: string, port: int): string {
    if ':' in host && !(host != "" && host[0] == '[') then "[" + host + "]:" + Str(port)
    else host + ":" + Str(port)
  }

  datatype NotAPort = NotAPort(text: string)

  /** A host and a port, each perhaps unset. */
  datatype HostPort = HostPort(host: Option<string>, port: Option<int>)

  function OrNone(s: string): Option<string> {
    if s == "" then None else Some(s)
  }

  /** `_split_host_port`: a port that is present but not a number is an error. */
  function SplitHostPort(text: string): Result<HostPort, NotAPort> {
    var value := Strip(text);
    if value == "" then Ok(HostPort(None, None))
    else if value[0] == '[' then
      var parts := Partition(value, ']');
      HostAndPort(LStrip(parts.0, c => c == '['), LStrip(parts.1, c => c == ':'))
    else
      var parts := RPartition(value, ':');
      if parts.0 == "" then Ok(HostPort(Some(value), None)) else HostAndPort(parts.0, parts.1)
  }

  function HostAndPort(host: string, port: string): Result<HostPort, NotAPort> {
    if port == "" then Ok(HostPort(OrNone(host), None))
    else
      match IntOf(port)
      case None => Err(NotAPort(port))
      case Some(n) => Ok(HostPort(OrNone(host), Some(n)))
  }

  // --- what the field means --------------------------------------------------------

  lemma {:induction false} FieldWithoutColon(text: string)
    requires ':' !in Strip(text) && Strip(text) != "" && Strip(text)[0] != '['
    ensures SplitHostPort(text) == Ok(HostPort(Some(Strip(text)), None))
  {
    assert RFind(Strip(text), ':') == 0;
  }

  lemma BlankField(text: string)
    requires Strip(text) == ""
    ensures SplitHostPort(text) == Ok(HostPort(None, None))
  {
  }

  /** A field without brackets, around its last colon: what is left of it is the host,
      what is right of it the port, and an error if it is there and not a number. With
      nothing left of it the whole field is the host. */
  lemma {:induction false} FieldWithColon(text: string, host: string, port: string)
    requires Strip(text) == host + ":" + port && (host != "" ==> host[0] != '[') && ':' !in port
    ensures SplitHostPort(text)
         == if host == "" then Ok(HostPort(Some(":" + port), None))
            else if port == "" then Ok(HostPort(Some(host), None))
            else if IntOf(port).Some? then Ok(HostPort(Some(host), IntOf(port)))
            else Err(NotAPort(port))
  {
    hide Strip, IntOf;
    assert Strip(text)[0] == if host == "" then ':' else host[0];
    assert host == "" ==> Strip(text) == ":" + port;
    RPartitionAt(host, ':', port);
  }

  /** A field that starts with a bracket: the host is what the bracket encloses, and the
      port what follows it behind a colon. */
  lemma {:induction false} FieldInBrackets(text: string, host: string, port: string)
    requires Strip(text) == "[" + host + "]" || Strip(text) == "[" + host + "]:" + port
    requires host != "" && host[0] != '[' && ']' !in host && (port != "" ==> port[0] != ':')
    requires Strip(text) == "[" + host + "]" ==> port == ""
    ensures SplitHostPort(text)
         == if port == "" then Ok(HostPort(Some(host), None))
            else if IntOf(port).Some? then Ok(HostPort(Some(host), IntOf(port)))
            else Err(NotAPort(port))
  {
    hide Strip, IntOf;
    var open, rest := "[" + host, if Strip(text) == "[" + host + "]" then "" else ":" + port;
    assert Strip(text) == open + [']'] + rest;
    PartitionAt(open, ']', rest);
    OneStripped('[', host);
    if rest != "" && port != "" { OneStripped(':', port); }
    hide Partition;
  }

  /** The hosts for which formatting can be undone: not empty; a host with a colon
      must be free of a leading bracket and of closing brackets, any other must not
      start with a space or a bracket. */
  predicate Splittable(host: string) {
    && host != ""
    && (if ':' in host then host[0] != '[' && ']' !in host else !IsSpace(host[0]) && host[0] != '[')
  }

  lemma {:induction false} PlainSplits(host: string, port: int)
    requires host != "" && ':' !in host && !IsSpace(host[0]) && host[0] != '['
    ensures SplitHostPort(FormatAuthority(host, port)) == Ok(HostPort(Some(host), Some(port)))
  {
    var text := host + ":" + Str(port);
    StrIsVisible(port);
    assert text[0] == host[0] && text[|text| - 1] == Str(port)[|Str(port)| - 1];
    StripNothing(text);
    RPartitionAt(host, ':', Str(port));
    IntReadsBack(port);
  }

  lemma {:induction false} BracketedSplits(host: string, port: int)
    requires ':' in host && host[0] != '[' && ']' !in host
    ensures SplitHostPort(FormatAuthority(host, port)) == Ok(HostPort(Some(host), Some(port)))
  {
    var open, rest := "[" + host, ":" + Str(port);
    var text := FormatAuthority(host, port);
    assert text == open + [']'] + rest;
    StrIsVisible(port);
    assert text[0] == '[' && text[|text| - 1] == Str(port)[|Str(port)| - 1];
    StripNothing(text);
    PartitionAt(open, ']', rest);
    OneStripped('[', host);
    OneStripped(':', Str(port));
    IntReadsBack(port);
    hide Str, IntOf, LStrip, Partition, Strip;
    assert HostAndPort(host, Str(port)) == Ok(HostPort(Some(host), Some(port)));
  }

  lemma OneStripped(c: char, s: string)
    requires s != "" && s[0] != c
    ensures LStrip([c] + s, x => x == c) == s
  {
    assert ([c] + s)[1..] == s;
  }

  /** A bracketed field never yields a host that starts with a bracket, and no
      field yields a host that contains one of the separators it was cut at. */
  lemma {:induction false} SplitShape(text: string)
    requires SplitHostPort(text).Ok? && SplitHostPort(text).value.host.Some? && SplitHostPort(text).value.port.Some?
    ensures var host := SplitHostPort(text).value.host.value;
            var value := Strip(text);
            && value != "" && host != ""
            && (value[0] == '[' ==> host[0] != '[' && ']' !in host && ']' in value)
            && (value[0] != '[' ==> host <= value)
  {
    var value := Strip(text);
    if value[0] == '[' {
      var n := Find(value, ']');
      var part := Partition(value, ']').0;
      var k := LStripIsTail(part, c => c == '[');
      assert part == value[..n];
      assert forall i :: 0 <= i < |part| ==> part[i] != ']';
    }
  }

  /** What strip leaves of a formatted authority is its tail from some point on. */
  lemma {:induction false} StrippedAuthority(host: string, port: int) returns (k: nat)
    ensures var text := FormatAuthority(host, port);
            && k < |text| && Strip(text) == text[k..]
            && (k == 0 <==> !IsSpace(text[0])) && !IsSpace(text[k])
  {
    var text := FormatAuthority(host, port);
    StrIsVisible(port);
    assert text[|text| - 1] == Str(port)[|Str(port)| - 1];
    k := LStripIsTail(text, IsSpace);
  }

  /** The argument for the only-if direction, on texts alone: `value` is the field
      after stripping and `host` what was read from it. */
  lemma {:induction false} OnlySplittable(host: string, digits: string, text: string, k: nat)
    requires host != "" && k < |text| && (k == 0 <==> !IsSpace(text[0])) && !IsSpace(text[k])
    requires ']' !in digits
    requires text == if ':' in host && host[0] != '[' then "[" + host + "]:" + digits else host + ":" + digits
    requires text[k] == '[' ==> host[0] != '[' && ']' !in host && ']' in text[k..]
    requires text[k] != '[' ==> host <= text[k..]
    ensures Splittable(host)
  {
    if !(':' in host && host[0] != '[') {
      assert text[0] == host[0];
      assert forall c :: c in text ==> c in host || c == ':' || c in digits;
      assert forall i :: 0 <= i < |text[k..]| ==> text[k..][i] in text;
    } else {
      assert text[0] == '[';
    }
  }

  lemma AuthorityText(host: string, port: int)
    ensures FormatAuthority(host, port)
         == if ':' in host && host[0] != '[' then "[" + host + "]:" + Str(port) else host + ":" + Str(port)
  {
    hide Str;
  }

  lemma DigitsHaveNoBracket(port: int)
    ensures ']' !in Str(port)
  {
    StrIsVisible(port);
  }

  lemma {:induction false} UndoneOnlyIfSplittable(host: string, port: int)
    requires SplitHostPort(FormatAuthority(host, port)) == Ok(HostPort(Some(host), Some(port)))
    ensures Splittable(host)
  {
    hide *;
    SplitShape(FormatAuthority(host, port));
    var k := StrippedAuthority(host, port);
    AuthorityText(host, port);
    DigitsHaveNoBracket(port);
    OnlySplittable(host, Str(port), FormatAuthority(host, port), k);
  }

  /** `_split_host_port` undoes `format_authority`, for every port, exactly when the
      host is splittable. */
  lemma {:induction false} SplitUndoesFormatIff(host: string, port: int)
    ensures SplitHostPort(FormatAuthority(host, port)) == Ok(HostPort(Some(host), Some(port))) <==> Splittable(host)
  {
    hide SplitHostPort, FormatAuthority;
    if SplitHostPort(FormatAuthority(host, port)) == Ok(HostPort(Some(host), Some(port))) {
      UndoneOnlyIfSplittable(host, port);
    }
    if Splittable(host) {
      if ':' in host { BracketedSplits(host, port); } else { PlainSplits(host, port); }
    }
  }

  lemma SameWithBrackets(port: int)
    ensures FormatAuthority("[::1]", port) == FormatAuthority("::1", port)
  {
    var digits := Str(port);
    hide Str;
    assert "[" + "::1" == "[::1";
    assert "[::1" + "]:" + digits == "[::1]" + ":" + digits;
  }

  /** A host that brings its own brackets loses them: it is read back as the address
      inside, for every port. */
  lemma {:induction false} BracketsAreLost(port: int)
    ensures !Splittable("[::1]")
    ensures SplitHostPort(FormatAuthority("[::1]", port)) == Ok(HostPort(Some("::1"), Some(port)))
  {
    hide SplitHostPort;
    SameWithBrackets(port);
    hide FormatAuthority;
    BracketedSplits("::1", port);
  }
}
