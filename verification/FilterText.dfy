/** The filter list on the command line: `ip:port` pairs joined by commas. */
module FilterText {
  import opened BitVectors

  datatype Outcome<T> = Ok(value: T) | Fatal

  // ---------- Searching and splitting ----------

  /** The position of the first `c`, or the length of `s` if there is none. */
  function Find(s: string, c: char): (i: nat)
    ensures i <= |s|
    ensures c !in s[..i] && (i < |s| ==> s[i] == c)
  {
    if s == "" || s[0] == c then 0 else 1 + Find(s[1..], c)
  }

  lemma {:induction false} FindSkips(a: string, c: char, b: string)
    requires c !in a
    ensures Find(a + [c] + b, c) == |a|
  {
    var s := a + [c] + b;
    if a != "" {
      assert s[1..] == a[1..] + [c] + b;
      FindSkips(a[1..], c, b);
    }
  }

  lemma {:induction false} FindMisses(a: string, c: char)
    requires c !in a
    ensures Find(a, c) == |a|
  {
    if a != "" {
      FindMisses(a[1..], c);
    }
  }

  /** The tokens that repeated `getline` calls extract: the text behind the last separator is a
      token only if it is not empty. */
  function Tokens(s: string, sep: char): seq<string>
    decreases |s|
  {
    if s == "" then []
    else
      var i := Find(s, sep);
      [s[..i]] + Tokens(if i == |s| then "" else s[i + 1..], sep)
  }

  lemma TokensStep(s: string, sep: char, i: nat, next: string)
    requires s != "" && i == Find(s, sep) && next == if i == |s| then "" else s[i + 1..]
    ensures Tokens(s, sep) == [s[..i]] + Tokens(next, sep)
  {
  }

  lemma RegroupTokens(a: seq<string>, t: string, b: seq<string>)
    ensures a + ([t] + b) == a + [t] + b
  {
  }

  /** The loop over the filter argument. */
  method ParseFilterArgument(filterStr: string) returns (filterList: seq<string>)
    ensures filterList == Tokens(filterStr, ',')
  {
    filterList := [];
    var rest := filterStr;
    while rest != ""
      invariant filterList + Tokens(rest, ',') == Tokens(filterStr, ',')
      decreases |rest|
    {
      var i := Find(rest, ',');
      var token := rest[..i];
      var next := if i == |rest| then "" else rest[i + 1..];
      TokensStep(rest, ',', i, next);
      RegroupTokens(filterList, token, Tokens(next, ','));
      filterList, rest := filterList + [token], next;
    }
  }

  /** Each token followed by the separator. */
  function Terminated(tokens: seq<string>, sep: char): string {
    if tokens == [] then "" else tokens[0] + [sep] + Terminated(tokens[1..], sep)
  }

  /** The tokens with separators between them. */
  function Joined(tokens: seq<string>, sep: char): string {
    if tokens == [] then ""
    else if |tokens| == 1 then tokens[0]
    else tokens[0] + [sep] + Joined(tokens[1..], sep)
  }

  predicate Free(tokens: seq<string>, sep: char) {
    forall i :: 0 <= i < |tokens| ==> sep !in tokens[i]
  }

  /** With a trailing separator every list of tokens is recovered, empty tokens included. */
  lemma {:induction false} TokensOfTerminated(tokens: seq<string>, sep: char)
    requires Free(tokens, sep)
    ensures Tokens(Terminated(tokens, sep), sep) == tokens
  {
    if tokens != [] {
      var s := Terminated(tokens, sep);
      var rest := Terminated(tokens[1..], sep);
      FindSkips(tokens[0], sep, rest);
      assert s[..|tokens[0]|] == tokens[0] && s[|tokens[0]| + 1..] == rest;
      TokensOfTerminated(tokens[1..], sep);
    }
  }

  lemma OneToken(t: string, sep: char)
    requires sep !in t
    ensures Tokens(t, sep) == if t == "" then [] else [t]
  {
    FindMisses(t, sep);
    assert t[..|t|] == t;
  }

  /** All tokens but an empty last one. */
  function Kept(tokens: seq<string>): seq<string> {
    if tokens != [] && tokens[|tokens| - 1] == "" then tokens[..|tokens| - 1] else tokens
  }

  lemma KeptCons(tokens: seq<string>)
    requires |tokens| > 1
    ensures Kept(tokens) == [tokens[0]] + Kept(tokens[1..])
  {
    assert tokens == [tokens[0]] + tokens[1..];
  }

  /** Without a trailing separator a list is recovered but for an empty last token. */
  lemma {:induction false} TokensOfJoined(tokens: seq<string>, sep: char)
    requires Free(tokens, sep)
    ensures Tokens(Joined(tokens, sep), sep) == Kept(tokens)
  {
    if |tokens| == 1 {
      OneToken(tokens[0], sep);
    } else if |tokens| > 1 {
      JoinedStep(tokens, sep);
      TokensOfJoined(tokens[1..], sep);
      KeptCons(tokens);
    }
  }

  lemma JoinedStep(tokens: seq<string>, sep: char)
    requires |tokens| > 1 && sep !in tokens[0]
    ensures Tokens(Joined(tokens, sep), sep) == [tokens[0]] + Tokens(Joined(tokens[1..], sep), sep)
  {
    var s := Joined(tokens, sep);
    var rest := Joined(tokens[1..], sep);
    FindSkips(tokens[0], sep, rest);
    assert s[..|tokens[0]|] == tokens[0] && s[|tokens[0]| + 1..] == rest;
  }

  // ---------- Decimal numbers ----------

  predicate IsDigit(c: char) {
    '0' <= c <= '9'
  }

  predicate AllDigits(s: string) {
    forall i :: 0 <= i < |s| ==> IsDigit(s[i])
  }

  function DigitValue(c: char): (v: nat)
    requires IsDigit(c)
    ensures v < 10
  {
    c as int - '0' as int
  }

  function DigitChar(v: nat): (c: char)
    requires v < 10
    ensures IsDigit(c) && DigitValue(c) == v
  {
    ('0' as int + v) as char
  }

  /** The usual decimal notation. */
  function Decimal(n: nat): (s: string)
    ensures s != "" && AllDigits(s)
  {
    if n < 10 then [DigitChar(n)] else Decimal(n / 10) + [DigitChar(n % 10)]
  }

  function DecimalValue(s: string): nat
    requires AllDigits(s)
  {
    if s == "" then 0 else 10 * DecimalValue(s[..|s| - 1]) + DigitValue(s[|s| - 1])
  }

  lemma {:induction false} DecimalRoundTrip(n: nat)
    ensures DecimalValue(Decimal(n)) == n
    ensures n > 0 ==> Decimal(n)[0] != '0'
  {
    var s := Decimal(n);
    if n >= 10 {
      DecimalRoundTrip(n / 10);
      assert s[..|s| - 1] == Decimal(n / 10);
    } else {
      assert s[..0] == "";
    }
  }

  /** The length of the longest prefix of digits. */
  function DigitRun(s: string): (n: nat)
    ensures n <= |s| && AllDigits(s[..n]) && (n < |s| ==> !IsDigit(s[n]))
  {
    if s == "" || !IsDigit(s[0]) then 0 else 1 + DigitRun(s[1..])
  }

  lemma {:induction false} DigitRunAll(s: string)
    requires AllDigits(s)
    ensures DigitRun(s) == |s|
  {
    if s != "" {
      DigitRunAll(s[1..]);
    }
  }

  predicate IsSpace(c: char) {
    c == ' ' || '\t' <= c <= '\r'
  }

  function SkipSpaces(s: string): string {
    if s != "" && IsSpace(s[0]) then SkipSpaces(s[1..]) else s
  }

  /** `std::stoi` in base 10: optional white space and sign, the longest run of digits, and an
      exception if there is none or the value does not fit an `int`. Trailing text is ignored. */
  function StoI(text: string): Outcome<int> {
    var s := SkipSpaces(text);
    var negative := s != "" && s[0] == '-';
    var digits := if s != "" && (s[0] == '-' || s[0] == '+') then s[1..] else s;
    var n := DigitRun(digits);
    if n == 0 then Fatal
    else
      var magnitude: int := DecimalValue(digits[..n]);
      var v := if negative then -magnitude else magnitude;
      if -0x8000_0000 <= v < 0x8000_0000 then Ok(v) else Fatal
  }

  lemma StoIOfDecimal(n: nat)
    requires n < 0x8000_0000
    ensures StoI(Decimal(n)) == Ok(n)
  {
    var s := Decimal(n);
    assert IsDigit(s[0]);
    assert SkipSpaces(s) == s;
    DigitRunAll(s);
    DecimalRoundTrip(n);
    assert s[..|s|] == s;
  }

  lemma {:induction false} SkipSpacesStops(spaces: string, s: string)
    requires forall i :: 0 <= i < |spaces| ==> IsSpace(spaces[i])
    requires s != "" && !IsSpace(s[0])
    ensures SkipSpaces(spaces + s) == s
  {
    if spaces != "" {
      assert (spaces + s)[1..] == spaces[1..] + s;
      SkipSpacesStops(spaces[1..], s);
    } else {
      assert spaces + s == s;
    }
  }

  /** The skipped white space. */
  lemma {:induction false} SkippedSpaces(s: string) returns (spaces: string)
    ensures s == spaces + SkipSpaces(s) && forall i :: 0 <= i < |spaces| ==> IsSpace(spaces[i])
    ensures SkipSpaces(s) != "" ==> !IsSpace(SkipSpaces(s)[0])
  {
    if s != "" && IsSpace(s[0]) {
      var rest := SkippedSpaces(s[1..]);
      spaces := [s[0]] + rest;
    } else {
      spaces := "";
    }
  }

  lemma {:induction false} DigitRunStops(digits: string, rest: string)
    requires AllDigits(digits) && (rest != "" ==> !IsDigit(rest[0]))
    ensures DigitRun(digits + rest) == |digits|
  {
    if digits != "" {
      assert (digits + rest)[1..] == digits[1..] + rest;
      DigitRunStops(digits[1..], rest);
    } else {
      assert digits + rest == rest;
    }
  }

  /** White space, a sign or none, digits, and any text that does not begin with a digit. */
  predicate NumberParts(text: string, spaces: string, sign: string, digits: string, rest: string) {
    && text == spaces + (sign + (digits + rest))
    && (forall i :: 0 <= i < |spaces| ==> spaces[i] in " \t\n\r" || spaces[i] as int == 11 || spaces[i] as int == 12)
    && (sign == "" || sign == "+" || sign == "-")
    && digits != "" && (forall i :: 0 <= i < |digits| ==> '0' <= digits[i] <= '9')
    && (rest != "" ==> !('0' <= rest[0] <= '9'))
  }

  function SignedValue(sign: string, digits: string): int
    requires AllDigits(digits)
  {
    var v: int := DecimalValue(digits);
    if sign == "-" then -v else v
  }

  lemma StoIOfParts(text: string, spaces: string, sign: string, digits: string, rest: string)
    requires NumberParts(text, spaces, sign, digits, rest)
    ensures var v := SignedValue(sign, digits);
      StoI(text) == if -2147483648 <= v <= 2147483647 then Ok(v) else Fatal
  {
    var s := sign + (digits + rest);
    SkipSpacesStops(spaces, s);
    DigitRunStops(digits, rest);
    assert (if sign == "" then s else s[1..]) == digits + rest;
    assert (digits + rest)[..|digits|] == digits;
  }

  /** A sign at the beginning, if there is one, and the longest run of digits behind it. */
  lemma SignAndDigits(s: string) returns (sign: string, digits: string, rest: string)
    ensures s == sign + (digits + rest) && (sign == "" || sign == "+" || sign == "-")
    ensures sign == "-" <==> s != "" && s[0] == '-'
    ensures var tail := if s != "" && (s[0] == '-' || s[0] == '+') then s[1..] else s;
      digits == tail[..DigitRun(tail)] && rest == tail[DigitRun(tail)..]
  {
    var tail := s;
    sign := "";
    if s != "" && (s[0] == '-' || s[0] == '+') {
      sign, tail := s[..1], s[1..];
    }
    var n := DigitRun(tail);
    digits, rest := tail[..n], tail[n..];
    assert tail == digits + rest;
    assert s == sign + tail;
  }

  lemma PartsOfNumber(text: string) returns (spaces: string, sign: string, digits: string, rest: string)
    requires StoI(text).Ok?
    ensures NumberParts(text, spaces, sign, digits, rest)
  {
    spaces := SkippedSpaces(text);
    sign, digits, rest := SignAndDigits(SkipSpaces(text));
  }

  ghost predicate ReadsAs(text: string, v: int) {
    exists spaces: string, sign: string, digits: string, rest: string ::
      NumberParts(text, spaces, sign, digits, rest) && v == SignedValue(sign, digits)
  }

  /** Exactly which texts `std::stoi` reads, and as what: white space, an optional sign, at least one
      digit, and anything behind the digits, provided that the value fits 32 bits. */
  lemma StoIReads(text: string, v: int)
    ensures StoI(text) == Ok(v) <==> -2147483648 <= v <= 2147483647 && ReadsAs(text, v)
  {
    if StoI(text) == Ok(v) {
      var spaces, sign, digits, rest := PartsOfNumber(text);
      StoIOfParts(text, spaces, sign, digits, rest);
    }
    if -2147483648 <= v <= 2147483647 && ReadsAs(text, v) {
      var spaces: string, sign: string, digits: string, rest: string :|
        NumberParts(text, spaces, sign, digits, rest) && v == SignedValue(sign, digits);
      StoIOfParts(text, spaces, sign, digits, rest);
    }
  }

  /** Leading zeros do not count. */
  lemma {:induction false} LeadingZero(s: string)
    requires AllDigits(s)
    ensures DecimalValue("0" + s) == DecimalValue(s)
  {
    var t := "0" + s;
    if s != "" {
      LeadingZero(s[..|s| - 1]);
      assert t[..|t| - 1] == "0" + s[..|s| - 1];
    } else {
      assert t[..0] == "";
    }
  }

  // ---------- Addresses ----------

  const INADDR_NONE := 0xFFFF_FFFF

  /** One canonical decimal byte of a dotted quad. */
  function ParseByte(s: string): Outcome<byte> {
    if s == "" || !AllDigits(s) || (|s| > 1 && s[0] == '0') then Fatal
    else if DecimalValue(s) < 256 then Ok(DecimalValue(s))
    else Fatal
  }

  /** The four parts of `s` between its dots. */
  function DottedParts(s: string): Outcome<seq<string>> {
    var parts := Tokens(s + ".", '.');
    if |parts| == 4 then Ok(parts) else Fatal
  }

  /** `inet_addr` for canonical dotted quads: the four bytes in memory order, read by a
      little-endian host. Any other text yields INADDR_NONE. */
  function InetAddr(s: string): nat {
    match DottedParts(s)
    case Fatal => INADDR_NONE
    case Ok(p) =>
      match (ParseByte(p[0]), ParseByte(p[1]), ParseByte(p[2]), ParseByte(p[3]))
      case (Ok(a), Ok(b), Ok(c), Ok(d)) => LittleEndian([a, b, c, d])
      case _ => INADDR_NONE
  }

  /** The register values for one rule. */
  datatype RuleValues = RuleValues(ip: nat, port: nat)

  predicate ValidRuleValues(v: RuleValues) {
    v.ip < INADDR_NONE && 0 < v.port < 0x1_0000
  }

  /** `htons(static_cast<uint16_t>(v))` */
  function NetworkPort(v: int): (p: nat)
    ensures p < 0x1_0000
  {
    Bswap16(v % 0x1_0000)
  }

  lemma InetAddrRange(s: string)
    ensures InetAddr(s) <= INADDR_NONE
  {
    if DottedParts(s).Ok? {
      var p := DottedParts(s).value;
      var q := (ParseByte(p[0]), ParseByte(p[1]), ParseByte(p[2]), ParseByte(p[3]));
      if q.0.Ok? && q.1.Ok? && q.2.Ok? && q.3.Ok? {
        QuadValue(q.0.value, q.1.value, q.2.value, q.3.value);
      }
    }
  }

  /** The values `update_rule` derives from one filter, or the end of the process. */
  function ParseRule(netAddr: string): (r: Outcome<RuleValues>)
    ensures r.Ok? ==> ValidRuleValues(r.value)
  {
    var colon := Find(netAddr, ':');
    if colon == |netAddr| then Fatal
    else
      InetAddrRange(netAddr[..colon]);
      var ip := InetAddr(netAddr[..colon]);
      if ip == INADDR_NONE then Fatal
      else
        match StoI(netAddr[colon + 1..])
        case Fatal => Fatal
        case Ok(v) => if NetworkPort(v) == 0 then Fatal else Ok(RuleValues(ip, NetworkPort(v)))
  }

  // ---------- Printing a rule and reading it back ----------

  /** A UDP endpoint as a user writes it. */
  datatype Endpoint = Endpoint(a: byte, b: byte, c: byte, d: byte, port: nat)

  /** An address other than 255.255.255.255 and a port a packet can carry. */
  predicate Configurable(e: Endpoint) {
    !(e.a == e.b == e.c == e.d == 255) && 0 < e.port < 0x1_0000
  }

  function IpText(e: Endpoint): string {
    Decimal(e.a) + "." + Decimal(e.b) + "." + Decimal(e.c) + "." + Decimal(e.d)
  }

  function RuleText(e: Endpoint): string {
    IpText(e) + ":" + Decimal(e.port)
  }

  function Values(e: Endpoint): RuleValues
    requires e.port < 0x1_0000
  {
    RuleValues(LittleEndian([e.a, e.b, e.c, e.d]), Bswap16(e.port))
  }

  lemma QuadValue(a: byte, b: byte, c: byte, d: byte)
    ensures LittleEndian([a, b, c, d]) == a + 0x100 * b + 0x1_0000 * c + 0x100_0000 * d
  {
    var q := [a, b, c, d];
    assert q[1..] == [b, c, d] && [b, c, d][1..] == [c, d] && [c, d][1..] == [d] && [d][1..] == [];
    assert LittleEndian([d]) == d;
    assert LittleEndian([c, d]) == c + 0x100 * d;
    assert LittleEndian([b, c, d]) == b + 0x100 * LittleEndian([c, d]);
  }

  lemma ByteRoundTrip(x: byte)
    ensures ParseByte(Decimal(x)) == Ok(x)
  {
    DecimalRoundTrip(x);
  }

  lemma FourTerminated(p: string, q: string, r: string, t: string)
    ensures Terminated([p, q, r, t], '.') == p + "." + q + "." + r + "." + t + "."
  {
    assert [p, q, r, t][1..] == [q, r, t] && [q, r, t][1..] == [r, t] && [r, t][1..] == [t] && [t][1..] == [];
    assert Terminated([t], '.') == t + ".";
    assert Terminated([r, t], '.') == r + "." + (t + ".");
    assert Terminated([q, r, t], '.') == q + "." + (r + "." + (t + "."));
  }

  lemma FourParts(p: string, q: string, r: string, t: string)
    requires '.' !in p && '.' !in q && '.' !in r && '.' !in t
    ensures DottedParts(p + "." + q + "." + r + "." + t) == Ok([p, q, r, t])
  {
    FourTerminated(p, q, r, t);
    TokensOfTerminated([p, q, r, t], '.');
  }

  lemma DottedPartsOfIp(e: Endpoint)
    ensures DottedParts(IpText(e)) == Ok([Decimal(e.a), Decimal(e.b), Decimal(e.c), Decimal(e.d)])
  {
    FourParts(Decimal(e.a), Decimal(e.b), Decimal(e.c), Decimal(e.d));
  }

  lemma InetAddrOfIp(e: Endpoint)
    ensures InetAddr(IpText(e)) == LittleEndian([e.a, e.b, e.c, e.d])
    ensures InetAddr(IpText(e)) == INADDR_NONE <==> e.a == e.b == e.c == e.d == 255
  {
    DottedPartsOfIp(e);
    ByteRoundTrip(e.a);
    ByteRoundTrip(e.b);
    ByteRoundTrip(e.c);
    ByteRoundTrip(e.d);
    QuadValue(e.a, e.b, e.c, e.d);
  }

  lemma RuleTextSplits(e: Endpoint)
    ensures var text, n := RuleText(e), |IpText(e)|;
      Find(text, ':') == n < |text| && text[..n] == IpText(e) && text[n + 1..] == Decimal(e.port)
  {
    assert ':' !in IpText(e);
    FindSkips(IpText(e), ':', Decimal(e.port));
    assert RuleText(e) == IpText(e) + [':'] + Decimal(e.port);
  }

  lemma NetworkPortIsZero(p: nat)
    requires p < 0x1_0000
    ensures NetworkPort(p) == Bswap16(p) && (NetworkPort(p) == 0 <==> p == 0)
  {
    var hi, lo := p / 0x100, p % 0x100;
    assert p == hi * 0x100 + lo && p % 0x1_0000 == p;
  }

  lemma ValuesAreNumbers(e: Endpoint)
    requires e.port < 0x1_0000
    ensures Values(e).ip == e.a + 0x100 * e.b + 0x1_0000 * e.c + 0x100_0000 * e.d
    ensures Values(e).port == 0x100 * (e.port % 0x100) + e.port / 0x100
  {
    QuadValue(e.a, e.b, e.c, e.d);
  }

  /** A printed endpoint is accepted if and only if it is configurable, and then yields its values. */
  lemma RuleRoundTrip(e: Endpoint)
    requires e.port < 0x1_0000
    ensures ParseRule(RuleText(e)) == if Configurable(e) then Ok(Values(e)) else Fatal
  {
    RuleTextSplits(e);
    InetAddrOfIp(e);
    StoIOfDecimal(e.port);
    NetworkPortIsZero(e.port);
  }

  /** In numbers: it is accepted if and only if its port is not 0 and its address is not
      255.255.255.255; the values are those that a little-endian host holds in network byte order. */
  lemma RuleRoundTripNumbers(e: Endpoint)
    requires e.port < 0x1_0000
    ensures ParseRule(RuleText(e)).Ok? <==> e.port > 0 && !(e.a == 255 && e.b == 255 && e.c == 255 && e.d == 255)
    ensures ParseRule(RuleText(e)).Ok? ==> ParseRule(RuleText(e)).value == RuleValues(
      e.a + 0x100 * e.b + 0x1_0000 * e.c + 0x100_0000 * e.d, 0x100 * (e.port % 0x100) + e.port / 0x100)
  {
    RuleRoundTrip(e);
    ValuesAreNumbers(e);
  }

  // ---------- Exactly which texts are accepted ----------

  lemma {:induction false} NoLeadingZero(s: string)
    requires s != "" && AllDigits(s) && s[0] != '0'
    ensures DecimalValue(s) > 0
  {
    if |s| > 1 {
      NoLeadingZero(s[..|s| - 1]);
    } else {
      assert DecimalValue(s[..0]) == 0;
    }
  }

  /** A digit string without superfluous zeros is the notation of its value. */
  lemma {:induction false} DecimalIsUnique(s: string)
    requires s != "" && AllDigits(s) && (|s| > 1 ==> s[0] != '0')
    ensures Decimal(DecimalValue(s)) == s
  {
    var init, d := s[..|s| - 1], DigitValue(s[|s| - 1]);
    if |s| > 1 {
      DecimalIsUnique(init);
      NoLeadingZero(init);
      assert DecimalValue(s) / 10 == DecimalValue(init) && DecimalValue(s) % 10 == d;
    } else {
      assert DecimalValue(init) == 0;
    }
    assert DigitChar(d) == s[|s| - 1];
  }

  lemma TerminatedStep(t: string, rest: seq<string>, sep: char)
    ensures Terminated([t] + rest, sep) == t + [sep] + Terminated(rest, sep)
  {
    assert ([t] + rest)[1..] == rest;
  }

  lemma FirstSeparator(s: string, sep: char, i: nat)
    requires s != "" && s[|s| - 1] == sep && i == Find(s, sep)
    ensures i < |s| && s == s[..i] + [sep] + s[i + 1..]
    ensures s[i + 1..] == "" || s[i + 1..][|s[i + 1..]| - 1] == sep
  {
    assert s[..|s|] == s;
  }

  /** Splitting a text that is empty or ends in a separator loses nothing. */
  lemma {:induction false} TerminatedTokens(s: string, sep: char)
    requires s == "" || s[|s| - 1] == sep
    ensures Terminated(Tokens(s, sep), sep) == s
    decreases |s|
  {
    if s != "" {
      var i := Find(s, sep);
      FirstSeparator(s, sep, i);
      TerminatedTokens(s[i + 1..], sep);
      TokensStep(s, sep, i, s[i + 1..]);
      TerminatedStep(s[..i], Tokens(s[i + 1..], sep), sep);
    }
  }

  lemma ParsedByte(s: string)
    requires ParseByte(s).Ok?
    ensures s == Decimal(ParseByte(s).value)
  {
    DecimalIsUnique(s);
  }

  lemma JoinedByDots(s: string, p: seq<string>)
    requires DottedParts(s) == Ok(p)
    ensures |p| == 4 && s == p[0] + "." + p[1] + "." + p[2] + "." + p[3]
  {
    TerminatedTokens(s + ".", '.');
    assert p == [p[0], p[1], p[2], p[3]];
    FourTerminated(p[0], p[1], p[2], p[3]);
    var t := p[0] + "." + p[1] + "." + p[2] + "." + p[3];
    assert s + "." == t + ".";
    assert (s + ".")[..|s|] == s && (t + ".")[..|t|] == t;
  }

  lemma ParsedAddress(s: string) returns (e: Endpoint)
    requires InetAddr(s) != INADDR_NONE
    ensures s == IpText(e) && e.port == 0
  {
    var p := DottedParts(s).value;
    JoinedByDots(s, p);
    e := Endpoint(ParseByte(p[0]).value, ParseByte(p[1]).value, ParseByte(p[2]).value, ParseByte(p[3]).value, 0);
    ParsedByte(p[0]);
    ParsedByte(p[1]);
    ParsedByte(p[2]);
    ParsedByte(p[3]);
  }

  /** The filter is the endpoint's address, a colon, and any text that `stoi` reads as a number whose
      low 16 bits are the endpoint's port. */
  ghost predicate Spells(text: string, e: Endpoint) {
    exists portText: string :: SpelledWith(text, e, portText)
  }

  predicate SpelledWith(text: string, e: Endpoint, portText: string) {
    text == IpText(e) + ":" + portText && StoI(portText).Ok? && StoI(portText).value % 0x1_0000 == e.port
  }

  lemma SpelledValues(text: string, e: Endpoint, portText: string)
    requires SpelledWith(text, e, portText)
    ensures ParseRule(text) == if Configurable(e) then Ok(Values(e)) else Fatal
  {
    assert ':' !in IpText(e);
    FindSkips(IpText(e), ':', portText);
    assert text == IpText(e) + [':'] + portText;
    assert text[..|IpText(e)|] == IpText(e) && text[|IpText(e)| + 1..] == portText;
    InetAddrOfIp(e);
    NetworkPortIsZero(e.port);
  }

  /** A filter is accepted if and only if it spells a configurable endpoint, and it then yields that
      endpoint's values. The port is cut to 16 bits first, so that many texts spell the same endpoint. */
  lemma AcceptedIffSpellsConfigurable(text: string)
    ensures ParseRule(text).Ok? <==> exists e :: Spells(text, e) && Configurable(e)
    ensures forall e :: Spells(text, e) && Configurable(e) ==> ParseRule(text) == Ok(Values(e))
  {
    forall e | Spells(text, e) && Configurable(e) ensures ParseRule(text) == Ok(Values(e)) {
      var portText :| SpelledWith(text, e, portText);
      SpelledValues(text, e, portText);
    }
    if ParseRule(text).Ok? {
      var colon := Find(text, ':');
      var portText := text[colon + 1..];
      var e := ParsedAddress(text[..colon]);
      var f := e.(port := StoI(portText).value % 0x1_0000);
      assert text == text[..colon] + ":" + portText;
      assert SpelledWith(text, f, portText);
      SpelledValues(text, f, portText);
      assert Spells(text, f) && Configurable(f);
    }
  }

  /** A port of more than 16 bits is not refused: it stands for its remainder. */
  lemma LargePortIsCut(e: Endpoint)
    requires e.port < 0x8000_0000
    ensures var f := e.(port := e.port % 0x1_0000);
      ParseRule(RuleText(e)) == if Configurable(f) then Ok(Values(f)) else Fatal
  {
    StoIOfDecimal(e.port);
    SpelledValues(RuleText(e), e.(port := e.port % 0x1_0000), Decimal(e.port));
  }

  lemma DocumentedNumbers()
    ensures Decimal(192) == "192" && Decimal(168) == "168" && Decimal(2) == "2"
    ensures Decimal(1) == "1" && Decimal(95) == "95"
    ensures Decimal(8500) == "8500" && Decimal(8501) == "8501"
  {
  }

  function RuleTexts(es: seq<Endpoint>): seq<string> {
    seq(|es|, i requires 0 <= i < |es| => RuleText(es[i]))
  }

  lemma RuleTextHasNoComma(e: Endpoint)
    ensures ',' !in RuleText(e) && RuleText(e) != ""
  {
  }

  /** Printing a list of endpoints and parsing it gives back the same filters, with or without a
      comma at the end. */
  lemma FilterListRoundTrip(es: seq<Endpoint>)
    ensures Tokens(Joined(RuleTexts(es), ','), ',') == RuleTexts(es)
    ensures Tokens(Terminated(RuleTexts(es), ','), ',') == RuleTexts(es)
  {
    forall i | 0 <= i < |es| ensures ',' !in RuleTexts(es)[i] && RuleTexts(es)[i] != "" {
      RuleTextHasNoComma(es[i]);
    }
    TokensOfTerminated(RuleTexts(es), ',');
    TokensOfJoined(RuleTexts(es), ',');
  }
}
