/**
  One line of the SD configuration file: how `ReadConfigFile` classifies it
  (comment, no separator, or NAME:VALUE with the name upper-cased), which of
  the six directives it names, and what that directive does to the
  connection settings.
*/
module Directives {
  import opened Wrappers
  import opened CStrings

  /** `_ssid` holds 32 characters and the terminating NUL. */
  const MaxSsidLength: nat := 32

  /**
    `secInfo.securityType`. The nine listed types are those the file can
    name; `OtherSecurity` is any other value the field may hold.
  */
  datatype SecurityType =
    | Open
    | Wpa2WithKey
    | Wpa2WithPassPhrase
    | WpaWithKey
    | WpaWithPassPhrase
    | WpaAutoWithKey
    | WpaAutoWithPassPhrase
    | Wep40
    | Wep104
    | OtherSecurity(code: int)

  /** The spelling the configuration file uses for a security type. */
  function SecurityName(t: SecurityType): Option<Text>
  {
    match t
    case Open => Some("OPEN")
    case Wpa2WithKey => Some("WPA2_WITH_KEY")
    case Wpa2WithPassPhrase => Some("WPA2_WITH_PASS_PHRASE")
    case WpaWithKey => Some("WPA_WITH_KEY")
    case WpaWithPassPhrase => Some("WPA_WITH_PASS_PHRASE")
    case WpaAutoWithKey => Some("WPA_AUTO_WITH_KEY")
    case WpaAutoWithPassPhrase => Some("WPA_AUTO_WITH_PASS_PHRASE")
    case Wep40 => Some("WEP_40")
    case Wep104 => Some("WEP_104")
    case OtherSecurity(_) => None
  }

  /** The `strcmp` chain of the SECURITY directive: exact, case-sensitive matches. */
  function SecurityByName(v: Text): Option<SecurityType>
  {
    if v == "OPEN" then Some(Open)
    else if v == "WPA2_WITH_KEY" then Some(Wpa2WithKey)
    else if v == "WPA2_WITH_PASS_PHRASE" then Some(Wpa2WithPassPhrase)
    else if v == "WPA_WITH_KEY" then Some(WpaWithKey)
    else if v == "WPA_WITH_PASS_PHRASE" then Some(WpaWithPassPhrase)
    else if v == "WPA_AUTO_WITH_KEY" then Some(WpaAutoWithKey)
    else if v == "WPA_AUTO_WITH_PASS_PHRASE" then Some(WpaAutoWithPassPhrase)
    else if v == "WEP_40" then Some(Wep40)
    else if v == "WEP_104" then Some(Wep104)
    else None
  }

  /** A value selects a security type exactly when it is that type's spelling. */
  lemma SecurityByNameIsExact(v: Text, t: SecurityType)
    ensures SecurityByName(v) == Some(t) <==> SecurityName(t) == Some(v)
  {
  }

  /**
    The configuration fields the loader and `Setup` work with: `useDhcp`,
    `staticIp.rgbIP`, the string `ssid` points to, `secInfo.securityType`,
    the key buffer `secInfo.key.rgbKey` and `secInfo.key.index`.
  */
  datatype Settings = Settings(
    useDhcp: bool,
    staticIp: seq<byte>,
    ssid: Text,
    securityType: SecurityType,
    key: seq<byte>,
    index: nat)

  predicate WellFormed(s: Settings)
  {
    |s.staticIp| == 4
  }

  /** How `ReadConfigFile` sees a line, given as the C string in the buffer. */
  datatype LineKind = Comment | NoSeparator | NameValue(name: Text, value: Text)

  predicate IsCommentLine(c: Text)
  {
    c != [] && (c[0] == '#' || c[0] == '/')
  }

  /**
    Comment lines start with `#` or `/`; other lines split at the first `:`
    into an upper-cased name and the untouched value.
  */
  function ParseLine(c: Text): LineKind
  {
    if IsCommentLine(c) then Comment
    else match IndexOf(c, ':')
      case None => NoSeparator
      case Some(k) => NameValue(UpperCase(c[..k]), c[k + 1..])
  }

  /** A line is a NAME:VALUE pair exactly when it is no comment and has a colon; the name ends at the first colon. */
  lemma ParseLineSplitsAtFirstColon(c: Text)
    ensures ParseLine(c).NameValue? <==> !IsCommentLine(c) && ':' in c
    ensures ParseLine(c).NameValue? ==>
      var k := |ParseLine(c).name|;
      k < |c| && c[k] == ':' && ':' !in c[..k] &&
      ParseLine(c).name == UpperCase(c[..k]) && ParseLine(c).value == c[k + 1..]
  {
  }

  /** Writing NAME:VALUE and reading it back gives the upper-cased name and the value. */
  lemma ParseNameValueLine(n: Text, v: Text)
    requires ':' !in n && (n == [] || (n[0] != '#' && n[0] != '/'))
    ensures ParseLine(n + [':'] + v) == NameValue(UpperCase(n), v)
  {
    var c := n + [':'] + v;
    IndexOfFirst(n, ':', v);
    assert c[..|n|] == n;
    assert c[|n| + 1..] == v;
  }

  /** A buffer starting with `#` or `/` holds a comment line. */
  lemma BufferComment(b: Text)
    requires |b| > 0 && (b[0] == '#' || b[0] == '/')
    ensures ParseLine(CString(b)) == Comment
  {
    var c := CString(b);
    assert |c| > 0 && c[0] == b[0];
  }

  /** A buffer whose C string ends at `k` without a colon holds a line without separator. */
  lemma BufferNoSeparator(b: Text, k: nat)
    requires k < |b| && b[k] == Nul && Nul !in b[..k] && ':' !in b[..k]
    requires k > 0 ==> b[0] != '#' && b[0] != '/'
    ensures ParseLine(CString(b)) == NoSeparator
  {
    CStringOfPrefixedNul(b, k);
  }

  /** The C string in a buffer extends past any NUL-free prefix. */
  lemma CStringCoversPrefix(b: Text, n: nat)
    requires n <= |b| && Nul !in b[..n]
    ensures n <= |CString(b)| && CString(b)[..n] == b[..n]
  {
    var c := CString(b);
    assert forall j :: 0 <= j < n ==> b[..n][j] == b[j];
  }

  /**
    A buffer whose first colon, before any NUL, is at `k` holds the name
    `b[..k]` upper-cased and the C string after the colon.
  */
  lemma BufferNameValue(b: Text, k: nat)
    requires k < |b| && b[k] == ':' && Nul !in b[..k + 1] && ':' !in b[..k]
    requires k > 0 ==> b[0] != '#' && b[0] != '/'
    ensures ParseLine(CString(b)) == NameValue(UpperCase(b[..k]), CString(b[k + 1..]))
  {
    var c := CString(b);
    CStringCoversPrefix(b, k + 1);
    assert c[k] == ':' && c[..k] == b[..k];
    IndexOfAt(c, ':', k);
    CStringOfSuffix(b, k + 1);
  }

  datatype Keyword = SecurityKw | IpKw | SsidKw | KeyKw | KeyCharKw | KeyIndexKw

  function KeywordName(kw: Keyword): Text
  {
    match kw
    case SecurityKw => "SECURITY"
    case IpKw => "IP"
    case SsidKw => "SSID"
    case KeyKw => "KEY"
    case KeyCharKw => "KEYCHAR"
    case KeyIndexKw => "KEYINDEX"
  }

  /** The `strcmp` chain over the upper-cased name. */
  function KeywordOf(name: Text): Option<Keyword>
  {
    if name == "SECURITY" then Some(SecurityKw)
    else if name == "IP" then Some(IpKw)
    else if name == "SSID" then Some(SsidKw)
    else if name == "KEY" then Some(KeyKw)
    else if name == "KEYCHAR" then Some(KeyCharKw)
    else if name == "KEYINDEX" then Some(KeyIndexKw)
    else None
  }

  lemma KeywordOfIsExact(name: Text, kw: Keyword)
    ensures KeywordOf(name) == Some(kw) <==> name == KeywordName(kw)
  {
  }

  /** A recognised directive line: its keyword and its value. */
  datatype Directive = Directive(keyword: Keyword, value: Text)

  /** The directive a line read by `ReadLine` carries, if it carries one. */
  function DirectiveOf(line: Text): Option<Directive>
  {
    match ParseLine(CString(line))
    case NameValue(name, value) =>
      (match KeywordOf(name)
       case Some(kw) => Some(Directive(kw, value))
       case None => None)
    case _ => None
  }

  /** Comment lines, lines without a colon and unknown names carry no directive. */
  lemma DirectiveOfSkips(line: Text)
    ensures DirectiveOf(line).None? <==>
      (IsCommentLine(CString(line)) || ':' !in CString(line) ||
       KeywordOf(ParseLine(CString(line)).name).None?)
  {
  }

  /**
    Where the source's behaviour is undefined: an IP value with fewer than
    four tokens (`strtoul(NULL, ..)`), an SSID overflowing `_ssid`, and KEY or
    KEYCHAR bytes written past the key buffer.
  */
  datatype Fault = IpTooFewOctets | SsidTooLong | KeyOverflow | KeyCharOverflow

  predicate IsDhcpValue(v: Text)
  {
    v == [] || v[0] == 'D'
  }

  function DirectiveFault(d: Directive, capacity: nat): Option<Fault>
  {
    match d.keyword
    case IpKw =>
      if !IsDhcpValue(d.value) && |StrTok(d.value, '.')| < 4 then Some(IpTooFewOctets) else None
    case SsidKw => if |d.value| > MaxSsidLength then Some(SsidTooLong) else None
    case KeyKw => if |d.value| / 2 > capacity then Some(KeyOverflow) else None
    case KeyCharKw => if |d.value| + 1 > capacity then Some(KeyCharOverflow) else None
    case _ => None
  }

  /** `strtoul` of one dotted-quad token, stored into a `uint8_t`. */
  function Octet(token: Text): byte
  {
    LowByte(StrToUl(token, 10))
  }

  /** The first four tokens of a static IP value, as stored in `rgbIP[0..3]`. */
  function Octets(ts: seq<Text>): (r: seq<byte>)
    requires |ts| >= 4
    ensures |r| == 4 && forall i :: 0 <= i < 4 ==> r[i] == Octet(ts[i])
  {
    seq(4, i requires 0 <= i < 4 => Octet(ts[i]))
  }

  /** Key byte `i` of a KEY value: characters `2i` and `2i+1` read as hex. */
  function HexByte(v: Text, i: nat): byte
    requires 2 * i + 1 < |v|
  {
    LowByte(StrToUl([v[2 * i], v[2 * i + 1]], 16))
  }

  /** The key buffer after the KEY loop over the first `|v| / 2` byte positions. */
  function HexKey(key: seq<byte>, v: Text): (r: seq<byte>)
    requires |v| / 2 <= |key|
    ensures |r| == |key|
  {
    seq(|key|, i requires 0 <= i < |key| => if i < |v| / 2 then HexByte(v, i) else key[i])
  }

  /** The key buffer after `strcpy` of `v` into it. */
  function CopyCString(key: seq<byte>, v: Text): (r: seq<byte>)
    requires |v| < |key|
    ensures |r| == |key|
  {
    seq(|key|, i requires 0 <= i < |key| => if i < |v| then v[i] as int else if i == |v| then 0 else key[i])
  }

  /** What one recognised directive, free of faults, does to the settings. */
  function ApplyDirective(s: Settings, d: Directive): (r: Settings)
    requires WellFormed(s) && DirectiveFault(d, |s.key|).None?
    ensures WellFormed(r) && |r.key| == |s.key|
  {
    var v := d.value;
    match d.keyword
    case SecurityKw =>
      (match SecurityByName(v)
       case Some(t) => s.(securityType := t)
       case None => s)
    case IpKw =>
      if IsDhcpValue(v) then s.(useDhcp := true)
      else
        var ts := StrTok(v, '.');
        s.(useDhcp := false, staticIp := Octets(ts))
    case SsidKw => s.(ssid := v)
    case KeyKw => s.(key := HexKey(s.key, v))
    case KeyCharKw => s.(key := CopyCString(s.key, v))
    case KeyIndexKw => s.(index := StrToUl(v, 10))
  }

  // ---------------------------------------------------------------------
  // What each directive does.

  /** SECURITY sets the named type; an unmatched value changes nothing. */
  lemma SecurityDirective(s: Settings, v: Text, t: SecurityType)
    requires WellFormed(s)
    ensures DirectiveFault(Directive(SecurityKw, v), |s.key|).None?
    ensures SecurityName(t) == Some(v) ==> ApplyDirective(s, Directive(SecurityKw, v)) == s.(securityType := t)
    ensures SecurityByName(v).None? ==> ApplyDirective(s, Directive(SecurityKw, v)) == s
  {
    SecurityByNameIsExact(v, t);
  }

  /** IP with an empty value or one starting with `D` selects DHCP and keeps the static address. */
  lemma IpDirectiveDhcp(s: Settings, v: Text)
    requires WellFormed(s) && IsDhcpValue(v)
    ensures DirectiveFault(Directive(IpKw, v), |s.key|).None?
    ensures ApplyDirective(s, Directive(IpKw, v)) == s.(useDhcp := true)
  {
  }

  /** Any other IP value turns DHCP off and stores its first four dot-separated tokens as octets 0 to 3. */
  lemma IpDirectiveStatic(s: Settings, v: Text)
    requires WellFormed(s) && !IsDhcpValue(v) && |StrTok(v, '.')| >= 4
    ensures var r := ApplyDirective(s, Directive(IpKw, v));
      !r.useDhcp && |r.staticIp| == 4 &&
      (forall i :: 0 <= i < 4 ==> r.staticIp[i] == Octet(StrTok(v, '.')[i])) &&
      r == s.(useDhcp := false, staticIp := r.staticIp)
  {
  }

  /** The dotted-quad spelling of an address. */
  function FormatIp(ip: seq<byte>): Text
    requires |ip| == 4
  {
    Join(Decimals(ip), '.')
  }

  /** The decimal spellings of the four octets of an address. */
  function Decimals(ip: seq<byte>): (r: seq<Text>)
    requires |ip| == 4
    ensures |r| == 4 && forall i :: 0 <= i < 4 ==> r[i] == Decimal(ip[i])
  {
    seq(4, i requires 0 <= i < 4 => Decimal(ip[i]))
  }

  lemma DecimalHasNoDot(n: nat)
    ensures '.' !in Decimal(n) && Decimal(n)[0] != 'D'
  {
    var d := Decimal(n);
    assert forall i :: 0 <= i < |d| ==> IsDigitIn(d[i], 10);
  }

  /** A dotted quad never reads as a DHCP request. */
  lemma FormatIpIsStatic(ip: seq<byte>)
    requires |ip| == 4
    ensures !IsDhcpValue(FormatIp(ip))
  {
    var ds := Decimals(ip);
    DecimalHasNoDot(ip[0]);
    assert FormatIp(ip) == ds[0] + ['.'] + Join(ds[1..], '.');
    assert FormatIp(ip)[0] == ds[0][0];
  }

  /** The four tokens of a dotted quad. */
  lemma FormatIpTokens(ip: seq<byte>)
    requires |ip| == 4
    ensures StrTok(FormatIp(ip), '.') == Decimals(ip)
  {
    var ts := Decimals(ip);
    forall i | 0 <= i < 4
      ensures ts[i] != [] && '.' !in ts[i]
    {
      DecimalHasNoDot(ip[i]);
    }
    StrTokJoin(ts, '.');
  }

  /** `strtoul` reads the decimal spelling of an octet back. */
  lemma OctetRoundTrip(b: byte)
    ensures Octet(Decimal(b)) == b
  {
    DecimalRoundTrip(b);
  }

  /** An address survives being spelled octet by octet and read back. */
  lemma AddressRoundTrip(ts: seq<Text>, ip: seq<byte>)
    requires |ip| == 4 && |ts| == 4
    requires forall i :: 0 <= i < 4 ==> ts[i] == Decimal(ip[i])
    ensures Octets(ts) == ip
  {
    forall i | 0 <= i < 4
      ensures Octets(ts)[i] == ip[i]
    {
      OctetRoundTrip(ip[i]);
    }
  }

  /** A static IP value whose tokens are `ts` stores their octets. */
  lemma IpDirectiveTokens(s: Settings, v: Text, ts: seq<Text>)
    requires WellFormed(s) && !IsDhcpValue(v) && StrTok(v, '.') == ts && |ts| >= 4
    ensures DirectiveFault(Directive(IpKw, v), |s.key|).None?
    ensures ApplyDirective(s, Directive(IpKw, v)) ==
      s.(useDhcp := false, staticIp := Octets(ts))
  {
  }

  /** An IP directive spelling an address as a dotted quad sets exactly that static address. */
  lemma IpRoundTrip(s: Settings, ip: seq<byte>)
    requires WellFormed(s) && |ip| == 4
    ensures DirectiveFault(Directive(IpKw, FormatIp(ip)), |s.key|).None?
    ensures ApplyDirective(s, Directive(IpKw, FormatIp(ip))) == s.(useDhcp := false, staticIp := ip)
  {
    var ts := Decimals(ip);
    FormatIpTokens(ip);
    FormatIpIsStatic(ip);
    IpDirectiveTokens(s, FormatIp(ip), ts);
    AddressRoundTrip(ts, ip);
  }

  /** SSID stores the value verbatim when it fits `_ssid`. */
  lemma SsidDirective(s: Settings, v: Text)
    requires WellFormed(s) && |v| <= MaxSsidLength
    ensures DirectiveFault(Directive(SsidKw, v), |s.key|).None?
    ensures ApplyDirective(s, Directive(SsidKw, v)) == s.(ssid := v)
  {
  }

  /**
    KEY sets key byte `i` to the hex value of characters `2i` and `2i+1` for
    every `i < |v| / 2`; an odd last character is ignored, the bytes from
    `|v| / 2` on and every other field are left alone.
  */
  lemma KeyDirective(s: Settings, v: Text)
    requires WellFormed(s) && |v| / 2 <= |s.key|
    ensures var r := ApplyDirective(s, Directive(KeyKw, v));
      |r.key| == |s.key| &&
      (forall i :: 0 <= i < |v| / 2 ==> r.key[i] == LowByte(StrToUl([v[2 * i], v[2 * i + 1]], 16))) &&
      (forall i :: |v| / 2 <= i < |s.key| ==> r.key[i] == s.key[i]) &&
      r == s.(key := r.key)
  {
    var r := ApplyDirective(s, Directive(KeyKw, v));
    var key := HexKey(s.key, v);
    assert r == s.(key := key);
    forall i | 0 <= i < |v| / 2
      ensures key[i] == LowByte(StrToUl([v[2 * i], v[2 * i + 1]], 16))
    {
      assert key[i] == HexByte(v, i);
    }
  }

  /** A KEY value written in hex sets the key's first bytes to exactly those bytes. */
  lemma KeyRoundTrip(s: Settings, bs: seq<byte>)
    requires WellFormed(s) && |bs| <= |s.key|
    ensures DirectiveFault(Directive(KeyKw, HexEncode(bs)), |s.key|).None?
    ensures ApplyDirective(s, Directive(KeyKw, HexEncode(bs))).key == bs + s.key[|bs|..]
  {
    var r := ApplyDirective(s, Directive(KeyKw, HexEncode(bs)));
    forall i | 0 <= i < |bs|
      ensures r.key[i] == bs[i]
    {
      HexEncodeRoundTrip(bs, i);
    }
    assert r.key == bs + s.key[|bs|..];
  }

  /** KEYCHAR copies the value and its NUL into the key buffer and leaves the rest. */
  lemma KeyCharDirective(s: Settings, v: Text)
    requires WellFormed(s) && |v| < |s.key|
    ensures var r := ApplyDirective(s, Directive(KeyCharKw, v));
      |r.key| == |s.key| &&
      (forall i :: 0 <= i < |v| ==> r.key[i] == v[i] as int) && r.key[|v|] == 0 &&
      (forall i :: |v| < i < |s.key| ==> r.key[i] == s.key[i]) &&
      r == s.(key := r.key)
  {
  }

  /** KEYINDEX stores the value `strtoul` reads from the text. */
  lemma KeyIndexDirective(s: Settings, v: Text)
    requires WellFormed(s)
    ensures DirectiveFault(Directive(KeyIndexKw, v), |s.key|).None?
    ensures ApplyDirective(s, Directive(KeyIndexKw, v)) == s.(index := StrToUl(v, 10))
  {
  }

  /** KEYINDEX stores the decimal number it spells. */
  lemma KeyIndexRoundTrip(s: Settings, n: nat)
    requires WellFormed(s) && n <= ULongMax
    ensures ApplyDirective(s, Directive(KeyIndexKw, Decimal(n))) == s.(index := n)
  {
    DecimalRoundTrip(n);
    KeyIndexDirective(s, Decimal(n));
  }

  /** SECURITY and KEYINDEX give the same settings in either order. */
  lemma SecurityKeyIndexCommute(s: Settings, a: Text, b: Text)
    requires WellFormed(s)
    ensures var sec, idx := Directive(SecurityKw, a), Directive(KeyIndexKw, b);
      ApplyDirective(ApplyDirective(s, sec), idx) == ApplyDirective(ApplyDirective(s, idx), sec)
  {
  }

  /** Every keyword is spelled in capitals, without NUL or colon, and does not look like a comment. */
  lemma KeywordNameShape(kw: Keyword)
    ensures var n := KeywordName(kw);
      n != [] && n[0] != '#' && n[0] != '/' && ':' !in n && Nul !in n && UpperCase(n) == n
  {
  }

  /** A line spelling a keyword, a colon and a NUL-free value carries that directive. */
  lemma DirectiveLine(kw: Keyword, v: Text)
    requires Nul !in v
    ensures DirectiveOf(KeywordName(kw) + [':'] + v) == Some(Directive(kw, v))
  {
    var n := KeywordName(kw);
    KeywordNameShape(kw);
    CStringOfNulFree(n + [':'] + v);
    ParseNameValueLine(n, v);
    KeywordOfIsExact(n, kw);
  }

  /** `1a2f3c` is the hex spelling of the bytes 0x1A, 0x2F, 0x3C. */
  lemma KeyExampleSpelling()
    ensures HexEncode([0x1A, 0x2F, 0x3C]) == "1a2f3c"
  {
  }

  /** A worked example: `KEY:1a2f3c` gives the bytes 0x1A, 0x2F, 0x3C. */
  lemma KeyExample(s: Settings)
    requires WellFormed(s) && |s.key| >= 3
    ensures DirectiveOf("KEY:1a2f3c") == Some(Directive(KeyKw, "1a2f3c"))
    ensures DirectiveFault(Directive(KeyKw, "1a2f3c"), |s.key|).None?
    ensures ApplyDirective(s, Directive(KeyKw, "1a2f3c")).key[..3] == [0x1A, 0x2F, 0x3C]
  {
    assert KeywordName(KeyKw) + [':'] + "1a2f3c" == "KEY:1a2f3c";
    DirectiveLine(KeyKw, "1a2f3c");
    KeyExampleSpelling();
    KeyRoundTrip(s, [0x1A, 0x2F, 0x3C]);
  }

  lemma Decimal192()
    ensures Decimal(192) == "192"
  {
    assert Decimal(1) == "1";
    assert Decimal(19) == "19";
  }

  lemma Decimal168()
    ensures Decimal(168) == "168"
  {
    assert Decimal(1) == "1";
    assert Decimal(16) == "16";
  }

  /** `192.168.1.42` is the dotted-quad spelling of 192, 168, 1, 42. */
  lemma IpExampleSpelling()
    ensures FormatIp([192, 168, 1, 42]) == "192.168.1.42"
  {
    var ip: seq<byte> := [192, 168, 1, 42];
    var ds := Decimals(ip);
    Decimal192();
    Decimal168();
    assert ds[0] == "192" && ds[1] == "168";
    assert ds[2] == "1" && ds[3] == "42";
    assert ds == ["192", "168", "1", "42"];
    JoinQuad(["192", "168", "1", "42"]);
  }

  lemma JoinQuad(ts: seq<Text>)
    requires ts == ["192", "168", "1", "42"]
    ensures Join(ts, '.') == "192.168.1.42"
  {
    assert ts[1..] == ["168", "1", "42"];
    assert ts[2..] == ["1", "42"];
    assert ts[3..] == ["42"];
    assert Join(["1", "42"], '.') == "1.42";
    assert Join(["168", "1", "42"], '.') == "168.1.42";
  }

  /** A worked example: `IP:192.168.1.42` sets the static address 192.168.1.42. */
  lemma IpExample(s: Settings)
    requires WellFormed(s)
    ensures DirectiveOf("IP:192.168.1.42") == Some(Directive(IpKw, "192.168.1.42"))
    ensures DirectiveFault(Directive(IpKw, "192.168.1.42"), |s.key|).None?
    ensures ApplyDirective(s, Directive(IpKw, "192.168.1.42")) == s.(useDhcp := false, staticIp := [192, 168, 1, 42])
  {
    assert KeywordName(IpKw) + [':'] + "192.168.1.42" == "IP:192.168.1.42";
    DirectiveLine(IpKw, "192.168.1.42");
    IpExampleSpelling();
    IpRoundTrip(s, [192, 168, 1, 42]);
  }
}
