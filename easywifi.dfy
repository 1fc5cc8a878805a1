/**
  The `CKEasyWifiConfig` object: its configuration fields, its constructors,
  and the step-by-step `ReadConfigFile` and `Setup`, each proved to do what
  `LoadFile` and `SetupSpec` describe.
*/
module EasyWifi {
  import opened Wrappers
  import opened CStrings
  import opened SdFiles
  import opened Directives
  import opened Loader
  import opened Connection

  /** The `DWIFIcK::SECINFO` a caller passes to the `SEC_INFO` constructors. */
  datatype SecInfo = SecInfo(securityType: SecurityType, key: seq<byte>, index: nat)

  /** `strchr(buffer, ':')` on the C string in `buffer`: the index of the first colon or of the NUL ending the string. */
  method FindColon(buffer: array<CChar>) returns (k: nat)
    requires buffer.Length > 0 && buffer[buffer.Length - 1] == Nul
    ensures k < buffer.Length && (buffer[k] == Nul || buffer[k] == ':')
    ensures forall j :: 0 <= j < k ==> buffer[j] != Nul && buffer[j] != ':'
  {
    k := 0;
    while buffer[k] != Nul && buffer[k] != ':'
      invariant 0 <= k < buffer.Length
      invariant forall j :: 0 <= j < k ==> buffer[j] != Nul && buffer[j] != ':'
      decreases buffer.Length - k
    {
      k := k + 1;
    }
  }

  /** The loop upper-casing the name, the first `k` characters of the buffer, in place. */
  method UpperCaseName(buffer: array<CChar>, k: nat)
    requires k <= buffer.Length
    modifies buffer
    ensures buffer[..k] == UpperCase(old(buffer[..k]))
    ensures buffer[k..] == old(buffer[k..])
  {
    for i := 0 to k
      invariant forall j :: 0 <= j < i ==> buffer[j] == ToUpper(old(buffer[j]))
      invariant forall j :: i <= j < buffer.Length ==> buffer[j] == old(buffer[j])
    {
      buffer[i] := ToUpper(buffer[i]);
    }
  }

  /**
    `ReadConfigFile`'s handling of the line in `buffer`: comment lines are
    left alone; otherwise the first `:` is overwritten with NUL and the name
    before it is upper-cased in place. The result says what the buffer then
    holds: the name, as the C string at the start of the buffer, and the
    value, as the C string just after the overwritten colon.
  */
  method SplitLine(buffer: array<CChar>) returns (r: LineKind)
    requires buffer.Length > 0 && buffer[buffer.Length - 1] == Nul
    modifies buffer
    ensures r == ParseLine(CString(old(buffer[..])))
    ensures r.NameValue? ==> |r.name| < buffer.Length
    ensures r.NameValue? ==>
      buffer[..|r.name|] == r.name && buffer[|r.name|] == Nul && buffer[|r.name| + 1..] == old(buffer[|r.name| + 1..])
    ensures r.NameValue? ==> CString(buffer[..]) == r.name && CString(buffer[|r.name| + 1..]) == r.value
    ensures !r.NameValue? ==> buffer[..] == old(buffer[..])
  {
    ghost var b := buffer[..];
    if buffer[0] == '#' || buffer[0] == '/' {
      BufferComment(b);
      return Comment;
    }
    var k := FindColon(buffer);
    assert Nul !in b[..k] && ':' !in b[..k];
    if buffer[k] == Nul {
      BufferNoSeparator(b, k);
      return NoSeparator;
    }
    BufferNameValue(b, k);
    buffer[k] := Nul;
    ghost var b1 := buffer[..];
    assert b1[k + 1..] == b[k + 1..];
    UpperCaseName(buffer, k);
    assert buffer[..k] == UpperCase(b[..k]);
    assert buffer[k..] == b1[k..];
    assert buffer[k + 1..] == b1[k..][1..];
    // toupper never yields NUL, so the name is the C string of length k
    assert Nul !in buffer[..k];
    CStringOfPrefixedNul(buffer[..], k);
    r := NameValue(buffer[..k], CString(buffer[k + 1..]));
  }

  /** Copies `src` into the array, element by element. */
  method StoreBytes(dst: array<byte>, src: seq<byte>)
    requires dst.Length == |src|
    modifies dst
    ensures dst[..] == src
  {
    for i := 0 to |src|
      invariant forall j :: 0 <= j < i ==> dst[j] == src[j]
    {
      dst[i] := src[i];
    }
  }

  /**
    The IP loop: `rgbIP[i]` receives the `i`-th token `strtok` returns, read
    by `strtoul` (the octets are computed first here).
  */
  method StoreOctets(rgbIP: array<byte>, tokens: seq<Text>)
    requires rgbIP.Length == 4 && |tokens| >= 4
    modifies rgbIP
    ensures rgbIP[..] == Octets(tokens)
  {
    var octets := Octets(tokens);
    StoreBytes(rgbIP, octets);
  }

  /** The KEY loop: each pair of hex characters, copied to `strb` and read by `strtoul`, into one key byte. */
  method StoreHexKey(rgbKey: array<byte>, v: Text)
    requires |v| / 2 <= rgbKey.Length
    modifies rgbKey
    ensures rgbKey[..] == HexKey(old(rgbKey[..]), v)
  {
    for i := 0 to |v| / 2
      invariant forall j :: 0 <= j < i ==> rgbKey[j] == HexByte(v, j)
      invariant forall j :: i <= j < rgbKey.Length ==> rgbKey[j] == old(rgbKey[j])
    {
      var strb := [v[2 * i], v[2 * i + 1]];
      rgbKey[i] := LowByte(StrToUl(strb, 16));
    }
    assert rgbKey[..] == HexKey(old(rgbKey[..]), v);
  }

  /** KEYCHAR: `strcpy` of the value, with its NUL, over the key buffer. */
  method CopyKeyChars(rgbKey: array<byte>, v: Text)
    requires |v| < rgbKey.Length
    modifies rgbKey
    ensures rgbKey[..] == CopyCString(old(rgbKey[..]), v)
  {
    for i := 0 to |v|
      invariant forall j :: 0 <= j < i ==> rgbKey[j] == v[j] as int
      invariant forall j :: i <= j < rgbKey.Length ==> rgbKey[j] == old(rgbKey[j])
    {
      rgbKey[i] := v[i] as int;
    }
    rgbKey[|v|] := 0;
    assert rgbKey[..] == CopyCString(old(rgbKey[..]), v);
  }

  /**
    One turn of the `ReadConfigFile` loop before any field is written: read
    a line into `buffer`, split it, and look the name up. `ok` is what
    `ReadLine` returned; `d` is the directive the line carries.
  */
  method ReadDirective(buffer: array<CChar>, file: SdFile) returns (ok: bool, d: Option<Directive>)
    requires buffer.Length == ReadBufferLength && file.Valid()
    modifies buffer, file
    ensures file.Valid()
    ensures ok == ScanLine(file.data, old(file.pos)).ok && file.pos == ScanLine(file.data, old(file.pos)).next
    ensures ok ==> d == DirectiveOf(ScanLine(file.data, old(file.pos)).line)
    ensures var l := ScanLine(file.data, old(file.pos)); var kind := ParseLine(CString(l.line));
      l.ok && kind.NameValue? ==>
        |kind.name| < ReadBufferLength &&
        buffer[..|kind.name|] == kind.name && buffer[|kind.name|] == Nul &&
        buffer[|kind.name| + 1..] == NulPadded(l.line, ReadBufferLength)[|kind.name| + 1..] &&
        CString(buffer[..]) == kind.name && CString(buffer[|kind.name| + 1..]) == kind.value
    ensures var l := ScanLine(file.data, old(file.pos)); var kind := ParseLine(CString(l.line));
      !(l.ok && kind.NameValue?) ==> buffer[..] == NulPadded(l.line, ReadBufferLength)
  {
    ghost var pos := file.pos;
    ok := ReadLine(buffer, file);
    d := None;
    if !ok {
      return;
    }
    ghost var line := ScanLine(file.data, pos).line;
    ghost var padded := buffer[..];
    assert padded == NulPadded(line, ReadBufferLength);
    ScanLineContent(file.data, pos);
    CStringOfPadded(line, ReadBufferLength);
    assert ParseLine(CString(padded)) == ParseLine(CString(line));
    var kind := SplitLine(buffer);
    assert kind == ParseLine(CString(line));
    if kind.NameValue? {
      assert buffer[|kind.name| + 1..] == padded[|kind.name| + 1..];
      var kw := KeywordOf(kind.name);
      if kw.Some? {
        d := Some(Directive(kw.value, kind.value));
      }
    } else {
      assert buffer[..] == padded;
    }
  }

  class WifiConfig {
    const kind: ConfigKind
    const configFile: Text
    const connectionTimeout: nat
    var useDhcp: bool
    /** `staticIp.rgbIP`. */
    const staticIp: array<byte>
    /** The string `ssid` points to. */
    var ssid: Text
    /** `secInfo.securityType`. */
    var securityType: SecurityType
    /** The key buffer `secInfo.key.rgbKey`. */
    const key: array<byte>
    /** `secInfo.key.index`. */
    var index: nat

    ghost predicate Valid()
      reads this
    {
      staticIp.Length == 4 && staticIp != key && connectionTimeout == ConnectionTimeout
    }

    /** The configuration fields as a value. */
    function State(): Settings
      reads this, staticIp, key
    {
      Settings(useDhcp, staticIp[..], ssid, securityType, key[..], index)
    }

    /**
      `CKEasyWifiConfig()`: the `WF_Config.x` profile with DHCP. Members the
      source leaves uninitialised take their values from `initial`.
    */
    constructor WfConfigDhcp(initial: Settings)
      requires WellFormed(initial)
      ensures Valid() && fresh(staticIp) && fresh(key)
      ensures kind == FromWfConfig && State() == initial.(useDhcp := true)
    {
      kind := FromWfConfig;
      configFile := [];
      connectionTimeout := ConnectionTimeout;
      useDhcp := true;
      staticIp := new byte[4](i requires 0 <= i < 4 => initial.staticIp[i]);
      ssid := initial.ssid;
      securityType := initial.securityType;
      key := new byte[|initial.key|](i requires 0 <= i < |initial.key| => initial.key[i]);
      index := initial.index;
      new;
      assert staticIp[..] == initial.staticIp;
      assert key[..] == initial.key;
    }

    /** `CKEasyWifiConfig(ip)`: the `WF_Config.x` profile with a static address. */
    constructor WfConfigStatic(ip: seq<byte>, initial: Settings)
      requires |ip| == 4
      ensures Valid() && fresh(staticIp) && fresh(key)
      ensures kind == FromWfConfig && State() == initial.(useDhcp := false, staticIp := ip)
    {
      kind := FromWfConfig;
      configFile := [];
      connectionTimeout := ConnectionTimeout;
      useDhcp := false;
      staticIp := new byte[4](i requires 0 <= i < 4 => ip[i]);
      ssid := initial.ssid;
      securityType := initial.securityType;
      key := new byte[|initial.key|](i requires 0 <= i < |initial.key| => initial.key[i]);
      index := initial.index;
      new;
      assert staticIp[..] == ip;
      assert key[..] == initial.key;
    }

    /** `CKEasyWifiConfig(secinfo, szSsid)`: the caller's security data and SSID, with DHCP. */
    constructor SecInfoDhcp(secinfo: SecInfo, szSsid: Text, initial: Settings)
      requires WellFormed(initial)
      ensures Valid() && fresh(staticIp) && fresh(key)
      ensures kind == FromSecInfo
      ensures State() == initial.(useDhcp := true, ssid := szSsid, securityType := secinfo.securityType,
        key := secinfo.key, index := secinfo.index)
    {
      kind := FromSecInfo;
      configFile := [];
      connectionTimeout := ConnectionTimeout;
      useDhcp := true;
      staticIp := new byte[4](i requires 0 <= i < 4 => initial.staticIp[i]);
      ssid := szSsid;
      securityType := secinfo.securityType;
      key := new byte[|secinfo.key|](i requires 0 <= i < |secinfo.key| => secinfo.key[i]);
      index := secinfo.index;
      new;
      assert staticIp[..] == initial.staticIp;
      assert key[..] == secinfo.key;
    }

    /** `CKEasyWifiConfig(secinfo, szSsid, ip)`: the caller's security data and SSID, with a static address. */
    constructor SecInfoStatic(secinfo: SecInfo, szSsid: Text, ip: seq<byte>, initial: Settings)
      requires |ip| == 4
      ensures Valid() && fresh(staticIp) && fresh(key)
      ensures kind == FromSecInfo
      ensures State() == initial.(useDhcp := false, staticIp := ip, ssid := szSsid,
        securityType := secinfo.securityType, key := secinfo.key, index := secinfo.index)
    {
      kind := FromSecInfo;
      configFile := [];
      connectionTimeout := ConnectionTimeout;
      useDhcp := false;
      staticIp := new byte[4](i requires 0 <= i < 4 => ip[i]);
      ssid := szSsid;
      securityType := secinfo.securityType;
      key := new byte[|secinfo.key|](i requires 0 <= i < |secinfo.key| => secinfo.key[i]);
      index := secinfo.index;
      new;
      assert staticIp[..] == ip;
      assert key[..] == secinfo.key;
    }

    /**
      `CKEasyWifiConfig(szConfigFile)`: settings come from the SD file; every
      configuration field starts uninitialised, here as `initial`.
    */
    constructor SdCard(szConfigFile: Text, initial: Settings)
      requires WellFormed(initial)
      ensures Valid() && fresh(staticIp) && fresh(key)
      ensures kind == FromSdCard && configFile == szConfigFile && State() == initial
    {
      kind := FromSdCard;
      configFile := szConfigFile;
      connectionTimeout := ConnectionTimeout;
      useDhcp := initial.useDhcp;
      staticIp := new byte[4](i requires 0 <= i < 4 => initial.staticIp[i]);
      ssid := initial.ssid;
      securityType := initial.securityType;
      key := new byte[|initial.key|](i requires 0 <= i < |initial.key| => initial.key[i]);
      index := initial.index;
      new;
      assert staticIp[..] == initial.staticIp;
      assert key[..] == initial.key;
    }

    /** The field writes of one recognised directive whose effect is defined. */
    method ApplyInPlace(d: Directive)
      requires Valid() && DirectiveFault(d, key.Length).None?
      modifies this, staticIp, key
      ensures Valid()
      ensures State() == ApplyDirective(old(State()), d)
    {
      var v := d.value;
      match d.keyword
      case SecurityKw =>
        var t := SecurityByName(v);
        if t.Some? {
          securityType := t.value;
        }
      case IpKw =>
        if v == [] || v[0] == 'D' {
          useDhcp := true;
        } else {
          useDhcp := false;
          StoreOctets(staticIp, StrTok(v, '.'));
        }
      case SsidKw =>
        // the value is copied into `_ssid`, which `ssid` then points to
        ssid := v;
      case KeyKw =>
        StoreHexKey(key, v);
      case KeyCharKw =>
        CopyKeyChars(key, v);
      case KeyIndexKw =>
        index := StrToUl(v, 10);
    }

    /**
      `ReadConfigFile`, given the result of `SD.open` (`None` when it fails).
      The returned status says how loading ended.
    */
    method ReadConfigFile(file: Option<Text>) returns (status: LoadStatus)
      requires Valid()
      modifies this, staticIp, key
      ensures Valid()
      ensures LoadResult(State(), status) == LoadFile(old(State()), file)
    {
      if file.None? {
        return NotOpened;
      }
      var fh := new SdFile.Open(file.value);
      var readBuffer := new CChar[ReadBufferLength];
      var completed := 0;
      while true
        invariant Valid() && fh.Valid() && fh.data == file.value
        invariant fresh(fh) && fresh(readBuffer) && readBuffer.Length == ReadBufferLength
        invariant completed < DirectiveLimit
        invariant WellFormed(State()) && |State().key| == |old(State()).key|
        invariant LoadLines(State(), LineDirectives(Lines(fh.data, fh.pos)), completed) == LoadFile(old(State()), file)
        decreases |fh.data| - fh.pos
      {
        ghost var pos := fh.pos;
        var ok, next := ReadDirective(readBuffer, fh);
        if !ok {
          return Loaded;
        }
        LineDirectivesStep(fh.data, pos);
        if next.Some? {
          var d := next.value;
          var fault := DirectiveFault(d, key.Length);
          if fault.Some? {
            return Undefined(fault.value);
          }
          completed := completed + 1;
          ApplyInPlace(d);
          if completed == DirectiveLimit {
            return Loaded;
          }
        }
      }
    }

    /**
      `Setup`: loads the SD file for that kind, connects with the overload the
      security type selects, and on a valid connection id starts the IP stack
      and waits for it. The result records the calls made and the value
      returned.
    */
    method Setup(v: Vendor) returns (r: SetupResult)
      requires Valid()
      modifies this, staticIp, key
      ensures Valid()
      ensures r == SetupSpec(kind, configFile, old(State()), v)
      ensures r.Completed? ==> State() == r.settings
    {
      var conId := v.invalidConnectionId;
      if kind == FromSdCard {
        var status := ReadConfigFile(v.openFile(configFile));
        if status.Undefined? {
          return UndefinedLoad(status.fault);
        }
      }
      var call: ConnectCall;
      if kind == FromSecInfo || kind == FromSdCard {
        match securityType
        case Wpa2WithKey | WpaAutoWithKey | WpaWithKey =>
          call := ConnectWithKey(ssid, key[..]);
        case Wpa2WithPassPhrase | WpaAutoWithPassPhrase =>
          call := ConnectWithPassPhrase(ssid, PassPhrase(key[..]));
        case WpaWithPassPhrase =>
          call := ConnectWithSecurityAndPassPhrase(WpaWithPassPhrase, ssid, PassPhrase(key[..]));
        case Wep40 =>
          call := ConnectWep40(ssid, key[..], index);
        case Wep104 =>
          call := ConnectWep104(ssid, key[..], index);
        case _ =>
          call := ConnectOpen(ssid);
      } else {
        call := ConnectProfile(0);
      }
      conId := v.connect(call);
      if conId != v.invalidConnectionId {
        var begin: BeginCall;
        if useDhcp {
          begin := BeginDhcp;
        } else {
          begin := BeginStatic(staticIp[..]);
        }
        if v.isInitialized(begin, connectionTimeout) {
          return Completed(State(), call, Some(begin), true);
        }
        // isStatusAnError only selects a debug message
        return Completed(State(), call, Some(begin), false);
      }
      return Completed(State(), call, None, false);
    }
  }
}
