/**
  The decisions `Setup` takes, over abstract outcomes of the vendor WiFi and
  IP stack: which `connect` overload it calls for the configured security
  type, whether it gives up on an invalid connection id, which `begin` it
  calls, and what it returns.
*/
module Connection {
  import opened Wrappers
  import opened CStrings
  import opened Directives
  import opened Loader

  /** `typeConfig`: the `WF_Config.x` profile, a caller-supplied `SECINFO`, or a file on the SD card. */
  datatype ConfigKind = FromWfConfig | FromSecInfo | FromSdCard

  /** The `isInitialized` timeout every constructor sets, in milliseconds. */
  const ConnectionTimeout: nat := 40000

  /** The `DWIFIcK::connect` overload `Setup` calls, with the arguments it passes. */
  datatype ConnectCall =
    | ConnectWithKey(ssid: Text, key: seq<byte>)
    | ConnectWithPassPhrase(ssid: Text, passPhrase: Text)
    | ConnectWithSecurityAndPassPhrase(security: SecurityType, ssid: Text, passPhrase: Text)
    | ConnectWep40(ssid: Text, key: seq<byte>, keyIndex: nat)
    | ConnectWep104(ssid: Text, key: seq<byte>, keyIndex: nat)
    | ConnectOpen(ssid: Text)
    | ConnectProfile(profile: nat)

  /** `DNETcK::begin()` or `DNETcK::begin(staticIp)`. */
  datatype BeginCall = BeginDhcp | BeginStatic(ip: seq<byte>)

  /**
    The outside world `Setup` depends on: the contents of the file `SD.open`
    finds under a name (`None` when it cannot open it), the connection id each
    `connect` call returns, the library's `INVALID_CONNECTION_ID`, and whether
    `isInitialized` reports the stack ready after a given `begin` within a
    timeout.
  */
  datatype Vendor = Vendor(
    openFile: Text -> Option<Text>,
    connect: ConnectCall -> int,
    invalidConnectionId: int,
    isInitialized: (BeginCall, nat) -> bool)

  /** The key buffer read as the character string `szPassPhrase`. */
  function PassPhrase(key: seq<byte>): (r: Text)
    ensures |r| <= |key| && Nul !in r
    ensures forall i :: 0 <= i < |r| ==> r[i] as int == key[i]
    ensures |r| < |key| ==> key[|r|] == 0
  {
    CString(seq(|key|, i requires 0 <= i < |key| => key[i] as char))
  }

  /**
    The passphrase `Setup` passes after a KEYCHAR line is the line's value:
    `strcpy` leaves it, with its NUL, at the start of the key buffer.
  */
  lemma PassPhraseOfKeyChar(s: Settings, v: Text)
    requires WellFormed(s) && |v| < |s.key| && Nul !in v
    ensures PassPhrase(ApplyDirective(s, Directive(KeyCharKw, v)).key) == v
  {
    var key := ApplyDirective(s, Directive(KeyCharKw, v)).key;
    KeyCharDirective(s, v);
    var c := seq(|key|, i requires 0 <= i < |key| => key[i] as char);
    assert c[..|v|] == v;
    CStringOfPrefixedNul(c, |v|);
  }

  /** The `switch` on the security type, or the profile connect of the `WF_Config.x` kind. */
  function ConnectCallFor(kind: ConfigKind, s: Settings): ConnectCall
  {
    if kind == FromWfConfig then ConnectProfile(0)
    else match s.securityType
      case Wpa2WithKey => ConnectWithKey(s.ssid, s.key)
      case WpaAutoWithKey => ConnectWithKey(s.ssid, s.key)
      case WpaWithKey => ConnectWithKey(s.ssid, s.key)
      case Wpa2WithPassPhrase => ConnectWithPassPhrase(s.ssid, PassPhrase(s.key))
      case WpaAutoWithPassPhrase => ConnectWithPassPhrase(s.ssid, PassPhrase(s.key))
      case WpaWithPassPhrase => ConnectWithSecurityAndPassPhrase(WpaWithPassPhrase, s.ssid, PassPhrase(s.key))
      case Wep40 => ConnectWep40(s.ssid, s.key, s.index)
      case Wep104 => ConnectWep104(s.ssid, s.key, s.index)
      case _ => ConnectOpen(s.ssid)
  }

  function BeginCallFor(s: Settings): BeginCall
  {
    if s.useDhcp then BeginDhcp else BeginStatic(s.staticIp)
  }

  /**
    The end of a `Setup` call: either loading the SD file reached behaviour
    the source leaves undefined, or the settings it connected with, the
    `connect` and `begin` calls it made and the value it returned.
  */
  datatype SetupResult =
    | UndefinedLoad(fault: Fault)
    | Completed(settings: Settings, call: ConnectCall, begin: Option<BeginCall>, ok: bool)

  /** `Setup` on the fields `s`, for a configuration of kind `kind` naming file `configFile`. */
  function SetupSpec(kind: ConfigKind, configFile: Text, s: Settings, v: Vendor): SetupResult
    requires WellFormed(s)
  {
    var load := if kind == FromSdCard then LoadFile(s, v.openFile(configFile)) else LoadResult(s, Loaded);
    if load.status.Undefined? then UndefinedLoad(load.status.fault)
    else
      var t := load.settings;
      var call := ConnectCallFor(kind, t);
      if v.connect(call) == v.invalidConnectionId then Completed(t, call, None, false)
      else
        var b := BeginCallFor(t);
        Completed(t, call, Some(b), v.isInitialized(b, ConnectionTimeout))
  }

  // ---------------------------------------------------------------------
  // Properties of the decisions.

  /** WPA key types pass the raw key, and only they do. */
  lemma ConnectsWithKey(kind: ConfigKind, s: Settings)
    ensures ConnectCallFor(kind, s).ConnectWithKey? <==>
      kind != FromWfConfig && s.securityType in {Wpa2WithKey, WpaAutoWithKey, WpaWithKey}
    ensures ConnectCallFor(kind, s).ConnectWithKey? ==> ConnectCallFor(kind, s) == ConnectWithKey(s.ssid, s.key)
  {
  }

  /**
    WPA2 and WPA-auto passphrase types pass the passphrase alone; the plain
    WPA passphrase type goes through the overload that also names the type.
  */
  lemma ConnectsWithPassPhrase(kind: ConfigKind, s: Settings)
    ensures ConnectCallFor(kind, s).ConnectWithPassPhrase? <==>
      kind != FromWfConfig && s.securityType in {Wpa2WithPassPhrase, WpaAutoWithPassPhrase}
    ensures ConnectCallFor(kind, s).ConnectWithSecurityAndPassPhrase? <==>
      kind != FromWfConfig && s.securityType == WpaWithPassPhrase
    ensures ConnectCallFor(kind, s).ConnectWithSecurityAndPassPhrase? ==>
      ConnectCallFor(kind, s) == ConnectWithSecurityAndPassPhrase(WpaWithPassPhrase, s.ssid, PassPhrase(s.key))
  {
  }

  /** WEP types pass the key and the key index. */
  lemma ConnectsWithWep(kind: ConfigKind, s: Settings)
    ensures ConnectCallFor(kind, s).ConnectWep40? <==> kind != FromWfConfig && s.securityType == Wep40
    ensures ConnectCallFor(kind, s).ConnectWep104? <==> kind != FromWfConfig && s.securityType == Wep104
    ensures kind != FromWfConfig && s.securityType == Wep40 ==>
      ConnectCallFor(kind, s) == ConnectWep40(s.ssid, s.key, s.index)
    ensures kind != FromWfConfig && s.securityType == Wep104 ==>
      ConnectCallFor(kind, s) == ConnectWep104(s.ssid, s.key, s.index)
  {
  }

  /** Open, and every value that is none of the listed types, connect without a secret. */
  lemma ConnectsOpen(kind: ConfigKind, s: Settings)
    ensures ConnectCallFor(kind, s).ConnectOpen? <==>
      kind != FromWfConfig && (s.securityType == Open || s.securityType.OtherSecurity?)
  {
  }

  /** The `WF_Config.x` kind always connects with profile 0, whatever the fields hold. */
  lemma ProfileKindIgnoresFields(s: Settings, t: Settings)
    ensures ConnectCallFor(FromWfConfig, s) == ConnectCallFor(FromWfConfig, t) == ConnectProfile(0)
  {
  }

  /** An invalid connection id ends `Setup` with false, before any `begin`. */
  lemma FailsFastOnInvalidConnection(kind: ConfigKind, configFile: Text, s: Settings, v: Vendor)
    requires WellFormed(s)
    ensures var r := SetupSpec(kind, configFile, s, v);
      r.Completed? && v.connect(r.call) == v.invalidConnectionId ==> r.begin.None? && !r.ok
  {
  }

  /** `begin` is called exactly when the connection id is valid, in DHCP or static form as `useDhcp` says. */
  lemma BeginFollowsDhcpFlag(kind: ConfigKind, configFile: Text, s: Settings, v: Vendor)
    requires WellFormed(s)
    ensures var r := SetupSpec(kind, configFile, s, v);
      r.Completed? ==>
        (r.begin.Some? <==> v.connect(r.call) != v.invalidConnectionId) &&
        (r.begin.Some? ==> r.begin.value == (if r.settings.useDhcp then BeginDhcp else BeginStatic(r.settings.staticIp)))
  {
  }

  /** `Setup` returns true exactly when a connection was made and the stack then reports itself initialised. */
  lemma SucceedsIffInitialized(kind: ConfigKind, configFile: Text, s: Settings, v: Vendor)
    requires WellFormed(s)
    ensures var r := SetupSpec(kind, configFile, s, v);
      r.Completed? ==>
        (r.ok <==> v.connect(r.call) != v.invalidConnectionId && v.isInitialized(BeginCallFor(r.settings), ConnectionTimeout))
  {
  }

  /** Only the SD kind looks at the configuration file, and only it can change the fields before connecting. */
  lemma OnlySdKindReadsFile(kind: ConfigKind, configFile: Text, s: Settings, v: Vendor)
    requires WellFormed(s) && kind != FromSdCard
    ensures SetupSpec(kind, configFile, s, v).Completed?
    ensures SetupSpec(kind, configFile, s, v).settings == s
    ensures forall other: Text -> Option<Text> ::
      SetupSpec(kind, configFile, s, v.(openFile := other)) == SetupSpec(kind, configFile, s, v)
  {
  }

  /** The SD kind connects with the settings the file produced, and gives up only when loading was undefined. */
  lemma SdKindUsesLoadedSettings(configFile: Text, s: Settings, v: Vendor)
    requires WellFormed(s)
    ensures var load := LoadFile(s, v.openFile(configFile));
      var r := SetupSpec(FromSdCard, configFile, s, v);
      (r.UndefinedLoad? <==> load.status.Undefined?) &&
      (r.Completed? ==> r.settings == load.settings && r.call == ConnectCallFor(FromSdCard, load.settings))
  {
  }
}
