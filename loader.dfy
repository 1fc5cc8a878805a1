/**
  `ReadConfigFile` as a function of the lines `ReadLine` delivers: recognised
  directives are applied in order, the loop ends after the fourth one, and an
  unreadable file or a line whose effect is undefined ends the load early.
*/
module Loader {
  import opened Wrappers
  import opened CStrings
  import opened SdFiles
  import opened Directives

  /** The number of directives after which `ReadConfigFile` stops reading. */
  const DirectiveLimit: nat := 4

  /**
    How a load ended: the file could not be opened, the lines ran out or the
    fourth directive was applied, or a line was reached whose effect the
    source leaves undefined (the settings are those before that line).
  */
  datatype LoadStatus = NotOpened | Loaded | Undefined(fault: Fault)

  datatype LoadResult = LoadResult(settings: Settings, status: LoadStatus)

  /** What `ReadConfigFile` makes of each line: the directive it carries, if any. */
  function LineDirectives(lines: seq<Text>): (r: seq<Option<Directive>>)
    ensures |r| == |lines| && forall i :: 0 <= i < |lines| ==> r[i] == DirectiveOf(lines[i])
  {
    seq(|lines|, i requires 0 <= i < |lines| => DirectiveOf(lines[i]))
  }

  /** One successful `ReadLine` contributes the directive of its line, then reading goes on. */
  lemma LineDirectivesStep(data: Text, pos: nat)
    requires pos <= |data| && ScanLine(data, pos).ok
    ensures LineDirectives(Lines(data, pos)) ==
      [DirectiveOf(ScanLine(data, pos).line)] + LineDirectives(Lines(data, ScanLine(data, pos).next))
  {
    assert Lines(data, pos) == [ScanLine(data, pos).line] + Lines(data, ScanLine(data, pos).next);
  }

  /**
    The loop of `ReadConfigFile` over what the remaining lines carry, with
    `completed` directives already applied.
  */
  function LoadLines(s: Settings, parsed: seq<Option<Directive>>, completed: nat): (r: LoadResult)
    requires WellFormed(s) && completed < DirectiveLimit
    ensures WellFormed(r.settings) && |r.settings.key| == |s.key| && r.status != NotOpened
    decreases |parsed|
  {
    if parsed == [] then LoadResult(s, Loaded)
    else match parsed[0]
      case None => LoadLines(s, parsed[1..], completed)
      case Some(d) =>
        (match DirectiveFault(d, |s.key|)
         case Some(f) => LoadResult(s, Undefined(f))
         case None =>
           var t := ApplyDirective(s, d);
           if completed + 1 == DirectiveLimit then LoadResult(t, Loaded)
           else LoadLines(t, parsed[1..], completed + 1))
  }

  /** `ReadConfigFile`: `file` is the contents of the configuration file, or `None` when `SD.open` fails. */
  function LoadFile(s: Settings, file: Option<Text>): (r: LoadResult)
    requires WellFormed(s)
    ensures WellFormed(r.settings) && |r.settings.key| == |s.key|
  {
    match file
    case None => LoadResult(s, NotOpened)
    case Some(data) => LoadLines(s, LineDirectives(Lines(data, 0)), 0)
  }

  // ---------------------------------------------------------------------
  // A reference definition: the first four directives, applied in order.

  /** The directives the lines carry, in order. */
  function DirectivesIn(parsed: seq<Option<Directive>>): (ds: seq<Directive>)
    ensures |ds| <= |parsed|
  {
    if parsed == [] then []
    else match parsed[0]
      case None => DirectivesIn(parsed[1..])
      case Some(d) => [d] + DirectivesIn(parsed[1..])
  }

  function Take<T>(xs: seq<T>, n: nat): seq<T>
  {
    if n < |xs| then xs[..n] else xs
  }

  /** Applies directives in order, stopping at the first one whose effect is undefined. */
  function ApplyAll(s: Settings, ds: seq<Directive>): (r: LoadResult)
    requires WellFormed(s)
    ensures WellFormed(r.settings) && |r.settings.key| == |s.key| && r.status != NotOpened
    decreases |ds|
  {
    if ds == [] then LoadResult(s, Loaded)
    else match DirectiveFault(ds[0], |s.key|)
      case Some(f) => LoadResult(s, Undefined(f))
      case None => ApplyAll(ApplyDirective(s, ds[0]), ds[1..])
  }

  lemma DirectivesInAppend(a: seq<Option<Directive>>, b: seq<Option<Directive>>)
    ensures DirectivesIn(a + b) == DirectivesIn(a) + DirectivesIn(b)
  {
    if a != [] {
      assert (a + b)[1..] == a[1..] + b;
      DirectivesInAppend(a[1..], b);
    } else {
      assert a + b == b;
    }
  }

  /**
    The loop applies exactly the first `4 - completed` directives of the
    remaining lines, in order; comments, lines without a colon and unknown
    names are skipped without being counted.
  */
  lemma {:induction false} LoadLinesIsFirstDirectives(s: Settings, parsed: seq<Option<Directive>>, completed: nat)
    requires WellFormed(s) && completed < DirectiveLimit
    ensures LoadLines(s, parsed, completed) == ApplyAll(s, Take(DirectivesIn(parsed), DirectiveLimit - completed))
    decreases |parsed|
  {
    if parsed != [] {
      match parsed[0]
      case None =>
        LoadLinesIsFirstDirectives(s, parsed[1..], completed);
      case Some(d) =>
        var rest := DirectivesIn(parsed[1..]);
        TakeCons(d, rest, DirectiveLimit - completed);
        var ds := [d] + Take(rest, DirectiveLimit - completed - 1);
        assert ds[0] == d && ds[1..] == Take(rest, DirectiveLimit - completed - 1);
        if completed + 1 < DirectiveLimit && DirectiveFault(d, |s.key|).None? {
          LoadLinesIsFirstDirectives(ApplyDirective(s, d), parsed[1..], completed + 1);
        }
    }
  }

  lemma TakeCons<T>(x: T, xs: seq<T>, n: nat)
    requires n > 0
    ensures Take([x] + xs, n) == [x] + Take(xs, n - 1)
  {
  }

  /** Lines after the fourth directive are never looked at. */
  lemma StopsAfterFourDirectives(s: Settings, head: seq<Option<Directive>>, tail: seq<Option<Directive>>)
    requires WellFormed(s) && |DirectivesIn(head)| >= DirectiveLimit
    ensures LoadLines(s, head + tail, 0) == LoadLines(s, head, 0)
  {
    LoadLinesIsFirstDirectives(s, head + tail, 0);
    LoadLinesIsFirstDirectives(s, head, 0);
    DirectivesInAppend(head, tail);
    assert Take(DirectivesIn(head) + DirectivesIn(tail), DirectiveLimit) == Take(DirectivesIn(head), DirectiveLimit);
  }

  lemma {:induction false} NoDirectivesIn(parsed: seq<Option<Directive>>)
    requires forall i :: 0 <= i < |parsed| ==> parsed[i].None?
    ensures DirectivesIn(parsed) == []
  {
    if parsed != [] {
      NoDirectivesIn(parsed[1..]);
    }
  }

  /** A file without any directive leaves every setting as it was. */
  lemma NoDirectivesNoChange(s: Settings, data: Text)
    requires WellFormed(s) && forall i :: 0 <= i < |Lines(data, 0)| ==> DirectiveOf(Lines(data, 0)[i]).None?
    ensures LoadFile(s, Some(data)) == LoadResult(s, Loaded)
  {
    NoDirectivesIn(LineDirectives(Lines(data, 0)));
    LoadLinesIsFirstDirectives(s, LineDirectives(Lines(data, 0)), 0);
  }

  /** A file that cannot be opened, or whose first line is too long, changes nothing. */
  lemma UnreadableFileNoChange(s: Settings, data: Text)
    requires WellFormed(s) && !ScanLine(data, 0).ok
    ensures LoadFile(s, None) == LoadResult(s, NotOpened)
    ensures LoadFile(s, Some(data)) == LoadResult(s, Loaded)
  {
  }

  /**
    A SECURITY line naming type `t` and a KEYINDEX line reading `n` give
    that type and index whichever comes first.
  */
  lemma SecurityAndKeyIndexInEitherOrder(s: Settings, v: Text, t: SecurityType, w: Text, n: nat)
    requires WellFormed(s) && SecurityByName(v) == Some(t) && StrToUl(w, 10) == n
    ensures var sec, idx := Some(Directive(SecurityKw, v)), Some(Directive(KeyIndexKw, w));
      LoadLines(s, [sec, idx], 0) == LoadLines(s, [idx, sec], 0) ==
      LoadResult(s.(securityType := t, index := n), Loaded)
  {
    var sec, idx := Directive(SecurityKw, v), Directive(KeyIndexKw, w);
    LoadTwo(s, sec, idx, s.(securityType := t), s.(securityType := t, index := n));
    LoadTwo(s, idx, sec, s.(index := n), s.(securityType := t, index := n));
  }

  /** Two lines carrying defined directives: the second is applied to the result of the first. */
  lemma LoadTwo(s: Settings, a: Directive, b: Directive, m: Settings, t: Settings)
    requires WellFormed(s) && DirectiveFault(a, |s.key|).None? && ApplyDirective(s, a) == m
    requires DirectiveFault(b, |m.key|).None? && ApplyDirective(m, b) == t
    ensures LoadLines(s, [Some(a), Some(b)], 0) == LoadResult(t, Loaded)
  {
    var both: seq<Option<Directive>> := [Some(a), Some(b)];
    assert both[1..] == [Some(b)];
    LoadLinesStep(s, a, both, 0);
    LoadLinesLast(m, b, 1);
  }

  /** `SECURITY:WEP_40` and `KEYINDEX:2` give WEP-40 with key index 2, in either order. */
  lemma WepKeyIndexExample(s: Settings)
    requires WellFormed(s)
    ensures var sec, idx := Some(Directive(SecurityKw, "WEP_40")), Some(Directive(KeyIndexKw, "2"));
      var r := LoadLines(s, [sec, idx], 0);
      r == LoadLines(s, [idx, sec], 0) && r.status == Loaded &&
      r.settings == s.(securityType := Wep40, index := 2)
  {
    assert SecurityName(Wep40) == Some("WEP_40");
    SecurityByNameIsExact("WEP_40", Wep40);
    assert Decimal(2) == "2";
    DecimalRoundTrip(2);
    SecurityAndKeyIndexInEitherOrder(s, "WEP_40", Wep40, "2", 2);
  }

  /** A file of CR LF terminated lines loads as the directives of those lines. */
  lemma LoadCrLfFile(s: Settings, ls: seq<Text>)
    requires WellFormed(s) && forall n :: 0 <= n < |ls| ==> IsLine(ls[n])
    ensures LoadFile(s, Some(CrLfFile(ls))) == LoadLines(s, LineDirectives(ls), 0)
  {
    LinesRoundTrip(ls);
  }

  /**
    Loading stops at the first read that fails, the end of the file or a
    line of 100 characters or more: the directives of the lines before it
    are loaded, and whatever follows is ignored.
  */
  lemma LoadStopsAtFailedRead(s: Settings, ls: seq<Text>, rest: Text)
    requires WellFormed(s) && forall n :: 0 <= n < |ls| ==> IsLine(ls[n])
    requires rest == [] || (|rest| >= ReadBufferLength && forall i :: 0 <= i < ReadBufferLength ==> !IsTerminator(rest[i]))
    ensures LoadFile(s, Some(CrLfFile(ls) + rest)) == LoadLines(s, LineDirectives(ls), 0)
    ensures LoadFile(s, Some(CrLfFile(ls) + rest)) == LoadFile(s, Some(CrLfFile(ls)))
  {
    LinesBeforeOverlongOrEnd(ls, rest);
    LoadCrLfFile(s, ls);
  }

  /** A file of two CR LF terminated lines loads as their two directives. */
  lemma LoadTwoLineFile(s: Settings, a: Text, b: Text)
    requires WellFormed(s) && IsLine(a) && IsLine(b)
    ensures LoadFile(s, Some(CrLfFile([a, b]))) == LoadLines(s, [DirectiveOf(a), DirectiveOf(b)], 0)
  {
    LoadCrLfFile(s, [a, b]);
    assert LineDirectives([a, b]) == [DirectiveOf(a), DirectiveOf(b)];
  }

  /** A keyword, a colon and a short value free of NUL, CR and LF make a readable line carrying that directive. */
  lemma KeywordLine(kw: Keyword, v: Text)
    requires |v| < 90 && Nul !in v && forall i :: 0 <= i < |v| ==> !IsTerminator(v[i])
    ensures IsLine(KeywordName(kw) + [':'] + v)
    ensures DirectiveOf(KeywordName(kw) + [':'] + v) == Some(Directive(kw, v))
  {
    var n := KeywordName(kw);
    var l := n + [':'] + v;
    assert |n| <= 8 && forall i :: 0 <= i < |n| ==> !IsTerminator(n[i]);
    assert forall i :: 0 <= i < |l| ==> !IsTerminator(l[i]) by {
      forall i | 0 <= i < |l| ensures !IsTerminator(l[i]) {
        if i < |n| {
          assert l[i] == n[i];
        } else if i > |n| {
          assert l[i] == v[i - |n| - 1];
        }
      }
    }
    DirectiveLine(kw, v);
  }

  /**
    The file with the lines `SECURITY:WEP_40` and `KEYINDEX:2`, each ending
    in CR LF, loads as WEP-40 with key index 2, and so does the file with
    the two lines swapped.
  */
  lemma WepKeyIndexFileExample(s: Settings, sec: Text, idx: Text)
    requires WellFormed(s) && sec == "SECURITY:WEP_40" && idx == "KEYINDEX:2"
    ensures LoadFile(s, Some(CrLfFile([sec, idx]))) == LoadFile(s, Some(CrLfFile([idx, sec]))) ==
      LoadResult(s.(securityType := Wep40, index := 2), Loaded)
  {
    assert sec == KeywordName(SecurityKw) + [':'] + "WEP_40";
    assert idx == KeywordName(KeyIndexKw) + [':'] + "2";
    KeywordLine(SecurityKw, "WEP_40");
    KeywordLine(KeyIndexKw, "2");
    LoadTwoLineFile(s, sec, idx);
    LoadTwoLineFile(s, idx, sec);
    WepKeyIndexExample(s);
  }

  /** A line carrying a defined directive, before the fourth, applies it and goes on. */
  lemma LoadLinesStep(s: Settings, d: Directive, parsed: seq<Option<Directive>>, completed: nat)
    requires WellFormed(s) && completed + 1 < DirectiveLimit && DirectiveFault(d, |s.key|).None?
    requires parsed != [] && parsed[0] == Some(d)
    ensures LoadLines(s, parsed, completed) == LoadLines(ApplyDirective(s, d), parsed[1..], completed + 1)
  {
  }

  /** A last line carrying a defined directive, before the fourth, applies it and ends the load. */
  lemma LoadLinesLast(s: Settings, d: Directive, completed: nat)
    requires WellFormed(s) && completed + 1 < DirectiveLimit && DirectiveFault(d, |s.key|).None?
    ensures LoadLines(s, [Some(d)], completed) == LoadResult(ApplyDirective(s, d), Loaded)
  {
    assert [Some(d)][1..] == [];
  }

  // ---------------------------------------------------------------------
  // Every directive overwrites fields with values taken from its text
  // alone, so loading the same file again changes nothing.

  /**
    Values to overwrite settings with: a field is overwritten when its
    entry is present, key byte `i` when `i` is in `key`.
  */
  datatype Patch = Patch(
    useDhcp: Option<bool>,
    staticIp: Option<seq<byte>>,
    ssid: Option<Text>,
    securityType: Option<SecurityType>,
    key: map<nat, byte>,
    index: Option<nat>)

  predicate PatchOk(p: Patch)
  {
    p.staticIp.Some? ==> |p.staticIp.value| == 4
  }

  const NoPatch: Patch := Patch(None, None, None, None, map[], None)

  function Pick<T>(o: Option<T>, x: T): T
  {
    if o.Some? then o.value else x
  }

  function Later<T>(a: Option<T>, b: Option<T>): Option<T>
  {
    if b.Some? then b else a
  }

  function PatchKey(key: seq<byte>, m: map<nat, byte>): (r: seq<byte>)
    ensures |r| == |key|
  {
    seq(|key|, i requires 0 <= i < |key| => if i in m then m[i] else key[i])
  }

  function ApplyPatch(s: Settings, p: Patch): (r: Settings)
  {
    Settings(
      Pick(p.useDhcp, s.useDhcp),
      Pick(p.staticIp, s.staticIp),
      Pick(p.ssid, s.ssid),
      Pick(p.securityType, s.securityType),
      PatchKey(s.key, p.key),
      Pick(p.index, s.index))
  }

  /** `p` followed by `q`: `q`'s entries win. */
  function Compose(p: Patch, q: Patch): Patch
  {
    Patch(
      Later(p.useDhcp, q.useDhcp),
      Later(p.staticIp, q.staticIp),
      Later(p.ssid, q.ssid),
      Later(p.securityType, q.securityType),
      p.key + q.key,
      Later(p.index, q.index))
  }

  /** What a fault-free directive overwrites, and with what. */
  function PatchOf(d: Directive, capacity: nat): (p: Patch)
    requires DirectiveFault(d, capacity).None?
    ensures PatchOk(p)
  {
    var v := d.value;
    match d.keyword
    case SecurityKw => NoPatch.(securityType := SecurityByName(v))
    case IpKw =>
      if IsDhcpValue(v) then NoPatch.(useDhcp := Some(true))
      else
        var ts := StrTok(v, '.');
        NoPatch.(useDhcp := Some(false), staticIp := Some(Octets(ts)))
    case SsidKw => NoPatch.(ssid := Some(v))
    case KeyKw => NoPatch.(key := map i: nat | i < |v| / 2 :: HexByte(v, i))
    case KeyCharKw => NoPatch.(key := map i: nat | i <= |v| :: if i < |v| then v[i] as int else 0)
    case KeyIndexKw => NoPatch.(index := Some(StrToUl(v, 10)))
  }

  lemma HexKeyIsPatch(key: seq<byte>, v: Text)
    requires |v| / 2 <= |key|
    ensures HexKey(key, v) == PatchKey(key, map i: nat | i < |v| / 2 :: HexByte(v, i))
  {
  }

  lemma CopyCStringIsPatch(key: seq<byte>, v: Text)
    requires |v| < |key|
    ensures CopyCString(key, v) == PatchKey(key, map i: nat | i <= |v| :: if i < |v| then v[i] as int else 0)
  {
  }

  /** Every directive is the overwrite `PatchOf` describes. */
  lemma ApplyDirectiveIsPatch(s: Settings, d: Directive)
    requires WellFormed(s) && DirectiveFault(d, |s.key|).None?
    ensures ApplyDirective(s, d) == ApplyPatch(s, PatchOf(d, |s.key|))
  {
    assert PatchKey(s.key, map[]) == s.key;
    match d.keyword
    case KeyKw => HexKeyIsPatch(s.key, d.value);
    case KeyCharKw => CopyCStringIsPatch(s.key, d.value);
    case _ =>
  }

  lemma EmptyPatch(s: Settings)
    ensures ApplyPatch(s, NoPatch) == s
  {
    assert PatchKey(s.key, map[]) == s.key;
  }

  /** Two overwrites in a row are one overwrite. */
  lemma ComposePatches(s: Settings, p: Patch, q: Patch)
    ensures ApplyPatch(ApplyPatch(s, p), q) == ApplyPatch(s, Compose(p, q))
  {
    assert PatchKey(PatchKey(s.key, p.key), q.key) == PatchKey(s.key, p.key + q.key);
  }

  /** Overwriting with the same values again changes nothing. */
  lemma PatchTwice(s: Settings, p: Patch)
    ensures ApplyPatch(ApplyPatch(s, p), p) == ApplyPatch(s, p)
  {
    assert PatchKey(PatchKey(s.key, p.key), p.key) == PatchKey(s.key, p.key);
  }

  /** The overwrite a directive list amounts to, up to its first undefined step. */
  function PatchUntilFault(ds: seq<Directive>, capacity: nat): (p: Patch)
    ensures PatchOk(p)
  {
    if ds == [] then NoPatch
    else if DirectiveFault(ds[0], capacity).Some? then NoPatch
    else Compose(PatchOf(ds[0], capacity), PatchUntilFault(ds[1..], capacity))
  }

  /** Where a directive list stops, which depends on the texts and the key capacity only. */
  function StatusUntilFault(ds: seq<Directive>, capacity: nat): LoadStatus
  {
    if ds == [] then Loaded
    else match DirectiveFault(ds[0], capacity)
      case Some(f) => Undefined(f)
      case None => StatusUntilFault(ds[1..], capacity)
  }

  /** Applying directives is one overwrite, and how it ends does not depend on the settings. */
  lemma {:induction false} ApplyAllIsPatch(s: Settings, ds: seq<Directive>)
    requires WellFormed(s)
    ensures ApplyAll(s, ds) ==
      LoadResult(ApplyPatch(s, PatchUntilFault(ds, |s.key|)), StatusUntilFault(ds, |s.key|))
    decreases |ds|
  {
    if ds == [] || DirectiveFault(ds[0], |s.key|).Some? {
      EmptyPatch(s);
    } else {
      var p := PatchOf(ds[0], |s.key|);
      var t := ApplyDirective(s, ds[0]);
      ApplyDirectiveIsPatch(s, ds[0]);
      ApplyAllIsPatch(t, ds[1..]);
      ComposePatches(s, p, PatchUntilFault(ds[1..], |s.key|));
    }
  }

  /** Applying the same directives to their own result changes nothing. */
  lemma ApplyAllIdempotent(s: Settings, ds: seq<Directive>)
    requires WellFormed(s)
    ensures ApplyAll(ApplyAll(s, ds).settings, ds) == ApplyAll(s, ds)
  {
    ApplyAllIsPatch(s, ds);
    ApplyAllIsPatch(ApplyAll(s, ds).settings, ds);
    PatchTwice(s, PatchUntilFault(ds, |s.key|));
  }

  /** Reading the same configuration file a second time changes nothing. */
  lemma LoadIdempotent(s: Settings, file: Option<Text>)
    requires WellFormed(s)
    ensures LoadFile(LoadFile(s, file).settings, file) == LoadFile(s, file)
  {
    if file.Some? {
      var parsed := LineDirectives(Lines(file.value, 0));
      var ds := Take(DirectivesIn(parsed), DirectiveLimit);
      LoadLinesIsFirstDirectives(s, parsed, 0);
      LoadLinesIsFirstDirectives(LoadFile(s, file).settings, parsed, 0);
      ApplyAllIdempotent(s, ds);
    }
  }

  // ---------------------------------------------------------------------
  // SECURITY and KEYINDEX anywhere among the first four directives.

  /** A list free of faults runs to its end. */
  lemma {:induction false} StatusWithoutFault(ds: seq<Directive>, capacity: nat)
    requires forall i :: 0 <= i < |ds| ==> DirectiveFault(ds[i], capacity).None?
    ensures StatusUntilFault(ds, capacity) == Loaded
    decreases |ds|
  {
    if ds != [] {
      StatusWithoutFault(ds[1..], capacity);
    }
  }

  /** The security type a fault-free list overwrites: the one its SECURITY lines name, if it has any. */
  lemma {:induction false} PatchSecurity(ds: seq<Directive>, capacity: nat, v: Text, t: SecurityType)
    requires SecurityByName(v) == Some(t)
    requires forall i :: 0 <= i < |ds| ==> DirectiveFault(ds[i], capacity).None?
    requires forall i :: 0 <= i < |ds| && ds[i].keyword == SecurityKw ==> ds[i].value == v
    ensures PatchUntilFault(ds, capacity).securityType == if Directive(SecurityKw, v) in ds then Some(t) else None
    decreases |ds|
  {
    if ds != [] {
      var d := Directive(SecurityKw, v);
      PatchSecurity(ds[1..], capacity, v, t);
      assert d in ds <==> ds[0] == d || d in ds[1..] by {
        assert ds == [ds[0]] + ds[1..];
      }
      if ds[0].keyword == SecurityKw {
        assert ds[0] == d;
        assert PatchOf(ds[0], capacity).securityType == Some(t);
      } else {
        assert PatchOf(ds[0], capacity).securityType == None;
      }
    }
  }

  /** The key index a fault-free list overwrites: the one its KEYINDEX lines read, if it has any. */
  lemma {:induction false} PatchKeyIndex(ds: seq<Directive>, capacity: nat, w: Text, n: nat)
    requires StrToUl(w, 10) == n
    requires forall i :: 0 <= i < |ds| ==> DirectiveFault(ds[i], capacity).None?
    requires forall i :: 0 <= i < |ds| && ds[i].keyword == KeyIndexKw ==> ds[i].value == w
    ensures PatchUntilFault(ds, capacity).index == if Directive(KeyIndexKw, w) in ds then Some(n) else None
    decreases |ds|
  {
    if ds != [] {
      var d := Directive(KeyIndexKw, w);
      PatchKeyIndex(ds[1..], capacity, w, n);
      assert d in ds <==> ds[0] == d || d in ds[1..] by {
        assert ds == [ds[0]] + ds[1..];
      }
      if ds[0].keyword == KeyIndexKw {
        assert ds[0] == d;
        assert PatchOf(ds[0], capacity).index == Some(n);
      } else {
        assert PatchOf(ds[0], capacity).index == None;
      }
    }
  }

  /**
    A file whose first four directives include a SECURITY line naming `t`
    and a KEYINDEX line reading `n`, in any order and among any other lines,
    with no other security name or key index among them and no undefined
    step, loads with that type and that index.
  */
  lemma SecurityAndKeyIndexAnywhere(s: Settings, parsed: seq<Option<Directive>>, v: Text, t: SecurityType, w: Text, n: nat)
    requires WellFormed(s) && SecurityByName(v) == Some(t) && StrToUl(w, 10) == n
    requires var ds := Take(DirectivesIn(parsed), DirectiveLimit);
      Directive(SecurityKw, v) in ds && Directive(KeyIndexKw, w) in ds &&
      (forall i :: 0 <= i < |ds| ==> DirectiveFault(ds[i], |s.key|).None?) &&
      (forall i :: 0 <= i < |ds| && ds[i].keyword == SecurityKw ==> ds[i].value == v) &&
      (forall i :: 0 <= i < |ds| && ds[i].keyword == KeyIndexKw ==> ds[i].value == w)
    ensures var r := LoadLines(s, parsed, 0);
      r.status == Loaded && r.settings.securityType == t && r.settings.index == n
  {
    var ds := Take(DirectivesIn(parsed), DirectiveLimit);
    var p := PatchUntilFault(ds, |s.key|);
    LoadLinesIsFirstDirectives(s, parsed, 0);
    ApplyAllIsPatch(s, ds);
    StatusWithoutFault(ds, |s.key|);
    PatchSecurity(ds, |s.key|, v, t);
    PatchKeyIndex(ds, |s.key|, w, n);
    assert LoadLines(s, parsed, 0) == LoadResult(ApplyPatch(s, p), Loaded);
    assert p.securityType == Some(t) && p.index == Some(n);
  }
}
