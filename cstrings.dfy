/**
  The C library calls the configuration loader relies on, stated as functions
  on sequences: the NUL-terminated view of a buffer, `toupper`, `strchr`,
  `strtok` with one delimiter and `strtoul` (as the C library of the 32-bit
  target implements it), together with the formatting functions that act as
  their partners in round-trip lemmas.
*/
module CStrings {
  import opened Wrappers

  /** A C `char` read from the SD card: one octet. */
  type CChar = c: char | c as int < 256 witness '\0'

  /** Text made of C characters. */
  type Text = seq<CChar>

  /** An unsigned 8-bit value (`uint8_t`, one element of `rgbIP` or `rgbKey`). */
  type byte = x: int | 0 <= x < 256

  const Nul: CChar := '\0'

  /** `ULONG_MAX`: `unsigned long` is 32 bits wide on the PIC32 target. */
  const ULongMax: nat := 0xFFFF_FFFF

  /** The string a `char*` into `s` denotes: everything before the first NUL. */
  function CString(s: Text): (r: Text)
    ensures |r| <= |s| && r == s[..|r|]
    ensures Nul !in r
    ensures |r| < |s| ==> s[|r|] == Nul
  {
    if s == [] || s[0] == Nul then [] else [s[0]] + CString(s[1..])
  }

  /** `s` followed by NULs up to length `n`: a buffer after `memset` and a copy. */
  function NulPadded(s: Text, n: nat): (r: Text)
    requires |s| <= n
    ensures |r| == n && r[..|s|] == s
    ensures forall i :: |s| <= i < n ==> r[i] == Nul
  {
    s + seq(n - |s|, _ => Nul)
  }

  lemma {:induction false} CStringOfPrefixedNul(s: Text, k: nat)
    requires k < |s| && s[k] == Nul && Nul !in s[..k]
    ensures CString(s) == s[..k]
  {
    if k > 0 {
      assert s[0] in s[..k];
      CStringOfPrefixedNul(s[1..], k - 1);
      assert s[1..][..k - 1] == s[1..k];
      assert s[..k] == [s[0]] + s[1..k];
    }
  }

  lemma {:induction false} CStringOfNulFree(s: Text)
    requires Nul !in s
    ensures CString(s) == s
  {
    if s != [] {
      assert s[0] in s;
      assert forall c :: c in s[1..] ==> c in s;
      CStringOfNulFree(s[1..]);
    }
  }

  /** The C string of a padded buffer is that of the text put into it. */
  lemma CStringOfPadded(s: Text, n: nat)
    requires |s| < n
    ensures CString(NulPadded(s, n)) == CString(s)
  {
    var p := NulPadded(s, n);
    var c := CString(s);
    var k := |c|;
    assert p[..k] == c by {
      assert p[..|s|] == s;
      assert p[..k] == p[..|s|][..k];
    }
    assert p[k] == Nul by {
      if k < |s| {
        assert p[k] == p[..|s|][k];
      }
    }
    CStringOfPrefixedNul(p, k);
  }

  /** A pointer `j` characters into a C string denotes its tail. */
  lemma CStringOfSuffix(s: Text, j: nat)
    requires j <= |CString(s)|
    ensures CString(s[j..]) == CString(s)[j..]
  {
    var c := CString(s);
    assert forall x :: x in c[j..] ==> x in c;
    if |c| < |s| {
      assert s[j..][..|c| - j] == c[j..];
      CStringOfPrefixedNul(s[j..], |c| - j);
    } else {
      assert s[j..] == c[j..];
      CStringOfNulFree(s[j..]);
    }
  }

  /** `toupper` in the C locale: only `a`..`z` change. */
  function ToUpper(c: CChar): CChar
  {
    if 'a' <= c <= 'z' then (c as int - 32) as char else c
  }

  /** `toupper` applied to every character. */
  function UpperCase(s: Text): (r: Text)
    ensures |r| == |s|
  {
    seq(|s|, i requires 0 <= i < |s| => ToUpper(s[i]))
  }

  /** `strchr`: the index of the first occurrence of `c`, if any. */
  function IndexOf(s: Text, c: CChar): (r: Option<nat>)
    ensures r.None? ==> c !in s
    ensures r.Some? ==> r.value < |s| && s[r.value] == c && c !in s[..r.value]
  {
    if s == [] then None
    else if s[0] == c then Some(0)
    else match IndexOf(s[1..], c)
      case None => None
      case Some(k) => Some(k + 1)
  }

  /** `strchr` finds the first `c`, whatever follows it. */
  lemma IndexOfFirst(t: Text, c: CChar, rest: Text)
    requires c !in t
    ensures IndexOf(t + [c] + rest, c) == Some(|t|)
  {
    var s := t + [c] + rest;
    assert s[|t|] == c;
    assert s[..|t|] == t;
  }

  /** `strchr` finds `c` at `k` when `k` holds the first `c`. */
  lemma IndexOfAt(s: Text, c: CChar, k: nat)
    requires k < |s| && s[k] == c && c !in s[..k]
    ensures IndexOf(s, c) == Some(k)
  {
    assert s[k] in s;
    assert forall j :: 0 <= j < k ==> s[j] != c by {
      assert forall j :: 0 <= j < k ==> s[j] == s[..k][j];
    }
  }

  /** The length of the run before the first `d` (all of `s` when there is none). */
  function SpanUntil(s: Text, d: CChar): (k: nat)
    ensures k <= |s| && d !in s[..k]
    ensures k < |s| ==> s[k] == d
  {
    match IndexOf(s, d)
    case None => assert s[..|s|] == s; |s|
    case Some(i) => i
  }

  /**
    What successive `strtok(.., delim)` calls return: the maximal non-empty
    runs free of `delim`, in order.
  */
  function StrTok(s: Text, delim: CChar): (r: seq<Text>)
    ensures forall i :: 0 <= i < |r| ==> r[i] != [] && delim !in r[i]
    decreases |s|
  {
    if s == [] then []
    else if s[0] == delim then StrTok(s[1..], delim)
    else
      var k := SpanUntil(s, delim);
      [s[..k]] + StrTok(s[k..], delim)
  }

  lemma StrTokSingle(t: Text, delim: CChar)
    requires t != [] && delim !in t
    ensures StrTok(t, delim) == [t]
  {
    assert t[0] in t;
    assert t[..|t|] == t;
    assert SpanUntil(t, delim) == |t|;
    assert t[|t|..] == [];
  }

  lemma StrTokCons(t: Text, delim: CChar, rest: Text)
    requires t != [] && delim !in t
    ensures StrTok(t + [delim] + rest, delim) == [t] + StrTok(rest, delim)
  {
    var s := t + [delim] + rest;
    IndexOfFirst(t, delim, rest);
    assert s[0] == t[0] && t[0] in t;
    assert SpanUntil(s, delim) == |t|;
    assert s[..|t|] == t;
    assert s[|t|..] == [delim] + rest;
    assert ([delim] + rest)[1..] == rest;
  }

  /** The texts `ts` with `delim` between neighbours. */
  function Join(ts: seq<Text>, delim: CChar): Text
  {
    if |ts| == 0 then []
    else if |ts| == 1 then ts[0]
    else ts[0] + [delim] + Join(ts[1..], delim)
  }

  /** `strtok` splits a join of non-empty, delimiter-free texts back into those texts. */
  lemma {:induction false} StrTokJoin(ts: seq<Text>, delim: CChar)
    requires forall i :: 0 <= i < |ts| ==> ts[i] != [] && delim !in ts[i]
    ensures StrTok(Join(ts, delim), delim) == ts
  {
    if |ts| == 1 {
      StrTokSingle(ts[0], delim);
    } else if |ts| > 1 {
      StrTokJoin(ts[1..], delim);
      StrTokCons(ts[0], delim, Join(ts[1..], delim));
    }
  }

  /** C `isspace`. */
  predicate IsSpace(c: char)
  {
    c == ' ' || c == '\t' || c == '\n' || c == '\r' || c as int == 11 || c as int == 12
  }

  /** The value `strtoul` gives a digit character; 36 for what is no digit in any base. */
  function DigitValue(c: char): (v: nat)
    ensures v <= 36
  {
    if '0' <= c <= '9' then c as int - '0' as int
    else if 'a' <= c <= 'z' then c as int - 'a' as int + 10
    else if 'A' <= c <= 'Z' then c as int - 'A' as int + 10
    else 36
  }

  predicate IsDigitIn(c: char, base: nat)
  {
    DigitValue(c) < base
  }

  function SkipSpace(s: Text): (r: Text)
    ensures |r| <= |s| && r == s[|s| - |r|..]
    ensures r != [] ==> !IsSpace(r[0])
  {
    if s != [] && IsSpace(s[0]) then SkipSpace(s[1..]) else s
  }

  /** The longest prefix of `s` made of digits of `base`. */
  function DigitPrefix(s: Text, base: nat): (r: Text)
    ensures |r| <= |s| && r == s[..|r|]
    ensures forall i :: 0 <= i < |r| ==> IsDigitIn(r[i], base)
    ensures |r| < |s| ==> !IsDigitIn(s[|r|], base)
  {
    if s != [] && IsDigitIn(s[0], base) then [s[0]] + DigitPrefix(s[1..], base) else []
  }

  /** The number a string of digits of `base` denotes, most significant first. */
  function DigitsValue(ds: Text, base: nat): nat
  {
    if ds == [] then 0
    else DigitsValue(ds[..|ds| - 1], base) * base + DigitValue(ds[|ds| - 1])
  }

  /**
    `strtoul(s, NULL, base)` for base 10 or 16: leading white space and one
    sign are skipped, base 16 also skips a `0x`/`0X` that has a hex digit after
    it; then the longest run of digits is read. No digits gives 0, a value
    beyond `ULONG_MAX` gives `ULONG_MAX`, and a minus sign negates modulo 2^32.
  */
  function StrToUl(s: Text, base: nat): (r: nat)
    requires base == 10 || base == 16
    ensures r <= ULongMax
  {
    var t := SkipSpace(s);
    var neg := t != [] && t[0] == '-';
    var u := if t != [] && (t[0] == '-' || t[0] == '+') then t[1..] else t;
    var w := if base == 16 && |u| >= 3 && u[0] == '0' && (u[1] == 'x' || u[1] == 'X') && IsDigitIn(u[2], 16)
             then u[2..] else u;
    var ds := DigitPrefix(w, base);
    var v := DigitsValue(ds, base);
    if ds == [] then 0
    else if v > ULongMax then ULongMax
    else if neg then (ULongMax + 1 - v) % (ULongMax + 1)
    else v
  }

  /** Truncation of an `unsigned long` stored into a `uint8_t`. */
  function LowByte(n: nat): byte
  {
    n % 256
  }

  // ---------------------------------------------------------------------
  // Formatting: the partners of `strtoul` in the round-trip lemmas.

  function DigitChar(d: nat): (c: CChar)
    requires d < 16
    ensures DigitValue(c) == d && !IsSpace(c) && c != '-' && c != '+'
  {
    if d < 10 then ('0' as int + d) as char else ('a' as int + d - 10) as char
  }

  /** The decimal spelling of `n`, without leading zeros. */
  function Decimal(n: nat): (r: Text)
    ensures r != [] && forall i :: 0 <= i < |r| ==> IsDigitIn(r[i], 10)
  {
    if n < 10 then [DigitChar(n)] else Decimal(n / 10) + [DigitChar(n % 10)]
  }

  lemma {:induction false} DigitsValueOfDecimal(n: nat)
    ensures DigitsValue(Decimal(n), 10) == n
  {
    if n >= 10 {
      var d := Decimal(n);
      assert d[..|d| - 1] == Decimal(n / 10);
      DigitsValueOfDecimal(n / 10);
    }
  }

  lemma {:induction false} DigitPrefixOfDigits(s: Text, base: nat)
    requires forall i :: 0 <= i < |s| ==> IsDigitIn(s[i], base)
    ensures DigitPrefix(s, base) == s
  {
    if s != [] {
      DigitPrefixOfDigits(s[1..], base);
    }
  }

  /** `strtoul` reads back every decimal spelling of an `unsigned long`. */
  lemma DecimalRoundTrip(n: nat)
    requires n <= ULongMax
    ensures StrToUl(Decimal(n), 10) == n
  {
    var d := Decimal(n);
    assert DigitValue(d[0]) < 10;
    assert !IsSpace(d[0]) && d[0] != '-' && d[0] != '+';
    assert SkipSpace(d) == d;
    DigitPrefixOfDigits(d, 10);
    DigitsValueOfDecimal(n);
  }

  /** Two hex digits, as `strtoul(strb, NULL, 16)` reads them. */
  lemma HexPairValue(a: CChar, b: CChar)
    requires IsDigitIn(a, 16) && IsDigitIn(b, 16)
    ensures StrToUl([a, b], 16) == 16 * DigitValue(a) + DigitValue(b)
  {
    var s: Text := [a, b];
    assert !IsSpace(a) && a != '-' && a != '+';
    assert SkipSpace(s) == s;
    DigitPrefixOfDigits(s, 16);
    assert s[..1] == [a];
    assert DigitsValue([a], 16) == DigitValue(a) by {
      assert [a][..0] == [];
    }
  }

  /** Lower-case hex spelling, two digits per byte. */
  function HexEncode(bs: seq<byte>): (r: Text)
    ensures |r| == 2 * |bs|
  {
    seq(2 * |bs|, j requires 0 <= j < 2 * |bs| =>
      if j % 2 == 0 then DigitChar(bs[j / 2] / 16) else DigitChar(bs[j / 2] % 16))
  }

  /** Every byte survives being spelled in hex and read back two digits at a time. */
  lemma HexEncodeRoundTrip(bs: seq<byte>, i: nat)
    requires i < |bs|
    ensures LowByte(StrToUl([HexEncode(bs)[2 * i], HexEncode(bs)[2 * i + 1]], 16)) == bs[i]
  {
    var h := HexEncode(bs);
    var hi, lo := bs[i] / 16, bs[i] % 16;
    assert (2 * i) / 2 == i && (2 * i) % 2 == 0;
    assert (2 * i + 1) / 2 == i && (2 * i + 1) % 2 == 1;
    var a, b := h[2 * i], h[2 * i + 1];
    assert a == DigitChar(hi) && b == DigitChar(lo);
    HexPairValue(a, b);
    assert 16 * hi + lo == bs[i];
  }
}
