/**
 * What `sscanf(token, "%x", &value)` stores into an `unsigned int`
 * (ISO C11 section 7.21.6.2 for `%x`, section 7.22.1.4 for the `strtoul`
 * subject sequence it follows): leading white space is skipped, an
 * optional sign and an optional `0x`/`0X` prefix are accepted, then the
 * longest run of hex digits is converted.  When no hex digit stands where
 * the number must start (as in `"zz"`, `"z5"` or `"-"`) the conversion
 * fails and `value` keeps what it held.
 *
 * Two details follow the GNU C library on a platform with 64-bit
 * `unsigned long` rather than the letter of the standard:
 *  - the value stored for a number that does not fit an `unsigned int`:
 *    `strtoul` saturates at ULONG_MAX, a minus sign negates modulo 2^64,
 *    and the result is truncated to 32 bits;
 *  - `0x` or `0X` not followed by a hex digit is read as the number 0
 *    (section 7.21.6.2 would make it a matching failure).
 */
module HexScan {
  import opened CStrings

  datatype Option<T> = None | Some(value: T)

  const UINT_MAX: nat := 0xffff_ffff
  const ULONG_MAX: nat := 0xffff_ffff_ffff_ffff

  predicate IsHexDigit(c: char) {
    '0' <= c <= '9' || 'a' <= c <= 'f' || 'A' <= c <= 'F'
  }

  predicate AllHex(ds: seq<char>) {
    forall k :: 0 <= k < |ds| ==> IsHexDigit(ds[k])
  }

  function DigitValue(c: char): (d: nat)
    requires IsHexDigit(c)
    ensures d < 16
  {
    if '0' <= c <= '9' then c as nat - '0' as nat
    else if 'a' <= c <= 'f' then c as nat - 'a' as nat + 10
    else c as nat - 'A' as nat + 10
  }

  /** The lower-case digit `printf("%x")` writes for `d`. */
  function HexChar(d: nat): (c: char)
    requires d < 16
    ensures IsHexDigit(c) && DigitValue(c) == d
    ensures d != 0 ==> c != '0'
  {
    if d < 10 then ('0' as nat + d) as char else ('a' as nat + d - 10) as char
  }

  /** The number a string of hex digits denotes, most significant first. */
  function HexDigitsValue(ds: seq<char>): nat
    requires AllHex(ds)
  {
    if ds == [] then 0
    else HexDigitsValue(ds[..|ds| - 1]) * 16 + DigitValue(ds[|ds| - 1])
  }

  function Pow16(k: nat): nat {
    if k == 0 then 1 else 16 * Pow16(k - 1)
  }

  /** A trailing zero digit multiplies the value by sixteen. */
  lemma AppendZero(ds: seq<char>)
    requires AllHex(ds)
    ensures AllHex(ds + "0") && HexDigitsValue(ds + "0") == 16 * HexDigitsValue(ds)
  {
    assert (ds + "0")[..|ds|] == ds;
  }

  /** Length of the leading run of hex digits. */
  function HexRun(s: seq<char>): (n: nat)
    ensures n <= |s| && AllHex(s[..n])
    ensures n < |s| ==> !IsHexDigit(s[n])
  {
    if s == [] || !IsHexDigit(s[0]) then 0
    else
      var n := 1 + HexRun(s[1..]);
      assert s[..n] == [s[0]] + s[1..][..n - 1];
      n
  }

  /** Any digit run followed by a non-digit (or the end) is the one HexRun finds. */
  lemma HexRunUnique(s: seq<char>, j: nat)
    requires j <= |s| && AllHex(s[..j])
    requires j < |s| ==> !IsHexDigit(s[j])
    ensures HexRun(s) == j
  {
    var n := HexRun(s);
    assert forall i :: 0 <= i < j ==> IsHexDigit(s[i]) by {
      forall i | 0 <= i < j ensures IsHexDigit(s[i]) {
        assert s[..j][i] == s[i];
      }
    }
    assert forall i :: 0 <= i < n ==> IsHexDigit(s[i]) by {
      forall i | 0 <= i < n ensures IsHexDigit(s[i]) {
        assert s[..n][i] == s[i];
      }
    }
  }

  /** `s` without its leading white space. */
  function SkipSpace(s: seq<char>): (t: seq<char>)
    ensures |t| <= |s|
    ensures t == [] || !IsSpace(t[0])
    ensures forall k :: 0 <= k < |s| - |t| ==> IsSpace(s[k])
  {
    if s != [] && IsSpace(s[0]) then SkipSpace(s[1..]) else s
  }

  /**
   * The `unsigned int` that `%x` stores for a subject sequence of the
   * given sign and magnitude.
   */
  function StoredValue(negative: bool, magnitude: nat): (v: nat)
    ensures v <= UINT_MAX
    ensures !negative && magnitude <= UINT_MAX ==> v == magnitude
    ensures negative && 0 < magnitude <= UINT_MAX ==> v == UINT_MAX + 1 - magnitude
  {
    if magnitude > ULONG_MAX then UINT_MAX
    else if negative then (ULONG_MAX + 1 - magnitude) % (ULONG_MAX + 1) % (UINT_MAX + 1)
    else magnitude % (UINT_MAX + 1)
  }

  /**
   * The magnitude of an unsigned subject sequence: an optional `0x`/`0X`
   * prefix (taken only when a hex digit follows it) and the leading digits.
   */
  function Magnitude(u: seq<char>): (r: Option<nat>)
    ensures r.None? <==> u == [] || !IsHexDigit(u[0])
  {
    var digits :=
      if |u| >= 3 && u[0] == '0' && (u[1] == 'x' || u[1] == 'X') && IsHexDigit(u[2]) then u[2..]
      else u;
    var n := HexRun(digits);
    if n == 0 then None else Some(HexDigitsValue(digits[..n]))
  }

  /** The conversion after white space: an optional sign, then the magnitude. */
  function ScanSigned(t: seq<char>): (r: Option<nat>)
    ensures r.Some? ==> r.value <= UINT_MAX
  {
    var negative := t != [] && t[0] == '-';
    var u := if t != [] && (t[0] == '+' || t[0] == '-') then t[1..] else t;
    match Magnitude(u)
    case None => None
    case Some(m) => Some(StoredValue(negative, m))
  }

  /** The value `sscanf(tok, "%x", &value)` stores, or None on a matching failure. */
  function ScanHex(tok: seq<char>): (r: Option<nat>)
    ensures r.Some? ==> r.value <= UINT_MAX
  {
    ScanSigned(SkipSpace(tok))
  }

  /** The variable a conversion with result `r` stores into: unchanged when nothing matched. */
  function Assigned(r: Option<nat>, value: nat): nat {
    match r
    case Some(x) => x
    case None => value
  }

  /** `value` after `sscanf(tok, "%x", &value)`. */
  function ScanInto(tok: seq<char>, value: nat): (v: nat)
    ensures value <= UINT_MAX ==> v <= UINT_MAX
    ensures ScanHex(tok).None? ==> v == value
  {
    Assigned(ScanHex(tok), value)
  }

  /** A byte written the way `printf("%x")` writes it: one or two lower-case digits. */
  function FormatHex(b: byte): (s: seq<char>)
    ensures 1 <= |s| <= 2 && AllHex(s)
    ensures ',' !in s
  {
    if b < 16 then [HexChar(b as nat)]
    else [HexChar(b as nat / 16), HexChar(b as nat % 16)]
  }

  /** Scanning a formatted byte gives the byte back. */
  lemma ScanFormatHex(b: byte)
    ensures ScanHex(FormatHex(b)) == Some(b as nat)
  {
    var s := FormatHex(b);
    if b < 16 {
      ScanHexPrefix(s, []);
      assert s + [] == s;
    } else {
      var hi, lo := b as nat / 16, b as nat % 16;
      assert s[..1] == [s[0]] && s[..1][..0] == [];
      assert DigitValue(s[0]) == hi && DigitValue(s[1]) == lo;
      assert HexDigitsValue(s[..1]) == hi;
      assert HexDigitsValue(s) == hi * 16 + lo;
      ScanHexPrefix(s, []);
      assert s + [] == s;
    }
  }

  /**
   * A token is read up to its first character that is not a hex digit:
   * the digits before it are the value, whatever follows.
   */
  lemma ScanHexPrefix(ds: seq<char>, rest: seq<char>)
    requires ds != [] && AllHex(ds) && HexDigitsValue(ds) <= UINT_MAX
    requires rest == [] || !IsHexDigit(rest[0])
    requires ds[0] != '0' || |ds| > 1 || rest == [] || (rest[0] != 'x' && rest[0] != 'X')
    ensures ScanHex(ds + rest) == Some(HexDigitsValue(ds))
  {
    assert (ds + rest)[0] == ds[0];
    MagnitudePrefix(ds, rest);
    ScanUnsigned(ds + rest);
  }

  /** A token that starts with a digit is read without sign or white space. */
  lemma ScanUnsigned(t: seq<char>)
    requires t != [] && IsHexDigit(t[0])
    ensures Magnitude(t).Some? && ScanHex(t) == Some(StoredValue(false, Magnitude(t).value))
  {
    assert SkipSpace(t) == t;
  }

  lemma MagnitudePrefix(ds: seq<char>, rest: seq<char>)
    requires ds != [] && AllHex(ds)
    requires rest == [] || !IsHexDigit(rest[0])
    requires ds[0] != '0' || |ds| > 1 || rest == [] || (rest[0] != 'x' && rest[0] != 'X')
    ensures Magnitude(ds + rest) == Some(HexDigitsValue(ds))
  {
    var s := ds + rest;
    assert s[..|ds|] == ds;
    HexRunUnique(s, |ds|);
    assert |ds| > 1 ==> s[1] == ds[1];
    assert |ds| == 1 && rest != [] ==> s[1] == rest[0];
    assert !(|s| >= 3 && s[0] == '0' && (s[1] == 'x' || s[1] == 'X'));
  }

  lemma {:induction false} SkipSpaceSkipsSpace(ws: seq<char>, t: seq<char>)
    requires forall k :: 0 <= k < |ws| ==> IsSpace(ws[k])
    ensures SkipSpace(ws + t) == SkipSpace(t)
  {
    if ws != [] {
      assert (ws + t)[1..] == ws[1..] + t;
      SkipSpaceSkipsSpace(ws[1..], t);
    } else {
      assert ws + t == t;
    }
  }

  /** White space in front of a token does not change what is read. */
  lemma ScanHexSkipsSpace(ws: seq<char>, t: seq<char>)
    requires forall k :: 0 <= k < |ws| ==> IsSpace(ws[k])
    ensures ScanHex(ws + t) == ScanHex(t)
  {
    SkipSpaceSkipsSpace(ws, t);
  }

  /** `"fg"` reads as 0x0f: the `g` ends the number instead of rejecting it. */
  lemma TrailingGarbageIgnored()
    ensures ScanHex("fg") == Some(0x0f)
  {
    ScanHexPrefix("f", "g");
    assert "f" + "g" == "fg";
  }

  /** A one followed by `k` zeros is sixteen to the `k`. */
  lemma {:induction false} OneThenZeros(k: nat)
    ensures AllHex(['1'] + seq(k, _ => '0'))
    ensures HexDigitsValue(['1'] + seq(k, _ => '0')) == Pow16(k)
  {
    if k > 0 {
      var d := ['1'] + seq(k - 1, _ => '0');
      OneThenZeros(k - 1);
      AppendZero(d);
      assert ['1'] + seq(k, _ => '0') == d + "0";
    }
  }

  /**
   * `"100000000"` (2^32) is stored as 0 in an `unsigned int`, so a check
   * of the stored value against 0xff does not catch it.
   */
  lemma NineDigitTokenWraps()
    ensures ScanHex("100000000") == Some(0)
  {
    var s := "100000000";
    OneThenZeros(8);
    assert s == ['1'] + seq(8, _ => '0');
    assert Pow16(8) == 0x1_0000_0000;
    HexRunUnique(s, 9);
    assert s[..9] == s;
    ScanUnsigned(s);
    assert Magnitude(s) == Some(0x1_0000_0000);
    assert StoredValue(false, 0x1_0000_0000) == 0;
  }

  /** `"0xg"` is read as 0: the `0` is the number and `xg` is left over. */
  lemma HexPrefixWithoutDigit(tok: seq<char>)
    requires tok == "0xg"
    ensures ScanHex(tok) == Some(0)
  {
    assert !IsSpace(tok[0]) && !IsHexDigit(tok[1]) && !IsHexDigit(tok[2]);
    assert SkipSpace(tok) == tok;
    assert tok[..1] == "0";
    HexRunUnique(tok, 1);
    assert HexDigitsValue("0") == DigitValue('0') == 0;
    assert Magnitude(tok) == Some(0);
    assert ScanSigned(tok) == Some(StoredValue(false, 0));
  }
}
