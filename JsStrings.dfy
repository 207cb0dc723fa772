/**
 * The JavaScript string operations the application relies on, over `seq<char>`.
 * Whitespace is the set that `\s` and `String.prototype.trim` share
 * (WhiteSpace and LineTerminator of ECMAScript); lower-casing is ASCII only.
 */
module JsStrings {
  import opened Wrappers

  /** `\s` in a regular expression, and what `trim` removes. */
  predicate IsSpace(c: char) {
    c == '\t' || c == '\n' || c == '\U{000B}' || c == '\U{000C}' || c == '\r' || c == ' '
    || c == '\U{00A0}' || c == '\U{1680}' || ('\U{2000}' <= c <= '\U{200A}')
    || c == '\U{2028}' || c == '\U{2029}' || c == '\U{202F}' || c == '\U{205F}'
    || c == '\U{3000}' || c == '\U{FEFF}'
  }

  predicate AllSpace(s: string) {
    forall i :: 0 <= i < |s| ==> IsSpace(s[i])
  }

  /** `s.trimStart()`: a suffix of `s` that starts with a non-space, or is empty. */
  function TrimStart(s: string): (r: string)
    ensures |r| <= |s| && r == s[|s| - |r|..]
    ensures AllSpace(s[..|s| - |r|])
    ensures |r| > 0 ==> !IsSpace(r[0])
  {
    if |s| > 0 && IsSpace(s[0]) then TrimStart(s[1..]) else s
  }

  /** `s.trimEnd()`: a prefix of `s` that ends with a non-space, or is empty. */
  function TrimEnd(s: string): (r: string)
    ensures |r| <= |s| && r == s[..|r|]
    ensures AllSpace(s[|r|..])
    ensures |r| > 0 ==> !IsSpace(r[|r| - 1])
  {
    if |s| > 0 && IsSpace(s[|s| - 1]) then TrimEnd(s[..|s| - 1]) else s
  }

  /** `s.trim()`. */
  function Trim(s: string): string {
    TrimEnd(TrimStart(s))
  }

  lemma {:induction false} TrimStartAllSpace(s: string)
    ensures AllSpace(TrimStart(s)) <==> AllSpace(s)
  {
    if |s| > 0 && IsSpace(s[0]) {
      TrimStartAllSpace(s[1..]);
      assert AllSpace(s) <==> AllSpace(s[1..]) by {
        if AllSpace(s[1..]) {
          forall i | 0 <= i < |s| ensures IsSpace(s[i]) {
            if i > 0 { assert s[i] == s[1..][i - 1]; }
          }
        }
      }
    }
  }

  lemma TrimEndEmptyIffAllSpace(t: string)
    ensures TrimEnd(t) == "" <==> AllSpace(t)
  {
  }

  /** `s.trim()` is falsy exactly when `s` is all whitespace. */
  lemma TrimEmptyIffAllSpace(s: string)
    ensures Trim(s) == "" <==> AllSpace(s)
  {
    TrimStartAllSpace(s);
    TrimEndEmptyIffAllSpace(TrimStart(s));
  }

  /** A trimmed string has no whitespace at either end, and trimming it again changes nothing. */
  lemma TrimIdempotent(s: string)
    ensures Trim(Trim(s)) == Trim(s)
    ensures |Trim(s)| > 0 ==> !IsSpace(Trim(s)[0]) && !IsSpace(Trim(s)[|Trim(s)| - 1])
  {
    var t := TrimStart(s);
    var r := TrimEnd(t);
    if |r| > 0 {
      assert r[0] == t[0];
      assert TrimStart(r) == r;
    }
  }

  function StartsWith(s: string, p: string): bool {
    |p| <= |s| && s[..|p|] == p
  }

  function EndsWith(s: string, p: string): bool {
    |p| <= |s| && s[|s| - |p|..] == p
  }

  /** `s.indexOf(p)`: the first position where `p` occurs in `s`. */
  function IndexOf(s: string, p: string): (r: Option<nat>)
    ensures r.Some? ==> r.value + |p| <= |s| && s[r.value..r.value + |p|] == p
    ensures r.Some? ==> forall j :: 0 <= j < r.value ==> !StartsWith(s[j..], p)
    ensures r.None? ==> forall j :: 0 <= j <= |s| ==> !StartsWith(s[j..], p)
    decreases |s|
  {
    if StartsWith(s, p) then Some(0)
    else if |s| == 0 then None
    else match IndexOf(s[1..], p)
      case Some(i) =>
        TailSlice(s, i, |p|);
        TailSuffixes(s);
        Some(i + 1)
      case None => (TailSuffixes(s); None)
  }

  lemma TailSlice(s: string, i: nat, n: nat)
    requires 1 <= |s| && i + n <= |s| - 1
    ensures s[i + 1..i + 1 + n] == s[1..][i..i + n]
  {
    var a := s[i + 1..i + 1 + n];
    var b := s[1..][i..i + n];
    forall k | 0 <= k < n
      ensures a[k] == b[k]
    {
      assert a[k] == s[i + 1 + k];
    }
    assert a == b;
  }

  lemma TailSuffixes(s: string)
    requires 1 <= |s|
    ensures forall j :: 1 <= j <= |s| ==> s[j..] == s[1..][j - 1..]
  {
  }

  /** `s.includes(p)`. */
  function Includes(s: string, p: string): bool {
    IndexOf(s, p).Some?
  }

  /** `s.replace(p, rep)` with a string pattern: only the first occurrence is replaced. */
  function ReplaceFirst(s: string, p: string, rep: string): string {
    match IndexOf(s, p)
    case Some(i) => s[..i] + rep + s[i + |p|..]
    case None => s
  }

  /** The index of the first `c` in `s`. */
  function IndexOfChar(s: string, c: char): (i: nat)
    requires c in s
    ensures i < |s| && s[i] == c && c !in s[..i]
  {
    if s[0] == c then 0 else IndexOfChar(s[1..], c) + 1
  }

  /** The first `c` of `u + [c] + v`, when `u` has none, is right after `u`. */
  lemma {:induction false} IndexOfCharAfter(u: string, c: char, v: string)
    requires c !in u
    ensures c in u + [c] + v && IndexOfChar(u + [c] + v, c) == |u|
    decreases |u|
  {
    assert (u + [c] + v)[|u|] == c;
    if |u| > 0 {
      assert (u + [c] + v)[1..] == u[1..] + [c] + v;
      IndexOfCharAfter(u[1..], c, v);
    }
  }

  /** `s.split(c)` with a one-character separator. */
  function Split(s: string, c: char): (parts: seq<string>)
    ensures |parts| >= 1
    ensures forall i :: 0 <= i < |parts| ==> c !in parts[i]
    decreases |s|
  {
    if c !in s then [s]
    else
      var i := IndexOfChar(s, c);
      [s[..i]] + Split(s[i + 1..], c)
  }

  /** `parts.join(sep)`. */
  function Join(parts: seq<string>, sep: string): string {
    if |parts| == 0 then ""
    else if |parts| == 1 then parts[0]
    else parts[0] + sep + Join(parts[1..], sep)
  }

  /** Joining the pieces of a split with the separator gives back the original string. */
  lemma {:induction false} SplitJoin(s: string, c: char)
    ensures Join(Split(s, c), [c]) == s
    decreases |s|
  {
    if c in s {
      var i := IndexOfChar(s, c);
      var rest := Split(s[i + 1..], c);
      assert Split(s, c) == [s[..i]] + rest;
      assert Join(Split(s, c), [c]) == s[..i] + [c] + Join(rest, [c]);
      SplitJoin(s[i + 1..], c);
      assert s == s[..i] + [c] + s[i + 1..];
    }
  }

  /** Splitting the join of separator-free pieces gives back the pieces. */
  lemma {:induction false} JoinSplit(parts: seq<string>, c: char)
    requires |parts| >= 1
    requires forall i :: 0 <= i < |parts| ==> c !in parts[i]
    ensures Split(Join(parts, [c]), c) == parts
  {
    if |parts| > 1 {
      var rest := Join(parts[1..], [c]);
      var s := parts[0] + [c] + rest;
      assert s[|parts[0]|] == c;
      assert s[..|parts[0]|] == parts[0];
      assert c in s;
      assert IndexOfChar(s, c) == |parts[0]|;
      assert s[|parts[0]| + 1..] == rest;
      JoinSplit(parts[1..], c);
    }
  }

  /** Joining one more piece appends the separator and the piece. */
  lemma {:induction false} JoinSnoc(parts: seq<string>, k: string, sep: string)
    requires |parts| >= 1
    ensures Join(parts + [k], sep) == Join(parts, sep) + sep + k
  {
    if |parts| > 1 {
      assert (parts + [k])[1..] == parts[1..] + [k];
      JoinSnoc(parts[1..], k, sep);
    }
  }

  /** The join starts with the first piece, so it is non-empty when that piece is. */
  lemma JoinNonEmpty(parts: seq<string>, sep: string)
    requires |parts| >= 1 && parts[0] != ""
    ensures Join(parts, sep) != ""
  {
    if |parts| > 1 {
      assert Join(parts, sep)[..|parts[0]|] == parts[0];
    }
  }

  /**
   * `s[i..j]` is what is left of `s` between a leading and a trailing run of
   * white space, and it starts and ends with a non-space (or is empty).
   */
  predicate TrimWindow(s: string, i: nat, j: nat) {
    && i <= j <= |s|
    && AllSpace(s[..i]) && AllSpace(s[j..])
    && (i < j ==> !IsSpace(s[i]) && !IsSpace(s[j - 1]))
  }

  /** `t` is `s` with its white space removed at both ends. */
  ghost predicate IsTrimOf(t: string, s: string) {
    exists i: nat, j: nat :: TrimWindow(s, i, j) && t == s[i..j]
  }

  /** Every character outside a trim window is white space. */
  lemma OutsideWindowIsSpace(s: string, i: nat, j: nat)
    requires TrimWindow(s, i, j)
    ensures forall k :: 0 <= k < |s| && !(i <= k < j) ==> IsSpace(s[k])
  {
    forall k | 0 <= k < |s| && !(i <= k < j) ensures IsSpace(s[k]) {
      if k < i { assert s[k] == s[..i][k]; } else { assert s[k] == s[j..][k - j]; }
    }
  }

  /** Two trim windows of the same string cut out the same text. */
  lemma TrimWindowUnique(s: string, i: nat, j: nat, i2: nat, j2: nat)
    requires TrimWindow(s, i, j) && TrimWindow(s, i2, j2)
    ensures s[i..j] == s[i2..j2]
  {
    OutsideWindowIsSpace(s, i, j);
    OutsideWindowIsSpace(s, i2, j2);
    if i < j {
      assert !IsSpace(s[i]) && !IsSpace(s[j - 1]);
    }
    if i2 < j2 {
      assert !IsSpace(s[i2]) && !IsSpace(s[j2 - 1]);
    }
  }

  /** `trim` is exactly the text between the white-space runs at the two ends. */
  lemma TrimIsTrimOf(t: string, s: string)
    ensures IsTrimOf(t, s) <==> t == Trim(s)
  {
    var i, j := TrimHasWindow(s);
    if IsTrimOf(t, s) {
      var i2: nat, j2: nat :| TrimWindow(s, i2, j2) && t == s[i2..j2];
      TrimWindowUnique(s, i, j, i2, j2);
    }
  }

  /** Where `trim` cuts: after the leading white space, for the length of the result. */
  lemma TrimHasWindow(s: string) returns (i: nat, j: nat)
    ensures TrimWindow(s, i, j) && Trim(s) == s[i..j]
  {
    var u := TrimStart(s);
    var r := TrimEnd(u);
    i := |s| - |u|;
    j := i + |r|;
    WindowOf(s, u, r, i, j);
  }

  /**
   * A suffix `u` of `s` after white space, opening with a non-space, and a
   * prefix `r` of `u` before white space, closing with a non-space: `r` sits
   * in a trim window of `s`.
   */
  lemma WindowOf(s: string, u: string, r: string, i: nat, j: nat)
    requires |u| <= |s| && u == s[|s| - |u|..] && AllSpace(s[..|s| - |u|])
    requires |u| > 0 ==> !IsSpace(u[0])
    requires |r| <= |u| && r == u[..|r|] && AllSpace(u[|r|..])
    requires |r| > 0 ==> !IsSpace(r[|r| - 1])
    requires i == |s| - |u| && j == i + |r|
    ensures TrimWindow(s, i, j) && r == s[i..j]
  {
    SliceOfSuffix(s, i, |r|);
    if |r| > 0 {
      assert s[i] == u[0];
      assert s[i + |r| - 1] == r[|r| - 1];
    }
  }

  /** A non-empty text in front of another is its first character in front of the rest of both. */
  lemma HeadThenTail(w: string, v: string)
    requires |w| > 0
    ensures [w[0]] + (w[1..] + v) == w + v
  {
    assert w == [w[0]] + w[1..];
  }

  /** A prefix and the rest of a suffix of `s` are slices of `s`. */
  lemma SliceOfSuffix(s: string, i: nat, n: nat)
    requires i + n <= |s|
    ensures s[i..][..n] == s[i..i + n] && s[i..][n..] == s[i + n..]
  {
  }

  function LowerChar(c: char): char {
    if 'A' <= c <= 'Z' then (c as int + 32) as char else c
  }

  /** Every character of `Trim(s)` is a character of `s`. */
  lemma TrimChars(s: string)
    ensures forall c :: c in Trim(s) ==> c in s
  {
    var t := TrimStart(s);
    assert forall c :: c in t ==> c in s;
    assert forall c :: c in TrimEnd(t) ==> c in t;
  }

  /** A string that neither starts nor ends with white space is its own trim. */
  lemma TrimNoEdgeSpace(s: string)
    requires |s| > 0 ==> !IsSpace(s[0]) && !IsSpace(s[|s| - 1])
    ensures Trim(s) == s
  {
    assert TrimStart(s) == s;
  }

  /** Lower-casing leaves no upper-case ASCII letter. */
  lemma ToLowerAsciiNoUpper(s: string)
    ensures forall c :: c in ToLowerAscii(s) ==> !('A' <= c <= 'Z')
  {
    var l := ToLowerAscii(s);
    forall c | c in l
      ensures !('A' <= c <= 'Z')
    {
      var i :| 0 <= i < |l| && l[i] == c;
    }
  }

  /** A string without upper-case ASCII letters is its own lower-case form. */
  lemma ToLowerAsciiFixed(s: string)
    requires forall c :: c in s ==> !('A' <= c <= 'Z')
    ensures ToLowerAscii(s) == s
  {
    assert forall i :: 0 <= i < |s| ==> s[i] in s;
  }

  /** `s.toLowerCase()` for ASCII letters; other characters are kept. */
  function ToLowerAscii(s: string): (r: string)
    ensures |r| == |s|
    ensures forall i :: 0 <= i < |s| ==> r[i] == LowerChar(s[i])
  {
    seq(|s|, i requires 0 <= i < |s| => LowerChar(s[i]))
  }

  predicate IsDecDigit(c: char) {
    '0' <= c <= '9'
  }

  predicate IsHexDigit(c: char) {
    IsDecDigit(c) || 'a' <= c <= 'f' || 'A' <= c <= 'F'
  }

  predicate IsRadixDigit(c: char, hex: bool) {
    if hex then IsHexDigit(c) else IsDecDigit(c)
  }

  function DigitValue(c: char): nat
    requires IsDecDigit(c) || IsHexDigit(c)
  {
    if IsDecDigit(c) then c as int - '0' as int
    else if 'a' <= c <= 'f' then c as int - 'a' as int + 10
    else c as int - 'A' as int + 10
  }

  /** The value of a string of base-10 or base-16 digits, most significant first. */
  function DigitsValue(ds: string, hex: bool): nat
    requires forall i :: 0 <= i < |ds| ==> IsRadixDigit(ds[i], hex)
    decreases |ds|
  {
    if |ds| == 0 then 0
    else
      assert IsRadixDigit(ds[|ds| - 1], hex);
      DigitsValue(ds[..|ds| - 1], hex) * (if hex then 16 else 10) + DigitValue(ds[|ds| - 1])
  }

  /** The longest prefix of `s` made of digits of the radix. */
  function TakeDigits(s: string, hex: bool): (d: string)
    ensures |d| <= |s| && d == s[..|d|]
    ensures forall i :: 0 <= i < |d| ==> IsRadixDigit(d[i], hex)
    ensures |d| < |s| ==> !IsRadixDigit(s[|d|], hex)
  {
    if |s| > 0 && IsRadixDigit(s[0], hex) then [s[0]] + TakeDigits(s[1..], hex) else ""
  }

  /**
   * `parseInt(s)` with no radix: leading whitespace is skipped, one sign is read,
   * a `0x`/`0X` prefix selects base 16, and the longest run of digits is read.
   * None is NaN (no digit at all).
   */
  function ParseInt(s: string): Option<int> {
    ParseSigned(TrimStart(s))
  }

  function ParseSigned(t: string): Option<int> {
    if |t| > 0 && (t[0] == '-' || t[0] == '+') then
      match ParseUnsigned(t[1..])
      case Some(v) => Some(if t[0] == '-' then -(v as int) else v as int)
      case None => None
    else ParseUnsigned(t)
  }

  function ParseUnsigned(u: string): Option<nat> {
    var hex := |u| >= 2 && u[0] == '0' && (u[1] == 'x' || u[1] == 'X');
    var d := TakeDigits(if hex then u[2..] else u, hex);
    if |d| == 0 then None else Some(DigitsValue(d, hex))
  }

  /** `parseInt(s) || 0`: NaN and zero both become 0. */
  function ParseIntOrZero(s: string): int {
    match ParseInt(s)
    case Some(n) => n
    case None => 0
  }

  // ---------------------------------------------------------------------------
  // `Number(s)`, as far as its sign.

  /** The radix a `0x`, `0o` or `0b` prefix selects; 0 for any other letter. */
  function RadixOfPrefix(c: char): nat {
    if c == 'x' || c == 'X' then 16
    else if c == 'o' || c == 'O' then 8
    else if c == 'b' || c == 'B' then 2
    else 0
  }

  predicate IsDigitOf(c: char, radix: nat) {
    if radix == 16 then IsHexDigit(c) else IsDecDigit(c) && c as int - '0' as int < radix
  }

  /** A non-empty run of digits of the radix. */
  predicate DigitsOf(s: string, radix: nat) {
    |s| > 0 && forall i :: 0 <= i < |s| ==> IsDigitOf(s[i], radix)
  }

  predicate AllZeros(s: string) {
    forall i :: 0 <= i < |s| ==> s[i] == '0'
  }

  /** Nothing, or `e`/`E` followed by an optional sign and decimal digits. */
  predicate ExponentPart(x: string) {
    x == "" ||
    ((x[0] == 'e' || x[0] == 'E') &&
     if |x| > 1 && (x[1] == '+' || x[1] == '-') then DigitsOf(x[2..], 10) else DigitsOf(x[1..], 10))
  }

  /**
   * The significant digits of an unsigned decimal literal (`12`, `1.5`, `.5`
   * or `5.`, each with an optional exponent part), integer and fraction
   * digits together; None when `u` is not such a literal.
   */
  function DecimalDigits(u: string): Option<string> {
    var ip := TakeDigits(u, false);
    var r1 := u[|ip|..];
    var dot := |r1| > 0 && r1[0] == '.';
    var fp := if dot then TakeDigits(r1[1..], false) else "";
    var r2 := if dot then r1[1 + |fp|..] else r1;
    if |ip| + |fp| > 0 && ExponentPart(r2) then Some(ip + fp) else None
  }

  /**
   * `Number(s)` as far as its sign: Some(1), Some(0) or Some(-1), and None
   * for NaN. White space around the literal is ignored and a blank string is
   * 0; a `0x`, `0o` or `0b` literal takes no sign; a decimal literal may be
   * signed, and its exponent never decides whether it is zero.
   */
  function StringNumberSign(s: string): (r: Option<int>)
    ensures r.Some? ==> -1 <= r.value <= 1
    ensures AllSpace(s) ==> r == Some(0)
  {
    TrimEmptyIffAllSpace(s);
    var t := Trim(s);
    if t == "" then Some(0)
    else if |t| >= 2 && t[0] == '0' && RadixOfPrefix(t[1]) > 0 then
      if DigitsOf(t[2..], RadixOfPrefix(t[1])) then Some(if AllZeros(t[2..]) then 0 else 1) else None
    else
      var u := if t[0] == '-' || t[0] == '+' then t[1..] else t;
      var magnitude :=
        if u == "Infinity" then Some(1)
        else match DecimalDigits(u)
          case Some(ds) => Some(if AllZeros(ds) then 0 else 1)
          case None => None;
      match magnitude
      case Some(m) => Some(if t[0] == '-' then -m else m)
      case None => None
  }

  /** Decimal digits read as zero exactly when every one of them is '0'. */
  lemma {:induction false} DigitsValueZero(ds: string)
    requires forall i :: 0 <= i < |ds| ==> IsDecDigit(ds[i])
    ensures DigitsValue(ds, false) == 0 <==> AllZeros(ds)
    decreases |ds|
  {
    if |ds| > 0 {
      var init := ds[..|ds| - 1];
      assert forall i :: 0 <= i < |init| ==> init[i] == ds[i];
      DigitsValueZero(init);
      assert AllZeros(ds) <==> AllZeros(init) && ds[|ds| - 1] == '0';
    }
  }

  /** A run of decimal digits is a decimal literal whose significant digits are all of it. */
  lemma DecimalDigitsOfRun(ds: string)
    requires |ds| > 0 && forall i :: 0 <= i < |ds| ==> IsDecDigit(ds[i])
    ensures DecimalDigits(ds) == Some(ds)
  {
    TakeAllDigits(ds);
    assert ds[|ds|..] == "";
    assert ds + "" == ds;
  }

  /** A run of decimal digits reads as positive unless every digit is '0'. */
  lemma DigitRunSign(ds: string)
    requires |ds| > 0 && forall i :: 0 <= i < |ds| ==> IsDecDigit(ds[i])
    ensures StringNumberSign(ds) == Some(if AllZeros(ds) then 0 else 1)
  {
    SignOrDigitNotSpace(ds[0]);
    SignOrDigitNotSpace(ds[|ds| - 1]);
    TrimNoEdgeSpace(ds);
    DecimalDigitsOfRun(ds);
    assert RadixOfPrefix(ds[0]) == 0;
    if |ds| >= 2 { assert RadixOfPrefix(ds[1]) == 0; }
    assert ds != "Infinity";
  }

  /** A minus sign before a run of decimal digits negates it. */
  lemma NegatedRunSign(ds: string)
    requires |ds| > 0 && forall i :: 0 <= i < |ds| ==> IsDecDigit(ds[i])
    ensures StringNumberSign("-" + ds) == Some(if AllZeros(ds) then 0 else -1)
  {
    var t := "-" + ds;
    SignOrDigitNotSpace(t[0]);
    assert t[|t| - 1] == ds[|ds| - 1];
    SignOrDigitNotSpace(t[|t| - 1]);
    TrimNoEdgeSpace(t);
    assert t[1..] == ds;
    DecimalDigitsOfRun(ds);
    assert ds != "Infinity";
  }

  /** Text that opens with a character no numeric literal starts with reads as NaN. */
  lemma NoLiteralStartIsNaN(t: string)
    requires |t| > 0 && !IsSpace(t[0]) && !IsSpace(t[|t| - 1])
    requires !IsDecDigit(t[0]) && t[0] !in ".+-I"
    ensures StringNumberSign(t) == None
  {
    TrimNoEdgeSpace(t);
    assert TakeDigits(t, false) == "";
    assert t[0..] == t;
  }

  /** `Number(String(n))` has the sign of `n`: writing an integer out does not change how it compares with 0. */
  lemma IntegerStringSign(n: int)
    ensures StringNumberSign(IntToString(n)) == Some(if n > 0 then 1 else if n < 0 then -1 else 0)
  {
    var m: nat := if n < 0 then -n else n;
    var ds := NatToString(m);
    NatToStringValue(m);
    DigitsValueZero(ds);
    if n < 0 {
      NegatedRunSign(ds);
    } else {
      DigitRunSign(ds);
    }
  }

  function DigitChar(d: nat): (c: char)
    requires d < 10
    ensures IsDecDigit(c) && DigitValue(c) == d
  {
    ('0' as int + d) as char
  }

  /** `String(n)` for a natural number: its decimal digits. */
  function NatToString(n: nat): (s: string)
    ensures |s| >= 1
    ensures forall i :: 0 <= i < |s| ==> IsDecDigit(s[i])
  {
    if n < 10 then [DigitChar(n)] else NatToString(n / 10) + [DigitChar(n % 10)]
  }

  /** `String(n)` for an integer. */
  function IntToString(n: int): string {
    if n < 0 then "-" + NatToString(-n) else NatToString(n)
  }

  lemma {:induction false} NatToStringValue(n: nat)
    ensures DigitsValue(NatToString(n), false) == n
  {
    var s := NatToString(n);
    if n >= 10 {
      NatToStringValue(n / 10);
      assert s[..|s| - 1] == NatToString(n / 10);
    }
  }

  lemma TakeAllDigits(s: string)
    requires forall i :: 0 <= i < |s| ==> IsDecDigit(s[i])
    ensures TakeDigits(s, false) == s
  {
  }

  /** `parseInt` of a sign-free string of decimal digits reads all of them. */
  lemma ParseUnsignedDigits(ds: string)
    requires |ds| >= 1 && forall i :: 0 <= i < |ds| ==> IsDecDigit(ds[i])
    ensures ParseUnsigned(ds) == Some(DigitsValue(ds, false))
  {
    assert !(|ds| >= 2 && ds[0] == '0' && (ds[1] == 'x' || ds[1] == 'X'));
    TakeAllDigits(ds);
  }

  /** `parseInt(String(n))` gives back `n` for every integer. */
  lemma ParseIntRoundTrip(n: int)
    ensures ParseInt(IntToString(n)) == Some(n)
  {
    var m: nat := if n < 0 then -n else n;
    var ds := NatToString(m);
    NatToStringValue(m);
    ParseUnsignedDigits(ds);
    if n < 0 {
      ParseNegative(ds, m);
    } else {
      TrimStartNoSpace(ds);
      assert ParseSigned(ds) == ParseUnsigned(ds);
    }
  }

  /** A minus sign followed by a number `parseInt` reads whole reads as its negation. */
  lemma ParseNegative(ds: string, v: nat)
    requires ParseUnsigned(ds) == Some(v)
    ensures ParseInt("-" + ds) == Some(-(v as int))
  {
    var s := "-" + ds;
    TrimStartNoSpace(s);
    assert s[1..] == ds;
    MinusSign(s, v);
  }

  lemma MinusSign(t: string, v: nat)
    requires |t| > 0 && t[0] == '-' && ParseUnsigned(t[1..]) == Some(v)
    ensures ParseSigned(t) == Some(-(v as int))
  {
  }

  lemma TrimStartNoSpace(s: string)
    requires |s| > 0 && (s[0] == '-' || IsDecDigit(s[0]))
    ensures TrimStart(s) == s
  {
    SignOrDigitNotSpace(s[0]);
  }

  lemma SignOrDigitNotSpace(c: char)
    requires c == '-' || IsDecDigit(c)
    ensures !IsSpace(c)
  {
  }
}
