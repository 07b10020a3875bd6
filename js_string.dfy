/**
 * The JavaScript string and number built-ins that index.js relies on, written
 * out as Dafny functions: `toLowerCase`, `toUpperCase`, `trim`, `includes`,
 * `padStart`, `Number.prototype.toString(radix)` and `Number(text)` on digit
 * strings.  Case mapping is ASCII-only; `trim` strips exactly the ECMAScript
 * WhiteSpace and LineTerminator code points.
 */
module JsString {

  datatype Option<+T> = None | Some(value: T)

  // ---------------------------------------------------------------------------
  // Case mapping (ASCII letters only)
  // ---------------------------------------------------------------------------

  predicate IsAsciiUpper(c: char) { 'A' <= c <= 'Z' }

  predicate IsAsciiLower(c: char) { 'a' <= c <= 'z' }

  function LowerChar(c: char): char
  {
    if IsAsciiUpper(c) then (c as int - 'A' as int + 'a' as int) as char else c
  }

  function UpperChar(c: char): char
  {
    if IsAsciiLower(c) then (c as int - 'a' as int + 'A' as int) as char else c
  }

  /** `String.prototype.toLowerCase`, restricted to A-Z. */
  function ToLowerCase(s: string): (r: string)
    ensures |r| == |s| && forall i :: 0 <= i < |r| ==> !IsAsciiUpper(r[i])
  {
    seq(|s|, i requires 0 <= i < |s| => LowerChar(s[i]))
  }

  /** `String.prototype.toUpperCase`, restricted to a-z. */
  function ToUpperCase(s: string): (r: string)
    ensures |r| == |s| && forall i :: 0 <= i < |r| ==> !IsAsciiLower(r[i])
  {
    seq(|s|, i requires 0 <= i < |s| => UpperChar(s[i]))
  }

  /**
   * Lower-casing leaves no upper-case letter, changes nothing else, and is
   * idempotent. The first two clauses restate the contract of `ToLowerCase`
   * so that the whole property can be cited as one lemma.
   */
  lemma ToLowerCaseSpec(s: string)
    ensures |ToLowerCase(s)| == |s|
    ensures forall i :: 0 <= i < |s| ==> !IsAsciiUpper(ToLowerCase(s)[i])
    ensures forall i :: 0 <= i < |s| && !IsAsciiUpper(s[i]) ==> ToLowerCase(s)[i] == s[i]
    ensures forall i :: 0 <= i < |s| && IsAsciiUpper(s[i]) ==> UpperChar(ToLowerCase(s)[i]) == s[i]
    ensures ToLowerCase(ToLowerCase(s)) == ToLowerCase(s)
  {
  }

  // ---------------------------------------------------------------------------
  // trim
  // ---------------------------------------------------------------------------

  /** The ECMAScript WhiteSpace and LineTerminator code points, the set `trim` strips. */
  predicate IsWhiteSpace(c: char)
  {
    ('\U{9}' <= c <= '\U{D}') || c == ' ' || c == '\U{A0}' || c == '\U{1680}'
    || ('\U{2000}' <= c <= '\U{200A}') || c == '\U{2028}' || c == '\U{2029}'
    || c == '\U{202F}' || c == '\U{205F}' || c == '\U{3000}' || c == '\U{FEFF}'
  }

  predicate AllWhiteSpace(s: string)
  {
    forall i :: 0 <= i < |s| ==> IsWhiteSpace(s[i])
  }

  lemma AllWhiteSpaceConcat(a: string, b: string)
    requires AllWhiteSpace(a) && AllWhiteSpace(b)
    ensures AllWhiteSpace(a + b)
  {
    forall i | 0 <= i < |a + b| ensures IsWhiteSpace((a + b)[i]) {
      if i < |a| { assert (a + b)[i] == a[i]; } else { assert (a + b)[i] == b[i - |a|]; }
    }
  }

  /** The length of the white-space run that starts `s`. */
  function LeadingWhiteSpace(s: string): (n: nat)
    ensures n <= |s| && AllWhiteSpace(s[..n]) && (n == |s| || !IsWhiteSpace(s[n]))
  {
    if s != [] && IsWhiteSpace(s[0]) then
      var t := s[1..];
      var m := LeadingWhiteSpace(t);
      assert s[..m + 1] == [s[0]] + t[..m];
      AllWhiteSpaceConcat([s[0]], t[..m]);
      assert m < |t| ==> s[m + 1] == t[m];
      m + 1
    else 0
  }

  /** The length of the white-space run that ends `s`. */
  function TrailingWhiteSpace(s: string): (n: nat)
    ensures n <= |s| && AllWhiteSpace(s[|s| - n..]) && (n == |s| || !IsWhiteSpace(s[|s| - n - 1]))
  {
    if s != [] && IsWhiteSpace(s[|s| - 1]) then
      var t := s[..|s| - 1];
      var m := TrailingWhiteSpace(t);
      assert s[|s| - (m + 1)..] == t[|t| - m..] + [s[|s| - 1]];
      AllWhiteSpaceConcat(t[|t| - m..], [s[|s| - 1]]);
      assert m < |t| ==> s[|s| - (m + 1) - 1] == t[|t| - m - 1];
      m + 1
    else 0
  }

  /** `String.prototype.trim`. */
  function Trim(s: string): (r: string)
    ensures |r| <= |s|
  {
    var t := s[LeadingWhiteSpace(s)..];
    t[..|t| - TrailingWhiteSpace(t)]
  }

  /**
   * `trim` cuts `s` into a white-space prefix, the result and a white-space
   * suffix, and the result neither starts nor ends with white space.
   */
  lemma TrimSpec(s: string)
    ensures exists a, b :: 0 <= a <= b <= |s| && Trim(s) == s[a..b] && AllWhiteSpace(s[..a]) && AllWhiteSpace(s[b..])
    ensures var r := Trim(s); r == [] || (!IsWhiteSpace(r[0]) && !IsWhiteSpace(r[|r| - 1]))
  {
    var a := LeadingWhiteSpace(s);
    var t := s[a..];
    var n := TrailingWhiteSpace(t);
    var b := |s| - n;
    assert t[|t| - n..] == s[b..];
    assert t[..|t| - n] == s[a..b];
    assert Trim(s) == s[a..b];
    assert AllWhiteSpace(s[..a]) && AllWhiteSpace(s[b..]);
    assert 0 <= a <= b <= |s| && Trim(s) == s[a..b] && AllWhiteSpace(s[..a]) && AllWhiteSpace(s[b..]);
    if a < b {
      assert Trim(s)[0] == s[a];
      assert Trim(s)[b - a - 1] == t[|t| - n - 1];
    }
  }

  /** `trim` gives the empty string exactly when `s` is all white space. */
  lemma TrimEmpty(s: string)
    ensures Trim(s) == [] <==> AllWhiteSpace(s)
  {
    var a := LeadingWhiteSpace(s);
    if Trim(s) == [] {
      assert s[..a] == s;
    }
  }

  // ---------------------------------------------------------------------------
  // includes
  // ---------------------------------------------------------------------------

  /** `sub` occurs in `s` starting at position `i`. */
  ghost predicate OccursAt(s: string, sub: string, i: int)
  {
    0 <= i && i + |sub| <= |s| && s[i..i + |sub|] == sub
  }

  /** `String.prototype.includes`: is `sub` a contiguous part of `s`? */
  function Includes(s: string, sub: string): bool
    decreases |s|
  {
    if sub <= s then true
    else if |s| <= |sub| then false
    else Includes(s[1..], sub)
  }

  /** `Includes` holds exactly when `sub` occurs at some position of `s`. */
  lemma {:induction false} IncludesSpec(s: string, sub: string)
    ensures Includes(s, sub) <==> exists i :: OccursAt(s, sub, i)
    decreases |s|
  {
    if sub <= s {
      assert OccursAt(s, sub, 0);
    } else if |s| <= |sub| {
    } else {
      IncludesSpec(s[1..], sub);
      if exists i :: OccursAt(s, sub, i) {
        var i :| OccursAt(s, sub, i);
        assert i != 0;
        assert s[1..][i - 1..i - 1 + |sub|] == s[i..i + |sub|];
        assert OccursAt(s[1..], sub, i - 1);
      }
      if exists j :: OccursAt(s[1..], sub, j) {
        var j :| OccursAt(s[1..], sub, j);
        assert s[1..][j..j + |sub|] == s[j + 1..j + 1 + |sub|];
        assert OccursAt(s, sub, j + 1);
      }
    }
  }

  /** Every string includes the empty string. */
  lemma IncludesEmpty(s: string)
    ensures Includes(s, "")
  {
  }

  // ---------------------------------------------------------------------------
  // padStart
  // ---------------------------------------------------------------------------

  /** `String.prototype.padStart(len, fill)` for a one-character `fill`. */
  function PadStart(s: string, len: nat, fill: char): (r: string)
    ensures |r| == if |s| >= len then |s| else len
  {
    if |s| >= len then s else seq(len - |s|, _ => fill) + s
  }

  /** `padStart` puts copies of `fill` in front of the unchanged input. */
  lemma PadStartSpec(s: string, len: nat, fill: char)
    ensures var r := PadStart(s, len, fill);
      r[|r| - |s|..] == s && forall i :: 0 <= i < |r| - |s| ==> r[i] == fill
  {
  }

  // ---------------------------------------------------------------------------
  // Number.prototype.toString(radix) and Number(text)
  // ---------------------------------------------------------------------------

  const DigitChars: string := "0123456789abcdef"

  function DigitChar(d: nat): char
    requires d < 16
  {
    DigitChars[d]
  }

  /** The value of one digit in any case; 16 for a character that is no hexadecimal digit. */
  function DigitValue(c: char): nat
  {
    if '0' <= c <= '9' then c as nat - '0' as nat
    else if 'a' <= c <= 'f' then c as nat - 'a' as nat + 10
    else if 'A' <= c <= 'F' then c as nat - 'A' as nat + 10
    else 16
  }

  predicate IsDigitString(s: string, radix: nat)
  {
    forall i :: 0 <= i < |s| ==> DigitValue(s[i]) < radix
  }

  /** The number that the digit string `s` denotes in base `radix`, most significant digit first. */
  function RadixValue(s: string, radix: nat): nat
  {
    if s == [] then 0 else RadixValue(s[..|s| - 1], radix) * radix + DigitValue(s[|s| - 1])
  }

  /** The radixes index.js converts with: 10 for `String(n)`, 16 for `toString(16)`. */
  predicate IsRadix(radix: nat) { radix == 10 || radix == 16 }

  /** `Number.prototype.toString(radix)` for a non-negative integer: lower-case digits, no leading zero. */
  function ToRadixString(n: nat, radix: nat): (r: string)
    requires IsRadix(radix)
    ensures 1 <= |r| && (n < radix <==> |r| == 1)
    decreases n
  {
    if n < radix then [DigitChar(n)]
    else ToRadixString(n / radix, radix) + [DigitChar(n % radix)]
  }

  /** `String(n)`, also what a template literal writes for a number. */
  function DecimalString(n: nat): string
  {
    ToRadixString(n, 10)
  }

  /** `Number(text)` on the plain decimal digit strings it is given here; `None` stands for NaN. */
  function ParseDecimal(s: string): (r: Option<nat>)
    ensures r.Some? ==> s != [] && forall i :: 0 <= i < |s| ==> '0' <= s[i] <= '9'
  {
    if s != [] && IsDigitString(s, 10) then Some(RadixValue(s, 10)) else None
  }

  lemma DigitCharValue(d: nat)
    requires d < 16
    ensures DigitValue(DigitChar(d)) == d && IsAsciiLower(DigitChar(d)) == (d >= 10)
    ensures !IsAsciiUpper(DigitChar(d))
  {
  }

  /**
   * `toString(radix)` writes a non-empty string of lower-case base-`radix` digits
   * that denotes `n`, with no leading zero unless `n` is zero.
   */
  lemma {:induction false} ToRadixStringValue(n: nat, radix: nat)
    requires IsRadix(radix)
    ensures var s := ToRadixString(n, radix);
      s != [] && IsDigitString(s, radix) && RadixValue(s, radix) == n && (s[0] == '0' ==> n == 0)
      && forall i :: 0 <= i < |s| ==> !IsAsciiUpper(s[i])
    decreases n
  {
    var s := ToRadixString(n, radix);
    if n < radix {
      DigitCharValue(n);
    } else {
      var p := ToRadixString(n / radix, radix);
      ToRadixStringValue(n / radix, radix);
      DigitCharValue(n % radix);
      assert s == p + [DigitChar(n % radix)];
      assert s[..|s| - 1] == p;
      if radix == 10 {
        assert RadixValue(s, 10) == (n / 10) * 10 + n % 10;
      } else {
        assert RadixValue(s, 16) == (n / 16) * 16 + n % 16;
      }
    }
  }

  /** Reading back what `String(n)` writes gives `n`. */
  lemma DecimalRoundTrip(n: nat)
    ensures ParseDecimal(DecimalString(n)) == Some(n)
  {
    ToRadixStringValue(n, 10);
  }

  /** Two decimal strings of distinct numbers differ. */
  lemma DecimalStringInjective(m: nat, n: nat)
    ensures DecimalString(m) == DecimalString(n) ==> m == n
  {
    DecimalRoundTrip(m);
    DecimalRoundTrip(n);
  }

  // ---------------------------------------------------------------------------
  // Facts about hexadecimal digit strings
  // ---------------------------------------------------------------------------

  /** `toString(16)` of a number below 16^k has at most k digits. */
  lemma {:induction false} ToRadixStringLength16(n: nat, k: nat)
    requires k >= 1 && n < Pow16(k)
    ensures |ToRadixString(n, 16)| <= k
    decreases k
  {
    if n >= 16 {
      ToRadixStringLength16(n / 16, k - 1);
    }
  }

  function Pow16(k: nat): nat
  {
    if k == 0 then 1 else 16 * Pow16(k - 1)
  }

  /** Leading zeros do not change the value of a digit string. */
  lemma {:induction false} LeadingZeros(z: string, s: string, radix: nat)
    requires forall i :: 0 <= i < |z| ==> z[i] == '0'
    ensures RadixValue(z + s, radix) == RadixValue(s, radix)
    decreases |s|
  {
    if s == [] {
      assert z + s == z;
      ZerosValue(z, radix);
    } else {
      assert (z + s)[..|z + s| - 1] == z + s[..|s| - 1];
      LeadingZeros(z, s[..|s| - 1], radix);
    }
  }

  lemma {:induction false} ZerosValue(z: string, radix: nat)
    requires forall i :: 0 <= i < |z| ==> z[i] == '0'
    ensures RadixValue(z, radix) == 0
    decreases |z|
  {
    if z != [] {
      ZerosValue(z[..|z| - 1], radix);
    }
  }

  /** Two digit strings whose digits have the same values denote the same number. */
  lemma {:induction false} SameDigitsSameValue(a: string, b: string, radix: nat)
    requires |a| == |b|
    requires forall i :: 0 <= i < |a| ==> DigitValue(a[i]) == DigitValue(b[i])
    ensures RadixValue(a, radix) == RadixValue(b, radix)
    decreases |a|
  {
    if a != [] {
      SameDigitsSameValue(a[..|a| - 1], b[..|b| - 1], radix);
    }
  }

  /** Equal values of equally long hexadecimal strings force equal digits. */
  lemma {:induction false} SameValueSameDigits16(a: string, b: string)
    requires |a| == |b| && IsDigitString(a, 16) && IsDigitString(b, 16)
    requires RadixValue(a, 16) == RadixValue(b, 16)
    ensures forall i :: 0 <= i < |a| ==> DigitValue(a[i]) == DigitValue(b[i])
    decreases |a|
  {
    if a != [] {
      var a', b' := a[..|a| - 1], b[..|b| - 1];
      var da, db := DigitValue(a[|a| - 1]), DigitValue(b[|b| - 1]);
      assert RadixValue(a', 16) * 16 + da == RadixValue(b', 16) * 16 + db;
      assert da == db;
      SameValueSameDigits16(a', b');
      forall i | 0 <= i < |a| ensures DigitValue(a[i]) == DigitValue(b[i]) {
        if i < |a| - 1 { assert a[i] == a'[i] && b[i] == b'[i]; }
      }
    }
  }

  /** A string of `k` digits F denotes 16^k - 1, the largest `k`-digit value. */
  lemma {:induction false} AllFValue(w: string)
    requires forall i :: 0 <= i < |w| ==> w[i] == 'F'
    ensures RadixValue(w, 16) == Pow16(|w|) - 1
    decreases |w|
  {
    if w != [] {
      AllFValue(w[..|w| - 1]);
    }
  }
}
