/** The handful of PHP string and integer built-ins the thumbnail cache relies
    on, written out so that their edge cases are explicit: decimal formatting
    (`sprintf('%04d')`), the `(int)` cast of a string, `explode`, a literal
    `preg_replace`, `strrpos`-based prefixes and PHP's notion of `empty`.
    Strings are sequences of characters, one character per byte. */
module PhpStrings {
  import opened Results

  /** Bounds of PHP's 64-bit integer. */
  const IntMax: int := 0x7FFF_FFFF_FFFF_FFFF
  const IntMin: int := -0x8000_0000_0000_0000

  predicate IsDigit(c: char) {
    '0' <= c <= '9'
  }

  function DigitValue(c: char): nat
    requires IsDigit(c)
  {
    (c as int) - ('0' as int)
  }

  function DigitChar(d: nat): (c: char)
    requires d < 10
    ensures IsDigit(c) && DigitValue(c) == d
  {
    (('0' as int) + d) as char
  }

  predicate AllDigits(s: string) {
    forall i :: 0 <= i < |s| ==> IsDigit(s[i])
  }

  function Pow10(k: nat): (p: nat)
    ensures p >= 1
  {
    if k == 0 then 1 else 10 * Pow10(k - 1)
  }

  /** Value of a run of decimal digits; leading zeros are allowed. */
  function DecValue(s: string): nat
    requires AllDigits(s)
    decreases |s|
  {
    if |s| == 0 then 0 else DecValue(s[..|s| - 1]) * 10 + DigitValue(s[|s| - 1])
  }

  /** Shortest decimal spelling of `n` (no sign, no leading zero). */
  function NatToDec(n: nat): (r: string)
    ensures |r| > 0 && AllDigits(r)
    ensures |r| > 1 ==> r[0] != '0'
  {
    if n < 10 then [DigitChar(n)] else NatToDec(n / 10) + [DigitChar(n % 10)]
  }

  lemma {:induction false} DecValueOfNatToDec(n: nat)
    ensures DecValue(NatToDec(n)) == n
  {
    if n >= 10 {
      var s := NatToDec(n);
      assert s[..|s| - 1] == NatToDec(n / 10);
      DecValueOfNatToDec(n / 10);
    }
  }

  /** A number below `10^k` needs at most `k` digits. */
  lemma {:induction false} NatToDecLength(n: nat, k: nat)
    requires k >= 1 && n < Pow10(k)
    ensures |NatToDec(n)| <= k
  {
    if n >= 10 {
      assert k >= 2;
      NatToDecLength(n / 10, k - 1);
    }
  }

  function Zeros(k: nat): (r: string)
    ensures |r| == k && AllDigits(r)
    ensures forall i :: 0 <= i < k ==> r[i] == '0'
  {
    if k == 0 then "" else Zeros(k - 1) + "0"
  }

  lemma {:induction false} DecValueOfZeros(k: nat)
    ensures DecValue(Zeros(k)) == 0
  {
    if k > 0 {
      assert Zeros(k)[..k - 1] == Zeros(k - 1);
      DecValueOfZeros(k - 1);
    }
  }

  /** Leading zeros do not change a decimal value. */
  lemma {:induction false} DecValueLeadingZeros(k: nat, s: string)
    requires AllDigits(s)
    ensures AllDigits(Zeros(k) + s)
    ensures DecValue(Zeros(k) + s) == DecValue(s)
    decreases |s|
  {
    var t := Zeros(k) + s;
    assert AllDigits(t) by {
      forall i | 0 <= i < |t| ensures IsDigit(t[i]) {
        if i < k { assert t[i] == Zeros(k)[i]; } else { assert t[i] == s[i - k]; }
      }
    }
    if |s| == 0 {
      assert t == Zeros(k);
      DecValueOfZeros(k);
    } else {
      assert t[..|t| - 1] == Zeros(k) + s[..|s| - 1];
      assert t[|t| - 1] == s[|s| - 1];
      DecValueLeadingZeros(k, s[..|s| - 1]);
    }
  }

  /** Regrouping a concatenation; the solver finds this costly on its own. */
  lemma Assoc(a: string, b: string, c: string)
    ensures a + (b + c) == (a + b) + c
  {
  }

  function Abs(n: int): nat {
    if n < 0 then -n else n
  }

  /** `sprintf('%0<width>d', n)`: the magnitude in decimal, left-padded with
      zeros so that sign and digits together fill `width` characters; wider
      numbers are never truncated. */
  function Pad(n: int, width: nat): (r: string)
    ensures |r| >= width
    ensures |r| > 0 && (IsDigit(r[0]) || r[0] == '-')
    ensures forall i :: 0 < i < |r| ==> IsDigit(r[i])
    ensures n >= 0 ==> AllDigits(r)
    ensures n < 0 ==> r[0] == '-'
  {
    var mag := NatToDec(Abs(n));
    if n < 0 then
      "-" + Zeros(if width > |mag| + 1 then width - 1 - |mag| else 0) + mag
    else
      Zeros(if width > |mag| then width - |mag| else 0) + mag
  }

  /** A non-negative number below `10^width` is printed in exactly `width`
      characters, so `%04d` names of in-range dimensions have fixed width. */
  lemma PadWidth(n: nat, width: nat)
    requires width >= 1 && n < Pow10(width)
    ensures |Pad(n, width)| == width
  {
    NatToDecLength(n, width);
  }

  predicate IsPhpSpace(c: char) {
    c == ' ' || c == '\t' || c == '\n' || c == '\r' || c as int == 11 || c as int == 12
  }

  function SkipSpaces(s: string): (r: string)
    ensures |r| <= |s| && r == s[|s| - |r|..]
    ensures |r| > 0 ==> !IsPhpSpace(r[0])
  {
    if |s| > 0 && IsPhpSpace(s[0]) then SkipSpaces(s[1..]) else s
  }

  /** Number of leading decimal digits of `s`. */
  function DigitRun(s: string): (n: nat)
    ensures n <= |s| && AllDigits(s[..n])
    ensures n < |s| ==> !IsDigit(s[n])
  {
    if |s| > 0 && IsDigit(s[0]) then
      var k := DigitRun(s[1..]);
      assert s[..k + 1] == [s[0]] + s[1..][..k];
      k + 1
    else 0
  }

  lemma {:induction false} DigitRunOf(ds: string, rest: string)
    requires AllDigits(ds)
    requires |rest| == 0 || !IsDigit(rest[0])
    ensures DigitRun(ds + rest) == |ds|
    decreases |ds|
  {
    if |ds| > 0 {
      assert (ds + rest)[1..] == ds[1..] + rest;
      DigitRunOf(ds[1..], rest);
    } else {
      assert ds + rest == rest;
    }
  }

  function Clamp(n: int): (r: int)
    ensures IntMin <= r <= IntMax
    ensures IntMin <= n <= IntMax ==> r == n
    ensures n > IntMax ==> r == IntMax
    ensures n < IntMin ==> r == IntMin
  {
    if n > IntMax then IntMax else if n < IntMin then IntMin else n
  }

  /** Value of the leading run of digits of `u` (0 when there is none). */
  function LeadingValue(u: string): nat {
    DecValue(u[..DigitRun(u)])
  }

  /** An optional sign followed by the leading digits. */
  function SignedValue(t: string): int {
    if |t| > 0 && t[0] == '-' then -(LeadingValue(t[1..]) as int)
    else if |t| > 0 && t[0] == '+' then LeadingValue(t[1..])
    else LeadingValue(t)
  }

  /** PHP's `(int)` cast of a string: leading white space, an optional sign
      and the longest run of digits; anything else ends the number, no
      digits give 0, and values beyond 64 bits saturate. */
  function PhpIntCast(s: string): (r: int)
    ensures IntMin <= r <= IntMax
  {
    Clamp(SignedValue(SkipSpaces(s)))
  }

  /** `(int) ''` is 0: an absent property counts as size 0. */
  lemma CastOfEmpty()
    ensures PhpIntCast("") == 0
  {
    assert SkipSpaces("") == "";
    assert DigitRun("") == 0;
  }

  lemma LeadingValueOfDigits(u: string)
    requires AllDigits(u)
    ensures LeadingValue(u) == DecValue(u)
  {
    DigitRunOf(u, "");
    assert u + "" == u;
    assert u[..|u|] == u;
  }

  lemma SkipSpacesOfNonSpace(s: string)
    requires |s| > 0 && !IsPhpSpace(s[0])
    ensures SkipSpaces(s) == s
  {
  }

  lemma SignedValueOfUnsigned(t: string)
    requires |t| > 0 && t[0] != '-' && t[0] != '+'
    ensures SignedValue(t) == LeadingValue(t)
  {
  }

  lemma CastOfUnsigned(u: string)
    requires |u| > 0 && AllDigits(u)
    ensures PhpIntCast(u) == Clamp(DecValue(u))
  {
    assert IsDigit(u[0]);
    SkipSpacesOfNonSpace(u);
    SignedValueOfUnsigned(u);
    LeadingValueOfDigits(u);
  }

  lemma CastOfNegative(m: string)
    requires |m| > 1 && m[0] == '-' && AllDigits(m[1..])
    ensures PhpIntCast(m) == Clamp(-(DecValue(m[1..]) as int))
  {
    assert SkipSpaces(m) == m;
    LeadingValueOfDigits(m[1..]);
  }

  /** Formatting with `%0Nd` and casting back with `(int)` is the identity on
      64-bit integers, whatever the padding width. */
  lemma CastOfPad(n: int, width: nat)
    requires IntMin <= n <= IntMax
    ensures PhpIntCast(Pad(n, width)) == n
  {
    if n < 0 { CastOfPadNegative(n, width); } else { CastOfPadNonNegative(n, width); }
  }

  lemma CastOfPadNegative(n: int, width: nat)
    requires IntMin <= n < 0
    ensures PhpIntCast(Pad(n, width)) == n
  {
    var p := Pad(n, width);
    PadNegativeTail(n, width);
    CastOfNegative(p);
    assert -(DecValue(p[1..]) as int) == n;
  }

  /** A negative number is printed as `-`, then digits worth its magnitude. */
  lemma PadNegativeTail(n: int, width: nat)
    requires n < 0
    ensures var p := Pad(n, width);
      |p| > 1 && p[0] == '-' && AllDigits(p[1..]) && DecValue(p[1..]) == -n
  {
    var mag := NatToDec(-n);
    var k: nat := if width > |mag| + 1 then width - 1 - |mag| else 0;
    var tail := Zeros(k) + mag;
    Assoc("-", Zeros(k), mag);
    assert ("-" + tail)[1..] == tail;
    DecValueOfNatToDec(-n);
    DecValueLeadingZeros(k, mag);
  }

  lemma CastOfPadNonNegative(n: int, width: nat)
    requires 0 <= n <= IntMax
    ensures PhpIntCast(Pad(n, width)) == n
  {
    var mag := NatToDec(n);
    var p := Pad(n, width);
    var k: nat := if width > |mag| then width - |mag| else 0;
    assert p == Zeros(k) + mag;
    DecValueOfNatToDec(n);
    DecValueLeadingZeros(k, mag);
    CastOfUnsigned(p);
  }

  /** PHP's `empty()` on a string: true for `""` and for `"0"`. */
  predicate PhpEmpty(s: string) {
    s == "" || s == "0"
  }

  /** Index of the first occurrence of `c` in `s`. */
  function IndexOf(s: string, c: char): (i: nat)
    requires c in s
    ensures i < |s| && s[i] == c && c !in s[..i]
  {
    if s[0] == c then 0 else
      var j := IndexOf(s[1..], c);
      assert s[..j + 1] == [s[0]] + s[1..][..j];
      j + 1
  }

  /** PHP's `explode(sep, s)` for a one-character separator. */
  function Explode(sep: char, s: string): (parts: seq<string>)
    ensures |parts| >= 1
    ensures forall i :: 0 <= i < |parts| ==> sep !in parts[i]
    ensures |parts| > 1 <==> sep in s
    decreases |s|
  {
    if sep !in s then [s]
    else
      var i := IndexOf(s, sep);
      [s[..i]] + Explode(sep, s[i + 1..])
  }

  /** PHP's `implode(sep, parts)`, the inverse of `Explode`. */
  function Implode(sep: char, parts: seq<string>): string
    requires |parts| >= 1
  {
    if |parts| == 1 then parts[0] else parts[0] + [sep] + Implode(sep, parts[1..])
  }

  lemma {:induction false} ImplodeExplode(sep: char, s: string)
    ensures Implode(sep, Explode(sep, s)) == s
    decreases |s|
  {
    if sep in s {
      var i := IndexOf(s, sep);
      var rest := Explode(sep, s[i + 1..]);
      assert Explode(sep, s)[1..] == rest;
      ImplodeExplode(sep, s[i + 1..]);
      assert s == s[..i] + [sep] + s[i + 1..];
    }
  }

  lemma {:induction false} ExplodeImplode(sep: char, parts: seq<string>)
    requires |parts| >= 1
    requires forall i :: 0 <= i < |parts| ==> sep !in parts[i]
    ensures Explode(sep, Implode(sep, parts)) == parts
    decreases |parts|
  {
    if |parts| > 1 {
      var s := Implode(sep, parts);
      var tail := Implode(sep, parts[1..]);
      assert s == parts[0] + [sep] + tail;
      assert s[|parts[0]|] == sep;
      assert sep in s;
      var i := IndexOf(s, sep);
      assert s[..|parts[0]|] == parts[0];
      assert i == |parts[0]|;
      assert s[i + 1..] == tail;
      ExplodeImplode(sep, parts[1..]);
    } else {
      assert Implode(sep, parts) == parts[0];
    }
  }

  /** `pat` occurs in `s` starting at index `i`. */
  predicate OccursAt(pat: string, s: string, i: nat) {
    i + |pat| <= |s| && s[i..i + |pat|] == pat
  }

  predicate Occurs(pat: string, s: string) {
    exists i: nat :: i <= |s| && OccursAt(pat, s, i)
  }

  /** `preg_replace('|<pat>|', '', s)` for a literal pattern: one scan from
      left to right deleting non-overlapping occurrences. The text left
      behind is not scanned again. */
  function RemoveAll(s: string, pat: string): (r: string)
    requires |pat| > 0
    ensures |r| <= |s|
    decreases |s|
  {
    if |s| < |pat| then s
    else if s[..|pat|] == pat then RemoveAll(s[|pat|..], pat)
    else [s[0]] + RemoveAll(s[1..], pat)
  }

  /** The scan keeps everything before the leftmost occurrence, deletes that
      occurrence, and goes on after it. */
  lemma {:induction false} RemoveAllFirst(s: string, pat: string, k: nat)
    requires |pat| > 0 && OccursAt(pat, s, k)
    requires forall j: nat :: j < k ==> !OccursAt(pat, s, j)
    ensures RemoveAll(s, pat) == s[..k] + RemoveAll(s[k + |pat|..], pat)
    decreases k
  {
    var rest := RemoveAll(s[k + |pat|..], pat);
    if k == 0 {
      RemoveAllAtFront(s, pat);
      assert s[..0] + rest == rest;
    } else {
      ShiftOccurrences(s, pat, k);
      RemoveAllFirst(s[1..], pat, k - 1);
      RemoveAllAfterFirst(s, pat, k);
    }
  }

  /** The step of `RemoveAllFirst`: the first character is kept and the
      scan of the rest deletes the occurrence moved to `k - 1`. */
  lemma RemoveAllAfterFirst(s: string, pat: string, k: nat)
    requires |pat| > 0 && 0 < k && k + |pat| <= |s| && s[..|pat|] != pat
    requires s[1..][k - 1 + |pat|..] == s[k + |pat|..]
    requires [s[0]] + s[1..][..k - 1] == s[..k]
    requires RemoveAll(s[1..], pat) == s[1..][..k - 1] + RemoveAll(s[1..][k - 1 + |pat|..], pat)
    ensures RemoveAll(s, pat) == s[..k] + RemoveAll(s[k + |pat|..], pat)
  {
    var t := s[1..];
    RemoveAllStep(s, pat);
    JoinSteps(RemoveAll(s, pat), [s[0]], RemoveAll(t, pat), t[..k - 1], RemoveAll(s[k + |pat|..], pat), s[..k]);
  }

  /** `x = a + y` and `y = b + rest` give `x = (a + b) + rest`. */
  lemma JoinSteps(x: string, a: string, y: string, b: string, rest: string, ab: string)
    requires x == a + y && y == b + rest && ab == a + b
    ensures x == ab + rest
  {
    Assoc(a, b, rest);
  }

  /** An occurrence at the front is deleted. */
  lemma RemoveAllAtFront(s: string, pat: string)
    requires |pat| > 0 && OccursAt(pat, s, 0)
    ensures RemoveAll(s, pat) == RemoveAll(s[|pat|..], pat)
  {
    assert s[..|pat|] == s[0..0 + |pat|];
  }

  /** Dropping the first character moves every occurrence one place left. */
  lemma ShiftOccurrences(s: string, pat: string, k: nat)
    requires |pat| > 0 && 0 < k && OccursAt(pat, s, k)
    requires forall j: nat :: j < k ==> !OccursAt(pat, s, j)
    ensures |s| >= |pat| && s[..|pat|] != pat
    ensures OccursAt(pat, s[1..], k - 1)
    ensures forall j: nat :: j < k - 1 ==> !OccursAt(pat, s[1..], j)
    ensures s[1..][k - 1 + |pat|..] == s[k + |pat|..]
    ensures [s[0]] + s[1..][..k - 1] == s[..k]
  {
    var t := s[1..];
    assert !OccursAt(pat, s, 0);
    assert t[k - 1..k - 1 + |pat|] == s[k..k + |pat|];
    forall j: nat | j < k - 1
      ensures !OccursAt(pat, t, j)
    {
      assert t[j..j + |pat|] == s[j + 1..j + 1 + |pat|];
      assert !OccursAt(pat, s, j + 1);
    }
  }

  /** Every occurrence has a leftmost one at or before it. */
  lemma {:induction false} LeftmostOccurrence(s: string, pat: string, i: nat) returns (k: nat)
    requires OccursAt(pat, s, i)
    ensures k <= i && OccursAt(pat, s, k)
    ensures forall j: nat :: j < k ==> !OccursAt(pat, s, j)
    decreases i
  {
    if j: nat :| j < i && OccursAt(pat, s, j) {
      k := LeftmostOccurrence(s, pat, j);
    } else {
      k := i;
    }
  }

  /** Text holding the pattern loses at least one whole copy of it. */
  lemma RemoveAllShrinks(s: string, pat: string)
    requires |pat| > 0
    ensures Occurs(pat, s) ==> |RemoveAll(s, pat)| <= |s| - |pat|
  {
    if Occurs(pat, s) {
      var i: nat :| i <= |s| && OccursAt(pat, s, i);
      var k := LeftmostOccurrence(s, pat, i);
      RemoveAllFirst(s, pat, k);
    }
  }

  /** Text without an occurrence of the pattern comes through unchanged. */
  lemma {:induction false} RemoveAllAbsent(s: string, pat: string)
    requires |pat| > 0
    ensures !Occurs(pat, s) ==> RemoveAll(s, pat) == s
    decreases |s|
  {
    if |s| >= |pat| && !Occurs(pat, s) {
      assert !OccursAt(pat, s, 0);
      if Occurs(pat, s[1..]) {
        var i: nat :| i <= |s[1..]| && OccursAt(pat, s[1..], i);
        assert s[i + 1..i + 1 + |pat|] == s[1..][i..i + |pat|];
        assert OccursAt(pat, s, i + 1);
      }
      RemoveAllAbsent(s[1..], pat);
      assert s == [s[0]] + s[1..];
    }
  }

  /** A first character that cannot start the pattern is kept. */
  lemma RemoveAllKeeps(pat: string, c: char, t: string)
    requires |pat| > 0 && c != pat[0] && |t| + 1 >= |pat|
    ensures RemoveAll([c] + t, pat) == [c] + RemoveAll(t, pat)
  {
    var s := [c] + t;
    assert s[..|pat|][0] != pat[0];
    RemoveAllStep(s, pat);
    assert s[1..] == t;
  }

  /** When the pattern does not start at index 0, the first character is kept. */
  lemma RemoveAllStep(s: string, pat: string)
    requires |pat| > 0 && |s| >= |pat| && s[..|pat|] != pat
    ensures RemoveAll(s, pat) == [s[0]] + RemoveAll(s[1..], pat)
  {
  }

  /** Index of the first line break, or `|s|`: PCRE's `.` stops there. */
  function LineEnd(s: string): (k: nat)
    ensures k <= |s| && '\n' !in s[..k]
    ensures k < |s| ==> s[k] == '\n'
  {
    if '\n' in s then IndexOf(s, '\n') else
      assert s[..|s|] == s;
      |s|
  }

  predicate IsPathSep(c: char) {
    c == '/' || c == '#'
  }

  /** Greatest index below `k` holding `/` or `#`, if any. */
  function LastSepBefore(s: string, k: nat): (r: Option<nat>)
    requires k <= |s|
    ensures r.Some? ==> r.value < k && IsPathSep(s[r.value])
    ensures r.Some? ==> forall j :: r.value < j < k ==> !IsPathSep(s[j])
    ensures r.None? ==> forall j :: 0 <= j < k ==> !IsPathSep(s[j])
  {
    if k == 0 then None
    else if IsPathSep(s[k - 1]) then Some(k - 1)
    else LastSepBefore(s, k - 1)
  }

  /** `preg_replace('`^.*[/#]`', '', s)`: drop the longest prefix of the first
      line that ends in `/` or `#`; an IRI becomes its local name. */
  function StripIriPrefix(s: string): (r: string)
    ensures |r| <= |s| && r == s[|s| - |r|..]
    ensures (forall j :: 0 <= j < LineEnd(s) ==> !IsPathSep(s[j])) ==> r == s
    ensures forall j :: 0 <= j < |r| && j < LineEnd(r) ==> !IsPathSep(r[j])
  {
    var k := LineEnd(s);
    match LastSepBefore(s, k)
    case None => s
    case Some(j) =>
      var r := s[j + 1..];
      assert r[..k - j - 1] == s[j + 1..k];
      assert LineEnd(r) == k - j - 1 by {
        if k < |s| { assert r[k - j - 1] == '\n'; }
      }
      r
  }
}
