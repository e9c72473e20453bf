/**
  Text helpers shared by the model: ECMAScript whitespace, `split`/`join` on one separator
  character, digit strings in a radix (`Number.prototype.toString(radix)`), the canonical decimal
  spelling of an integer (`String(n)`) and `parseInt(s, 10)`.
 */
module Strings {
  import opened Wrappers

  /** ECMAScript WhiteSpace and LineTerminator code points: what `\s`, `trim()` and `parseInt` skip. */
  predicate IsSpace(c: char) {
    || c == ' '
    || ('\t' <= c <= '\r')
    || c == '\U{00A0}' || c == '\U{1680}'
    || ('\U{2000}' <= c <= '\U{200A}')
    || c == '\U{2028}' || c == '\U{2029}' || c == '\U{202F}' || c == '\U{205F}'
    || c == '\U{3000}' || c == '\U{FEFF}'
  }

  predicate IsDigit(c: char) {
    '0' <= c <= '9'
  }

  predicate IsDigits(s: string) {
    forall i :: 0 <= i < |s| ==> IsDigit(s[i])
  }

  /** `s.replace(/\s/g, '')`: every whitespace character removed, the others kept in order. */
  function RemoveSpaces(s: string): (r: string)
    ensures forall i :: 0 <= i < |r| ==> !IsSpace(r[i])
    ensures |r| <= |s|
    ensures (forall i :: 0 <= i < |s| ==> !IsSpace(s[i])) ==> r == s
  {
    if s == [] then [] else (if IsSpace(s[0]) then [] else [s[0]]) + RemoveSpaces(s[1..])
  }

  /** `s` without its leading whitespace. */
  function TrimStart(s: string): (r: string)
    ensures |r| <= |s| && r == s[|s| - |r|..]
    ensures r == [] || !IsSpace(r[0])
  {
    if s != [] && IsSpace(s[0]) then TrimStart(s[1..]) else s
  }

  /** `s` without its trailing whitespace. */
  function TrimEnd(s: string): (r: string)
    ensures |r| <= |s| && r == s[..|r|]
    ensures r == [] || !IsSpace(r[|r| - 1])
  {
    if s != [] && IsSpace(s[|s| - 1]) then TrimEnd(s[..|s| - 1]) else s
  }

  /** `s.trim()`. */
  function Trim(s: string): string {
    TrimEnd(TrimStart(s))
  }

  function ToLowerChar(c: char): char {
    if 'A' <= c <= 'Z' then (c as int + 32) as char else c
  }

  function ToUpperChar(c: char): char {
    if 'a' <= c <= 'z' then (c as int - 32) as char else c
  }

  /** `s.toLowerCase()` on ASCII letters; other characters are kept. */
  function ToLower(s: string): (r: string)
    ensures |r| == |s| && forall i :: 0 <= i < |s| ==> r[i] == ToLowerChar(s[i])
  {
    if s == [] then [] else [ToLowerChar(s[0])] + ToLower(s[1..])
  }

  // ---------------------------------------------------------------------------
  // split and join

  function IndexOf(s: string, c: char): (i: nat)
    requires c in s
    ensures i < |s| && s[i] == c && c !in s[..i]
  {
    if s[0] == c then 0
    else
      var j := IndexOf(s[1..], c);
      assert s[..j + 1] == [s[0]] + s[1..][..j];
      j + 1
  }

  /** `s.split(sep)`: the maximal separator-free pieces, in order; never empty. */
  function Split(s: string, sep: char): (parts: seq<string>)
    ensures |parts| >= 1
    ensures forall i :: 0 <= i < |parts| ==> sep !in parts[i]
    decreases |s|
  {
    if sep !in s then [s]
    else
      var i := IndexOf(s, sep);
      [s[..i]] + Split(s[i + 1..], sep)
  }

  /** `parts.join(sep)`. */
  function Join(parts: seq<string>, sep: char): string {
    if |parts| == 0 then ""
    else if |parts| == 1 then parts[0]
    else parts[0] + [sep] + Join(parts[1..], sep)
  }

  lemma SplitAfter(a: string, sep: char, b: string)
    requires sep !in a
    ensures Split(a + [sep] + b, sep) == [a] + Split(b, sep)
  {
    var s := a + [sep] + b;
    assert s[|a|] == sep;
    assert s[..|a|] == a;
    assert s[|a| + 1..] == b;
  }

  /** Joining the pieces of a split gives back the string. */
  lemma {:induction false} JoinSplit(s: string, sep: char)
    ensures Join(Split(s, sep), sep) == s
    decreases |s|
  {
    if sep in s {
      var i := IndexOf(s, sep);
      var rest := s[i + 1..];
      SplitAt(s, sep);
      JoinSplit(rest, sep);
      JoinCons(s[..i], Split(rest, sep), sep);
      Rejoin(s, i);
    }
  }

  /** A string with a separator splits into the piece before its first separator and the pieces of the rest. */
  lemma SplitAt(s: string, sep: char)
    requires sep in s
    ensures Split(s, sep) == [s[..IndexOf(s, sep)]] + Split(s[IndexOf(s, sep) + 1..], sep)
  {
  }

  lemma DropPrefix(a: string, b: string)
    ensures (a + b)[|a|..] == b
  {
  }

  lemma Rejoin(s: string, i: nat)
    requires i < |s|
    ensures s == s[..i] + [s[i]] + s[i + 1..]
  {
  }

  /** Joining a piece in front of at least one other piece puts a separator between them. */
  lemma JoinCons(a: string, parts: seq<string>, sep: char)
    requires |parts| >= 1
    ensures Join([a] + parts, sep) == a + [sep] + Join(parts, sep)
  {
    assert ([a] + parts)[1..] == parts;
  }

  /** Splitting a join of separator-free pieces gives back the pieces. */
  lemma {:induction false} SplitJoin(parts: seq<string>, sep: char)
    requires |parts| >= 1
    requires forall i :: 0 <= i < |parts| ==> sep !in parts[i]
    ensures Split(Join(parts, sep), sep) == parts
  {
    if |parts| > 1 {
      SplitAfter(parts[0], sep, Join(parts[1..], sep));
      SplitJoin(parts[1..], sep);
    }
  }

  /** The first piece of `s` when split at `sep`, and what follows it (empty, or starting with `sep`). */
  lemma SplitHead(s: string, sep: char)
    ensures var h := Split(s, sep)[0];
      && h <= s && sep !in h
      && (|h| == |s| || s[|h|] == sep)
  {
    if sep in s {
      var i := IndexOf(s, sep);
      assert Split(s, sep)[0] == s[..i];
    }
  }

  /** Replacing the first piece of a split and joining again replaces that prefix of the string. */
  lemma ReplaceHead(s: string, sep: char, h': string)
    requires sep !in h'
    ensures var parts := Split(s, sep);
      Join([h'] + parts[1..], sep) == h' + s[|parts[0]|..]
  {
    var parts := Split(s, sep);
    JoinSplit(s, sep);
    SplitHead(s, sep);
    if |parts| > 1 {
      var tail := parts[1..];
      assert [parts[0]] + tail == parts;
      JoinCons(parts[0], tail, sep);
      JoinCons(h', tail, sep);
      DropPrefix(parts[0], [sep] + Join(tail, sep));
    } else {
      assert [h'] + parts[1..] == [h'];
    }
  }

  // ---------------------------------------------------------------------------
  // digits in a radix

  function DigitChar(d: nat): char
    requires d < 36
  {
    if d < 10 then ('0' as int + d) as char else ('a' as int + d - 10) as char
  }

  function DigitValue(c: char): nat {
    if '0' <= c <= '9' then c as int - '0' as int
    else if 'a' <= c <= 'z' then c as int - 'a' as int + 10
    else 0
  }

  /** Euclidean division by a radix, as the digit functions below use it. */
  lemma DivMod(n: nat, radix: nat)
    requires 2 <= radix <= 36
    ensures n == (n / radix) * radix + n % radix && 0 <= n % radix < radix
    ensures n >= radix ==> 1 <= n / radix < n
  {
    if n >= radix {
      assert (n / radix) * radix <= n;
      assert (n / radix) * radix >= radix ==> n / radix >= 1;
    }
  }

  /** `n.toString(radix)` for a non-negative integer: most significant digit first, lower-case letters. */
  function ToRadix(n: nat, radix: nat): (s: string)
    requires 2 <= radix <= 36
    ensures |s| >= 1
    ensures radix == 10 ==> IsDigits(s)
    decreases n
  {
    if n < radix then [DigitChar(n)]
    else
      DivMod(n, radix);
      ToRadix(n / radix, radix) + [DigitChar(n % radix)]
  }

  /** The value of a digit string in the given radix. */
  function ParseRadix(s: string, radix: nat): nat {
    if s == [] then 0 else ParseRadix(s[..|s| - 1], radix) * radix + DigitValue(s[|s| - 1])
  }

  /** Reading back the digits of `n` gives `n`. */
  lemma {:induction false} RadixRoundTrip(n: nat, radix: nat)
    requires 2 <= radix <= 36
    ensures ParseRadix(ToRadix(n, radix), radix) == n
    decreases n
  {
    var s := ToRadix(n, radix);
    DivMod(n, radix);
    if n >= radix {
      RadixRoundTrip(n / radix, radix);
      assert s[..|s| - 1] == ToRadix(n / radix, radix);
    }
  }

  /** Different numbers have different digit strings. */
  lemma RadixInjective(m: nat, n: nat, radix: nat)
    requires 2 <= radix <= 36
    requires ToRadix(m, radix) == ToRadix(n, radix)
    ensures m == n
  {
    RadixRoundTrip(m, radix);
    RadixRoundTrip(n, radix);
  }

  lemma {:induction false} RadixLeadingDigit(n: nat, radix: nat)
    requires 2 <= radix <= 36 && n >= 1
    ensures ToRadix(n, radix)[0] != '0'
    decreases n
  {
    DivMod(n, radix);
    if n >= radix {
      RadixLeadingDigit(n / radix, radix);
    }
  }

  // ---------------------------------------------------------------------------
  // decimal text of integers

  /** `String(n)` for a non-negative integer. */
  function NatToString(n: nat): string {
    ToRadix(n, 10)
  }

  /** `String(i)` for an integer. */
  function IntToString(i: int): string {
    if i < 0 then "-" + NatToString(-i) else NatToString(i)
  }

  function ParseDecimal(s: string): nat {
    ParseRadix(s, 10)
  }

  /** The canonical decimal spelling of a non-negative integer: digits only, no leading zero unless it is "0". */
  predicate IsCanonicalDecimal(s: string) {
    |s| >= 1 && IsDigits(s) && (s[0] == '0' ==> |s| == 1)
  }

  lemma NatToStringCanonical(n: nat)
    ensures IsCanonicalDecimal(NatToString(n))
    ensures ParseDecimal(NatToString(n)) == n
    ensures '.' !in NatToString(n) && ':' !in NatToString(n)
  {
    if n >= 1 {
      RadixLeadingDigit(n, 10);
    }
    RadixRoundTrip(n, 10);
    var s := NatToString(n);
    assert forall c :: c in s ==> IsDigit(c);
  }

  lemma NatToStringInjective(m: nat, n: nat)
    requires NatToString(m) == NatToString(n)
    ensures m == n
  {
    RadixInjective(m, n, 10);
  }

  lemma {:induction false} ParsePositive(s: string)
    requires |s| >= 1 && IsDigits(s) && s[0] != '0'
    ensures ParseDecimal(s) >= 1
  {
    if |s| > 1 {
      ParsePositive(s[..|s| - 1]);
    }
  }

  /** A canonical decimal string is the spelling of the number it denotes. */
  lemma {:induction false} CanonicalRoundTrip(s: string)
    requires IsCanonicalDecimal(s)
    ensures NatToString(ParseDecimal(s)) == s
  {
    var n := ParseDecimal(s);
    if |s| > 1 {
      var t := s[..|s| - 1];
      assert IsCanonicalDecimal(t);
      ParsePositive(t);
      CanonicalRoundTrip(t);
      assert n / 10 == ParseDecimal(t) && n % 10 == DigitValue(s[|s| - 1]);
      assert s == t + [s[|s| - 1]];
    }
  }

  /** The longest prefix of `s` made of decimal digits. */
  function DigitRun(s: string): (r: string)
    ensures r <= s && IsDigits(r)
    ensures |r| == |s| || !IsDigit(s[|r|])
  {
    if s != [] && IsDigit(s[0]) then [s[0]] + DigitRun(s[1..]) else []
  }

  lemma {:induction false} DigitRunAll(s: string)
    requires IsDigits(s)
    ensures DigitRun(s) == s
  {
    if s != [] {
      DigitRunAll(s[1..]);
    }
  }

  /**
    `parseInt(s, 10)`: skip leading whitespace, read an optional sign, then the longest run of
    decimal digits; `None` stands for `NaN` (no digit at all).
   */
  function ParseInt(s: string): (r: Option<int>)
    ensures r.None? <==> DigitRun(Unsigned(TrimStart(s))) == []
  {
    var t := TrimStart(s);
    var digits := DigitRun(Unsigned(t));
    if digits == [] then None
    else
      var magnitude: int := ParseDecimal(digits);
      Some(if t[0] == '-' then -magnitude else magnitude)
  }

  function Unsigned(t: string): string {
    if t != [] && (t[0] == '-' || t[0] == '+') then t[1..] else t
  }

  /** A string of decimal digits parses to the number it denotes. */
  lemma ParseIntOfDigits(s: string)
    requires |s| >= 1 && IsDigits(s)
    ensures ParseInt(s) == Some(ParseDecimal(s))
  {
    assert !IsSpace(s[0]);
    assert TrimStart(s) == s;
    assert Unsigned(s) == s;
    DigitRunAll(s);
  }

  /**
    `String(parseInt(s, 10)) === s` together with a non-negative result holds exactly for the
    canonical decimal spellings, and then the parsed value is the number they denote.
   */
  lemma ParseIntCanonical(s: string)
    ensures (ParseInt(s).Some? && ParseInt(s).value >= 0 && IntToString(ParseInt(s).value) == s)
            <==> IsCanonicalDecimal(s)
    ensures IsCanonicalDecimal(s) ==> ParseInt(s) == Some(ParseDecimal(s))
  {
    if IsCanonicalDecimal(s) {
      ParseIntOfDigits(s);
      CanonicalRoundTrip(s);
    } else {
      var p := ParseInt(s);
      if p.Some? && p.value >= 0 && IntToString(p.value) == s {
        NatToStringCanonical(p.value);
      }
    }
  }

  // ---------------------------------------------------------------------------
  // zero padding

  function Zeros(k: nat): (z: string)
    ensures |z| == k && forall i :: 0 <= i < k ==> z[i] == '0'
  {
    if k == 0 then [] else Zeros(k - 1) + ['0']
  }

  /** Leading zeros do not change the value of a digit string. */
  lemma {:induction false} ParseLeadingZeros(k: nat, s: string)
    ensures ParseDecimal(Zeros(k) + s) == ParseDecimal(s)
    decreases |s|
  {
    if s == [] {
      ZerosValue(k);
      assert Zeros(k) + s == Zeros(k);
    } else {
      var t := s[..|s| - 1];
      ParseLeadingZeros(k, t);
      assert (Zeros(k) + s)[..|Zeros(k) + s| - 1] == Zeros(k) + t;
    }
  }

  lemma {:induction false} ZerosValue(k: nat)
    ensures ParseDecimal(Zeros(k)) == 0
  {
    if k > 0 {
      ZerosValue(k - 1);
      assert Zeros(k)[..k - 1] == Zeros(k - 1);
    }
  }
}
