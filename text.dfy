/** String helpers the core relies on: splitting on a separator, ASCII
    lower-casing and rendering natural numbers in a base (the `%d` and `%x`
    verbs of Go's fmt package). */
module Text {

  predicate IsDigit(c: char) { '0' <= c <= '9' }

  predicate IsLetter(c: char) { 'a' <= c <= 'z' || 'A' <= c <= 'Z' }

  predicate IsAlnum(c: char) { IsLetter(c) || IsDigit(c) }

  predicate IsUpper(c: char) { 'A' <= c <= 'Z' }

  predicate AllDigits(s: string) { forall i :: 0 <= i < |s| ==> IsDigit(s[i]) }

  predicate AllAlnum(s: string) { forall i :: 0 <= i < |s| ==> IsAlnum(s[i]) }

  /** The parts joined back with `sep` between consecutive parts. */
  function Join(parts: seq<string>, sep: char): string
    requires |parts| >= 1
    decreases |parts|
  {
    if |parts| == 1 then parts[0] else parts[0] + [sep] + Join(parts[1..], sep)
  }

  /** Go's strings.Split(s, string(sep)): the maximal pieces between
      separators; the empty string gives one empty piece. */
  function Split(s: string, sep: char): (parts: seq<string>)
    ensures |parts| >= 1
    ensures forall i :: 0 <= i < |parts| ==> sep !in parts[i]
    ensures Join(parts, sep) == s
    decreases |s|
  {
    if |s| == 0 then [""]
    else if s[0] == sep then
      var rest := Split(s[1..], sep);
      assert s == [sep] + s[1..];
      [""] + rest
    else
      var rest := Split(s[1..], sep);
      var parts := [[s[0]] + rest[0]] + rest[1..];
      assert parts[1..] == rest[1..];
      assert s == [s[0]] + s[1..];
      parts
  }

  /** Split undoes Join whenever no part contains the separator. */
  lemma {:induction false} SplitJoin(parts: seq<string>, sep: char)
    requires |parts| >= 1
    requires forall i :: 0 <= i < |parts| ==> sep !in parts[i]
    ensures Split(Join(parts, sep), sep) == parts
    decreases |parts|, |parts[0]|
  {
    var p := parts[0];
    if |parts| == 1 {
      SplitNoSep(p, sep);
    } else if p == [] {
      var tail := Join(parts[1..], sep);
      assert Join(parts, sep) == [sep] + tail;
      assert ([sep] + tail)[1..] == tail;
      SplitJoin(parts[1..], sep);
      assert parts == [""] + parts[1..];
    } else {
      var shorter := [p[1..]] + parts[1..];
      assert shorter[1..] == parts[1..];
      assert sep !in p[1..] by {
        forall k | 0 <= k < |p[1..]| ensures p[1..][k] != sep { assert p[1..][k] == p[k + 1]; }
      }
      SplitJoin(shorter, sep);
      var j := Join(parts, sep);
      assert j == [p[0]] + Join(shorter, sep) by {
        if |parts| > 1 { assert p == [p[0]] + p[1..]; }
      }
      assert j[0] == p[0] && j[1..] == Join(shorter, sep);
      assert parts == [[p[0]] + p[1..]] + parts[1..];
    }
  }

  /** A string without the separator splits into itself alone. */
  lemma {:induction false} SplitNoSep(s: string, sep: char)
    requires sep !in s
    ensures Split(s, sep) == [s]
    decreases |s|
  {
    if |s| > 0 {
      assert sep !in s[1..] by {
        forall k | 0 <= k < |s[1..]| ensures s[1..][k] != sep { assert s[1..][k] == s[k + 1]; }
      }
      SplitNoSep(s[1..], sep);
      assert s == [s[0]] + s[1..];
    }
  }

  /** Every character of a part occurs in the joined string. */
  lemma {:induction false} JoinContains(parts: seq<string>, sep: char, i: nat, c: char)
    requires |parts| >= 1 && i < |parts| && c in parts[i]
    ensures c in Join(parts, sep)
    decreases |parts|
  {
    if i > 0 {
      JoinContains(parts[1..], sep, i - 1, c);
    }
  }

  function LowerChar(c: char): (r: char)
    ensures !IsUpper(r)
    ensures IsUpper(c) ==> 'a' <= r <= 'z' && r as int - 'a' as int == c as int - 'A' as int
    ensures !IsUpper(c) ==> r == c
  {
    if IsUpper(c) then (c as int - 'A' as int + 'a' as int) as char else c
  }

  /** strings.ToLower restricted to ASCII letters. */
  function Lower(s: string): (r: string)
    ensures |r| == |s|
    ensures forall i :: 0 <= i < |r| ==> !IsUpper(r[i])
    ensures forall i :: 0 <= i < |s| && IsUpper(s[i]) ==>
      'a' <= r[i] <= 'z' && r[i] as int - 'a' as int == s[i] as int - 'A' as int
    ensures forall i :: 0 <= i < |s| && !IsUpper(s[i]) ==> r[i] == s[i]
  {
    seq(|s|, i requires 0 <= i < |s| => LowerChar(s[i]))
  }

  predicate ValidBase(base: nat) { 2 <= base <= 16 }

  /** The lower-case digit Go's fmt prints for `d`. */
  function DigitChar(d: nat): char
    requires d < 16
  {
    "0123456789abcdef"[d]
  }

  predicate IsDigitIn(c: char, base: nat)
    requires ValidBase(base)
  {
    exists d :: 0 <= d < base && DigitChar(d) == c
  }

  function DigitValue(c: char): (d: nat)
    ensures d < 16
  {
    if '0' <= c <= '9' then c as int - '0' as int
    else if 'a' <= c <= 'f' then c as int - 'a' as int + 10
    else 0
  }

  /** `n` written in `base` with no leading zeros ("0" for zero). */
  function FormatNat(n: nat, base: nat): (s: string)
    requires ValidBase(base)
    ensures |s| >= 1
    decreases n
  {
    if n < base then [DigitChar(n)]
    else FormatNat(n / base, base) + [DigitChar(n % base)]
  }

  /** The number a string of digits stands for in `base`. */
  function ParseNat(s: string, base: nat): nat
    requires ValidBase(base)
    decreases |s|
  {
    if s == [] then 0
    else ParseNat(s[..|s| - 1], base) * base + DigitValue(s[|s| - 1])
  }

  /** Parsing a formatted number gives the number back. */
  lemma {:induction false} ParseFormat(n: nat, base: nat)
    requires ValidBase(base)
    ensures ParseNat(FormatNat(n, base), base) == n
    decreases n
  {
    if n < base {
      ParseFormatDigit(n, base);
    } else {
      ParseFormat(n / base, base);
      ParseFormatStep(n, base);
    }
  }

  lemma ParseFormatDigit(n: nat, base: nat)
    requires ValidBase(base) && n < base
    ensures ParseNat(FormatNat(n, base), base) == n
  {
    DigitRoundTrip(n);
    var c := DigitChar(n);
    assert FormatNat(n, base) == [c];
    ParseLast([], c, base);
    assert [] + [c] == [c];
  }

  lemma ParseFormatStep(n: nat, base: nat)
    requires ValidBase(base) && n >= base
    requires ParseNat(FormatNat(n / base, base), base) == n / base
    ensures ParseNat(FormatNat(n, base), base) == n
  {
    var r := n % base;
    FormatLast(n, base);
    DigitRoundTrip(r);
    ParseLast(FormatNat(n / base, base), DigitChar(r), base);
    DivMod(n, base);
  }

  lemma DivMod(n: nat, base: nat)
    requires ValidBase(base)
    ensures n == (n / base) * base + n % base
  {
  }

  /** Appending one digit multiplies by the base and adds that digit. */
  lemma ParseLast(prefix: string, c: char, base: nat)
    requires ValidBase(base)
    ensures ParseNat(prefix + [c], base) == ParseNat(prefix, base) * base + DigitValue(c)
  {
    var s := prefix + [c];
    assert s[..|s| - 1] == prefix;
  }

  lemma FormatLast(n: nat, base: nat)
    requires ValidBase(base) && n >= base
    ensures FormatNat(n, base) == FormatNat(n / base, base) + [DigitChar(n % base)]
  {
  }

  lemma DigitRoundTrip(d: nat)
    requires d < 16
    ensures DigitValue(DigitChar(d)) == d
  {
  }

  /** Every character of a formatted number is a digit of its base, and a
      positive number has no leading zero. */
  lemma {:induction false} FormatDigits(n: nat, base: nat)
    requires ValidBase(base)
    ensures var s := FormatNat(n, base);
      && (forall i :: 0 <= i < |s| ==> IsDigitIn(s[i], base))
      && (n > 0 ==> s[0] != '0')
      && (n == 0 ==> s == "0")
    decreases n
  {
    if n < base {
      FormatDigitsSingle(n, base);
    } else {
      FormatDigits(n / base, base);
      FormatDigitsStep(n, base);
    }
  }

  lemma FormatDigitsSingle(n: nat, base: nat)
    requires ValidBase(base) && n < base
    ensures var s := FormatNat(n, base);
      && (forall i :: 0 <= i < |s| ==> IsDigitIn(s[i], base))
      && (n > 0 ==> s[0] != '0')
      && (n == 0 ==> s == "0")
  {
    var s := FormatNat(n, base);
    assert s == [DigitChar(n)];
    assert IsDigitIn(DigitChar(n), base);
    DigitRoundTrip(n);
  }

  lemma FormatDigitsStep(n: nat, base: nat)
    requires ValidBase(base) && n >= base
    requires var p := FormatNat(n / base, base);
      && (forall i :: 0 <= i < |p| ==> IsDigitIn(p[i], base))
      && (n / base > 0 ==> p[0] != '0')
    ensures var s := FormatNat(n, base);
      && (forall i :: 0 <= i < |s| ==> IsDigitIn(s[i], base))
      && s[0] != '0'
  {
    var r := n % base;
    assert 0 <= r < base;
    assert IsDigitIn(DigitChar(r), base);
    FormatLast(n, base);
    QuotientPositive(n, base);
    AppendDigit(FormatNat(n / base, base), DigitChar(r), base);
  }

  lemma QuotientPositive(n: nat, base: nat)
    requires ValidBase(base) && n >= base
    ensures n / base > 0
  {
  }

  lemma AppendDigit(p: string, c: char, base: nat)
    requires ValidBase(base) && |p| >= 1
    requires forall i :: 0 <= i < |p| ==> IsDigitIn(p[i], base)
    requires IsDigitIn(c, base)
    ensures forall i :: 0 <= i < |p + [c]| ==> IsDigitIn((p + [c])[i], base)
    ensures (p + [c])[0] == p[0]
  {
    forall i | 0 <= i < |p + [c]| ensures IsDigitIn((p + [c])[i], base) {
      if i < |p| {
        assert (p + [c])[i] == p[i];
      }
    }
  }

  /** Decimal formatting yields decimal digits only. */
  lemma {:induction false} DecimalDigits(n: nat)
    ensures AllDigits(FormatNat(n, 10))
    decreases n
  {
    if n >= 10 {
      DecimalDigits(n / 10);
      FormatLast(n, 10);
    }
  }
}
