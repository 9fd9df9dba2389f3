/**
 * The PHP string and integer built-ins the helpers rely on, with the semantics
 * they have in PHP 5, the version the helpers are written for: trim, strpos
 * (as a containment test), ucfirst as it behaves in the default C locale
 * (ASCII letters only), truthiness of strings, is_numeric on strings,
 * implode, and the decimal conversion of integers on a 64-bit build.
 */
module PhpStrings {

  /** PHP integers, on a 64-bit build. */
  type Int64 = i: int | -0x8000_0000_0000_0000 <= i <= 0x7FFF_FFFF_FFFF_FFFF

  // ------------------------------------------------------------------
  // trim

  /** The characters trim() strips when given no character list: " \t\n\r\0\x0B". */
  predicate IsTrimChar(c: char) {
    c == ' ' || c == '\t' || c == '\n' || c == '\r' || c == '\0' || c == '\U{B}'
  }

  /** ltrim(s): s without its leading trim characters. */
  function TrimLeft(s: string): (r: string)
    ensures |r| <= |s| && r == s[|s| - |r|..]
    ensures forall i :: 0 <= i < |s| - |r| ==> IsTrimChar(s[i])
    ensures r == [] || !IsTrimChar(r[0])
    decreases |s|
  {
    if s != [] && IsTrimChar(s[0]) then TrimLeft(s[1..]) else s
  }

  /** rtrim(s): s without its trailing trim characters. */
  function TrimRight(s: string): (r: string)
    ensures |r| <= |s| && r == s[..|r|]
    ensures forall i :: |r| <= i < |s| ==> IsTrimChar(s[i])
    ensures r == [] || !IsTrimChar(r[|r| - 1])
    decreases |s|
  {
    if s != [] && IsTrimChar(s[|s| - 1]) then TrimRight(s[..|s| - 1]) else s
  }

  /** r is the slice of s at index a, and everything of s before and after it
      is trim characters. */
  predicate TrimmedAt(s: string, r: string, a: int) {
    && 0 <= a <= |s| - |r| && r == s[a..a + |r|]
    && (forall i :: 0 <= i < a ==> IsTrimChar(s[i]))
    && (forall i :: a + |r| <= i < |s| ==> IsTrimChar(s[i]))
  }

  /** trim(s): s without its leading and trailing trim characters. */
  function Trim(s: string): (r: string)
    ensures r == [] || (!IsTrimChar(r[0]) && !IsTrimChar(r[|r| - 1]))
  {
    var right := TrimRight(s);
    var r := TrimLeft(right);
    assert r == [] || r[|r| - 1] == right[|right| - 1];
    r
  }

  /** What trim() returns is a slice of its argument, and what it cuts off on
      either side is trim characters only. */
  lemma TrimIsSlice(s: string)
    ensures exists a :: TrimmedAt(s, Trim(s), a)
  {
    var right := TrimRight(s);
    var r := TrimLeft(right);
    var a := |right| - |r|;
    var z := a + |r|;
    assert z == |right|;
    assert r == right[a..];
    assert right == s[..z];
    assert s[..z][a..] == s[a..z];
    assert r == s[a..z];
    assert forall i :: 0 <= i < a ==> IsTrimChar(right[i]);
    assert forall i :: 0 <= i < a ==> s[i] == right[i];
    assert forall i :: z <= i < |s| ==> IsTrimChar(s[i]);
    assert TrimmedAt(s, r, a);
    assert Trim(s) == r;
  }

  /** A word: non-empty, and neither starting nor ending with a trim character. */
  predicate IsWord(w: string) {
    w != [] && !IsTrimChar(w[0]) && !IsTrimChar(w[|w| - 1])
  }

  /** ltrim stops at the first character that is not a trim character, so a
      suffix that starts with one survives whole. */
  lemma {:induction false} TrimLeftConcat(p: string, q: string)
    requires q != [] && !IsTrimChar(q[0])
    ensures TrimLeft(p + q) == TrimLeft(p) + q
    decreases |p|
  {
    if p == [] {
      assert p + q == q;
    } else if IsTrimChar(p[0]) {
      assert (p + q)[1..] == p[1..] + q;
      TrimLeftConcat(p[1..], q);
    }
  }

  /** trim(p . w) for a word w keeps w whole at the end. */
  lemma TrimEndingInWord(p: string, w: string)
    requires IsWord(w)
    ensures Trim(p + w) == TrimLeft(p) + w
  {
    assert (p + w)[|p + w| - 1] == w[|w| - 1];
    assert TrimRight(p + w) == p + w;
    TrimLeftConcat(p, w);
  }

  /** Two words joined by a space have nothing to trim. */
  lemma TrimJoinedWords(u: string, w: string)
    requires IsWord(u) && IsWord(w)
    ensures Trim(u + " " + w) == u + " " + w
  {
    var s := u + " " + w;
    assert s[0] == u[0] && s[|s| - 1] == w[|w| - 1];
    assert TrimRight(s) == s;
  }

  // ------------------------------------------------------------------
  // strpos

  /** The needle occurs somewhere in the haystack (the empty needle occurs everywhere). */
  predicate Occurs(haystack: string, needle: string)
    decreases |haystack|
  {
    needle <= haystack || (haystack != [] && Occurs(haystack[1..], needle))
  }

  /** strpos(haystack, needle) !== false. PHP 5 reports an empty needle as not found. */
  predicate Contains(haystack: string, needle: string) {
    needle != [] && Occurs(haystack, needle)
  }

  /** The needle is the slice of the haystack that starts at index i. */
  predicate OccursAt(haystack: string, needle: string, i: int) {
    0 <= i <= |haystack| - |needle| && haystack[i..i + |needle|] == needle
  }

  /** An occurrence at a position is an occurrence. */
  lemma {:induction false} OccursFrom(h: string, n: string, i: int)
    requires OccursAt(h, n, i)
    ensures Occurs(h, n)
    decreases i
  {
    if i == 0 {
      assert n == h[..|n|];
    } else {
      assert h[1..][i - 1..i - 1 + |n|] == h[i..i + |n|];
      OccursFrom(h[1..], n, i - 1);
    }
  }

  /** An occurrence has a position. */
  lemma {:induction false} OccursWitness(h: string, n: string) returns (i: int)
    requires Occurs(h, n)
    ensures OccursAt(h, n, i)
    decreases |h|
  {
    if n <= h {
      i := 0;
      assert h[0..|n|] == n;
    } else {
      var j := OccursWitness(h[1..], n);
      i := j + 1;
      assert h[1..][j..j + |n|] == h[i..i + |n|];
    }
  }

  /** Occurs agrees with the definition by positions: the needle is the slice
      of the haystack at some index. */
  lemma OccursIff(h: string, n: string)
    ensures Occurs(h, n) <==> exists i :: OccursAt(h, n, i)
  {
    if Occurs(h, n) {
      var i := OccursWitness(h, n);
    }
    if exists i :: OccursAt(h, n, i) {
      var i :| OccursAt(h, n, i);
      OccursFrom(h, n, i);
    }
  }

  /** A non-empty needle is contained in any string that ends with it. */
  lemma ContainsSuffix(p: string, n: string)
    requires n != []
    ensures Contains(p + n, n)
  {
    assert (p + n)[|p|..|p| + |n|] == n;
    OccursFrom(p + n, n, |p|);
  }

  /** Nothing is contained in the empty string. */
  lemma NothingInEmpty(n: string)
    ensures !Contains("", n)
  {
  }

  // ------------------------------------------------------------------
  // ucfirst

  predicate IsLowerAscii(c: char) {
    'a' <= c <= 'z'
  }

  /** strtoupper on one character, ASCII letters only. */
  function ToUpperAscii(c: char): (u: char)
    ensures !IsLowerAscii(u)
    ensures IsLowerAscii(c) ==> u as int == c as int - 32
    ensures !IsLowerAscii(c) ==> u == c
  {
    if IsLowerAscii(c) then (c as int - 32) as char else c
  }

  /** ucfirst(s): the same string with its first character upper-cased. */
  function UcFirst(s: string): (r: string)
    ensures |r| == |s|
    ensures forall i :: 0 < i < |s| ==> r[i] == s[i]
    ensures s != [] ==> r[0] == ToUpperAscii(s[0])
  {
    if s == [] then s else [ToUpperAscii(s[0])] + s[1..]
  }

  // ------------------------------------------------------------------
  // truthiness, is_numeric

  /** A string is falsy in PHP when it is "" or "0". */
  predicate TruthyString(s: string) {
    s != "" && s != "0"
  }

  predicate IsDigit(c: char) {
    '0' <= c <= '9'
  }

  predicate AllDigits(s: string) {
    forall i :: 0 <= i < |s| ==> IsDigit(s[i])
  }

  /** The white space is_numeric skips before a number: " \t\n\r\v\f". */
  predicate IsNumericSpace(c: char) {
    c == ' ' || c == '\t' || c == '\n' || c == '\r' || c == '\U{B}' || c == '\U{C}'
  }

  /** The length of the run of digits s starts with. */
  function DigitRun(s: string): (n: nat)
    ensures n <= |s|
    ensures forall i :: 0 <= i < n ==> IsDigit(s[i])
    ensures n < |s| ==> !IsDigit(s[n])
    decreases |s|
  {
    if s != [] && IsDigit(s[0]) then 1 + DigitRun(s[1..]) else 0
  }

  /** The length of the run of white space s starts with. */
  function SpaceRun(s: string): (n: nat)
    ensures n <= |s|
    ensures forall i :: 0 <= i < n ==> IsNumericSpace(s[i])
    ensures n < |s| ==> !IsNumericSpace(s[n])
    decreases |s|
  {
    if s != [] && IsNumericSpace(s[0]) then 1 + SpaceRun(s[1..]) else 0
  }

  /** Nothing, or an exponent: e or E, an optional sign and at least one digit. */
  predicate IsExponentOrEmpty(e: string) {
    e == [] ||
    ((e[0] == 'e' || e[0] == 'E') &&
     var digits := if |e| > 1 && (e[1] == '+' || e[1] == '-') then e[2..] else e[1..];
     digits != [] && DigitRun(digits) == |digits|)
  }

  /** A decimal mantissa with at least one digit, before or after an optional
      point, followed by an optional exponent and nothing else. */
  predicate IsUnsignedNumeral(u: string) {
    var a := DigitRun(u);
    if a < |u| && u[a] == '.' then
      var b := DigitRun(u[a + 1..]);
      a + b > 0 && IsExponentOrEmpty(u[a + 1 + b..])
    else
      a > 0 && IsExponentOrEmpty(u[a..])
  }

  predicate IsHexDigit(c: char) {
    IsDigit(c) || 'a' <= c <= 'f' || 'A' <= c <= 'F'
  }

  /** A hexadecimal numeral as PHP 5's is_numeric accepts it: "0x" or "0X",
      one or more hexadecimal digits, and nothing else (no sign). */
  predicate IsHexNumeral(t: string) {
    |t| > 2 && t[0] == '0' && (t[1] == 'x' || t[1] == 'X') &&
    forall i :: 2 <= i < |t| ==> IsHexDigit(t[i])
  }

  /** is_numeric on a string, in PHP 5: leading white space, then either a
      hexadecimal numeral, or an optional sign and an unsigned decimal numeral;
      no trailing characters. */
  predicate IsNumericString(s: string) {
    var t := s[SpaceRun(s)..];
    var u := if t != [] && (t[0] == '+' || t[0] == '-') then t[1..] else t;
    IsHexNumeral(t) || IsUnsignedNumeral(u)
  }


  /** A hexadecimal numeral is numeric. */
  lemma HexIsNumeric(s: string)
    requires IsHexNumeral(s)
    ensures IsNumericString(s)
  {
    assert SpaceRun(s) == 0;
    assert s[0..] == s;
  }

  /** A string that starts with a digit, not after a sign, is numeric only
      when it is a hexadecimal numeral or an unsigned decimal one. */
  lemma NumericFromDigit(s: string)
    requires s != [] && IsDigit(s[0])
    ensures IsNumericString(s) <==> IsHexNumeral(s) || IsUnsignedNumeral(s)
  {
    assert SpaceRun(s) == 0;
    assert s[0..] == s;
  }

  // ------------------------------------------------------------------
  // implode

  /** implode(separator, pieces). */
  function Implode(separator: string, pieces: seq<string>): string
    decreases |pieces|
  {
    if pieces == [] then ""
    else if |pieces| == 1 then pieces[0]
    else Implode(separator, pieces[..|pieces| - 1]) + separator + pieces[|pieces| - 1]
  }

  /** Imploding two non-empty lists one after the other puts one separator between them. */
  lemma {:induction false} ImplodeConcat(separator: string, p: seq<string>, q: seq<string>)
    requires p != [] && q != []
    ensures Implode(separator, p + q) == Implode(separator, p) + separator + Implode(separator, q)
    decreases |q|
  {
    var pq := p + q;
    assert Implode(separator, pq) == Implode(separator, pq[..|pq| - 1]) + separator + pq[|pq| - 1];
    if |q| == 1 {
      assert pq[..|pq| - 1] == p && pq[|pq| - 1] == q[0];
    } else {
      var q' := q[..|q| - 1];
      assert pq[..|pq| - 1] == p + q' && pq[|pq| - 1] == q[|q| - 1];
      ImplodeConcat(separator, p, q');
      assert Implode(separator, q) == Implode(separator, q') + separator + q[|q| - 1];
    }
  }

  // ------------------------------------------------------------------
  // decimal strings of integers

  function DigitChar(d: nat): (c: char)
    requires d < 10
    ensures IsDigit(c)
  {
    ('0' as int + d) as char
  }

  function DigitValue(c: char): (d: nat)
    requires IsDigit(c)
    ensures d < 10
  {
    c as int - '0' as int
  }

  /** The decimal digits of n, most significant first, without leading zeros. */
  function NatToString(n: nat): (s: string)
    ensures s != [] && AllDigits(s)
    ensures s[0] == '0' <==> n == 0
    ensures n == 0 ==> s == "0"
    decreases n
  {
    if n < 10 then [DigitChar(n)] else NatToString(n / 10) + [DigitChar(n % 10)]
  }

  /** (string) of an integer: its decimal digits, with a leading '-' when negative. */
  function IntToString(i: int): string {
    if i < 0 then "-" + NatToString(-i) else NatToString(i)
  }

  /** The number a string of decimal digits spells. */
  function DigitsValue(s: string): nat
    requires AllDigits(s)
    decreases |s|
  {
    if s == [] then 0 else DigitsValue(s[..|s| - 1]) * 10 + DigitValue(s[|s| - 1])
  }

  /** Reading back the digits of n gives n. */
  lemma {:induction false} NatToStringRoundTrip(n: nat)
    ensures DigitsValue(NatToString(n)) == n
    decreases n
  {
    var s := NatToString(n);
    if n < 10 {
      assert s[..|s| - 1] == [];
    } else {
      assert s[..|s| - 1] == NatToString(n / 10);
      NatToStringRoundTrip(n / 10);
    }
  }

  /** A digit string is positive when it does not start with '0'. */
  lemma {:induction false} LeadingDigitPositive(s: string)
    requires s != [] && AllDigits(s) && s[0] != '0'
    ensures DigitsValue(s) >= 1
    decreases |s|
  {
    if |s| > 1 {
      LeadingDigitPositive(s[..|s| - 1]);
    }
  }

  /** A digit string without a leading zero (other than "0" itself) is the
      decimal form of the number it spells. */
  lemma {:induction false} CanonicalDigitsRoundTrip(s: string)
    requires s != [] && AllDigits(s) && (s[0] != '0' || |s| == 1)
    ensures NatToString(DigitsValue(s)) == s
    decreases |s|
  {
    var n := DigitsValue(s);
    if |s| == 1 {
      assert s[..|s| - 1] == [] && s[|s| - 1] == s[0];
      assert n == DigitsValue(s[..|s| - 1]) * 10 + DigitValue(s[0]);
    } else {
      var init := s[..|s| - 1];
      assert init[0] == s[0];
      LeadingDigitPositive(init);
      CanonicalDigitsRoundTrip(init);
      assert n / 10 == DigitsValue(init) && n % 10 == DigitValue(s[|s| - 1]);
      assert s == init + [s[|s| - 1]];
    }
  }

  /** The string of a non-zero integer is truthy. */
  lemma IntToStringTruthy(i: int)
    requires i != 0
    ensures TruthyString(IntToString(i))
  {
    if i < 0 {
      assert IntToString(i)[0] == '-';
    } else {
      assert IntToString(i)[0] != '0';
    }
  }
}
