/** The JavaScript string operations the application relies on, over seq<char>:
    the `\s` and `\d` classes, `trim`, `replace(/\D/g, '')`, `Number#toString`,
    `includes`, ASCII `toLowerCase` and a code-point stand-in for `localeCompare`. */
module Text {

  /** JavaScript's `\s`: the WhiteSpace and LineTerminator code points.
      `String.prototype.trim` strips exactly the same set. */
  predicate IsWs(c: char) {
    var n := c as int;
    n == 0x09 || n == 0x0A || n == 0x0B || n == 0x0C || n == 0x0D || n == 0x20
    || n == 0xA0 || n == 0x1680 || (0x2000 <= n <= 0x200A) || n == 0x2028 || n == 0x2029
    || n == 0x202F || n == 0x205F || n == 0x3000 || n == 0xFEFF
  }

  /** JavaScript's `\d`: the ASCII digits only. */
  predicate IsDigit(c: char) {
    '0' <= c <= '9'
  }

  predicate AllDigits(s: string) {
    forall i :: 0 <= i < |s| ==> IsDigit(s[i])
  }

  predicate AllWs(s: string) {
    forall i :: 0 <= i < |s| ==> IsWs(s[i])
  }

  // ---------------------------------------------------------------- trim

  function TrimStart(s: string): (r: string)
    ensures |r| <= |s| && r == s[|s| - |r|..]
    ensures AllWs(s[..|s| - |r|])
    ensures r != [] ==> !IsWs(r[0])
  {
    if s != [] && IsWs(s[0]) then
      var r := TrimStart(s[1..]);
      assert s[1..][..|s| - 1 - |r|] == s[1..|s| - |r|];
      r
    else s
  }

  function TrimEnd(s: string): (r: string)
    ensures |r| <= |s| && r == s[..|r|]
    ensures AllWs(s[|r|..])
    ensures r != [] ==> !IsWs(r[|r| - 1])
  {
    if s != [] && IsWs(s[|s| - 1]) then
      var r := TrimEnd(s[..|s| - 1]);
      assert s[|r|..] == s[..|s| - 1][|r|..] + [s[|s| - 1]];
      r
    else s
  }

  /** `s.trim()`: the longest slice of `s` that neither starts nor ends with whitespace. */
  function Trim(s: string): (r: string)
    ensures |r| <= |s|
    ensures r != [] ==> !IsWs(r[0]) && !IsWs(r[|r| - 1])
    ensures exists k :: SliceAt(s, k, r)
  {
    var t := TrimStart(s);
    var r := TrimEnd(t);
    assert SliceAt(s, |s| - |t|, r);
    r
  }

  /** `r` occurs in `s` starting at position `k`. */
  predicate SliceAt(s: string, k: int, r: string) {
    0 <= k <= |s| - |r| && s[k..k + |r|] == r
  }

  /** `!s.trim()`: the string is empty once trimmed. */
  predicate Blank(s: string) {
    Trim(s) == []
  }

  /** A string is blank exactly when every character of it is whitespace. */
  lemma {:induction false} BlankIffAllWs(s: string)
    ensures Blank(s) <==> AllWs(s)
  {
    var t := TrimStart(s);
    if AllWs(s) {
      AllWsTrimStart(s);
    } else {
      TrimStartKeepsNonWs(s);
      TrimEndKeepsNonWs(t);
    }
  }

  lemma {:induction false} TrimStartKeepsNonWs(s: string)
    requires !AllWs(s)
    ensures TrimStart(s) != []
  {
    if IsWs(s[0]) {
      assert !AllWs(s[1..]) by {
        var i :| 0 <= i < |s| && !IsWs(s[i]);
        assert s[1..][i - 1] == s[i];
      }
      TrimStartKeepsNonWs(s[1..]);
    }
  }

  lemma {:induction false} TrimEndKeepsNonWs(s: string)
    requires s != [] && !IsWs(s[0])
    ensures TrimEnd(s) != []
  {
    if IsWs(s[|s| - 1]) {
      TrimEndKeepsNonWs(s[..|s| - 1]);
    }
  }

  lemma {:induction false} AllWsTrimStart(s: string)
    requires AllWs(s)
    ensures TrimStart(s) == []
  {
    if s != [] {
      assert AllWs(s[1..]);
      AllWsTrimStart(s[1..]);
    }
  }

  lemma DigitIsNotWs(c: char)
    requires IsDigit(c)
    ensures !IsWs(c)
  {
  }

  // ------------------------------------------------ replace(/\D/g, '')

  /** `s.replace(/\D/g, '')`: the digits of `s`, in order. */
  function DigitsOnly(s: string): (r: string)
    ensures |r| <= |s| && AllDigits(r)
  {
    if s == [] then []
    else (if IsDigit(s[0]) then [s[0]] else []) + DigitsOnly(s[1..])
  }

  /** Deleting the non-digits commutes with concatenation, so the digits keep their order. */
  lemma {:induction false} DigitsOnlyAppend(s: string, t: string)
    ensures DigitsOnly(s + t) == DigitsOnly(s) + DigitsOnly(t)
  {
    if s != [] {
      var head := if IsDigit(s[0]) then [s[0]] else [];
      assert (s + t)[0] == s[0] && (s + t)[1..] == s[1..] + t;
      DigitsOnlyAppend(s[1..], t);
      assert DigitsOnly(s + t) == head + (DigitsOnly(s[1..]) + DigitsOnly(t));
      assert DigitsOnly(s) == head + DigitsOnly(s[1..]);
    } else {
      assert s + t == t;
    }
  }

  /** A string of digits is left as it is; in particular DigitsOnly is idempotent. */
  lemma {:induction false} DigitsOnlyFixesDigits(s: string)
    ensures DigitsOnly(s) == s <==> AllDigits(s)
  {
    if s != [] {
      DigitsOnlyFixesDigits(s[1..]);
      if !IsDigit(s[0]) {
        assert |DigitsOnly(s)| < |s|;
      }
    }
  }

  // ---------------------------------------------------- Number#toString

  function DigitChar(d: nat): (c: char)
    requires d < 10
    ensures IsDigit(c) && c as int - '0' as int == d
  {
    ('0' as int + d) as char
  }

  /** `n.toString()` for a non-negative integer: its decimal digits, most significant first. */
  function Decimal(n: nat): (r: string)
    ensures |r| >= 1 && AllDigits(r)
  {
    if n < 10 then [DigitChar(n)] else Decimal(n / 10) + [DigitChar(n % 10)]
  }

  /** The value of a string of decimal digits (the inverse of Decimal). */
  function DigitsValue(s: string): nat
    requires AllDigits(s)
  {
    if s == [] then 0 else DigitsValue(s[..|s| - 1]) * 10 + (s[|s| - 1] as int - '0' as int)
  }

  lemma {:induction false} DecimalRoundTrip(n: nat)
    ensures DigitsValue(Decimal(n)) == n
  {
    if n >= 10 {
      var r := Decimal(n);
      assert r[..|r| - 1] == Decimal(n / 10);
      DecimalRoundTrip(n / 10);
    }
  }

  function Pow10(k: nat): (p: nat)
    ensures p >= 1
  {
    if k == 0 then 1 else 10 * Pow10(k - 1)
  }

  /** A number with k + 1 significant digits prints as exactly k + 1 characters. */
  lemma {:induction false} DecimalLength(n: nat, k: nat)
    requires Pow10(k) <= n < Pow10(k + 1)
    ensures |Decimal(n)| == k + 1
  {
    if k > 0 {
      DecimalLength(n / 10, k - 1);
    }
  }

  // ------------------------------------------------------------ includes

  /** `hay.includes(needle)`, scanning the start positions from the left. */
  predicate Includes(hay: string, needle: string) {
    (|needle| <= |hay| && hay[..|needle|] == needle) || (hay != [] && Includes(hay[1..], needle))
  }

  /** The scan finds the needle exactly when it occurs at some position. */
  lemma {:induction false} IncludesIff(hay: string, needle: string)
    ensures Includes(hay, needle) <==> exists i :: SliceAt(hay, i, needle)
  {
    if |needle| <= |hay| && hay[..|needle|] == needle {
      assert SliceAt(hay, 0, needle);
    }
    if hay != [] {
      IncludesIff(hay[1..], needle);
      if exists i :: SliceAt(hay, i, needle) {
        var i :| SliceAt(hay, i, needle);
        if i > 0 {
          assert SliceAt(hay[1..], i - 1, needle);
        }
      }
      if Includes(hay[1..], needle) {
        var i :| SliceAt(hay[1..], i, needle);
        assert hay[1..][i..i + |needle|] == hay[i + 1..i + 1 + |needle|];
        assert SliceAt(hay, i + 1, needle);
      }
    } else {
      assert SliceAt(hay, 0, needle) ==> needle == [];
    }
  }

  /** The empty string is included in every string. */
  lemma IncludesEmpty(hay: string)
    ensures Includes(hay, [])
  {
    assert hay[..0] == [];
  }

  // ------------------------------------------------------- toLowerCase

  function LowerChar(c: char): char {
    if 'A' <= c <= 'Z' then (c as int + 32) as char else c
  }

  /** `s.toLowerCase()`, restricted to the ASCII letters. */
  function Lower(s: string): string {
    seq(|s|, i requires 0 <= i < |s| => LowerChar(s[i]))
  }

  // ------------------------------------------------------ localeCompare

  /** `a.localeCompare(b) <= 0`, taken as lexicographic order on code points. */
  predicate LexLe(a: string, b: string) {
    a == [] || (b != [] && (a[0] < b[0] || (a[0] == b[0] && LexLe(a[1..], b[1..]))))
  }

  lemma {:induction false} LexLeTotal(a: string, b: string)
    ensures LexLe(a, b) || LexLe(b, a)
  {
    if a != [] && b != [] && a[0] == b[0] {
      LexLeTotal(a[1..], b[1..]);
    }
  }

  lemma {:induction false} LexLeTrans(a: string, b: string, c: string)
    requires LexLe(a, b) && LexLe(b, c)
    ensures LexLe(a, c)
  {
    if a != [] && a[0] == b[0] && b[0] == c[0] {
      LexLeTrans(a[1..], b[1..], c[1..]);
    }
  }
}
