/**
 * The pieces of Python's `str` and of SQLite's text handling that the bot
 * relies on: `strip()`, `lower()`, substring search with `in`, `int()` on a
 * stripped string, and the BINARY collation SQLite uses for `ORDER BY` on a
 * TEXT column.
 */
module Text {
  import opened Wrappers

  // ---------------------------------------------------------------------------
  // strip()

  /** The characters `str.strip()` removes, restricted to ASCII:
    * tab, line feed, vertical tab, form feed, carriage return, the four
    * information separators 0x1C-0x1F, and space. */
  predicate IsSpace(c: char) {
    c == ' ' || ('\t' <= c <= '\r') || ('\U{1C}' <= c <= '\U{1F}')
  }

  predicate AllSpace(s: string) {
    forall i :: 0 <= i < |s| ==> IsSpace(s[i])
  }

  /** Everything in `s[lo..hi]` is whitespace. */
  predicate SpaceIn(s: string, lo: nat, hi: nat)
    requires lo <= hi <= |s|
  {
    forall i :: lo <= i < hi ==> IsSpace(s[i])
  }

  /** Skips whitespace forwards from `i`: the index of the first character
    * at or after `i` that is not whitespace, or `|s|`. */
  function SkipFrom(s: string, i: nat): (n: nat)
    requires i <= |s|
    ensures i <= n <= |s| && SpaceIn(s, i, n)
    ensures n == |s| || !IsSpace(s[n])
    decreases |s| - i
  {
    if i < |s| && IsSpace(s[i]) then SkipFrom(s, i + 1) else i
  }

  /** Skips whitespace backwards from `j`, not going below `lo`: the index
    * just past the last character before `j` that is not whitespace, or `lo`. */
  function BackFrom(s: string, lo: nat, j: nat): (n: nat)
    requires lo <= j <= |s|
    ensures lo <= n <= j && SpaceIn(s, n, j)
    ensures n == lo || !IsSpace(s[n - 1])
    decreases j
  {
    if lo < j && IsSpace(s[j - 1]) then BackFrom(s, lo, j - 1) else j
  }

  /** The number of leading whitespace characters `strip()` removes. */
  function Lead(s: string): (n: nat)
    ensures n <= |s|
  {
    SkipFrom(s, 0)
  }

  /** Where the text `strip()` keeps ends. */
  function StripEnd(s: string): (n: nat)
    ensures Lead(s) <= n <= |s|
  {
    BackFrom(s, Lead(s), |s|)
  }

  /** `str.strip()`. */
  function Strip(s: string): (r: string)
    ensures |r| <= |s|
  {
    s[Lead(s)..StripEnd(s)]
  }

  /** What `Strip` returns is the slice of `s` after its `Lead(s)` leading
    * whitespace characters that neither starts nor ends with whitespace, and
    * what lies outside the slice is all whitespace. */
  lemma StripShape(s: string)
    ensures Lead(s) + |Strip(s)| <= |s| && Strip(s) == s[Lead(s)..Lead(s) + |Strip(s)|]
    ensures AllSpace(s[..Lead(s)]) && AllSpace(s[Lead(s) + |Strip(s)|..])
    ensures Strip(s) == [] || (!IsSpace(Strip(s)[0]) && !IsSpace(Strip(s)[|Strip(s)| - 1]))
  {
    var i, j := Lead(s), StripEnd(s);
    assert |Strip(s)| == j - i;
    assert SpaceIn(s, 0, i) && SpaceIn(s, j, |s|);
    forall k | 0 <= k < i ensures IsSpace(s[..i][k]) {
      assert s[..i][k] == s[k];
    }
    forall k | 0 <= k < |s| - j ensures IsSpace(s[j..][k]) {
      assert s[j..][k] == s[j + k];
    }
    if i < j {
      assert Strip(s)[0] == s[i];
      assert Strip(s)[j - i - 1] == s[j - 1];
    }
  }

  /** A string that neither starts nor ends with whitespace is left as it is. */
  lemma StripUnchanged(s: string)
    requires s == [] || (!IsSpace(s[0]) && !IsSpace(s[|s| - 1]))
    ensures Strip(s) == s
  {
    assert Lead(s) == 0;
    assert StripEnd(s) == |s|;
    assert s[0..|s|] == s;
  }

  /** Stripping is idempotent. */
  lemma StripIdempotent(s: string)
    ensures Strip(Strip(s)) == Strip(s)
  {
    StripShape(s);
    StripUnchanged(Strip(s));
  }

  /** A line is blank (`not ln.strip()`) exactly when it is all whitespace. */
  lemma StripEmptyIffAllSpace(s: string)
    ensures Strip(s) == [] <==> AllSpace(s)
  {
    var i, j := Lead(s), StripEnd(s);
    if Strip(s) == [] {
      assert i == j == |s|;
      assert SpaceIn(s, 0, |s|);
    } else {
      assert s[i] == Strip(s)[0];
    }
  }

  // ---------------------------------------------------------------------------
  // lower() and substring search

  /** `str.lower()` on one character, restricted to ASCII letters. */
  function LowerChar(c: char): char {
    if 'A' <= c <= 'Z' then (c as int + 32) as char else c
  }

  function Lower(s: string): (r: string)
    ensures |r| == |s|
    ensures forall i :: 0 <= i < |s| ==> r[i] == LowerChar(s[i])
  {
    seq(|s|, i requires 0 <= i < |s| => LowerChar(s[i]))
  }

  /** `p` occurs in `s` starting at position `i`. */
  predicate OccursAt(s: string, p: string, i: int) {
    0 <= i <= |s| - |p| && s[i..i + |p|] == p
  }

  /** `p in s` on strings. */
  function Contains(s: string, p: string): bool
    decreases |s|
  {
    if |s| < |p| then false
    else if s[..|p|] == p then true
    else Contains(s[1..], p)
  }

  /** `Contains` holds exactly when `p` occurs at some position of `s`. */
  lemma {:induction false} ContainsIff(s: string, p: string)
    ensures Contains(s, p) <==> exists i :: OccursAt(s, p, i)
    decreases |s|
  {
    if |s| < |p| {
    } else if s[..|p|] == p {
      assert OccursAt(s, p, 0);
    } else {
      ContainsIff(s[1..], p);
      if Contains(s, p) {
        var i :| OccursAt(s[1..], p, i);
        assert s[1..][i..i + |p|] == s[i + 1..i + 1 + |p|];
        assert OccursAt(s, p, i + 1);
      }
      if exists i :: OccursAt(s, p, i) {
        var i :| OccursAt(s, p, i);
        assert i != 0;
        assert s[1..][i - 1..i - 1 + |p|] == s[i..i + |p|];
        assert OccursAt(s[1..], p, i - 1);
      }
    }
  }

  // ---------------------------------------------------------------------------
  // int() and its inverse

  predicate IsDigit(c: char) {
    '0' <= c <= '9'
  }

  predicate AllDigits(s: string) {
    forall i :: 0 <= i < |s| ==> IsDigit(s[i])
  }

  /** The value of a string of decimal digits, most significant first. */
  function DigitsValue(ds: string): nat
    requires AllDigits(ds)
  {
    if ds == [] then 0
    else DigitsValue(ds[..|ds| - 1]) * 10 + (ds[|ds| - 1] as int - '0' as int)
  }

  /** The most digits `int()` converts from a decimal string: CPython's
    * default `sys.int_info.default_max_str_digits`. A longer string raises
    * ValueError. */
  const MaxStrDigits: nat := 4300

  /** `s` without its optional leading sign. */
  function Unsigned(s: string): (r: string)
    ensures |r| <= |s|
  {
    if s != [] && (s[0] == '+' || s[0] == '-') then s[1..] else s
  }

  /** The shape of a decimal integer literal: an optional sign followed by one
    * or more ASCII decimal digits. */
  predicate IsIntLiteral(s: string) {
    Unsigned(s) != [] && AllDigits(Unsigned(s))
  }

  /** `int(s)`, with `None` in place of the ValueError: raised for anything
    * but an integer literal, and for a literal of more than `MaxStrDigits`
    * digits. */
  function ParseInt(s: string): (r: Option<int>)
    ensures r.Some? <==> IsIntLiteral(s) && |Unsigned(s)| <= MaxStrDigits
    ensures r.Some? ==> (if r.value < 0 then -r.value else r.value) == DigitsValue(Unsigned(s))
    ensures r.Some? ==> (r.value < 0 ==> s[0] == '-') && (s[0] == '-' ==> r.value <= 0)
  {
    var digits := Unsigned(s);
    if digits != [] && AllDigits(digits) && |digits| <= MaxStrDigits then
      var v: int := DigitsValue(digits);
      Some(if s[0] == '-' then -v else v)
    else None
  }

  function DigitChar(d: nat): (c: char)
    requires d < 10
    ensures IsDigit(c) && c as int - '0' as int == d
  {
    ('0' as int + d) as char
  }

  /** `str(n)` for a non-negative integer. */
  function ShowNat(n: nat): (r: string)
    ensures r != [] && AllDigits(r)
  {
    if n < 10 then [DigitChar(n)] else ShowNat(n / 10) + [DigitChar(n % 10)]
  }

  /** The number of digits `str(n)` writes, sign excluded. */
  function DigitCount(n: int): nat {
    |ShowNat(if n < 0 then -n else n)|
  }

  /** `str(n)` for any integer. */
  function ShowInt(n: int): (r: string)
    ensures IsIntLiteral(r)
  {
    if n < 0 then "-" + ShowNat(-n) else ShowNat(n)
  }

  lemma {:induction false} ShowNatValue(n: nat)
    ensures DigitsValue(ShowNat(n)) == n
  {
    var s := ShowNat(n);
    if n >= 10 {
      ShowNatValue(n / 10);
      assert s[..|s| - 1] == ShowNat(n / 10);
    }
  }

  /** `int(str(n)) == n` for every integer of at most `MaxStrDigits` digits;
    * a longer one raises. */
  lemma {:induction false} ParseShowInt(n: int)
    ensures ParseInt(ShowInt(n)) == if DigitCount(n) <= MaxStrDigits then Some(n) else None
  {
    var s := ShowInt(n);
    if n < 0 {
      ShowNatValue(-n);
      assert s[0] == '-' && s[1..] == ShowNat(-n);
      assert Unsigned(s) == ShowNat(-n);
    } else {
      ShowNatValue(n);
      assert s == ShowNat(n);
      assert s[0] != '+' && s[0] != '-' by { assert IsDigit(s[0]); }
      assert Unsigned(s) == ShowNat(n);
    }
  }

  // ---------------------------------------------------------------------------
  // SQLite's BINARY collation

  /** Text order of SQLite's default BINARY collation: `memcmp` on the UTF-8
    * bytes, which is the lexicographic order of code points. */
  predicate StrLess(a: string, b: string)
    decreases |a|
  {
    if a == [] then b != []
    else if b == [] then false
    else if a[0] != b[0] then a[0] < b[0]
    else StrLess(a[1..], b[1..])
  }

  lemma {:induction false} StrLessIrreflexive(a: string)
    ensures !StrLess(a, a)
    decreases |a|
  {
    if a != [] { StrLessIrreflexive(a[1..]); }
  }

  lemma {:induction false} StrLessTransitive(a: string, b: string, c: string)
    requires StrLess(a, b) && StrLess(b, c)
    ensures StrLess(a, c)
    decreases |a|
  {
    if a != [] && b != [] && c != [] && a[0] == b[0] && b[0] == c[0] {
      StrLessTransitive(a[1..], b[1..], c[1..]);
    }
  }

  lemma {:induction false} StrLessTotal(a: string, b: string)
    ensures a == b || StrLess(a, b) || StrLess(b, a)
    decreases |a|
  {
    if a != [] && b != [] && a[0] == b[0] {
      StrLessTotal(a[1..], b[1..]);
      if a[1..] == b[1..] {
        assert a == [a[0]] + a[1..] && b == [b[0]] + b[1..];
      }
    }
  }

  /** The collation is a strict total order on strings. */
  lemma StrLessIsStrictTotalOrder()
    ensures forall a :: !StrLess(a, a)
    ensures forall a, b :: a == b || StrLess(a, b) || StrLess(b, a)
    ensures forall a, b, c :: StrLess(a, b) && StrLess(b, c) ==> StrLess(a, c)
  {
    forall a ensures !StrLess(a, a) { StrLessIrreflexive(a); }
    forall a, b ensures a == b || StrLess(a, b) || StrLess(b, a) { StrLessTotal(a, b); }
    forall a, b, c | StrLess(a, b) && StrLess(b, c) ensures StrLess(a, c) {
      StrLessTransitive(a, b, c);
    }
  }
}
