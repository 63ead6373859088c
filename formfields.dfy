/**
 * The two conversions the request handlers apply to submitted form fields:
 * Python's `str.strip()` (every text field except the passwords) and
 * Python's `int()` in base 10 (the quantity and publication year of a new
 * book, and the rating of a review).
 */
module FormFields {
  import opened Seqs

  /** The characters Python's `str.isspace()` accepts, which `str.strip()` removes. */
  predicate IsSpace(c: char)
  {
    ('\t' <= c <= '\r') || ('\U{1C}' <= c <= ' ') || c == '\U{85}' || c == '\U{A0}' ||
    c == '\U{1680}' || ('\U{2000}' <= c <= '\U{200A}') || c == '\U{2028}' || c == '\U{2029}' ||
    c == '\U{202F}' || c == '\U{205F}' || c == '\U{3000}'
  }

  /**
   * The characters `int()` skips around a number. It turns every non-ASCII
   * `str.isspace()` character into a space and then skips tab, line feed,
   * vertical tab, form feed, carriage return and space, so the four ASCII
   * separators U+001C..U+001F, which `str.isspace()` accepts, are not skipped.
   */
  predicate IsIntSpace(c: char)
  {
    IsSpace(c) && !('\U{1C}' <= c <= '\U{1F}')
  }

  /** `s` without its leading characters from the set `ws`. */
  function StripStart(s: string, ws: char -> bool): (r: string)
  {
    if s != [] && ws(s[0]) then StripStart(s[1..], ws) else s
  }

  /** `s` without its trailing characters from the set `ws`. */
  function StripEnd(s: string, ws: char -> bool): (r: string)
  {
    if s != [] && ws(s[|s| - 1]) then StripEnd(s[..|s| - 1], ws) else s
  }

  /** `s` without the characters from the set `ws` at either end. */
  function StripWith(s: string, ws: char -> bool): (r: string)
  {
    StripEnd(StripStart(s, ws), ws)
  }

  /** Python's `s.strip()`. */
  function Strip(s: string): (r: string)
  {
    StripWith(s, IsSpace)
  }

  /** The text `int()` reads once it has skipped the whitespace around a number. */
  function IntStrip(s: string): (r: string)
  {
    StripWith(s, IsIntSpace)
  }

  /** Removing a leading run takes a prefix from `ws` and leaves a suffix that does not start with one. */
  lemma {:induction false} StripStartSpec(s: string, ws: char -> bool)
    ensures var r := StripStart(s, ws);
            && |r| <= |s| && r == s[|s| - |r|..]
            && (forall k :: 0 <= k < |s| - |r| ==> ws(s[k]))
            && (r == [] || !ws(r[0]))
  {
    if s != [] && ws(s[0]) {
      StripStartSpec(s[1..], ws);
    }
  }

  /** Removing a trailing run takes a suffix from `ws` and leaves a prefix that does not end with one. */
  lemma {:induction false} StripEndSpec(s: string, ws: char -> bool)
    ensures var r := StripEnd(s, ws);
            && |r| <= |s| && r == s[..|r|]
            && (forall k :: |r| <= k < |s| ==> ws(s[k]))
            && (r == [] || !ws(r[|r| - 1]))
  {
    if s != [] && ws(s[|s| - 1]) {
      StripEndSpec(s[..|s| - 1], ws);
    }
  }

  /**
   * Stripping gives a slice of `s` that neither starts nor ends with a
   * character from `ws`; it is empty exactly when all of `s` is from `ws`.
   */
  lemma StripSpec(s: string, ws: char -> bool)
    ensures |StripWith(s, ws)| <= |s|
    ensures exists i, j :: 0 <= i <= j <= |s| && StripWith(s, ws) == s[i..j]
    ensures StripWith(s, ws) == [] || (!ws(StripWith(s, ws)[0]) && !ws(StripWith(s, ws)[|StripWith(s, ws)| - 1]))
    ensures StripWith(s, ws) == [] <==> forall k :: 0 <= k < |s| ==> ws(s[k])
  {
    var t := StripStart(s, ws);
    StripStartSpec(s, ws);
    StripEndSpec(t, ws);
    var r := StripEnd(t, ws);
    var i := |s| - |t|;
    assert r == s[i..i + |r|];
    if r != [] {
      assert r[0] == t[0];
    }
  }

  /** Text that neither starts nor ends with a character from `ws` is left alone. */
  lemma StripTrimmed(s: string, ws: char -> bool)
    requires s == [] || (!ws(s[0]) && !ws(s[|s| - 1]))
    ensures StripWith(s, ws) == s
  {
    if s != [] {
      assert StripStart(s, ws) == s;
    }
  }

  /** Stripping twice is stripping once. */
  lemma StripIdempotent(s: string, ws: char -> bool)
    ensures StripWith(StripWith(s, ws), ws) == StripWith(s, ws)
  {
    StripSpec(s, ws);
    StripTrimmed(StripWith(s, ws), ws);
  }

  predicate IsDigit(c: char)
  {
    '0' <= c <= '9'
  }

  /** The value of an ASCII digit. */
  function DigitValue(c: char): (d: nat)
    requires IsDigit(c)
    ensures d < 10
  {
    c as int - '0' as int
  }

  /**
   * A base-10 literal as `int()` reads it: one or more ASCII digits, with
   * single underscores allowed between two digits.
   */
  predicate IsDigitGroup(s: string)
  {
    && s != []
    && IsDigit(s[0])
    && (|s| == 1 || IsDigitGroup(s[1..]) || (s[1] == '_' && IsDigitGroup(s[2..])))
  }

  /** Digits alone always form a digit group. */
  lemma {:induction false} AllDigitsIsGroup(s: string)
    requires s != [] && forall k :: 0 <= k < |s| ==> IsDigit(s[k])
    ensures IsDigitGroup(s)
  {
    if |s| > 1 {
      AllDigitsIsGroup(s[1..]);
    }
  }

  /** The value of a string of ASCII digits, most significant first. */
  function DecimalValue(ds: string): (n: nat)
    requires forall k :: 0 <= k < |ds| ==> IsDigit(ds[k])
  {
    if ds == [] then 0
    else DecimalValue(ds[..|ds| - 1]) * 10 + DigitValue(ds[|ds| - 1])
  }

  /** The value of a digit group: its digits read in base 10, underscores ignored. */
  function GroupValue(s: string): (n: nat)
    requires IsDigitGroup(s)
  {
    DecimalValue(Filter(s, IsDigit))
  }

  /** An optional sign followed directly by a digit group, or None. */
  function ParseSigned(t: string): (r: Option<int>)
    ensures r.Some? ==> t != []
  {
    if t != [] && (t[0] == '+' || t[0] == '-') then
      if IsDigitGroup(t[1..]) then
        var v: int := GroupValue(t[1..]);
        Some(if t[0] == '-' then -v else v)
      else None
    else if IsDigitGroup(t) then Some(GroupValue(t))
    else None
  }

  /**
   * Python's `int(s)` in base 10: the whitespace `int()` skips is ignored
   * around the number, an optional sign is followed directly by a digit
   * group, and anything else raises ValueError (here None). Blank text
   * never parses.
   */
  function ParseInt(s: string): (r: Option<int>)
    ensures r.Some? ==> IntStrip(s) != []
  {
    ParseSigned(IntStrip(s))
  }

  /** The ASCII digit for a value below ten. */
  function DigitChar(d: nat): (c: char)
    requires d < 10
    ensures IsDigit(c) && c as int - '0' as int == d
  {
    ('0' as int + d) as char
  }

  /** The decimal digits of `n` without leading zeros, as Python's `str(n)`. */
  function NatDigits(n: nat): (ds: string)
    ensures ds != [] && forall k :: 0 <= k < |ds| ==> IsDigit(ds[k])
  {
    if n < 10 then [DigitChar(n)] else NatDigits(n / 10) + [DigitChar(n % 10)]
  }

  /** Python's `str(n)` for an integer. */
  function Decimal(n: int): (s: string)
  {
    if n < 0 then "-" + NatDigits(-n) else NatDigits(n)
  }

  lemma {:induction false} NatDigitsValue(n: nat)
    ensures DecimalValue(NatDigits(n)) == n
  {
    var ds := NatDigits(n);
    if n >= 10 {
      NatDigitsValue(n / 10);
      assert ds[..|ds| - 1] == NatDigits(n / 10);
    }
  }

  /** A string of digits reads back as its decimal value. */
  lemma GroupValueOfDigits(m: nat)
    ensures IsDigitGroup(NatDigits(m)) && GroupValue(NatDigits(m)) == m
  {
    var ds := NatDigits(m);
    AllDigitsIsGroup(ds);
    FilterAll(ds, IsDigit);
    NatDigitsValue(m);
  }

  /** The decimal form of an integer has no surrounding whitespace. */
  lemma DecimalIsTrimmed(n: int)
    ensures IntStrip(Decimal(n)) == Decimal(n)
  {
    var s := Decimal(n);
    var ds := NatDigits(if n < 0 then -n else n);
    assert IsDigit(ds[0]) && IsDigit(ds[|ds| - 1]);
    assert s[|s| - 1] == ds[|ds| - 1];
    assert s[0] == '-' || s[0] == ds[0];
    StripTrimmed(s, IsIntSpace);
  }

  /** Reading back the decimal form of any integer gives that integer. */
  lemma ParseIntDecimal(n: int)
    ensures ParseInt(Decimal(n)) == Some(n)
  {
    var m: nat := if n < 0 then -n else n;
    var ds := NatDigits(m);
    GroupValueOfDigits(m);
    DecimalIsTrimmed(n);
    var s := Decimal(n);
    if n < 0 {
      assert s[0] == '-' && s[1..] == ds;
    } else {
      assert s == ds && IsDigit(s[0]);
    }
  }

  /** `int()` ignores the whitespace it skips around the number. */
  lemma ParseIntIgnoresSpace(s: string)
    ensures ParseInt(IntStrip(s)) == ParseInt(s)
  {
    StripIdempotent(s, IsIntSpace);
  }

  /**
   * On text already passed through `str.strip()`, `int()` skips nothing
   * more: it reads the stripped text as it is (the publication year).
   */
  lemma ParseIntAfterStrip(s: string)
    ensures ParseInt(Strip(s)) == ParseSigned(Strip(s))
  {
    StripSpec(s, IsSpace);
    StripTrimmed(Strip(s), IsIntSpace);
  }

  /**
   * `str.strip()` removes a leading U+001C, but `int()` does not skip it:
   * the two strips differ on such text.
   */
  lemma SeparatorNotSkipped()
    ensures Strip("\U{1C}4") == "4"
    ensures ParseInt("\U{1C}4") == None && ParseInt("4") == Some(4)
  {
    var s := "\U{1C}4";
    assert StripStart(s, IsSpace) == StripStart("4", IsSpace) == "4";
    assert StripEnd("4", IsSpace) == "4";
    assert StripStart(s, IsIntSpace) == s;
    assert StripEnd(s, IsIntSpace) == s;
    assert !IsDigitGroup(s);
    assert StripStart("4", IsIntSpace) == "4" && StripEnd("4", IsIntSpace) == "4";
    assert IsDigitGroup("4") && Filter("4", IsDigit) == "4";
    assert DecimalValue("4") == 4 by {
      assert "4"[..0] == [];
    }
  }
}
