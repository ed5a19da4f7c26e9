/** The handful of `java.lang.String` / `Integer` operations the service
    relies on, with their Java semantics written out: `trim`, the regex class
    `\s`, `split` with a single-character delimiter and a negative limit,
    `Integer.parseInt` and `equalsIgnoreCase` against an ASCII word. */
module JavaText {
  import opened Wrappers

  /** Characters `String.trim` removes: every code point up to U+0020. */
  predicate IsBlank(c: char) {
    c <= ' '
  }

  /** The regex class `\s` without UNICODE_CHARACTER_CLASS: [ \t\n\x0B\f\r]. */
  predicate IsSpace(c: char) {
    c == ' ' || '\t' <= c <= '\r'
  }

  predicate AllBlank(s: string) {
    forall i :: 0 <= i < |s| ==> IsBlank(s[i])
  }

  /** Neither end of `s` is a blank. */
  predicate IsTrimmed(s: string) {
    |s| == 0 || (!IsBlank(s[0]) && !IsBlank(s[|s| - 1]))
  }

  /** First index in `lo..hi` that is not blank (or `hi`). */
  function SkipBlanksForward(s: string, lo: nat, hi: nat): (r: nat)
    requires lo <= hi <= |s|
    ensures lo <= r <= hi
    ensures AllBlank(s[lo..r])
    ensures r == hi || !IsBlank(s[r])
    decreases hi - lo
  {
    if lo == hi || !IsBlank(s[lo]) then lo
    else
      var r := SkipBlanksForward(s, lo + 1, hi);
      assert s[lo..r] == [s[lo]] + s[lo + 1..r];
      r
  }

  /** One past the last index in `lo..hi` that is not blank (or `lo`). */
  function SkipBlanksBackward(s: string, lo: nat, hi: nat): (r: nat)
    requires lo <= hi <= |s|
    ensures lo <= r <= hi
    ensures AllBlank(s[r..hi])
    ensures r == lo || !IsBlank(s[r - 1])
    decreases hi - lo
  {
    if lo == hi || !IsBlank(s[hi - 1]) then hi
    else
      var r := SkipBlanksBackward(s, lo, hi - 1);
      assert s[r..hi] == s[r..hi - 1] + [s[hi - 1]];
      r
  }

  /** Number of leading blanks `trim` removes. */
  function TrimStart(s: string): nat {
    SkipBlanksForward(s, 0, |s|)
  }

  /** `String.trim`: drops leading and trailing characters up to U+0020. */
  function Trim(s: string): (r: string)
    ensures IsTrimmed(r)
    ensures |r| == 0 <==> AllBlank(s)
    ensures |r| <= |s|
  {
    var lo := TrimStart(s);
    var hi := SkipBlanksBackward(s, lo, |s|);
    assert lo == |s| || !AllBlank(s);
    assert lo < |s| ==> lo < hi;
    assert hi == lo ==> AllBlank(s) by {
      if hi == lo {
        assert s == s[0..lo] + s[lo..|s|];
      }
    }
    s[lo..hi]
  }

  /** What `trim` returns is the text after the leading blanks. */
  lemma TrimInfix(s: string)
    ensures TrimStart(s) + |Trim(s)| <= |s|
    ensures Trim(s) == s[TrimStart(s)..TrimStart(s) + |Trim(s)|]
  {
  }

  /** Trimming undoes blank padding of an already trimmed text. */
  lemma TrimPadded(a: string, t: string, b: string)
    requires AllBlank(a) && AllBlank(b) && IsTrimmed(t)
    ensures Trim(a + t + b) == t
  {
    var s := a + t + b;
    var lo := SkipBlanksForward(s, 0, |s|);
    var hi := SkipBlanksBackward(s, lo, |s|);
    if |t| == 0 {
      assert AllBlank(s) by {
        forall i | 0 <= i < |s| ensures IsBlank(s[i]) {
          if i < |a| { assert s[i] == a[i]; } else { assert s[i] == b[i - |a|]; }
        }
      }
    } else {
      assert s[|a|] == t[0] && s[|a| + |t| - 1] == t[|t| - 1];
      assert s[lo..hi] == t;
    }
  }

  /** Trimming a trimmed text changes nothing. */
  lemma TrimTrimmed(t: string)
    requires IsTrimmed(t)
    ensures Trim(t) == t
  {
    TrimPadded([], t, []);
    assert [] + t + [] == t;
  }

  /* ---------------------------------------------------------------------
     `String.split(d, -1)` for a one-character delimiter `d`: every
     occurrence separates two fields, trailing empty fields are kept. */

  function Split(s: string, d: char): (r: seq<string>)
    ensures |r| >= 1
    ensures forall k :: 0 <= k < |r| ==> d !in r[k]
    decreases |s|
  {
    if |s| == 0 then [[]]
    else
      var rest := Split(s[1..], d);
      if s[0] == d then [[]] + rest
      else [[s[0]] + rest[0]] + rest[1..]
  }

  /** Fields glued back together with the delimiter between them. */
  function Join(fields: seq<string>, d: char): string
    requires |fields| >= 1
    decreases |fields|
  {
    if |fields| == 1 then fields[0]
    else fields[0] + [d] + Join(fields[1..], d)
  }

  /** Occurrences of `c` in `s`. */
  function Occurrences(s: string, c: char): nat {
    multiset(s)[c]
  }

  /** One field more than there are delimiters. */
  lemma {:induction false} SplitCount(s: string, d: char)
    ensures |Split(s, d)| == Occurrences(s, d) + 1
    decreases |s|
  {
    if |s| > 0 {
      SplitCount(s[1..], d);
      assert s == [s[0]] + s[1..];
    }
  }

  /** Splitting loses nothing: joining the fields gives back the line. */
  lemma {:induction false} JoinSplit(s: string, d: char)
    ensures Join(Split(s, d), d) == s
    decreases |s|
  {
    if |s| > 0 {
      JoinSplit(s[1..], d);
      var rest := Split(s[1..], d);
      if s[0] == d {
        assert s == [d] + s[1..];
      } else if |rest| == 1 {
        assert s == [s[0]] + rest[0];
      } else {
        assert Split(s, d)[1..] == rest[1..];
        assert s == [s[0]] + (rest[0] + [d] + Join(rest[1..], d));
      }
    }
  }

  /** Fields free of the delimiter come back from splitting their join. */
  lemma {:induction false} SplitJoin(fields: seq<string>, d: char)
    requires |fields| >= 1
    requires forall k :: 0 <= k < |fields| ==> d !in fields[k]
    ensures Split(Join(fields, d), d) == fields
    decreases |fields|, |fields[0]|
  {
    if |fields[0]| > 0 {
      var f := fields[0];
      var shorter := [f[1..]] + fields[1..];
      assert forall k :: 0 <= k < |shorter| ==> d !in shorter[k] by {
        assert forall k :: 1 <= k < |shorter| ==> shorter[k] == fields[k];
      }
      SplitJoin(shorter, d);
      JoinConsHead(fields, d);
      assert f[0] != d by { assert f[0] in f; }
      assert Split(Join(fields, d), d) == [[f[0]] + f[1..]] + fields[1..];
      assert [f[0]] + f[1..] == f;
    } else if |fields| > 1 {
      SplitJoin(fields[1..], d);
      assert Join(fields, d) == [d] + Join(fields[1..], d);
      assert Join(fields, d)[1..] == Join(fields[1..], d);
      assert fields == [[]] + fields[1..];
    }
  }

  /** Moving the first character of the first field out of the join. */
  lemma JoinConsHead(fields: seq<string>, d: char)
    requires |fields| >= 1 && |fields[0]| > 0
    ensures Join(fields, d) == [fields[0][0]] + Join([fields[0][1..]] + fields[1..], d)
  {
    var shorter := [fields[0][1..]] + fields[1..];
    assert shorter[1..] == fields[1..];
    assert fields[0] == [fields[0][0]] + fields[0][1..];
  }

  /* ---------------------------------------------------------------------
     `Integer.parseInt(s)` (radix 10). */

  const MinInt: int := -0x8000_0000
  const MaxInt: int := 0x7fff_ffff

  predicate IsDigit(c: char) {
    '0' <= c <= '9'
  }

  predicate AllDigits(s: string) {
    forall i :: 0 <= i < |s| ==> IsDigit(s[i])
  }

  function DigitValue(c: char): nat
    requires IsDigit(c)
  {
    c as nat - '0' as nat
  }

  /** Decimal value of a digit string, most significant digit first. */
  function DigitsValue(s: string): nat
    requires AllDigits(s)
    decreases |s|
  {
    if |s| == 0 then 0
    else DigitsValue(s[..|s| - 1]) * 10 + DigitValue(s[|s| - 1])
  }

  /** Text `Integer.parseInt` can read: a sign or a digit, then digits only,
      and at least one digit in all. */
  predicate IsIntText(s: string) {
    && |s| > 0
    && (IsDigit(s[0]) || ((s[0] == '+' || s[0] == '-') && |s| > 1))
    && AllDigits(s[1..])
  }

  /** The number such text denotes. */
  function IntTextValue(s: string): int
    requires IsIntText(s)
  {
    if IsDigit(s[0]) then
      assert AllDigits(s) by { assert forall i | 1 <= i < |s| :: s[i] == s[1..][i - 1]; }
      DigitsValue(s)
    else if s[0] == '-' then -(DigitsValue(s[1..]) as int)
    else DigitsValue(s[1..])
  }

  /** `Integer.parseInt`: an optional `+` or `-` then at least one digit,
      nothing else (no surrounding blanks), value within 32 bits; `None`
      stands for the NumberFormatException. */
  function ParseInt(s: string): (r: Option<int>)
    ensures r.Some? <==> IsIntText(s) && MinInt <= IntTextValue(s) <= MaxInt
    ensures r.Some? ==> r.value == IntTextValue(s)
    ensures r.Some? ==> MinInt <= r.value <= MaxInt
    ensures r.Some? ==> |s| > 0 && !IsBlank(s[0]) && !IsBlank(s[|s| - 1])
    ensures r.Some? ==> (r.value < 0 ==> s[0] == '-')
  {
    if |s| == 0 then None
    else
      var negative := s[0] == '-';
      var digits := if s[0] == '-' || s[0] == '+' then s[1..] else s;
      if |digits| == 0 || !AllDigits(digits) then None
      else
        var v: int := if negative then -(DigitsValue(digits) as int) else DigitsValue(digits);
        if MinInt <= v <= MaxInt then
          assert IsDigit(s[|s| - 1]) by { assert s[|s| - 1] == digits[|digits| - 1]; }
          Some(v)
        else None
  }

  /** Decimal digits of a natural number (`Integer.toString`, no sign). */
  function ShowNat(n: nat): (r: string)
    ensures |r| >= 1 && AllDigits(r)
    decreases n
  {
    var last := ['0' + (n % 10) as char];
    if n < 10 then last else ShowNat(n / 10) + last
  }

  /** `Integer.toString`. */
  function ShowInt(n: int): string {
    if n < 0 then "-" + ShowNat(-n) else ShowNat(n)
  }

  /** The text of a number holds digits and at most a minus sign. */
  lemma ShowIntChars(n: int, c: char)
    requires !IsDigit(c) && c != '-'
    ensures c !in ShowInt(n)
  {
    var digits := if n < 0 then ShowNat(-n) else ShowNat(n);
    assert ShowInt(n) == (if n < 0 then "-" else "") + digits;
    assert c !in digits;
  }

  lemma {:induction false} DigitsOfShowNat(n: nat)
    ensures DigitsValue(ShowNat(n)) == n
    decreases n
  {
    var r := ShowNat(n);
    if n >= 10 {
      DigitsOfShowNat(n / 10);
      assert r[..|r| - 1] == ShowNat(n / 10);
    }
  }

  /** Every 32-bit integer survives printing and parsing. */
  lemma ParseShowInt(n: int)
    requires MinInt <= n <= MaxInt
    ensures ParseInt(ShowInt(n)) == Some(n)
  {
    if n < 0 {
      ParseShowNegative(n);
    } else {
      ParseShowNat(n);
    }
  }

  lemma ParseShowNegative(n: int)
    requires MinInt <= n < 0
    ensures ParseInt(ShowInt(n)) == Some(n)
  {
    var d := ShowNat(-n);
    var t := ShowInt(n);
    assert t == "-" + d;
    assert t[1..] == d;
    DigitsOfShowNat(-n);
    assert IsIntText(t) by { assert t[0] == '-' && |t| > 1; }
    assert IntTextValue(t) == -(DigitsValue(d) as int);
  }

  lemma ParseShowNat(n: int)
    requires 0 <= n <= MaxInt
    ensures ParseInt(ShowInt(n)) == Some(n)
  {
    var t := ShowNat(n);
    DigitsOfShowNat(n);
    assert IsDigit(t[0]);
    assert AllDigits(t[1..]);
    assert IsIntText(t) && IntTextValue(t) == n;
  }

  /** A leading zero does not change the value of a digit string. */
  lemma {:induction false} LeadingZeroValue(t: string)
    requires AllDigits(t)
    ensures AllDigits("0" + t) && DigitsValue("0" + t) == DigitsValue(t)
    decreases |t|
  {
    var z := "0" + t;
    assert forall i | 1 <= i < |z| :: z[i] == t[i - 1];
    if |t| > 0 {
      assert z[..|z| - 1] == "0" + t[..|t| - 1];
      LeadingZeroValue(t[..|t| - 1]);
    }
  }

  /** A leading `+` is accepted and changes nothing. */
  lemma ParseIntPlus(t: string)
    requires |t| > 0 && AllDigits(t)
    ensures ParseInt("+" + t) == ParseInt(t)
  {
    assert ("+" + t)[1..] == t;
    assert IsDigit(t[0]);
  }

  /** Leading zeros are accepted and change nothing. */
  lemma ParseIntLeadingZero(t: string)
    requires |t| > 0 && AllDigits(t)
    ensures ParseInt("0" + t) == ParseInt(t)
  {
    LeadingZeroValue(t);
    assert ("0" + t)[1..] == t;
    assert IsDigit(t[0]);
  }

  /** A sign alone, or any character other than a digit after the first
      position, makes the text unreadable. */
  lemma ParseIntRejects(s: string, i: nat)
    requires i < |s| && !IsDigit(s[i]) && (i > 0 || (s[0] != '+' && s[0] != '-') || |s| == 1)
    ensures ParseInt(s) == None
  {
    if i > 0 {
      assert s[1..][i - 1] == s[i];
    }
  }

  /* ---------------------------------------------------------------------
     `"yes".equalsIgnoreCase(t)` */

  /** `Character.toUpperCase` on the characters whose case mapping can make
      them match an ASCII letter: the ASCII lower-case letters and the long
      s (U+017F), which upper-cases to `S`. Other characters are left alone. */
  function ToUpper(c: char): char {
    if 'a' <= c <= 'z' then (c as int - 32) as char
    else if c == '\U{017F}' then 'S'
    else c
  }

  /** `Character.toLowerCase` on the ASCII upper-case letters. */
  function ToLower(c: char): char {
    if 'A' <= c <= 'Z' then (c as int + 32) as char else c
  }

  /** The per-character test of `String.regionMatches(true, ...)`: equal, or
      equal once upper-cased, or equal once upper- and then lower-cased. */
  predicate SameIgnoringCase(a: char, b: char) {
    a == b || ToUpper(a) == ToUpper(b) || ToLower(ToUpper(a)) == ToLower(ToUpper(b))
  }

  /** `String.equalsIgnoreCase`: same length, and every position matches
      ignoring case. */
  predicate EqualsIgnoreCase(a: string, b: string) {
    |a| == |b| && forall i :: 0 <= i < |a| ==> SameIgnoringCase(a[i], b[i])
  }

  /** The word `yes` in any mix of cases, where the long s counts as an s. */
  function IsYes(t: string): (r: bool)
    ensures r <==> |t| == 3 && t[0] in "yY" && t[1] in "eE" && t[2] in "sS\U{017F}"
  {
    EqualsIgnoreCase("yes", t)
  }
}
