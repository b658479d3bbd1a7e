/**
 * The few pieces of Ruby's and Rails' String behaviour the lottery engine relies on:
 * `strip`, `blank?`, `to_i`, `to_s` of an integer, `split` by a one-character separator,
 * `join` and `downcase`. Strings are sequences of Unicode scalar values, as Ruby's UTF-8
 * strings are sequences of code points.
 */
module RubyText {
  import opened Wrappers

  // ---------------------------------------------------------------------------
  // Character classes
  // ---------------------------------------------------------------------------

  /** Ruby's ASCII whitespace (`ISSPACE`): space, \t, \n, \v, \f, \r. */
  predicate IsAsciiSpace(c: char) {
    c == ' ' || c == '\t' || c == '\n' || c == '\U{B}' || c == '\U{C}' || c == '\r'
  }

  /** What `String#strip` removes at either end: NUL and ASCII whitespace. */
  predicate IsStripSpace(c: char) {
    c == '\0' || IsAsciiSpace(c)
  }

  /** Rails' `[[:space:]]`, the Unicode White_Space property used by `String#blank?`. */
  predicate IsUnicodeSpace(c: char) {
    IsAsciiSpace(c) || c == '\U{85}' || c == '\U{A0}' || c == '\U{1680}'
    || ('\U{2000}' <= c <= '\U{200A}') || c == '\U{2028}' || c == '\U{2029}'
    || c == '\U{202F}' || c == '\U{205F}' || c == '\U{3000}'
  }

  predicate IsDigit(c: char) {
    '0' <= c <= '9'
  }

  // ---------------------------------------------------------------------------
  // blank? / present?
  // ---------------------------------------------------------------------------

  /** `String#blank?`: empty or made of whitespace only. */
  predicate IsBlank(s: string) {
    forall k :: 0 <= k < |s| ==> IsUnicodeSpace(s[k])
  }

  /** `blank?` on a value that may be `nil`. */
  predicate IsBlankOpt(o: Option<string>) {
    o.None? || IsBlank(o.value)
  }

  // ---------------------------------------------------------------------------
  // strip
  // ---------------------------------------------------------------------------

  predicate AllStripSpace(s: string) {
    forall k :: 0 <= k < |s| ==> IsStripSpace(s[k])
  }

  /** A string that `strip` leaves as it is: neither end is strippable. */
  predicate IsStripped(s: string) {
    |s| == 0 || (!IsStripSpace(s[0]) && !IsStripSpace(s[|s| - 1]))
  }

  function LeadingSpaces(s: string): (n: nat)
    ensures n <= |s|
    ensures AllStripSpace(s[..n])
    ensures n < |s| ==> !IsStripSpace(s[n])
  {
    if |s| > 0 && IsStripSpace(s[0]) then 1 + LeadingSpaces(s[1..]) else 0
  }

  function TrailingSpaces(s: string): (n: nat)
    ensures n <= |s|
    ensures AllStripSpace(s[|s| - n..])
    ensures n < |s| ==> !IsStripSpace(s[|s| - 1 - n])
  {
    if |s| > 0 && IsStripSpace(s[|s| - 1]) then 1 + TrailingSpaces(s[..|s| - 1]) else 0
  }

  /**
   * `String#strip`: the infix of `s` left after removing the strippable characters at
   * both ends. The result is stripped, and what was removed is strippable.
   */
  function Strip(s: string): (r: string)
    ensures IsStripped(r)
    ensures exists i :: 0 <= i && i + |r| <= |s| && r == s[i..i + |r|]
                        && AllStripSpace(s[..i]) && AllStripSpace(s[i + |r|..])
    ensures IsStripped(s) ==> r == s
  {
    var a := LeadingSpaces(s);
    var t := s[a..];
    StripFacts(s, a, t, TrailingSpaces(t));
    t[..|t| - TrailingSpaces(t)]
  }

  lemma StripFacts(s: string, a: nat, t: string, b: nat)
    requires a == LeadingSpaces(s) && t == s[a..] && b == TrailingSpaces(t)
    ensures var r := t[..|t| - b];
      IsStripped(r)
      && r == s[a..a + |r|] && AllStripSpace(s[..a]) && AllStripSpace(s[a + |r|..])
      && (IsStripped(s) ==> r == s)
  {
    StripEnds(s, a, t, b);
    StripInfix(s, a, t, b);
    if IsStripped(s) && |s| > 0 {
      assert a == 0 && b == 0;
    }
  }

  lemma StripInfix(s: string, a: nat, t: string, b: nat)
    requires a == LeadingSpaces(s) && t == s[a..] && b == TrailingSpaces(t)
    ensures var r := t[..|t| - b];
      r == s[a..a + |r|] && AllStripSpace(s[..a]) && AllStripSpace(s[a + |r|..])
  {
    var r := t[..|t| - b];
    assert |r| == |t| - b;
    assert r == s[a..a + |r|];
    assert AllStripSpace(s[..a]) by { LeadingAreSpaces(s); }
    assert AllStripSpace(s[a + |r|..]) by {
      assert s[a + |r|..] == t[|t| - b..];
      TrailingAreSpaces(t);
    }
  }

  lemma LeadingAreSpaces(s: string)
    ensures AllStripSpace(s[..LeadingSpaces(s)])
  {
  }

  lemma TrailingAreSpaces(s: string)
    ensures AllStripSpace(s[|s| - TrailingSpaces(s)..])
  {
  }

  lemma StripEnds(s: string, a: nat, t: string, b: nat)
    requires a == LeadingSpaces(s) && t == s[a..] && b == TrailingSpaces(t)
    ensures IsStripped(t[..|t| - b])
  {
    var r := t[..|t| - b];
    if |r| > 0 {
      assert r[0] == s[a];
      assert r[|r| - 1] == t[|t| - 1 - b];
    }
  }

  /** `&.strip` on a value that may be `nil`. */
  function StripOpt(o: Option<string>): Option<string> {
    match o
    case None => None
    case Some(s) => Some(Strip(s))
  }

  // ---------------------------------------------------------------------------
  // Integer#to_s and String#to_i (base 10)
  // ---------------------------------------------------------------------------

  function DigitChar(d: nat): char
    requires d < 10
  {
    ('0' as int + d) as char
  }

  function DigitValue(c: char): nat
    requires IsDigit(c)
  {
    c as int - '0' as int
  }

  /** The decimal digits of `n`, most significant first, without leading zeros. */
  function NatToS(n: nat): (s: string)
    ensures |s| > 0
    ensures forall k :: 0 <= k < |s| ==> IsDigit(s[k])
  {
    if n < 10 then [DigitChar(n)] else NatToS(n / 10) + [DigitChar(n % 10)]
  }

  /** `Integer#to_s`. */
  function IntToS(n: int): string {
    if n < 0 then "-" + NatToS(-n) else NatToS(n)
  }

  /** The value of a run of decimal digits. */
  function DecimalValue(w: string): nat
    requires forall k :: 0 <= k < |w| ==> IsDigit(w[k])
  {
    if |w| == 0 then 0 else DecimalValue(w[..|w| - 1]) * 10 + DigitValue(w[|w| - 1])
  }

  /**
   * The digits that `to_i` reads at the start of `s`: a digit, then digits, each possibly
   * preceded by one underscore; reading stops at anything else (two underscores in a row,
   * a trailing underscore, any other character). Underscores are dropped.
   */
  function LeadingDigits(s: string): (w: string)
    ensures |w| <= |s|
    ensures forall k :: 0 <= k < |w| ==> IsDigit(w[k])
    ensures |w| > 0 <==> |s| > 0 && IsDigit(s[0])
  {
    if |s| == 0 || !IsDigit(s[0]) then []
    else if |s| >= 3 && s[1] == '_' && IsDigit(s[2]) then [s[0]] + LeadingDigits(s[2..])
    else [s[0]] + LeadingDigits(s[1..])
  }

  function LeadingAsciiSpaces(s: string): (n: nat)
    ensures n <= |s|
    ensures n < |s| ==> !IsAsciiSpace(s[n])
  {
    if |s| > 0 && IsAsciiSpace(s[0]) then 1 + LeadingAsciiSpaces(s[1..]) else 0
  }

  /**
   * `String#to_i`: skip leading ASCII whitespace, read an optional sign and the digits after
   * it; anything unreadable gives 0.
   */
  function ToI(s: string): (n: int)
    ensures |s| == 0 || (!IsAsciiSpace(s[0]) && !IsDigit(s[0]) && s[0] != '+' && s[0] != '-') ==> n == 0
    ensures |s| > 0 && (IsDigit(s[0]) || s[0] == '+') ==> n >= 0
    ensures |s| > 0 && s[0] == '-' ==> n <= 0
  {
    var t := s[LeadingAsciiSpaces(s)..];
    if |t| > 0 && t[0] == '-' then -(DecimalValue(LeadingDigits(t[1..])) as int)
    else if |t| > 0 && t[0] == '+' then DecimalValue(LeadingDigits(t[1..]))
    else DecimalValue(LeadingDigits(t))
  }

  /** `&.to_i` on a value that may be `nil`. */
  function ToIOpt(o: Option<string>): Option<int> {
    match o
    case None => None
    case Some(s) => Some(ToI(s))
  }

  lemma {:induction false} DecimalValueOfNatToS(n: nat)
    ensures DecimalValue(NatToS(n)) == n
  {
    if n >= 10 {
      DecimalValueOfNatToS(n / 10);
      var w := NatToS(n);
      assert w[..|w| - 1] == NatToS(n / 10);
    }
  }

  /** `to_i` stops reading digits at a character that is neither a digit nor an underscore. */
  lemma {:induction false} LeadingDigitsThen(w: string, rest: string)
    requires forall k :: 0 <= k < |w| ==> IsDigit(w[k])
    requires |rest| == 0 || (!IsDigit(rest[0]) && rest[0] != '_')
    ensures LeadingDigits(w + rest) == w
    decreases |w|
  {
    if |w| == 0 {
      assert w + rest == rest;
    } else {
      assert (w + rest)[1..] == w[1..] + rest;
      LeadingDigitsThen(w[1..], rest);
      assert [w[0]] + w[1..] == w;
    }
  }

  /** `to_i` of text starting with a digit reads the leading digits. */
  lemma ToIOfDigitStart(s: string)
    requires |s| > 0 && IsDigit(s[0])
    ensures ToI(s) == DecimalValue(LeadingDigits(s)) as int
  {
    assert LeadingAsciiSpaces(s) == 0;
    assert s[0..] == s;
  }

  /** `to_i` of text starting with a minus sign reads the digits after it, negated. */
  lemma ToIOfMinusStart(s: string)
    requires |s| > 0 && s[0] == '-'
    ensures ToI(s) == -(DecimalValue(LeadingDigits(s[1..])) as int)
  {
    assert LeadingAsciiSpaces(s) == 0;
    assert s[0..] == s;
  }

  /** An integer written with `to_s` and followed by other text reads back as that integer. */
  lemma ToIOfIntToSThen(n: int, rest: string)
    requires |rest| == 0 || (!IsDigit(rest[0]) && rest[0] != '_')
    ensures ToI(IntToS(n) + rest) == n
  {
    if n < 0 {
      var w := NatToS(-n);
      assert IntToS(n) == "-" + w;
      assert ("-" + w) + rest == "-" + (w + rest);
      NegativeThen(-n, rest);
    } else {
      NaturalThen(n, rest);
    }
  }

  lemma NaturalThen(m: nat, rest: string)
    requires |rest| == 0 || (!IsDigit(rest[0]) && rest[0] != '_')
    ensures ToI(NatToS(m) + rest) == m
  {
    var w := NatToS(m);
    LeadingDigitsThen(w, rest);
    DecimalValueOfNatToS(m);
    ToIOfDigitStart(w + rest);
  }

  lemma NegativeThen(m: nat, rest: string)
    requires |rest| == 0 || (!IsDigit(rest[0]) && rest[0] != '_')
    ensures ToI("-" + (NatToS(m) + rest)) == -(m as int)
  {
    var w := NatToS(m);
    var s := "-" + (w + rest);
    LeadingDigitsThen(w, rest);
    DecimalValueOfNatToS(m);
    ToIOfMinusStart(s);
    assert s[1..] == w + rest;
  }

  /** `to_i` reads back what `to_s` writes. */
  lemma ToIOfIntToS(n: int)
    ensures ToI(IntToS(n)) == n
  {
    ToIOfIntToSThen(n, "");
    assert IntToS(n) + "" == IntToS(n);
  }

  /** What `to_s` writes is a non-empty line with no whitespace at its ends and no `#`. */
  lemma IntToSShape(n: int)
    ensures |IntToS(n)| > 0 && IsStripped(IntToS(n))
    ensures forall k :: 0 <= k < |IntToS(n)| ==> IntToS(n)[k] != '\n' && IntToS(n)[k] != '#'
  {
    var m := if n < 0 then -n else n;
    var w := NatToS(m);
    assert IsDigit(w[|w| - 1]);
    if n < 0 {
      assert IntToS(n) == "-" + w;
    }
  }

  // ---------------------------------------------------------------------------
  // split / join
  // ---------------------------------------------------------------------------

  /** All the fields of `s` between occurrences of `sep`, empty ones included. */
  function Fields(s: string, sep: char): (r: seq<string>)
    ensures |r| >= 1
    ensures forall i :: 0 <= i < |r| ==> sep !in r[i]
  {
    if |s| == 0 then [""]
    else
      var rest := Fields(s[1..], sep);
      if s[0] == sep then [""] + rest else [[s[0]] + rest[0]] + rest[1..]
  }

  function DropTrailingEmpty(fs: seq<string>): (r: seq<string>)
    ensures |r| <= |fs| && r == fs[..|r|]
    ensures |r| > 0 ==> r[|r| - 1] != ""
    ensures forall k :: |r| <= k < |fs| ==> fs[k] == ""
  {
    if |fs| == 0 || fs[|fs| - 1] != "" then fs else DropTrailingEmpty(fs[..|fs| - 1])
  }

  /** Fields ending in a non-empty one are kept whole, with one trailing empty field or without. */
  lemma KeepLastField(fs: seq<string>, extra: bool)
    requires |fs| > 0 && fs[|fs| - 1] != ""
    ensures DropTrailingEmpty(if extra then fs + [""] else fs) == fs
  {
    if extra {
      assert (fs + [""])[..|fs|] == fs;
    }
  }

  /** `String#split(sep)` for a one-character separator: trailing empty fields are dropped. */
  function Split(s: string, sep: char): (r: seq<string>)
    ensures forall i :: 0 <= i < |r| ==> sep !in r[i]
    ensures |r| > 0 ==> r[|r| - 1] != ""
  {
    DropTrailingEmpty(Fields(s, sep))
  }

  /** `Array#join(sep)`. */
  function Join(ls: seq<string>, sep: char): string {
    if |ls| == 0 then "" else if |ls| == 1 then ls[0] else ls[0] + [sep] + Join(ls[1..], sep)
  }

  lemma {:induction false} FieldsOfField(a: string, sep: char)
    requires sep !in a
    ensures Fields(a, sep) == [a]
    decreases |a|
  {
    if |a| > 0 {
      assert sep !in a[1..] by {
        forall c | c in a[1..] ensures c != sep { assert c in a; }
      }
      FieldsOfField(a[1..], sep);
      assert [a[0]] + a[1..] == a;
    }
  }

  lemma {:induction false} FieldsOfConcat(a: string, b: string, sep: char)
    requires sep !in a
    ensures Fields(a + [sep] + b, sep) == [a] + Fields(b, sep)
    decreases |a|
  {
    if |a| == 0 {
      assert (a + [sep] + b)[1..] == b;
    } else {
      assert sep !in a[1..] by {
        forall c | c in a[1..] ensures c != sep { assert c in a; }
      }
      FieldsOfConcat(a[1..], b, sep);
      assert (a + [sep] + b)[1..] == a[1..] + [sep] + b;
      assert (a + [sep] + b)[0] == a[0];
      assert [a[0]] + a[1..] == a;
    }
  }

  lemma {:induction false} FieldsOfJoin(ls: seq<string>, sep: char)
    requires |ls| >= 1
    requires forall i :: 0 <= i < |ls| ==> sep !in ls[i]
    ensures Fields(Join(ls, sep), sep) == ls
    decreases |ls|
  {
    if |ls| == 1 {
      FieldsOfField(ls[0], sep);
    } else {
      FieldsOfJoin(ls[1..], sep);
      FieldsOfConcat(ls[0], Join(ls[1..], sep), sep);
    }
  }

  /** `split` undoes `join` when no piece is empty or holds the separator. */
  lemma SplitOfJoin(ls: seq<string>, sep: char)
    requires forall i :: 0 <= i < |ls| ==> ls[i] != "" && sep !in ls[i]
    ensures Split(Join(ls, sep), sep) == ls
  {
    if |ls| == 0 {
    } else {
      FieldsOfJoin(ls, sep);
    }
  }

  // ---------------------------------------------------------------------------
  // downcase
  // ---------------------------------------------------------------------------

  function DowncaseChar(c: char): char {
    if 'A' <= c <= 'Z' then (c as int + 32) as char else c
  }

  /** `String#downcase`, on the ASCII letters. */
  function Downcase(s: string): (r: string)
    ensures |r| == |s|
    ensures forall k :: 0 <= k < |s| ==> r[k] == DowncaseChar(s[k])
  {
    if |s| == 0 then "" else [DowncaseChar(s[0])] + Downcase(s[1..])
  }

  lemma DowncaseIdempotent(s: string)
    ensures Downcase(Downcase(s)) == Downcase(s)
  {
  }

  /** `map(&:downcase)`. */
  function DowncaseAll(ss: seq<string>): (r: seq<string>)
    ensures |r| == |ss|
    ensures forall i :: 0 <= i < |ss| ==> r[i] == Downcase(ss[i])
  {
    if |ss| == 0 then [] else [Downcase(ss[0])] + DowncaseAll(ss[1..])
  }

  /** `map(&:to_i)`. */
  function ToIAll(pieces: seq<string>): (ns: seq<int>)
    ensures |ns| == |pieces|
    ensures forall i :: 0 <= i < |pieces| ==> ns[i] == ToI(pieces[i])
  {
    if |pieces| == 0 then [] else [ToI(pieces[0])] + ToIAll(pieces[1..])
  }

  /** An integer is among the numbers read exactly when some piece reads as it. */
  lemma ToIAllMembers(pieces: seq<string>)
    ensures forall n :: n in ToIAll(pieces) <==> exists i :: 0 <= i < |pieces| && ToI(pieces[i]) == n
  {
    var ns := ToIAll(pieces);
    forall n | n in ns ensures exists i :: 0 <= i < |pieces| && ToI(pieces[i]) == n {
      var i :| 0 <= i < |ns| && ns[i] == n;
    }
  }
}
