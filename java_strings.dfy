/**
 * The java.lang.String, Integer and Boolean operations the connection wrapper
 * relies on, stated on `seq<char>` with Java's own edge cases.
 */
module JavaStrings {
  import opened Wrappers

  const Int32Min: int := -0x8000_0000
  const Int32Max: int := 0x7FFF_FFFF

  /** A null or zero-length string (the wrapper's `Util.isEmpty`). */
  predicate IsEmpty(s: Option<string>) {
    s.None? || s.value == ""
  }

  // ---------------------------------------------------------------- trim

  /** The characters `String.trim` strips: every code point up to U+0020. */
  predicate IsBlank(c: char) {
    c <= ' '
  }

  function TrimLeading(s: string): (r: string)
    ensures |r| <= |s| && r == s[|s| - |r|..]
    ensures forall k :: 0 <= k < |s| - |r| ==> IsBlank(s[k])
    ensures r == [] || !IsBlank(r[0])
  {
    if |s| > 0 && IsBlank(s[0]) then TrimLeading(s[1..]) else s
  }

  function TrimTrailing(s: string): (r: string)
    ensures |r| <= |s| && r == s[..|r|]
    ensures forall k :: |r| <= k < |s| ==> IsBlank(s[k])
    ensures r == [] || !IsBlank(r[|r| - 1])
  {
    if |s| > 0 && IsBlank(s[|s| - 1]) then TrimTrailing(s[..|s| - 1]) else s
  }

  /** `String.trim`: the string without its leading and trailing blanks. */
  function Trim(s: string): (r: string)
    ensures r == [] || (!IsBlank(r[0]) && !IsBlank(r[|r| - 1]))
  {
    TrimTrailing(TrimLeading(s))
  }

  /** A string that starts and ends with a non-blank character is left as it is by `trim`. */
  lemma TrimOfTrimmed(s: string)
    requires s != [] && !IsBlank(s[0]) && !IsBlank(s[|s| - 1])
    ensures Trim(s) == s
  {
  }

  // ---------------------------------------------------------------- split

  /** The pieces separated by `c`, joined back with `c` between them. */
  function Join(parts: seq<string>, c: char): string
    requires |parts| >= 1
  {
    if |parts| == 1 then parts[0] else parts[0] + [c] + Join(parts[1..], c)
  }

  /**
   * Every piece of `s` between occurrences of `c`, empty pieces included
   * (`split` with a negative limit); SplitOnPieces states what the pieces are.
   */
  function SplitOn(s: string, c: char): (parts: seq<string>)
    ensures |parts| >= 1
  {
    if s == [] then [""]
    else
      var rest := SplitOn(s[1..], c);
      if s[0] == c then [""] + rest else [[s[0]] + rest[0]] + rest[1..]
  }

  /** The pieces of a split hold no delimiter and join back to the string. */
  lemma {:induction false} SplitOnPieces(s: string, c: char)
    ensures forall p :: p in SplitOn(s, c) ==> c !in p
    ensures Join(SplitOn(s, c), c) == s
  {
    if s != [] {
      var rest := SplitOn(s[1..], c);
      SplitOnPieces(s[1..], c);
      if s[0] != c {
        var parts := SplitOn(s, c);
        assert parts[1..] == rest[1..];
        assert |rest| > 1 ==> Join(rest, c) == rest[0] + [c] + Join(rest[1..], c);
        assert s == [s[0]] + s[1..];
      }
    }
  }

  /** Drops the empty strings at the end of a split result, as `split` with limit 0 does. */
  function DropTrailingEmpty(parts: seq<string>): (r: seq<string>)
    ensures |r| <= |parts| && r == parts[..|r|]
    ensures forall k :: |r| <= k < |parts| ==> parts[k] == ""
    ensures r == [] || r[|r| - 1] != ""
  {
    if parts != [] && parts[|parts| - 1] == "" then DropTrailingEmpty(parts[..|parts| - 1]) else parts
  }

  /**
   * `s.split(String.valueOf(c))` for a delimiter that is no regular-expression
   * metacharacter: the whole string when `c` does not occur, otherwise the pieces
   * between occurrences with the trailing empty pieces dropped.
   */
  function Split(s: string, c: char): (r: seq<string>)
    ensures c !in s ==> r == [s]
  {
    if c !in s then [s] else DropTrailingEmpty(SplitOn(s, c))
  }

  lemma {:induction false} SplitOnNoDelimiter(s: string, c: char)
    requires c !in s
    ensures SplitOn(s, c) == [s]
  {
    if s != [] {
      SplitOnNoDelimiter(s[1..], c);
      assert s == [s[0]] + s[1..];
    }
  }

  lemma {:induction false} SplitOnCons(a: string, b: string, c: char)
    requires c !in a
    ensures SplitOn(a + [c] + b, c) == [a] + SplitOn(b, c)
  {
    if a == [] {
      assert a + [c] + b == [c] + b;
      assert ([c] + b)[1..] == b;
    } else {
      var s := a + [c] + b;
      assert s[1..] == a[1..] + [c] + b;
      SplitOnCons(a[1..], b, c);
      assert [s[0]] + a[1..] == a;
    }
  }

  /** Splitting pieces that were joined with `c` gives the pieces back. */
  lemma {:induction false} SplitOnJoin(parts: seq<string>, c: char)
    requires |parts| >= 1
    requires forall i :: 0 <= i < |parts| ==> c !in parts[i]
    ensures SplitOn(Join(parts, c), c) == parts
  {
    if |parts| == 1 {
      SplitOnNoDelimiter(parts[0], c);
    } else {
      SplitOnJoin(parts[1..], c);
      SplitOnCons(parts[0], Join(parts[1..], c), c);
      assert [parts[0]] + parts[1..] == parts;
    }
  }

  /** The round trip of `split`: pieces free of `c`, the last one non-empty, survive join-then-split. */
  lemma SplitOfJoin(parts: seq<string>, c: char)
    requires |parts| >= 1
    requires forall i :: 0 <= i < |parts| ==> c !in parts[i]
    requires parts[|parts| - 1] != ""
    ensures Split(Join(parts, c), c) == parts
  {
    SplitOnJoin(parts, c);
    var s := Join(parts, c);
    if c in s {
      assert DropTrailingEmpty(parts) == parts;
    } else {
      SplitOnNoDelimiter(s, c);
    }
  }

  /** Pieces with non-blank outer ends survive join, trim and split together. */
  lemma TrimSplitOfJoin(parts: seq<string>, c: char)
    requires |parts| >= 1
    requires forall i :: 0 <= i < |parts| ==> c !in parts[i]
    requires parts[0] != "" && !IsBlank(parts[0][0])
    requires parts[|parts| - 1] != "" && !IsBlank(parts[|parts| - 1][|parts[|parts| - 1]| - 1])
    ensures Split(Trim(Join(parts, c)), c) == parts
  {
    JoinFirst(parts, c);
    JoinLast(parts, c);
    TrimOfTrimmed(Join(parts, c));
    SplitOfJoin(parts, c);
  }

  lemma {:induction false} JoinFirst(parts: seq<string>, c: char)
    requires |parts| >= 1 && parts[0] != ""
    ensures Join(parts, c) != [] && Join(parts, c)[0] == parts[0][0]
  {
  }

  lemma {:induction false} JoinLast(parts: seq<string>, c: char)
    requires |parts| >= 1 && parts[|parts| - 1] != ""
    ensures Join(parts, c) != []
    ensures Join(parts, c)[|Join(parts, c)| - 1] == parts[|parts| - 1][|parts[|parts| - 1]| - 1]
  {
    if |parts| > 1 {
      JoinLast(parts[1..], c);
    }
  }

  /** The first piece of a split is the text before the first `c`. */
  lemma SplitOnHead(s: string, c: char)
    ensures var h := SplitOn(s, c)[0];
      |h| <= |s| && h == s[..|h|] && c !in h && (|h| == |s| || s[|h|] == c)
  {
    var parts := SplitOn(s, c);
    SplitOnPieces(s, c);
    if |parts| > 1 {
      assert s == parts[0] + [c] + Join(parts[1..], c);
    }
  }

  lemma {:induction false} JoinOfEmpties(parts: seq<string>, c: char)
    requires |parts| >= 1
    requires forall k :: 0 <= k < |parts| ==> parts[k] == ""
    ensures |Join(parts, c)| == |parts| - 1
    ensures forall i :: 0 <= i < |Join(parts, c)| ==> Join(parts, c)[i] == c
  {
    if |parts| > 1 {
      JoinOfEmpties(parts[1..], c);
    }
  }

  lemma {:induction false} SplitOnAllDelimiters(s: string, c: char)
    requires forall i :: 0 <= i < |s| ==> s[i] == c
    ensures forall k :: 0 <= k < |SplitOn(s, c)| ==> SplitOn(s, c)[k] == ""
  {
    if s != [] {
      SplitOnAllDelimiters(s[1..], c);
    }
  }

  /** `split` yields no piece at all exactly when the string is a non-empty run of delimiters. */
  lemma SplitEmptyIff(s: string, c: char)
    ensures Split(s, c) == [] <==> (s != [] && forall i :: 0 <= i < |s| ==> s[i] == c)
  {
    if s != [] && forall i :: 0 <= i < |s| ==> s[i] == c {
      assert s[0] == c;
      SplitOnAllDelimiters(s, c);
    }
    if Split(s, c) == [] {
      var parts := SplitOn(s, c);
      SplitOnPieces(s, c);
      JoinOfEmpties(parts, c);
    }
  }

  // ---------------------------------------------------------------- integers

  predicate IsDigit(ch: char) {
    '0' <= ch <= '9'
  }

  predicate AllDigits(s: string) {
    forall i :: 0 <= i < |s| ==> IsDigit(s[i])
  }

  function DigitsValue(s: string): nat
    requires AllDigits(s)
  {
    if s == [] then 0 else DigitsValue(s[..|s| - 1]) * 10 + (s[|s| - 1] as int - '0' as int)
  }

  predicate IsSign(ch: char) {
    ch == '-' || ch == '+'
  }

  /** The text after an optional leading sign. */
  function Unsigned(s: string): string {
    if s != [] && IsSign(s[0]) then s[1..] else s
  }

  /** Decimal integer text: an optional sign, then at least one digit (leading zeros allowed). */
  predicate IsIntText(s: string) {
    Unsigned(s) != [] && AllDigits(Unsigned(s))
  }

  /** The value decimal integer text denotes, of any size. */
  function IntTextValue(s: string): int
    requires IsIntText(s)
  {
    if s[0] == '-' then -(DigitsValue(Unsigned(s)) as int) else DigitsValue(Unsigned(s))
  }

  /**
   * `Integer.parseInt`: an optional sign followed by at least one decimal digit,
   * whose value fits in 32 bits; anything else is a NumberFormatException (None).
   */
  function ParseInt(s: string): (r: Option<int>)
    ensures r.Some? <==> IsIntText(s) && Int32Min <= IntTextValue(s) <= Int32Max
    ensures r.Some? ==> r.value == IntTextValue(s)
    ensures r.Some? ==> Int32Min <= r.value <= Int32Max
    ensures r.Some? ==> s != [] && (IsDigit(s[0]) || s[0] == '-' || s[0] == '+')
    ensures r.Some? ==> forall i :: 1 <= i < |s| ==> IsDigit(s[i])
  {
    if s == [] then None
    else
      var digits := if s[0] == '-' || s[0] == '+' then s[1..] else s;
      if digits == [] || !AllDigits(digits) then None
      else
        var v: int := if s[0] == '-' then 0 - DigitsValue(digits) as int else DigitsValue(digits);
        if Int32Min <= v <= Int32Max then Some(v) else None
  }

  function DigitChar(d: nat): char
    requires d < 10
  {
    ('0' as int + d) as char
  }

  /** The decimal digits of `n`, most significant first, read back by DigitsValue. */
  function NatToString(n: nat): (s: string)
    ensures s != [] && AllDigits(s)
    ensures DigitsValue(s) == n
  {
    if n < 10 then
      [DigitChar(n)]
    else
      var s := NatToString(n / 10) + [DigitChar(n % 10)];
      assert s[..|s| - 1] == NatToString(n / 10);
      s
  }

  /** `Integer.toString`: a minus sign for negative values, then the digits. */
  function IntToString(n: int): (s: string)
    ensures s != [] && !IsBlank(s[0]) && !IsBlank(s[|s| - 1])
    ensures forall i :: 0 <= i < |s| ==> IsDigit(s[i]) || s[i] == '-'
  {
    if n < 0 then "-" + NatToString(-n) else NatToString(n)
  }

  /** Every 32-bit integer survives printing and `parseInt`. */
  lemma ParseIntOfToString(n: int)
    requires Int32Min <= n <= Int32Max
    ensures ParseInt(IntToString(n)) == Some(n)
  {
    var s := IntToString(n);
    if n < 0 {
      assert s[1..] == NatToString(-n);
    }
  }

  /** A sign, leading zeros and a negative zero are accepted. */
  lemma ParseIntSignsAndZeros()
    ensures ParseInt("+8080") == Some(8080)
    ensures ParseInt("08080") == Some(8080)
    ensures ParseInt("-0") == Some(0)
  {
    assert DigitsValue("8080") == 8080 by {
      assert "8080"[..3] == "808" && "808"[..2] == "80" && "80"[..1] == "8" && "8"[..0] == "";
    }
    assert DigitsValue("08080") == 8080 by {
      assert "08080"[..4] == "0808" && "0808"[..3] == "080" && "080"[..2] == "08" && "08"[..1] == "0" && "0"[..0] == "";
    }
    assert "+8080"[1..] == "8080";
    assert "-0"[1..] == "0" && "0"[..0] == "";
  }

  /** Appending a digit multiplies the value by ten and adds the digit. */
  lemma DigitsValueAppend(s: string, ch: char)
    requires AllDigits(s) && IsDigit(ch)
    ensures AllDigits(s + [ch])
    ensures DigitsValue(s + [ch]) == DigitsValue(s) * 10 + (ch as int - '0' as int)
  {
    assert (s + [ch])[..|s|] == s;
  }

  lemma DigitsValue2147()
    ensures AllDigits("2147") && DigitsValue("2147") == 2147
  {
    assert "2"[..0] == "";
    DigitsValueAppend("2", '1');
    assert "2" + ['1'] == "21";
    DigitsValueAppend("21", '4');
    assert "21" + ['4'] == "214";
    DigitsValueAppend("214", '7');
    assert "214" + ['7'] == "2147";
  }

  lemma DigitsValue2147483()
    ensures AllDigits("2147483") && DigitsValue("2147483") == 2147483
  {
    DigitsValue2147();
    DigitsValueAppend("2147", '4');
    assert "2147" + ['4'] == "21474";
    DigitsValueAppend("21474", '8');
    assert "21474" + ['8'] == "214748";
    DigitsValueAppend("214748", '3');
    assert "214748" + ['3'] == "2147483";
  }

  lemma Int32MinMagnitude()
    ensures AllDigits("2147483648") && DigitsValue("2147483648") == 0x8000_0000
  {
    DigitsValue2147483();
    DigitsValueAppend("2147483", '6');
    assert "2147483" + ['6'] == "21474836";
    DigitsValueAppend("21474836", '4');
    assert "21474836" + ['4'] == "214748364";
    DigitsValueAppend("214748364", '8');
    assert "214748364" + ['8'] == "2147483648";
  }

  /** The magnitude 2147483648 is accepted only with a minus sign. */
  lemma ParseIntRangeEnds()
    ensures ParseInt("-2147483648") == Some(Int32Min)
    ensures ParseInt("2147483648") == None
  {
    Int32MinMagnitude();
    assert "-2147483648"[1..] == "2147483648";
  }

  /** Blanks, a bare sign and the empty string are not numbers. */
  lemma ParseIntRejects()
    ensures ParseInt(" 1") == None && ParseInt("-") == None && ParseInt("") == None
  {
    assert !IsDigit(" 1"[0]);
  }

  // ---------------------------------------------------------------- booleans

  function AsciiLower(c: char): char {
    if 'A' <= c <= 'Z' then (c as int + 32) as char else c
  }

  /** The string with its ASCII capitals made lower case. */
  function LowerAscii(s: string): string {
    seq(|s|, i requires 0 <= i < |s| => AsciiLower(s[i]))
  }

  /** `Boolean.valueOf`: true exactly for a non-null "true" in any letter case. */
  function ParseBoolean(s: Option<string>): (b: bool)
    ensures b <==> s.Some? && LowerAscii(s.value) == "true"
  {
    s.Some? && |s.value| == 4 && forall i :: 0 <= i < 4 ==> AsciiLower(s.value[i]) == "true"[i]
  }

  /** Any letter case of "true" is true; null, other words and padded text are false. */
  lemma ParseBooleanCases()
    ensures ParseBoolean(Some("true")) && ParseBoolean(Some("TRUE")) && ParseBoolean(Some("True"))
    ensures !ParseBoolean(None) && !ParseBoolean(Some("yes")) && !ParseBoolean(Some(" true")) && !ParseBoolean(Some("1"))
  {
    assert LowerAscii("TRUE") == "true";
    assert LowerAscii("True") == "true";
    assert LowerAscii("true") == "true";
  }
}
