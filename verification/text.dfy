/** The Python string built-ins the score extraction relies on: `str.split` with
    a one-character separator, `int()` on a decimal literal and `str()` of an
    integer. */
module Text {
  import opened Common

  /** Number of occurrences of `c` in `s`. */
  function Count(s: string, c: char): (n: nat)
    ensures n <= |s|
    ensures n == 0 <==> c !in s
  {
    if |s| == 0 then 0 else (if s[0] == c then 1 else 0) + Count(s[1..], c)
  }

  /** `sep.join(parts)`. */
  function Join(parts: seq<string>, sep: char): (s: string)
    requires |parts| > 0
  {
    if |parts| == 1 then parts[0] else parts[0] + [sep] + Join(parts[1..], sep)
  }

  /** `s.split(sep)`: the maximal separator-free pieces, empty ones included. */
  function Split(s: string, sep: char): (parts: seq<string>)
    ensures |parts| == Count(s, sep) + 1
    ensures forall i :: 0 <= i < |parts| ==> sep !in parts[i]
  {
    if |s| == 0 then [""]
    else
      var rest := Split(s[1..], sep);
      if s[0] == sep then [""] + rest
      else [[s[0]] + rest[0]] + rest[1..]
  }

  /** Joining the pieces back with the separator gives the original text. */
  lemma {:induction false} JoinSplit(s: string, sep: char)
    ensures Join(Split(s, sep), sep) == s
  {
    if |s| > 0 {
      var rest := Split(s[1..], sep);
      JoinSplit(s[1..], sep);
      if s[0] == sep {
        assert ([""] + rest)[1..] == rest;
        assert s == [sep] + s[1..];
      } else if |rest| == 1 {
        assert s == [s[0]] + s[1..];
      } else {
        var parts := [[s[0]] + rest[0]] + rest[1..];
        assert parts[1..] == rest[1..];
        assert Join(rest, sep) == rest[0] + [sep] + Join(rest[1..], sep);
        assert s == [s[0]] + s[1..];
      }
    }
  }

  /** Splitting `a + s` where `a` holds no separator glues `a` onto the first piece of `s`. */
  lemma {:induction false} SplitPrefix(a: string, s: string, sep: char)
    requires sep !in a
    ensures Split(a + s, sep) == [a + Split(s, sep)[0]] + Split(s, sep)[1..]
  {
    var S := Split(s, sep);
    if |a| == 0 {
      assert a + s == s && a + S[0] == S[0];
      assert [S[0]] + S[1..] == S;
    } else {
      var R := Split(a[1..] + s, sep);
      SplitPrefix(a[1..], s, sep);
      assert R[0] == a[1..] + S[0] && R[1..] == S[1..];
      ConcatHead(a, s);
      ConcatHead(a, S[0]);
      SplitCons(a[0], a[1..] + s, sep);
    }
  }

  /** Concatenation regrouped around the first character of `a`. */
  lemma ConcatHead(a: string, s: string)
    requires |a| > 0
    ensures a + s == [a[0]] + (a[1..] + s)
  {
  }

  /** A first character other than the separator joins the first piece. */
  lemma SplitCons(c: char, s: string, sep: char)
    requires c != sep
    ensures Split([c] + s, sep) == [[c] + Split(s, sep)[0]] + Split(s, sep)[1..]
  {
  }

  /** Splitting a join of separator-free pieces gives the pieces back. */
  lemma {:induction false} SplitJoin(parts: seq<string>, sep: char)
    requires |parts| > 0
    requires forall i :: 0 <= i < |parts| ==> sep !in parts[i]
    ensures Split(Join(parts, sep), sep) == parts
  {
    if |parts| == 1 {
      SplitPrefix(parts[0], "", sep);
      assert parts[0] + "" == parts[0];
    } else {
      var tail := Join(parts[1..], sep);
      SplitJoin(parts[1..], sep);
      assert ([sep] + tail)[1..] == tail;
      assert Split([sep] + tail, sep) == [""] + parts[1..];
      SplitPrefix(parts[0], [sep] + tail, sep);
      assert parts[0] + [sep] + tail == parts[0] + ([sep] + tail);
      assert parts[0] + "" == parts[0];
    }
  }

  /** The two halves of `a + [sep] + b` when neither half holds the separator. */
  lemma SplitPair(a: string, b: string, sep: char)
    requires sep !in a && sep !in b
    ensures Split(a + [sep] + b, sep) == [a, b]
  {
    SplitJoin([a, b], sep);
    assert [a, b][1..] == [b];
  }

  predicate IsDigit(c: char) {
    '0' <= c <= '9'
  }

  predicate IsDigits(d: string) {
    |d| > 0 && forall i :: 0 <= i < |d| ==> IsDigit(d[i])
  }

  /** The ASCII characters `int()` strips around a literal: tab, line feed,
      vertical tab, form feed, carriage return and space. The information
      separators 0x1C-0x1F count for `str.isspace()` but not here. */
  predicate IsSpace(c: char) {
    9 <= c as int <= 13 || c == ' '
  }

  function DigitValue(c: char): (v: nat)
    requires IsDigit(c)
    ensures v < 10
  {
    c as int - '0' as int
  }

  function DigitChar(d: nat): (c: char)
    requires d < 10
    ensures IsDigit(c) && DigitValue(c) == d
  {
    (d + '0' as int) as char
  }

  /** The value of a string of decimal digits, leading zeros allowed. */
  function DigitsValue(d: string): (v: nat)
    requires forall i :: 0 <= i < |d| ==> IsDigit(d[i])
  {
    if |d| == 0 then 0 else 10 * DigitsValue(d[..|d| - 1]) + DigitValue(d[|d| - 1])
  }

  /** `str(n)` for a non-negative integer: digits only, no leading zero. */
  function NatToString(n: nat): (s: string)
    ensures IsDigits(s)
    ensures s[0] == '0' ==> n == 0
  {
    if n < 10 then [DigitChar(n)] else NatToString(n / 10) + [DigitChar(n % 10)]
  }

  /** `str(i)` for any integer. */
  function IntToString(i: int): (s: string)
    ensures |s| > 0
  {
    if i < 0 then "-" + NatToString(-i) else NatToString(i)
  }

  lemma {:induction false} DigitsValueOfNatToString(n: nat)
    ensures DigitsValue(NatToString(n)) == n
  {
    if n >= 10 {
      var s := NatToString(n);
      DigitsValueOfNatToString(n / 10);
      assert s[..|s| - 1] == NatToString(n / 10);
    }
  }

  /** Whitespace removed from the front. */
  function TrimStart(s: string): (r: string)
    ensures |r| <= |s| && r == s[|s| - |r|..]
    ensures forall i :: 0 <= i < |s| - |r| ==> IsSpace(s[i])
    ensures |r| > 0 ==> !IsSpace(r[0])
  {
    if |s| > 0 && IsSpace(s[0]) then TrimStart(s[1..]) else s
  }

  /** Whitespace removed from the back. */
  function TrimEnd(s: string): (r: string)
    ensures |r| <= |s| && r == s[..|r|]
    ensures forall i :: |r| <= i < |s| ==> IsSpace(s[i])
    ensures |r| > 0 ==> !IsSpace(r[|r| - 1])
  {
    if |s| > 0 && IsSpace(s[|s| - 1]) then TrimEnd(s[..|s| - 1]) else s
  }

  /** `int(s)` in base 10: optional surrounding whitespace, an optional sign,
      then one or more ASCII digits. `None` stands for the ValueError. */
  function ParseInt(s: string): (r: Option<int>)
    ensures '-' !in s && r.Some? ==> r.value >= 0
  {
    var t := TrimEnd(TrimStart(s));
    assert '-' in t ==> '-' in s by {
      if '-' in t {
        var k :| 0 <= k < |t| && t[k] == '-';
        assert s[|s| - |TrimStart(s)| + k] == '-';
      }
    }
    ParseLiteral(t)
  }

  /** The literal left after stripping: an optional sign, then one or more digits. */
  function ParseLiteral(t: string): (r: Option<int>)
    ensures '-' !in t && r.Some? ==> r.value >= 0
  {
    if |t| > 0 && (t[0] == '+' || t[0] == '-') then
      if IsDigits(t[1..]) then
        var magnitude: int := DigitsValue(t[1..]);
        Some(if t[0] == '-' then -magnitude else magnitude)
      else None
    else if IsDigits(t) then Some(DigitsValue(t))
    else None
  }

  /** `int(str(i)) == i` for every integer. */
  lemma ParseIntToString(i: int)
    ensures ParseInt(IntToString(i)) == Some(i)
  {
    var s := IntToString(i);
    var d := NatToString(if i < 0 then -i else i);
    DigitsValueOfNatToString(if i < 0 then -i else i);
    assert TrimStart(s) == s by {
      assert !IsSpace(s[0]);
    }
    assert TrimEnd(s) == s by {
      assert s[|s| - 1] == d[|d| - 1];
    }
    if i < 0 {
      assert s[1..] == d;
    }
  }

  /** Whitespace in front of a literal does not change what `int()` reads. */
  lemma {:induction false} ParseIntLeadingSpace(pad: string, s: string)
    requires forall i :: 0 <= i < |pad| ==> IsSpace(pad[i])
    ensures ParseInt(pad + s) == ParseInt(s)
  {
    TrimStartSkipsSpace(pad, s);
  }

  lemma {:induction false} TrimStartSkipsSpace(pad: string, s: string)
    requires forall i :: 0 <= i < |pad| ==> IsSpace(pad[i])
    ensures TrimStart(pad + s) == TrimStart(s)
  {
    if |pad| == 0 {
      assert pad + s == s;
    } else {
      assert (pad + s)[1..] == pad[1..] + s;
      TrimStartSkipsSpace(pad[1..], s);
    }
  }

  /** A leading information separator (0x1C-0x1F) is not stripped, so the
      text is not a literal: `int()` raises. */
  lemma ParseIntRejectsSeparator(c: char, s: string)
    requires 0x1C <= c as int <= 0x1F
    ensures ParseInt([c] + s) == None
  {
    TrimKeepsFirst([c] + s);
    var t := TrimEnd(TrimStart([c] + s));
    assert !IsDigits(t) by { assert !IsDigit(t[0]); }
  }

  /** Stripping leaves a first character that is not whitespace in place. */
  lemma TrimKeepsFirst(u: string)
    requires |u| > 0 && !IsSpace(u[0])
    ensures var t := TrimEnd(TrimStart(u)); |t| > 0 && t[0] == u[0]
  {
    assert TrimStart(u) == u;
  }

  /** Whitespace after a literal does not change what `int()` reads. */
  lemma ParseIntTrailingSpace(s: string, pad: string)
    requires forall i :: 0 <= i < |pad| ==> IsSpace(pad[i])
    ensures ParseInt(s + pad) == ParseInt(s)
  {
    if TrimStart(s) == "" {
      assert forall i :: 0 <= i < |s| ==> IsSpace(s[i]);
      TrimStartSkipsSpace(s, pad);
      TrimStartSkipsSpace(pad, "");
      assert pad + "" == pad;
    } else {
      TrimStartAppend(s, pad);
      TrimEndSkipsSpace(TrimStart(s), pad);
    }
  }

  lemma {:induction false} TrimStartAppend(s: string, pad: string)
    requires TrimStart(s) != ""
    ensures TrimStart(s + pad) == TrimStart(s) + pad
  {
    assert (s + pad)[0] == s[0];
    if IsSpace(s[0]) {
      assert (s + pad)[1..] == s[1..] + pad;
      TrimStartAppend(s[1..], pad);
    }
  }

  lemma {:induction false} TrimEndSkipsSpace(s: string, pad: string)
    requires forall i :: 0 <= i < |pad| ==> IsSpace(pad[i])
    ensures TrimEnd(s + pad) == TrimEnd(s)
  {
    if |pad| == 0 {
      assert s + pad == s;
    } else {
      var n := |s + pad|;
      assert (s + pad)[n - 1] == pad[|pad| - 1];
      assert (s + pad)[..n - 1] == s + pad[..|pad| - 1];
      TrimEndSkipsSpace(s, pad[..|pad| - 1]);
    }
  }
}
