/** Input masks of the adoption intake form: digit extraction and the
    phone (celular) and birth-date masks, applied on every keystroke. */
module Mascaras {

  /** The characters the pattern `\D` does NOT match: ASCII `0`..`9`. */
  predicate IsDigit(c: char) {
    '0' <= c <= '9'
  }

  predicate AllDigits(s: string) {
    forall i :: 0 <= i < |s| ==> IsDigit(s[i])
  }

  /** `text.replace(/\D/g, "")`: drops every character that is not a digit. */
  function OnlyDigits(s: string): (r: string)
    ensures AllDigits(r)
    ensures |r| <= |s|
  {
    if s == [] then []
    else (if IsDigit(s[0]) then [s[0]] else []) + OnlyDigits(s[1..])
  }

  /** `d.slice(0, n)`: the first min(n, |d|) characters. */
  function Take(d: string, n: nat): (r: string)
    ensures |r| == if |d| <= n then |d| else n
    ensures r <= d
  {
    if |d| <= n then d else d[..n]
  }

  /** The phone mask applied to a digit string of at most 11 digits:
      `(DD) XXXXX-YYYY` when complete, a prefix of that shape otherwise. */
  function MaskCelular(d: string): (r: string)
    requires |d| <= 11
    ensures |r| == |d| + (if |d| <= 2 then 0 else if |d| <= 6 then 3 else 4)
  {
    if |d| <= 2 then d
    else if |d| <= 6 then "(" + d[..2] + ") " + d[2..]
    else if |d| <= 10 then "(" + d[..2] + ") " + d[2..7] + "-" + d[7..]
    else "(" + d[..2] + ") " + d[2..7] + "-" + d[7..11]
  }

  /** `formatCelular`: keep at most 11 digits and mask them. */
  function FormatCelular(s: string): (r: string)
    ensures |r| <= 15
  {
    MaskCelular(Take(OnlyDigits(s), 11))
  }

  /** The date mask applied to a digit string of at most 8 digits:
      `DD/MM/YYYY` when complete, a prefix of that shape otherwise. */
  function MaskDate(d: string): (r: string)
    requires |d| <= 8
    ensures |r| == |d| + (if |d| <= 2 then 0 else if |d| <= 4 then 1 else 2)
  {
    if |d| <= 2 then d
    else if |d| <= 4 then d[..2] + "/" + d[2..]
    else d[..2] + "/" + d[2..4] + "/" + d[4..]
  }

  /** `formatDate`: keep at most 8 digits and mask them. */
  function FormatDate(s: string): (r: string)
    ensures |r| <= 10
  {
    MaskDate(Take(OnlyDigits(s), 8))
  }

  // ---------------------------------------------------------------------
  // OnlyDigits: exactly the digits of the input, in order
  // ---------------------------------------------------------------------

  /** Digit extraction distributes over concatenation: together with
      `OnlyDigitsChar` this pins OnlyDigits down as the order-preserving
      filter of the digits. */
  lemma {:induction false} OnlyDigitsConcat(a: string, b: string)
    ensures OnlyDigits(a + b) == OnlyDigits(a) + OnlyDigits(b)
  {
    if a == [] {
      assert a + b == b;
    } else {
      assert (a + b)[1..] == a[1..] + b;
      OnlyDigitsConcat(a[1..], b);
    }
  }

  /** On a single character OnlyDigits keeps it iff it is a digit. */
  lemma OnlyDigitsChar(c: char)
    ensures OnlyDigits([c]) == if IsDigit(c) then [c] else []
  {
    assert [c][1..] == [];
  }

  /** Each digit occurs in the output as often as in the input; no other
      character occurs in the output at all. */
  lemma {:induction false} OnlyDigitsCounts(s: string, c: char)
    ensures multiset(OnlyDigits(s))[c] == if IsDigit(c) then multiset(s)[c] else 0
  {
    if s != [] {
      OnlyDigitsCounts(s[1..], c);
      assert s == [s[0]] + s[1..];
      assert multiset(s) == multiset([s[0]]) + multiset(s[1..]);
    }
  }

  /** A string of digits is left as it is. */
  lemma {:induction false} OnlyDigitsOfDigits(s: string)
    requires AllDigits(s)
    ensures OnlyDigits(s) == s
  {
    if s != [] {
      OnlyDigitsOfDigits(s[1..]);
      assert s == [s[0]] + s[1..];
    }
  }

  /** The output is empty iff the input holds no digit. */
  lemma {:induction false} OnlyDigitsEmptyIff(s: string)
    ensures OnlyDigits(s) == [] <==> forall i :: 0 <= i < |s| ==> !IsDigit(s[i])
  {
    if s != [] {
      OnlyDigitsEmptyIff(s[1..]);
      if forall i :: 0 <= i < |s| ==> !IsDigit(s[i]) {
        assert forall i :: 0 <= i < |s[1..]| ==> !IsDigit(s[1..][i]) by {
          forall i | 0 <= i < |s[1..]| ensures !IsDigit(s[1..][i]) {
            assert s[1..][i] == s[i + 1];
          }
        }
      } else {
        var i :| 0 <= i < |s| && IsDigit(s[i]);
        if i > 0 {
          assert s[1..][i - 1] == s[i];
        }
      }
    }
  }

  /** OnlyDigits is idempotent. */
  lemma OnlyDigitsIdempotent(s: string)
    ensures OnlyDigits(OnlyDigits(s)) == OnlyDigits(s)
  {
    OnlyDigitsOfDigits(OnlyDigits(s));
  }

  // ---------------------------------------------------------------------
  // FormatCelular
  // ---------------------------------------------------------------------

  /** The mask inserts no digits: the digits of a masked phone are exactly
      the digits that were masked. */
  lemma MaskCelularDigits(d: string)
    requires AllDigits(d) && |d| <= 11
    ensures OnlyDigits(MaskCelular(d)) == d
  {
    OnlyDigitsOfDigits(d);
    OnlyDigitsChar('(');
    assert OnlyDigits(") ") == [] by { OnlyDigitsConcat(")", " "); OnlyDigitsChar(')'); OnlyDigitsChar(' '); assert ")" + " " == ") "; }
    if |d| <= 2 {
    } else if |d| <= 6 {
      Digits4("(", d[..2], ") ", d[2..]);
      assert d[..2] + d[2..] == d;
    } else {
      MaskCelularDigitsLong(d);
    }
  }

  /** `MaskCelularDigits` for the masks that carry the dash. */
  lemma MaskCelularDigitsLong(d: string)
    requires AllDigits(d) && 7 <= |d| <= 11
    ensures OnlyDigits(MaskCelular(d)) == d
  {
    var head := "(" + d[..2] + ") " + d[2..7];
    if |d| == 11 { assert d[7..11] == d[7..]; }
    assert MaskCelular(d) == head + "-" + d[7..];
    assert OnlyDigits(head) == d[..7] by {
      OnlyDigitsChar('(');
      assert OnlyDigits(") ") == [] by { OnlyDigitsConcat(")", " "); OnlyDigitsChar(')'); OnlyDigitsChar(' '); assert ")" + " " == ") "; }
      Digits4("(", d[..2], ") ", d[2..7]);
      assert d[..2] + d[2..7] == d[..7];
    }
    assert OnlyDigits(head + "-") == d[..7] by {
      OnlyDigitsConcat(head, "-");
      OnlyDigitsChar('-');
    }
    assert OnlyDigits(head + "-" + d[7..]) == d[..7] + d[7..] by {
      OnlyDigitsConcat(head + "-", d[7..]);
      OnlyDigitsOfDigits(d[7..]);
    }
    assert d[..7] + d[7..] == d;
  }

  /** The only non-digits the phone mask writes are `(`, `)`, ` ` and `-`. */
  lemma MaskCelularSeparators(d: string)
    requires AllDigits(d) && |d| <= 11
    ensures var r := MaskCelular(d);
      forall i :: 0 <= i < |r| && !IsDigit(r[i]) ==> r[i] in {'(', ')', ' ', '-'}
  {
  }

  /** Digits of a four-part concatenation whose first and third parts
      hold no digit. */
  lemma Digits4(p: string, a: string, q: string, b: string)
    requires OnlyDigits(p) == [] && OnlyDigits(q) == []
    requires AllDigits(a) && AllDigits(b)
    ensures OnlyDigits(p + a + q + b) == a + b
  {
    assert OnlyDigits(p + a) == a by { OnlyDigitsConcat(p, a); OnlyDigitsOfDigits(a); }
    assert OnlyDigits(p + a + q) == a by { OnlyDigitsConcat(p + a, q); }
    OnlyDigitsConcat(p + a + q, b);
    OnlyDigitsOfDigits(b);
  }

  /** The digits of the formatted phone are the first min(11, n) digits of
      the input. */
  lemma FormatCelularDigits(s: string)
    ensures OnlyDigits(FormatCelular(s)) == Take(OnlyDigits(s), 11)
  {
    var d := Take(OnlyDigits(s), 11);
    assert AllDigits(d);
    MaskCelularDigits(d);
  }

  /** Output length by digit count d: d for d <= 2, d + 3 for 3..6,
      d + 4 for 7..11; in particular 15 iff the input had >= 11 digits. */
  lemma FormatCelularLength(s: string)
    ensures var d := |Take(OnlyDigits(s), 11)|;
      |FormatCelular(s)| == (if d <= 2 then d else if d <= 6 then d + 3 else d + 4)
    ensures |FormatCelular(s)| == 15 <==> |OnlyDigits(s)| >= 11
  {
  }

  /** Re-masking a masked phone changes nothing. */
  lemma FormatCelularIdempotent(s: string)
    ensures FormatCelular(FormatCelular(s)) == FormatCelular(s)
  {
    FormatCelularDigits(s);
  }

  /** A complete phone mask has the shape `(DD) XXXXX-YYYY`. */
  lemma FormatCelularComplete(s: string)
    requires |FormatCelular(s)| == 15
    ensures var r := FormatCelular(s);
      r[0] == '(' && r[3] == ')' && r[4] == ' ' && r[10] == '-' &&
      AllDigits(r[1..3]) && AllDigits(r[5..10]) && AllDigits(r[11..15])
  {
    FormatCelularLength(s);
    var d := Take(OnlyDigits(s), 11);
    var r := FormatCelular(s);
    assert r == "(" + d[..2] + ") " + d[2..7] + "-" + d[7..11];
    assert r[1..3] == d[..2] && r[5..10] == d[2..7] && r[11..15] == d[7..11];
  }

  /** Typing more digits only extends the display: once the area code is
      closed (3 digits or more), every partial phone mask is a prefix of the
      mask of any longer digit string, and so of the complete mask. */
  lemma MaskCelularPrefix(a: string, b: string)
    requires AllDigits(b) && |b| <= 11 && a <= b && |a| >= 3
    ensures MaskCelular(a) <= MaskCelular(b)
  {
    if |a| <= 6 && |b| <= 6 {
      MaskCelularPrefixOpen(a, b);
    } else if |a| <= 6 {
      MaskCelularPrefixToDash(a, b);
    } else {
      MaskCelularPrefixDashed(a, b);
    }
  }

  /** `MaskCelularPrefix` while neither mask has reached the dash. */
  lemma MaskCelularPrefixOpen(a: string, b: string)
    requires a <= b && 3 <= |a| && |b| <= 6
    ensures MaskCelular(a) <= MaskCelular(b)
  {
    var area := "(" + b[..2] + ") ";
    assert a[..2] == b[..2];
    assert MaskCelular(a) == area + a[2..];
    assert MaskCelular(b) == area + b[2..];
    PrefixAfter(area, a[2..], b[2..]);
  }

  /** `MaskCelularPrefix` when only the longer mask has the dash. */
  lemma MaskCelularPrefixToDash(a: string, b: string)
    requires a <= b && 3 <= |a| <= 6 && 7 <= |b| <= 11
    ensures MaskCelular(a) <= MaskCelular(b)
  {
    var area := "(" + b[..2] + ") ";
    var rest := b[2..7] + ("-" + b[7..]);
    assert a[..2] == b[..2];
    assert MaskCelular(a) == area + a[2..];
    if |b| == 11 { assert b[7..11] == b[7..]; }
    assert MaskCelular(b) == area + rest;
    assert a[2..] == rest[..|a| - 2];
    PrefixAfter(area, a[2..], rest);
  }

  /** `MaskCelularPrefix` when both masks have the dash. */
  lemma MaskCelularPrefixDashed(a: string, b: string)
    requires a <= b && 7 <= |a| && |b| <= 11
    ensures MaskCelular(a) <= MaskCelular(b)
  {
    var head := "(" + b[..2] + ") " + b[2..7] + "-";
    var tailA := if |a| <= 10 then a[7..] else a[7..11];
    var tailB := if |b| <= 10 then b[7..] else b[7..11];
    assert a[..2] == b[..2] && a[2..7] == b[2..7];
    assert MaskCelular(a) == head + tailA;
    assert MaskCelular(b) == head + tailB;
    PrefixAfter(head, tailA, tailB);
  }

  /** A common head keeps the prefix order. */
  lemma PrefixAfter(h: string, x: string, y: string)
    requires x <= y
    ensures h + x <= h + y
  {
    assert h + x == (h + y)[..|h| + |x|];
  }

  /** Lifted to the formatter: when the digits typed so far extend the
      digits typed before, the new display extends the old one. */
  lemma FormatCelularExtends(s: string, t: string)
    requires Take(OnlyDigits(s), 11) <= Take(OnlyDigits(t), 11)
    requires |OnlyDigits(s)| >= 3
    ensures FormatCelular(s) <= FormatCelular(t)
  {
    MaskCelularPrefix(Take(OnlyDigits(s), 11), Take(OnlyDigits(t), 11));
  }

  /** With exactly 7 digits the display ends in the dash and nothing
      follows it; deleting that dash leaves the same 7 digits, so
      re-formatting puts the dash back. */
  lemma FormatCelularDashReappears(d: string)
    requires AllDigits(d) && |d| == 7
    ensures var r := FormatCelular(d);
      |r| == 11 && r[10] == '-' && FormatCelular(r[..10]) == r
  {
    FormatCelularOfDigits(d);
    var r := FormatCelular(d);
    assert r == "(" + d[..2] + ") " + d[2..7] + "-";
    assert r[..10] == "(" + d[..2] + ") " + d[2..7];
    Digits4("(", d[..2], ") ", d[2..7]);
    assert OnlyDigits(r[..10]) == d by {
      OnlyDigitsChar('(');
      assert OnlyDigits(") ") == [] by { OnlyDigitsConcat(")", " "); OnlyDigitsChar(')'); OnlyDigitsChar(' '); assert ")" + " " == ") "; }
      assert d[..2] + d[2..7] == d;
    }
  }

  /** The concrete case: `"(11) 98765"` is shown as `"(11) 98765-"`. The
      literal is a parameter so that OnlyDigits is not unfolded over it. */
  lemma FormatCelularDashExample(s: string)
    requires s == "(11) 98765"
    ensures FormatCelular(s) == "(11) 98765-"
  {
    var d := "1198765";
    assert AllDigits(d);
    FormatCelularDashReappears(d);
    FormatCelularOfDigits(d);
    assert d[..2] == "11";
    assert d[2..7] == "98765";
    assert FormatCelular(d)[..10] == s;
  }

  // The literal is a parameter so that the verifier does not unfold
  // OnlyDigits over it character by character.
  lemma FormatCelularCompleteExample(d: string)
    requires d == "11987654321"
    ensures FormatCelular(d) == "(11) 98765-4321"
  {
    assert AllDigits(d);
    FormatCelularOfDigits(d);
    assert d[..2] == "11";
    assert d[2..7] == "98765";
    assert d[7..11] == "4321";
  }

  /** On a string of at most 11 digits the formatter is the bare mask. */
  lemma FormatCelularOfDigits(d: string)
    requires AllDigits(d) && |d| <= 11
    ensures FormatCelular(d) == MaskCelular(d)
  {
    OnlyDigitsOfDigits(d);
  }

  // As above, the literal is a parameter to keep OnlyDigits from being
  // unfolded over it.
  lemma FormatCelularPartialExamples(s: string)
    requires s == "abc119"
    ensures FormatCelular(s) == "(11) 9"
    ensures FormatCelular("") == ""
  {
    var d := "119";
    assert OnlyDigits("abc") == [] by { OnlyDigitsEmptyIff("abc"); }
    OnlyDigitsConcat("abc", d);
    assert AllDigits(d);
    OnlyDigitsOfDigits(d);
    assert "abc" + d == s;
    assert d[..2] == "11" && d[2..] == "9";
  }

  // ---------------------------------------------------------------------
  // FormatDate
  // ---------------------------------------------------------------------

  /** A digit-free separator between digits: the separator disappears. */
  lemma DigitsAroundSeparator(a: string, sep: string, b: string)
    requires AllDigits(a) && OnlyDigits(sep) == []
    ensures OnlyDigits(a + sep + b) == a + OnlyDigits(b)
  {
    OnlyDigitsConcat(a, sep);
    OnlyDigitsConcat(a + sep, b);
    OnlyDigitsOfDigits(a);
  }

  /** The date mask inserts no digits: the digits of a masked date are
      exactly the digits that were masked. */
  lemma MaskDateDigits(d: string)
    requires AllDigits(d) && |d| <= 8
    ensures OnlyDigits(MaskDate(d)) == d
  {
    OnlyDigitsChar('/');
    if |d| <= 2 {
      OnlyDigitsOfDigits(d);
    } else if |d| <= 4 {
      assert MaskDate(d) == d[..2] + "/" + d[2..];
      DigitsAroundSeparator(d[..2], "/", d[2..]);
      OnlyDigitsOfDigits(d[2..]);
      assert d[..2] + d[2..] == d;
    } else {
      var rest := d[2..4] + "/" + d[4..];
      assert MaskDate(d) == d[..2] + "/" + rest;
      SeparatedDigits(d[..2], d[2..4], d[4..]);
      assert d[..2] + (d[2..4] + d[4..]) == d;
    }
  }

  /** Two separators between three digit runs: both disappear. */
  lemma SeparatedDigits(a: string, b: string, c: string)
    requires AllDigits(a) && AllDigits(b) && AllDigits(c)
    ensures OnlyDigits(a + "/" + (b + "/" + c)) == a + (b + c)
  {
    OnlyDigitsChar('/');
    DigitsAroundSeparator(b, "/", c);
    OnlyDigitsOfDigits(c);
    DigitsAroundSeparator(a, "/", b + "/" + c);
  }

  /** The only non-digit the date mask writes is `/`. */
  lemma MaskDateSeparators(d: string)
    requires AllDigits(d) && |d| <= 8
    ensures var r := MaskDate(d);
      forall i :: 0 <= i < |r| && !IsDigit(r[i]) ==> r[i] == '/'
  {
  }

  /** The digits of the formatted date are the first min(8, n) digits of the
      input. */
  lemma FormatDateDigits(s: string)
    ensures OnlyDigits(FormatDate(s)) == Take(OnlyDigits(s), 8)
  {
    MaskDateDigits(Take(OnlyDigits(s), 8));
  }

  /** Output length by digit count d: d for d <= 2, d + 1 for 3..4, d + 2
      for 5..8; in particular 10 iff the input had >= 8 digits. */
  lemma FormatDateLength(s: string)
    ensures var d := |Take(OnlyDigits(s), 8)|;
      |FormatDate(s)| == (if d <= 2 then d else if d <= 4 then d + 1 else d + 2)
    ensures |FormatDate(s)| == 10 <==> |OnlyDigits(s)| >= 8
  {
  }

  /** Re-masking a masked date changes nothing. */
  lemma FormatDateIdempotent(s: string)
    ensures FormatDate(FormatDate(s)) == FormatDate(s)
  {
    FormatDateDigits(s);
  }

  /** A complete date mask has the shape `DD/MM/YYYY`; no calendar check. */
  lemma FormatDateComplete(s: string)
    requires |FormatDate(s)| == 10
    ensures var r := FormatDate(s);
      r[2] == '/' && r[5] == '/' &&
      AllDigits(r[..2]) && AllDigits(r[3..5]) && AllDigits(r[6..10])
  {
    FormatDateLength(s);
    var d := Take(OnlyDigits(s), 8);
    var r := FormatDate(s);
    assert r == d[..2] + "/" + d[2..4] + "/" + d[4..];
    assert r[..2] == d[..2] && r[3..5] == d[2..4] && r[6..10] == d[4..];
  }

  /** Typing more digits only extends the display: every partial date mask
      is a prefix of the mask of any longer digit string. */
  lemma MaskDatePrefix(a: string, b: string)
    requires AllDigits(b) && |b| <= 8 && a <= b
    ensures MaskDate(a) <= MaskDate(b)
  {
  }

  /** Lifted to the formatter: when the digits typed so far extend the
      digits typed before, the new display extends the old one. */
  lemma FormatDateExtends(s: string, t: string)
    requires Take(OnlyDigits(s), 8) <= Take(OnlyDigits(t), 8)
    ensures FormatDate(s) <= FormatDate(t)
  {
    MaskDatePrefix(Take(OnlyDigits(s), 8), Take(OnlyDigits(t), 8));
  }

  /** Typing `01022023` shows `01/02/2023`; its first four digits show
      `01/02`. The literal is a parameter so that the verifier does not
      unfold `OnlyDigits` over it. */
  lemma FormatDateExamples(d: string)
    requires d == "01022023"
    ensures FormatDate(d) == "01/02/2023"
    ensures FormatDate(d[..4]) == "01/02"
    ensures FormatDate("") == ""
  {
    assert AllDigits(d);
    OnlyDigitsOfDigits(d);
    assert d[..2] == "01" && d[2..4] == "02" && d[4..] == "2023";
    var e := d[..4];
    assert AllDigits(e);
    OnlyDigitsOfDigits(e);
    assert e[..2] == "01" && e[2..] == "02";
  }
}
