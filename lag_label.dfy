/**
 * The lag annotation of a fitted pair's header: shift 0 is written `t`, a
 * positive shift s as `t+s` and a negative one as `t` followed by Python's
 * rendering of the integer (so -3 gives `t-3`). `ParseLabel` inverts
 * `Label`: it reads the shift back, and only the annotation of a shift parses
 * to that shift (`LabelParseIff`).
 */
module LagLabel {
  import opened Optional
  import opened Numbers

  predicate IsDigit(c: char) { '0' <= c <= '9' }

  function DigitChar(d: nat): (c: char)
    requires d < 10
    ensures IsDigit(c) && c as int - '0' as int == d
  {
    ('0' as int + d) as char
  }

  function DigitValue(c: char): nat
    requires IsDigit(c)
  {
    c as int - '0' as int
  }

  predicate AllDigits(s: string)
  {
    forall i :: 0 <= i < |s| ==> IsDigit(s[i])
  }

  /** The digits of a natural number as Python's `str` writes them: no sign, no leading zero. */
  predicate Canonical(s: string)
  {
    |s| >= 1 && AllDigits(s) && (|s| > 1 ==> s[0] != '0')
  }

  function Decimal(n: nat): (r: string)
    ensures Canonical(r)
    ensures r[0] == '0' <==> n == 0
    decreases n
  {
    if n < 10 then [DigitChar(n)] else Decimal(n / 10) + [DigitChar(n % 10)]
  }

  /** The number a string of decimal digits denotes. */
  function DigitsValue(s: string): nat
    requires AllDigits(s)
  {
    if s == [] then 0 else DigitsValue(s[..|s| - 1]) * 10 + DigitValue(s[|s| - 1])
  }

  lemma {:induction false} DecimalRoundTrip(n: nat)
    ensures DigitsValue(Decimal(n)) == n
    decreases n
  {
    if n >= 10 {
      DecimalRoundTrip(n / 10);
      var r := Decimal(n);
      assert r[..|r| - 1] == Decimal(n / 10);
    }
  }

  lemma {:induction false} LeadingNonZeroIsPositive(s: string)
    requires |s| >= 1 && AllDigits(s) && s[0] != '0'
    ensures DigitsValue(s) >= 1
    decreases |s|
  {
    if |s| > 1 {
      LeadingNonZeroIsPositive(s[..|s| - 1]);
    }
  }

  lemma {:induction false} CanonicalRoundTrip(s: string)
    requires Canonical(s)
    ensures Decimal(DigitsValue(s)) == s
    decreases |s|
  {
    var v := DigitsValue(s);
    if |s| == 1 {
      assert s[..0] == [];
    } else {
      var p := s[..|s| - 1];
      LeadingNonZeroIsPositive(p);
      CanonicalRoundTrip(p);
      assert v / 10 == DigitsValue(p) && v % 10 == DigitValue(s[|s| - 1]);
      assert s == p + [s[|s| - 1]];
    }
  }

  /** Python's `str` of an integer. */
  function IntText(v: int): string
  {
    if v < 0 then "-" + Decimal(-v) else Decimal(v)
  }

  /** The annotation written after a series name for its shift. */
  function Label(shift: int): (r: string)
    ensures |r| >= 1 && r[0] == 't'
    ensures forall i :: 0 <= i < |r| ==> r[i] == 't' || r[i] == '+' || r[i] == '-' || IsDigit(r[i])
  {
    "t" + (if shift > 0 then "+" + IntText(shift) else if shift < 0 then IntText(shift) else "")
  }

  /** A digit string denoting a positive number with no leading zero. */
  predicate PositiveNumeral(s: string)
  {
    |s| >= 1 && AllDigits(s) && s[0] != '0'
  }

  /** Reads a shift back from its annotation; None for text no shift renders to. */
  function ParseLabel(l: string): Option<int>
  {
    if |l| == 0 || l[0] != 't' then None
    else if |l| == 1 then Some(0)
    else if (l[1] == '+' || l[1] == '-') && PositiveNumeral(l[2..]) then
      var v: int := DigitsValue(l[2..]);
      Some(if l[1] == '+' then v else -v)
    else None
  }

  function SignChar(shift: int): char
  {
    if shift > 0 then '+' else '-'
  }

  lemma LabelShape(shift: int)
    ensures shift == 0 ==> Label(shift) == "t"
    ensures shift != 0 ==> Label(shift) == ['t', SignChar(shift)] + Decimal(Abs(shift))
  {
  }

  lemma LabelRoundTrip(shift: int)
    ensures ParseLabel(Label(shift)) == Some(shift)
  {
    LabelShape(shift);
    if shift != 0 {
      var r, d := Label(shift), Decimal(Abs(shift));
      assert r[2..] == d;
      DecimalRoundTrip(Abs(shift));
    }
  }

  lemma ParsedLabelIsCanonical(l: string, shift: int)
    requires ParseLabel(l) == Some(shift)
    ensures l == Label(shift)
  {
    LabelShape(shift);
    if |l| > 1 {
      var d := l[2..];
      var v := DigitsValue(d);
      LeadingNonZeroIsPositive(d);
      CanonicalRoundTrip(d);
      assert Abs(shift) == v && SignChar(shift) == l[1];
      assert l == [l[0], l[1]] + d;
    }
  }

  /** Parsing undoes labelling, and only the labels of shifts parse: the annotation determines the shift. */
  lemma LabelParseIff(l: string, shift: int)
    ensures ParseLabel(l) == Some(shift) <==> l == Label(shift)
  {
    if ParseLabel(l) == Some(shift) {
      ParsedLabelIsCanonical(l, shift);
    }
    if l == Label(shift) {
      LabelRoundTrip(shift);
    }
  }

  lemma LabelInjective(a: int, b: int)
    requires Label(a) == Label(b)
    ensures a == b
  {
    LabelParseIff(Label(a), a);
    LabelParseIff(Label(b), b);
  }

  /** Where each piece of `y(la) ~ x(lb)` sits, for any name and annotation texts. */
  lemma HeaderPieces(yName: string, la: string, xName: string, lb: string)
    ensures var r := yName + "(" + la + ") ~ " + xName + "(" + lb + ")";
            |r| == |yName| + |la| + |xName| + |lb| + 7 &&
            r[..|yName| + 1] == yName + "(" &&
            r[|yName| + 1..|yName| + 1 + |la|] == la &&
            r[|yName| + 1 + |la|..|yName| + 5 + |la|] == ") ~ " &&
            r[|r| - |xName| - |lb| - 2..] == xName + "(" + lb + ")"
  {
  }

  /** The header of a fitted pair: `y(label) ~ x(label)`. */
  function Header(yName: string, yShift: int, xName: string, xShift: int): (r: string)
    ensures |r| == |yName| + |Label(yShift)| + |xName| + |Label(xShift)| + 7
    ensures r[..|yName| + 1] == yName + "("
    ensures r[|yName| + 1..|yName| + 1 + |Label(yShift)|] == Label(yShift)
    ensures r[|yName| + 1 + |Label(yShift)|..|yName| + 5 + |Label(yShift)|] == ") ~ "
    ensures r[|r| - |xName| - |Label(xShift)| - 2..] == xName + "(" + Label(xShift) + ")"
  {
    var la, lb := Label(yShift), Label(xShift);
    HeaderPieces(yName, la, xName, lb);
    yName + "(" + la + ") ~ " + xName + "(" + lb + ")"
  }

  /** Two strings that start with a ')'-free part followed by ')' split at the same place. */
  lemma SplitAtClose(l1: string, t1: string, l2: string, t2: string)
    requires forall i :: 0 <= i < |l1| ==> l1[i] != ')'
    requires forall i :: 0 <= i < |l2| ==> l2[i] != ')'
    requires |t1| >= 1 && t1[0] == ')' && |t2| >= 1 && t2[0] == ')'
    requires l1 + t1 == l2 + t2
    ensures l1 == l2 && t1 == t2
  {
    assert l1 == (l1 + t1)[..|l1|];
    assert l2 == (l2 + t2)[..|l2|];
    assert t1 == (l1 + t1)[|l1|..];
    assert t2 == (l2 + t2)[|l2|..];
  }

  lemma DropCommonPrefix(p: string, s1: string, s2: string)
    requires p + s1 == p + s2
    ensures s1 == s2
  {
    assert s1 == (p + s1)[|p|..];
    assert s2 == (p + s2)[|p|..];
  }

  lemma DropCommonSuffix(s1: string, s2: string, t: string)
    requires s1 + t == s2 + t
    ensures s1 == s2
  {
    assert s1 == (s1 + t)[..|s1|];
    assert s2 == (s2 + t)[..|s2|];
  }

  /** The header regrouped as name-and-paren, label, and the closing rest. */
  lemma HeaderRegrouped(yName: string, yLabel: string, xName: string, xLabel: string)
    ensures yName + "(" + yLabel + ") ~ " + xName + "(" + xLabel + ")"
            == (yName + "(") + (yLabel + ((") ~ " + xName + "(") + (xLabel + ")")))
  {
  }

  lemma NoCloseInLabel(shift: int)
    ensures forall i :: 0 <= i < |Label(shift)| ==> Label(shift)[i] != ')'
  {
  }

  /** For given series names, the header determines both shifts. */
  lemma HeaderDeterminesShifts(yName: string, xName: string, a: int, b: int, c: int, d: int)
    requires Header(yName, a, xName, b) == Header(yName, c, xName, d)
    ensures a == c && b == d
  {
    var la, lb, lc, ld := Label(a), Label(b), Label(c), Label(d);
    var p, q := yName + "(", ") ~ " + xName + "(";
    HeaderRegrouped(yName, la, xName, lb);
    HeaderRegrouped(yName, lc, xName, ld);
    DropCommonPrefix(p, la + (q + (lb + ")")), lc + (q + (ld + ")")));
    NoCloseInLabel(a);
    NoCloseInLabel(c);
    SplitAtClose(la, q + (lb + ")"), lc, q + (ld + ")"));
    LabelInjective(a, c);
    DropCommonPrefix(q, lb + ")", ld + ")");
    DropCommonSuffix(lb, ld, ")");
    LabelInjective(b, d);
  }
}
