/** The amount normaliser of src/database.py (clean_amount): a total decoder
    from a raw cell value (a native number, a boolean, blank, or text in US or
    Brazilian notation, possibly with an "R$" currency marker) to an amount. */
module Amount {
  import opened DecimalText

  /** A cell value as the sheet API hands it back with UNFORMATTED_VALUE:
      blank, a native number, a boolean, or text. */
  datatype Value = Blank | Number(n: real) | Boolean(b: bool) | Text(s: string)

  /** Python's str.isspace() for a single character. */
  predicate IsSpace(c: char)
  {
    c == ' ' || c == '\t' || c == '\n' || c == '\r' || c == '\U{0B}' || c == '\U{0C}'
    || ('\U{1C}' <= c <= '\U{1F}') || c == '\U{85}' || c == '\U{A0}' || c == '\U{1680}'
    || ('\U{2000}' <= c <= '\U{200A}') || c == '\U{2028}' || c == '\U{2029}'
    || c == '\U{202F}' || c == '\U{205F}' || c == '\U{3000}'
  }

  function StripLeft(s: string): string
  {
    if |s| > 0 && IsSpace(s[0]) then StripLeft(s[1..]) else s
  }

  function StripRight(s: string): string
  {
    if |s| > 0 && IsSpace(s[|s| - 1]) then StripRight(s[..|s| - 1]) else s
  }

  /** Python's s.strip(): whitespace removed from both ends. */
  function Strip(s: string): (r: string)
    ensures |r| <= |s|
    ensures |r| > 0 ==> !IsSpace(r[0]) && !IsSpace(r[|r| - 1])
  {
    StripRightSpec(StripLeft(s));
    StripLeftSpec(s);
    StripRight(StripLeft(s))
  }

  lemma {:induction false} StripLeftSpec(s: string)
    ensures |StripLeft(s)| <= |s|
    ensures StripLeft(s) == s[|s| - |StripLeft(s)|..]
    ensures |StripLeft(s)| > 0 ==> !IsSpace(StripLeft(s)[0])
    ensures forall k :: 0 <= k < |s| - |StripLeft(s)| ==> IsSpace(s[k])
  {
    if |s| > 0 && IsSpace(s[0]) {
      StripLeftSpec(s[1..]);
      assert forall k :: 1 <= k < |s| ==> s[k] == s[1..][k - 1];
    }
  }

  lemma {:induction false} StripRightSpec(s: string)
    ensures |StripRight(s)| <= |s|
    ensures StripRight(s) == s[..|StripRight(s)|]
    ensures |StripRight(s)| > 0 ==> !IsSpace(StripRight(s)[|StripRight(s)| - 1])
    ensures |StripRight(s)| > 0 && |s| > 0 && !IsSpace(s[0]) ==> !IsSpace(StripRight(s)[0])
    ensures forall k :: |StripRight(s)| <= k < |s| ==> IsSpace(s[k])
  {
    if |s| > 0 && IsSpace(s[|s| - 1]) {
      StripRightSpec(s[..|s| - 1]);
    }
  }

  /** strip() keeps exactly the part of s between its leading and its trailing
      whitespace: everything cut off is whitespace, and what is kept neither
      starts nor ends with whitespace (so it is empty only for all-space text). */
  lemma StripSpec(s: string)
    ensures exists i, j ::
      (0 <= i <= j <= |s| && Strip(s) == s[i..j]
       && (forall k :: 0 <= k < i ==> IsSpace(s[k]))
       && (forall k :: j <= k < |s| ==> IsSpace(s[k])))
    ensures |Strip(s)| > 0 ==> !IsSpace(Strip(s)[0]) && !IsSpace(Strip(s)[|Strip(s)| - 1])
  {
    var l := StripLeft(s);
    var i := |s| - |l|;
    assert l == s[i..] && forall k :: 0 <= k < i ==> IsSpace(s[k]) by { StripLeftSpec(s); }
    var r := StripRight(l);
    assert r == l[..|r|] && forall k :: |r| <= k < |l| ==> IsSpace(l[k]) by { StripRightSpec(l); }
    var j := i + |r|;
    assert Strip(s) == r;
    assert r == s[i..j] by { SliceOfSuffix(s, i, |r|); }
    forall k | j <= k < |s| ensures IsSpace(s[k]) {
      assert s[k] == l[k - i];
    }
  }

  lemma SliceOfSuffix(s: string, i: nat, n: nat)
    requires i + n <= |s|
    ensures s[i..][..n] == s[i..i + n]
  {
  }

  /** Whitespace added at either end does not change what strip() keeps. */
  lemma StripSurroundingSpace(c: char, s: string)
    requires IsSpace(c)
    ensures Strip([c] + s) == Strip(s)
    ensures Strip(s + [c]) == Strip(s)
  {
    StripLeftSpace(c, s);
    StripLeftSnoc(s, c);
    var l := StripLeft(s);
    if |l| > 0 {
      assert (l + [c])[..|l|] == l;
    }
  }

  lemma {:induction false} StripLeftSnoc(s: string, c: char)
    requires IsSpace(c)
    ensures StripLeft(s + [c]) == if |StripLeft(s)| > 0 then StripLeft(s) + [c] else []
  {
    if |s| == 0 {
      assert s + [c] == [c];
      assert [c][1..] == [];
    } else if IsSpace(s[0]) {
      assert (s + [c])[1..] == s[1..] + [c];
      StripLeftSnoc(s[1..], c);
    }
  }

  /** Text in which no 'R' is directly followed by '$'. */
  predicate NoMarker(s: string)
  {
    forall k :: 0 <= k < |s| - 1 ==> !(s[k] == 'R' && s[k + 1] == '$')
  }

  /** Python's s.replace("R$", ""): every non-overlapping "R$", scanning left to right. */
  function RemoveCurrency(s: string): (r: string)
    ensures |r| <= |s|
    ensures 'R' !in s ==> r == s
    ensures NoMarker(s) ==> r == s
  {
    if |s| >= 2 && s[0] == 'R' && s[1] == '$' then RemoveCurrency(s[2..])
    else if |s| == 0 then []
    else
      assert NoMarker(s) ==> NoMarker(s[1..]) by {
        if NoMarker(s) {
          forall k | 0 <= k < |s[1..]| - 1 ensures !(s[1..][k] == 'R' && s[1..][k + 1] == '$') {
            assert s[1..][k] == s[k + 1] && s[1..][k + 1] == s[k + 2];
          }
        }
      }
      [s[0]] + RemoveCurrency(s[1..])
  }

  /** Python's s.replace(c, ""). */
  function RemoveChar(s: string, c: char): (r: string)
    ensures c !in r && |r| == |s| - CountChar(s, c)
  {
    if |s| == 0 then [] else (if s[0] == c then [] else [s[0]]) + RemoveChar(s[1..], c)
  }

  /** Python's s.replace(c, d). */
  function ReplaceChar(s: string, c: char, d: char): (r: string)
    ensures |r| == |s|
    ensures forall i :: 0 <= i < |s| ==> r[i] == if s[i] == c then d else s[i]
  {
    if |s| == 0 then [] else [if s[0] == c then d else s[0]] + ReplaceChar(s[1..], c, d)
  }

  /** Index of the first c in s, or |s| when there is none. */
  function IndexOf(s: string, c: char): (i: nat)
    ensures i <= |s| && c !in s[..i]
    ensures i < |s| ==> s[i] == c
  {
    if |s| == 0 then 0 else if s[0] == c then 0 else 1 + IndexOf(s[1..], c)
  }

  /** Unsigned decimal text: digits, optionally one '.' and more digits, at
      least one digit in all ("5", "5.", ".5", "5.25"). */
  function ParseUnsigned(s: string): Option<real>
  {
    var i := IndexOf(s, '.');
    if i == |s| then
      (if |s| > 0 && AllDigits(s) then Some(NatValue(s) as real) else None)
    else
      var whole, frac := s[..i], s[i + 1..];
      if AllDigits(whole) && AllDigits(frac) && |whole| + |frac| > 0
      then Some(NatValue(whole) as real + FracValue(frac))
      else None
  }

  /** Decimal text with an optional leading sign. */
  function ParseDecimal(s: string): Option<real>
  {
    if |s| > 0 && s[0] == '-' then
      match ParseUnsigned(s[1..])
      case Some(x) => Some(-x)
      case None => None
    else if |s| > 0 && s[0] == '+' then ParseUnsigned(s[1..])
    else ParseUnsigned(s)
  }

  /** Python's float(s) on plain decimal text: surrounding whitespace is ignored,
      and text that is empty or only whitespace is an error. */
  function PyFloat(s: string): (r: Option<real>)
    ensures Strip(s) == [] ==> r.None?
  {
    ParseDecimal(Strip(s))
  }

  /** float() ignores whitespace added at either end of its argument. */
  lemma PyFloatSurroundingSpace(c: char, s: string)
    requires IsSpace(c)
    ensures PyFloat([c] + s) == PyFloat(s) && PyFloat(s + [c]) == PyFloat(s)
  {
    StripSurroundingSpace(c, s);
  }

  /** The text after every "R$" is removed and whitespace is stripped. */
  function Trimmed(s: string): (r: string)
    ensures |r| <= |s|
    ensures |r| > 0 ==> !IsSpace(r[0]) && !IsSpace(r[|r| - 1])
    ensures 'R' !in s ==> r == Strip(s)
  {
    Strip(RemoveCurrency(s))
  }

  /** Text read as US notation: one '.' and no ','. */
  predicate UsDecimalForm(t: string)
    ensures UsDecimalForm(t) <==>
      ',' !in t && exists k :: 0 <= k < |t| && t[k] == '.' && '.' !in t[..k] && '.' !in t[k + 1..]
  {
    SingleDot(t);
    '.' in t && ',' !in t && CountChar(t, '.') == 1
  }

  /** The text holds exactly one '.' when its count of '.' is one. */
  lemma SingleDot(t: string)
    ensures ('.' in t && CountChar(t, '.') == 1) <==>
      exists k :: 0 <= k < |t| && t[k] == '.' && '.' !in t[..k] && '.' !in t[k + 1..]
  {
    if '.' in t && CountChar(t, '.') == 1 {
      var k := IndexOf(t, '.');
      DotSplit(t, k);
      CountCharAbsent(t[..k], '.');
      CountCharAbsent(t[k + 1..], '.');
    }
    if exists k :: 0 <= k < |t| && t[k] == '.' && '.' !in t[..k] && '.' !in t[k + 1..] {
      var k :| 0 <= k < |t| && t[k] == '.' && '.' !in t[..k] && '.' !in t[k + 1..];
      DotSplit(t, k);
      CountCharAbsent(t[..k], '.');
      CountCharAbsent(t[k + 1..], '.');
    }
  }

  lemma DotSplit(t: string, k: nat)
    requires k < |t| && t[k] == '.'
    ensures CountChar(t, '.') == CountChar(t[..k], '.') + 1 + CountChar(t[k + 1..], '.')
  {
    assert t == t[..k] + ([t[k]] + t[k + 1..]);
    CountCharAppend(t[..k], [t[k]] + t[k + 1..], '.');
    CountCharAppend([t[k]], t[k + 1..], '.');
    assert CountChar([t[k]], '.') == 1 by { assert [t[k]][1..] == []; }
  }

  /** Text rewritten from Brazilian notation: '.' (thousands) dropped, ',' made the decimal point. */
  function BrazilianForm(t: string): (r: string)
    ensures ',' !in r
    ensures |r| == |t| - CountChar(t, '.')
  {
    ReplaceChar(RemoveChar(t, '.'), ',', '.')
  }

  /** clean_amount on text that is already trimmed. */
  function CleanText(t: string): (r: real)
    ensures t == [] ==> r == 0.0
    ensures r == 0.0 || PyFloat(t) == Some(r) || PyFloat(BrazilianForm(t)) == Some(r)
  {
    if t == [] then 0.0
    else if UsDecimalForm(t) && PyFloat(t).Some? then PyFloat(t).value
    else match PyFloat(BrazilianForm(t))
      case Some(x) => x
      case None => 0.0
  }

  /** clean_amount: total, never fails. A native number is returned as it is,
      a boolean (an int in Python) as 1 or 0, anything that is neither a number
      nor text as 0; text is trimmed and then decoded by CleanText. */
  function CleanAmount(v: Value): (r: real)
    ensures v.Number? ==> r == v.n
    ensures v.Boolean? ==> r == if v.b then 1.0 else 0.0
    ensures v.Blank? ==> r == 0.0
    ensures v.Text? ==> r == CleanText(Trimmed(v.s))
  {
    match v
    case Number(x) => x
    case Boolean(b) => if b then 1.0 else 0.0
    case Text(s) => CleanText(Trimmed(s))
    case Blank => 0.0
  }

  // ---------------------------------------------------------------------------
  // Facts about the string helpers

  lemma {:induction false} RemoveCharAppend(a: string, b: string, c: char)
    ensures RemoveChar(a + b, c) == RemoveChar(a, c) + RemoveChar(b, c)
  {
    if |a| == 0 {
      assert a + b == b;
    } else {
      var h := if a[0] == c then [] else [a[0]];
      assert RemoveChar(a + b, c) == h + RemoveChar(a[1..] + b, c) by {
        assert (a + b)[0] == a[0] && (a + b)[1..] == a[1..] + b;
        RemoveCharCons(a + b, c);
      }
      assert RemoveChar(a, c) == h + RemoveChar(a[1..], c) by { RemoveCharCons(a, c); }
      RemoveCharAppend(a[1..], b, c);
      SeqAssoc(h, RemoveChar(a[1..], c), RemoveChar(b, c));
    }
  }

  lemma RemoveCharCons(s: string, c: char)
    requires |s| > 0
    ensures RemoveChar(s, c) == (if s[0] == c then [] else [s[0]]) + RemoveChar(s[1..], c)
  {
  }

  lemma SeqAssoc(x: string, y: string, z: string)
    ensures x + (y + z) == (x + y) + z
  {
  }

  lemma {:induction false} RemoveCharAbsent(s: string, c: char)
    requires c !in s
    ensures RemoveChar(s, c) == s
  {
    if |s| > 0 {
      RemoveCharAbsent(s[1..], c);
      assert s == [s[0]] + s[1..];
    }
  }

  /** replace(c, "") keeps every other character, in order: the character at
      position i lands at i less the number of c's before it. */
  lemma {:induction false} RemoveCharKeepsOrder(s: string, c: char)
    ensures forall i :: 0 <= i < |s| && s[i] != c ==>
      0 <= i - CountChar(s[..i], c) < |RemoveChar(s, c)| && RemoveChar(s, c)[i - CountChar(s[..i], c)] == s[i]
  {
    if |s| > 0 {
      var r, t := RemoveChar(s, c), RemoveChar(s[1..], c);
      var h := if s[0] == c then [] else [s[0]];
      assert r == h + t;
      RemoveCharKeepsOrder(s[1..], c);
      forall i | 0 <= i < |s| && s[i] != c
        ensures 0 <= i - CountChar(s[..i], c) < |r| && r[i - CountChar(s[..i], c)] == s[i]
      {
        if i == 0 {
          assert s[..0] == [];
        } else {
          assert s[i] == s[1..][i - 1];
          assert s[..i][0] == s[0] && s[..i][1..] == s[1..][..i - 1];
          assert CountChar(s[..i], c) == (if s[0] == c then 1 else 0) + CountChar(s[1..][..i - 1], c);
        }
      }
    }
  }

  lemma ReplaceCharAbsent(s: string, c: char, d: char)
    requires c !in s
    ensures ReplaceChar(s, c, d) == s
  {
  }

  /** Scanning left to right, the first "R$" is dropped, the text before it
      is kept, and the scan goes on after it. */
  lemma {:induction false} RemoveCurrencyAfter(a: string, b: string)
    requires NoMarker(a)
    ensures RemoveCurrency(a + "R$" + b) == a + RemoveCurrency(b)
  {
    if |a| == 0 {
      assert a + "R$" + b == "R$" + b;
      RemoveCurrencyLeading(b);
    } else {
      var a' := a[1..];
      assert NoMarker(a') by {
        forall k | 0 <= k < |a'| - 1 ensures !(a'[k] == 'R' && a'[k + 1] == '$') {
          assert a'[k] == a[k + 1] && a'[k + 1] == a[k + 2];
        }
      }
      RemoveCurrencyAfter(a', b);
      assert !(|a| >= 2 && a[0] == 'R' && a[1] == '$');
      RemoveCurrencyStep(a, b);
    }
  }

  lemma RemoveCurrencyLeading(b: string)
    ensures RemoveCurrency("R$" + b) == RemoveCurrency(b)
  {
    var x := "R$" + b;
    assert x[0] == 'R' && x[1] == '$' && x[2..] == b;
    RemoveCurrencyDrop(x);
  }

  lemma RemoveCurrencyStep(a: string, b: string)
    requires |a| > 0 && !(|a| >= 2 && a[0] == 'R' && a[1] == '$')
    requires RemoveCurrency(a[1..] + "R$" + b) == a[1..] + RemoveCurrency(b)
    ensures RemoveCurrency(a + "R$" + b) == a + RemoveCurrency(b)
  {
    var y := a[1..] + "R$" + b;
    assert a + "R$" + b == [a[0]] + y;
    assert |y| > 0 && y[0] == (if |a| >= 2 then a[1] else 'R');
    RemoveCurrencyCons(a[0], y);
    assert a == [a[0]] + a[1..];
    SeqAssoc([a[0]], a[1..], RemoveCurrency(b));
  }

  lemma RemoveCurrencyCons(ch: char, y: string)
    requires !(ch == 'R' && |y| > 0 && y[0] == '$')
    ensures RemoveCurrency([ch] + y) == [ch] + RemoveCurrency(y)
  {
    var x := [ch] + y;
    assert x[0] == ch && x[1..] == y;
    RemoveCurrencyKeep(x);
  }

  lemma RemoveCurrencyDrop(x: string)
    requires |x| >= 2 && x[0] == 'R' && x[1] == '$'
    ensures RemoveCurrency(x) == RemoveCurrency(x[2..])
  {
  }

  lemma RemoveCurrencyKeep(x: string)
    requires |x| > 0 && !(|x| >= 2 && x[0] == 'R' && x[1] == '$')
    ensures RemoveCurrency(x) == [x[0]] + RemoveCurrency(x[1..])
  {
  }

  lemma {:induction false} StripLeftSpace(c: char, s: string)
    requires IsSpace(c)
    ensures StripLeft([c] + s) == StripLeft(s)
  {
    assert ([c] + s)[1..] == s;
  }

  lemma StripUnchanged(s: string)
    requires |s| > 0 && !IsSpace(s[0]) && !IsSpace(s[|s| - 1])
    ensures Strip(s) == s
  {
  }

  /** Text with no 'R' and no whitespace at either end is its own trimmed form. */
  lemma TrimmedUnchanged(s: string)
    requires |s| > 0 && 'R' !in s && !IsSpace(s[0]) && !IsSpace(s[|s| - 1])
    ensures Trimmed(s) == s
  {
  }

  lemma DigitIsNotSpace(c: char)
    requires IsDigit(c)
    ensures !IsSpace(c)
  {
  }

  lemma {:induction false} ReplaceCharAppend(a: string, b: string, c: char, d: char)
    ensures ReplaceChar(a + b, c, d) == ReplaceChar(a, c, d) + ReplaceChar(b, c, d)
  {
    if |a| == 0 {
      assert a + b == b;
    } else {
      assert (a + b)[1..] == a[1..] + b;
      ReplaceCharAppend(a[1..], b, c, d);
    }
  }

  /** Digit strings joined by a separator: what the separator-free and the
      bracketing checks need to know. */
  lemma JoinedDigits(a: string, sep: char, b: string)
    requires AllDigits(a) && AllDigits(b) && |a| > 0 && |b| > 0
    ensures var t := a + [sep] + b;
      |t| > 0 && !IsSpace(t[0]) && !IsSpace(t[|t| - 1]) && sep in t
      && (sep != 'R' ==> 'R' !in t) && (sep != ',' ==> ',' !in t) && (sep != '.' ==> '.' !in t)
      && CountChar(t, '.') == (if sep == '.' then 1 else 0)
  {
    var t := a + [sep] + b;
    assert t[0] == a[0] && t[|t| - 1] == b[|b| - 1] && t[|a|] == sep;
    DigitIsNotSpace(a[0]);
    DigitIsNotSpace(b[|b| - 1]);
    DigitsExclude(a, 'R'); DigitsExclude(b, 'R');
    DigitsExclude(a, ','); DigitsExclude(b, ',');
    DigitsExclude(a, '.'); DigitsExclude(b, '.');
    CountCharAbsent(a, '.'); CountCharAbsent(b, '.');
    CountCharAppend(a, [sep], '.');
    CountCharAppend(a + [sep], b, '.');
    assert CountChar([sep], '.') == (if sep == '.' then 1 else 0) by {
      assert [sep][1..] == [];
    }
  }

  /** Text that starts with a digit has no sign to read. */
  lemma ParseDecimalNoSign(s: string)
    requires |s| > 0 && IsDigit(s[0])
    ensures ParseDecimal(s) == ParseUnsigned(s)
  {
  }

  /** Text whose first '.' is at position i, with digits on both sides of it. */
  lemma ParseUnsignedAt(s: string, i: nat, whole: string, frac: string)
    requires i < |s| && IndexOf(s, '.') == i && s[..i] == whole && s[i + 1..] == frac
    requires AllDigits(whole) && AllDigits(frac) && |whole| > 0
    ensures ParseUnsigned(s) == Some(NatValue(whole) as real + FracValue(frac))
  {
  }

  /** Reading a plain "digits.digits" string. */
  lemma ParseUnsignedJoined(whole: string, frac: string)
    requires AllDigits(whole) && AllDigits(frac) && |whole| > 0
    ensures ParseUnsigned(whole + "." + frac) == Some(NatValue(whole) as real + FracValue(frac))
  {
    var s := whole + "." + frac;
    var i := |whole|;
    assert s[..i] == whole && s[i + 1..] == frac by {}
    assert IndexOf(s, '.') == i by {
      assert s[i] == '.';
      DigitsExclude(whole, '.');
    }
    ParseUnsignedAt(s, i, whole, frac);
  }

  lemma ParseUnsignedDecimal(whole: string, frac: string)
    requires AllDigits(whole) && AllDigits(frac) && |whole| > 0
    ensures ParseUnsigned(whole + "." + frac) == Some(NatValue(whole) as real + FracValue(frac))
    ensures ParseDecimal(whole + "." + frac) == Some(NatValue(whole) as real + FracValue(frac))
  {
    ParseUnsignedJoined(whole, frac);
    var s := whole + "." + frac;
    assert s[0] == whole[0];
    ParseDecimalNoSign(s);
  }

  /** Reading a plain digit string. */
  lemma ParseUnsignedWhole(whole: string)
    requires AllDigits(whole) && |whole| > 0
    ensures ParseDecimal(whole) == Some(NatValue(whole) as real)
  {
    DigitsExclude(whole, '.');
    assert IsDigit(whole[0]);
  }

  /** Trimmed "digits.digits" is read as US notation. */
  lemma CleanUsDecimal(a: string, b: string)
    requires AllDigits(a) && AllDigits(b) && |a| > 0 && |b| > 0
    ensures CleanText(a + "." + b) == NatValue(a) as real + FracValue(b)
  {
    var t := a + "." + b;
    JoinedDigits(a, '.', b);
    StripUnchanged(t);
    ParseUnsignedDecimal(a, b);
    assert UsDecimalForm(t) && PyFloat(t).Some?;
  }

  lemma BrazilianFormOfDecimal(a: string, b: string)
    requires AllDigits(a) && AllDigits(b) && |a| > 0 && |b| > 0
    ensures BrazilianForm(a + "," + b) == a + "." + b
  {
    var t := a + "," + b;
    JoinedDigits(a, ',', b);
    RemoveCharAbsent(t, '.');
    ReplaceCharAppend(a, ",", ',', '.');
    ReplaceCharAppend(a + ",", b, ',', '.');
    DigitsExclude(a, ','); DigitsExclude(b, ',');
    ReplaceCharAbsent(a, ',', '.');
    ReplaceCharAbsent(b, ',', '.');
    assert ReplaceChar(",", ',', '.') == ".";
  }

  /** Trimmed "digits,digits" is read as Brazilian notation. */
  lemma CleanBrDecimal(a: string, b: string)
    requires AllDigits(a) && AllDigits(b) && |a| > 0 && |b| > 0
    ensures CleanText(a + "," + b) == NatValue(a) as real + FracValue(b)
  {
    var t := a + "," + b;
    JoinedDigits(a, ',', b);
    BrazilianFormOfDecimal(a, b);
    JoinedDigits(a, '.', b);
    StripUnchanged(a + "." + b);
    ParseUnsignedDecimal(a, b);
    assert !UsDecimalForm(t);
  }

  // ---------------------------------------------------------------------------
  // What the normaliser promises, stated against the notations it decodes

  /** "1234.05" style: US notation with two decimals decodes to the amount written. */
  lemma UsTextRoundTrip(n: nat, c: nat)
    requires c < 100
    ensures CleanAmount(Text(ShowNat(n) + "." + Padded(c, 2))) == n as real + c as real / 100.0
  {
    var a, b := ShowNat(n), Padded(c, 2);
    JoinedDigits(a, '.', b);
    TrimmedUnchanged(a + "." + b);
    CleanUsDecimal(a, b);
    ShowNatValue(n);
    Padded2Fraction(c);
  }

  /** "1234,05" style: Brazilian notation with two decimals decodes to the amount written. */
  lemma BrTextRoundTrip(n: nat, c: nat)
    requires c < 100
    ensures CleanAmount(Text(ShowNat(n) + "," + Padded(c, 2))) == n as real + c as real / 100.0
  {
    var a, b := ShowNat(n), Padded(c, 2);
    JoinedDigits(a, ',', b);
    TrimmedUnchanged(a + "," + b);
    CleanBrDecimal(a, b);
    ShowNatValue(n);
    Padded2Fraction(c);
  }

  /** n written with '.' between groups of three digits ("1.000", "12.345.678"). */
  function Grouped(n: nat): (s: string)
    ensures |s| > 0 && IsDigit(s[0]) && IsDigit(s[|s| - 1]) && ',' !in s && 'R' !in s
  {
    if n < 1000 then
      DigitsExclude(ShowNat(n), ','); DigitsExclude(ShowNat(n), 'R');
      ShowNat(n)
    else
      var p := Padded(n % 1000, 3);
      DigitsExclude(p, ','); DigitsExclude(p, 'R');
      Grouped(n / 1000) + "." + p
  }

  /** Removing the separators from "g.ppp" removes them from g and keeps the group. */
  lemma RemoveSeparatorOfGroup(g: string, p: string)
    requires AllDigits(p)
    ensures RemoveChar(g + "." + p, '.') == RemoveChar(g, '.') + p
  {
    assert RemoveChar(p, '.') == p by {
      DigitsExclude(p, '.');
      RemoveCharAbsent(p, '.');
    }
    assert RemoveChar(g + ".", '.') == RemoveChar(g, '.') by {
      RemoveCharAppend(g, ".", '.');
      assert RemoveChar(".", '.') == [];
    }
    RemoveCharAppend(g + ".", p, '.');
  }

  lemma Pow10Three()
    ensures Pow10(3) == 1000
  {
    assert Pow10(1) == 10;
    assert Pow10(2) == 100;
  }

  lemma SplitThousands(n: nat)
    ensures (n / 1000) * 1000 + n % 1000 == n
  {
  }

  /** Dropping the group separators of Grouped(n) leaves the digits of n. */
  lemma {:induction false} GroupedDigits(n: nat)
    ensures AllDigits(RemoveChar(Grouped(n), '.')) && |RemoveChar(Grouped(n), '.')| > 0
    ensures NatValue(RemoveChar(Grouped(n), '.')) == n
  {
    if n < 1000 {
      DigitsExclude(ShowNat(n), '.');
      RemoveCharAbsent(ShowNat(n), '.');
      ShowNatValue(n);
    } else {
      var g, p := Grouped(n / 1000), Padded(n % 1000, 3);
      GroupedDigits(n / 1000);
      var d := RemoveChar(g, '.');
      assert Grouped(n) == g + "." + p;
      RemoveSeparatorOfGroup(g, p);
      NatValueAppend(d, p);
      PaddedValue(n % 1000, 3);
      Pow10Three();
      SplitThousands(n);
    }
  }

  /** Text whose '.'-free form is "digits,digits" reads as that form does. */
  lemma CleanBrWithSeparators(t: string, d: string, b: string)
    requires AllDigits(d) && AllDigits(b) && |d| > 0 && |b| > 0
    requires ',' in t && RemoveChar(t, '.') == d + "," + b
    ensures CleanText(t) == NatValue(d) as real + FracValue(b)
  {
    JoinedDigits(d, ',', b);
    RemoveCharAbsent(d + "," + b, '.');
    assert BrazilianForm(t) == BrazilianForm(d + "," + b);
    assert !UsDecimalForm(t);
    CleanBrDecimal(d, b);
  }

  /** "1.234.567,89" style: Brazilian notation with thousands groups decodes to the amount written. */
  lemma GroupedBrTextRoundTrip(n: nat, c: nat)
    requires c < 100
    ensures CleanAmount(Text(Grouped(n) + "," + Padded(c, 2))) == n as real + c as real / 100.0
  {
    var g, b := Grouped(n), Padded(c, 2);
    var t := g + "," + b;
    assert t[0] == g[0] && t[|t| - 1] == b[1];
    DigitIsNotSpace(g[0]);
    DigitIsNotSpace(b[1]);
    DigitsExclude(b, 'R');
    assert 'R' !in t;
    TrimmedUnchanged(t);
    GroupedDigits(n);
    var d := RemoveChar(g, '.');
    DigitsExclude(b, '.');
    RemoveCharAbsent(b, '.');
    RemoveCharAppend(g, ",", '.');
    RemoveCharAppend(g + ",", b, '.');
    assert RemoveChar(",", '.') == ",";
    assert RemoveChar(t, '.') == d + "," + b;
    assert t[|g|] == ',';
    CleanBrWithSeparators(t, d, b);
    Padded2Fraction(c);
  }

  /** The notation's ambiguity: a thousands-grouped amount with a single group
      separator and no decimals ("1.000", "25.300") is taken for US notation,
      so it decodes to a thousandth of the amount written. */
  lemma SingleGroupReadAsDecimal(n: nat)
    requires 1000 <= n < 1000000
    ensures CleanAmount(Text(Grouped(n))) == n as real / 1000.0
  {
    var a, p := ShowNat(n / 1000), Padded(n % 1000, 3);
    assert Grouped(n / 1000) == a;
    var t := Grouped(n);
    assert t == a + "." + p;
    JoinedDigits(a, '.', p);
    TrimmedUnchanged(t);
    CleanUsDecimal(a, p);
    ShowNatValue(n / 1000);
    Padded3Fraction(n % 1000);
  }

  /** With two or more group separators the text is not US notation, the
      separators are dropped, and the amount written is recovered. */
  lemma MultiGroupReadAsThousands(n: nat)
    requires n >= 1000000
    ensures CleanAmount(Text(Grouped(n))) == n as real
  {
    var t := Grouped(n);
    var g1, p1 := Grouped(n / 1000), Padded(n % 1000, 3);
    var g2, p2 := Grouped(n / 1000000), Padded((n / 1000) % 1000, 3);
    assert n / 1000 / 1000 == n / 1000000;
    assert t == g1 + "." + p1;
    assert g1 == g2 + "." + p2;
    CountCharAppend(g2, ".", '.');
    CountCharAppend(g2 + ".", p2, '.');
    CountCharAppend(g1, ".", '.');
    CountCharAppend(g1 + ".", p1, '.');
    assert CountChar(".", '.') == 1;
    assert !UsDecimalForm(t);
    DigitIsNotSpace(t[0]);
    DigitIsNotSpace(t[|t| - 1]);
    TrimmedUnchanged(t);
    GroupedDigits(n);
    var d := RemoveChar(t, '.');
    DigitsExclude(d, ',');
    ReplaceCharAbsent(d, ',', '.');
    assert BrazilianForm(t) == d;
    DigitIsNotSpace(d[0]);
    DigitIsNotSpace(d[|d| - 1]);
    StripUnchanged(d);
    ParseUnsignedWhole(d);
  }

  /** Plain digit text ("42", "100") has no '.', so it skips the US branch;
      the Brazilian rewrite leaves it as it is, and it reads as its number. */
  lemma PlainIntegerText(n: nat)
    ensures CleanAmount(Text(ShowNat(n))) == n as real
  {
    var d := ShowNat(n);
    DigitsExclude(d, '.');
    DigitsExclude(d, ',');
    DigitsExclude(d, 'R');
    DigitIsNotSpace(d[0]);
    DigitIsNotSpace(d[|d| - 1]);
    TrimmedUnchanged(d);
    RemoveCharAbsent(d, '.');
    ReplaceCharAbsent(d, ',', '.');
    assert BrazilianForm(d) == d;
    StripUnchanged(d);
    ParseUnsignedWhole(d);
    ShowNatValue(n);
  }

  /** "-" followed by plain digit text ("-7") reads as the negated number. */
  lemma NegativeIntegerText(n: nat)
    ensures CleanAmount(Text("-" + ShowNat(n))) == -(n as real)
  {
    var d := ShowNat(n);
    var t := "-" + d;
    DigitsExclude(d, '.');
    DigitsExclude(d, ',');
    DigitsExclude(d, 'R');
    assert '.' !in t && ',' !in t && 'R' !in t;
    assert t[|t| - 1] == d[|d| - 1];
    DigitIsNotSpace(d[|d| - 1]);
    TrimmedUnchanged(t);
    RemoveCharAbsent(t, '.');
    ReplaceCharAbsent(t, ',', '.');
    assert BrazilianForm(t) == t;
    ParseUnsignedWhole(d);
    ParseDecimalNoSign(d);
    ShowNatValue(n);
    PyFloatNegative(d, n as real);
  }

  /** An "R$ " marker in front of the text does not change the amount. */
  lemma CurrencyPrefixIgnored(t: string)
    ensures CleanAmount(Text("R$ " + t)) == CleanAmount(Text(t))
  {
    assert ("R$ " + t)[2..] == [' '] + t;
    assert RemoveCurrency("R$ " + t) == RemoveCurrency([' '] + t);
    assert ([' '] + t)[1..] == t;
    assert RemoveCurrency([' '] + t) == [' '] + RemoveCurrency(t);
    StripLeftSpace(' ', RemoveCurrency(t));
  }

  /** Trimmed "-digits,digits" is read as Brazilian notation with its sign. */
  lemma CleanNegativeBrDecimal(a: string, b: string, v: real)
    requires AllDigits(a) && AllDigits(b) && |a| > 0 && |b| > 0
    requires ParseUnsigned(a + "." + b) == Some(v)
    ensures CleanText("-" + (a + "," + b)) == -v
  {
    var t := "-" + (a + "," + b);
    NegativeBrazilianForm(a, b);
    NegativeDecimalParses(a, b, v);
    assert t != [] && !UsDecimalForm(t);
  }

  /** "-digits,digits" is not US notation and rewrites to "-digits.digits". */
  lemma NegativeBrazilianForm(a: string, b: string)
    requires AllDigits(a) && AllDigits(b) && |a| > 0 && |b| > 0
    ensures !UsDecimalForm("-" + (a + "," + b))
    ensures BrazilianForm("-" + (a + "," + b)) == "-" + (a + "." + b)
  {
    var x := a + "," + b;
    var t := "-" + x;
    JoinedDigits(a, ',', b);
    assert t[|a| + 1] == ',';
    assert '.' !in t;
    RemoveCharAbsent(t, '.');
    ReplaceCharAppend("-", x, ',', '.');
    assert ReplaceChar("-", ',', '.') == "-";
    RemoveCharAbsent(x, '.');
    BrazilianFormOfDecimal(a, b);
  }

  lemma StripSigned(u: string)
    requires |u| > 0 && !IsSpace(u[|u| - 1])
    ensures Strip("-" + u) == "-" + u
  {
    assert ("-" + u)[|"-" + u| - 1] == u[|u| - 1];
    StripUnchanged("-" + u);
  }

  lemma NegativeDecimalParses(a: string, b: string, v: real)
    requires AllDigits(b) && |b| > 0 && ParseUnsigned(a + "." + b) == Some(v)
    ensures PyFloat("-" + (a + "." + b)) == Some(-v)
  {
    var u := a + "." + b;
    assert u[|u| - 1] == b[|b| - 1];
    DigitIsNotSpace(b[|b| - 1]);
    PyFloatNegative(u, v);
  }

  /** float("-" + u) for unsigned decimal text u that ends in a non-space. */
  lemma PyFloatNegative(u: string, x: real)
    requires |u| > 0 && !IsSpace(u[|u| - 1]) && ParseUnsigned(u) == Some(x)
    ensures PyFloat("-" + u) == Some(-x)
  {
    StripSigned(u);
    PyFloatOfStripped("-" + u);
    ParseNegative(u, x);
  }

  lemma PyFloatOfStripped(t: string)
    requires Strip(t) == t
    ensures PyFloat(t) == ParseDecimal(t)
  {
  }

  lemma ParseNegative(u: string, x: real)
    requires ParseUnsigned(u) == Some(x)
    ensures ParseDecimal("-" + u) == Some(-x)
  {
    assert ("-" + u)[1..] == u;
  }

  /** Negative amounts are not clamped: a leading '-' negates the decoded amount. */
  lemma NegativeBrText(n: nat, c: nat)
    requires c < 100
    ensures CleanAmount(Text("-" + ShowNat(n) + "," + Padded(c, 2))) == -(n as real + c as real / 100.0)
  {
    var a, b := ShowNat(n), Padded(c, 2);
    var x := a + "," + b;
    var t := "-" + x;
    assert t == "-" + ShowNat(n) + "," + Padded(c, 2);
    JoinedDigits(a, ',', b);
    assert t[|t| - 1] == x[|x| - 1];
    assert 'R' !in t;
    TrimmedUnchanged(t);
    UnsignedCents(n, c);
    CleanNegativeBrDecimal(a, b, n as real + c as real / 100.0);
  }

  /** "-n.cc" takes the US branch with its sign: one '.', no ',', and float
      reads it as the negated amount. */
  lemma NegativeUsText(n: nat, c: nat)
    requires c < 100
    ensures CleanAmount(Text("-" + ShowNat(n) + "." + Padded(c, 2))) == -(n as real + c as real / 100.0)
  {
    var a, b := ShowNat(n), Padded(c, 2);
    var t := "-" + (a + "." + b);
    assert t == "-" + ShowNat(n) + "." + Padded(c, 2);
    JoinedDigits(a, '.', b);
    NegativeUsForm(a, b);
    TrimmedUnchanged(t);
    UnsignedCents(n, c);
    CleanNegativeUsDecimal(a, b, n as real + c as real / 100.0);
  }

  /** "-digits.digits" has one '.' and no ',' (US notation) and no 'R', and ends in a digit. */
  lemma NegativeUsForm(a: string, b: string)
    requires AllDigits(a) && AllDigits(b) && |a| > 0 && |b| > 0
    ensures var t := "-" + (a + "." + b);
      UsDecimalForm(t) && 'R' !in t && !IsSpace(t[|t| - 1])
  {
    var u := a + "." + b;
    var t := "-" + u;
    JoinedDigits(a, '.', b);
    assert t[|t| - 1] == u[|u| - 1];
    assert 'R' !in t && ',' !in t && '.' in t;
    CountCharAppend("-", u, '.');
    assert CountChar("-", '.') == 0;
  }

  /** Trimmed "-digits.digits" is read as US notation with its sign. */
  lemma CleanNegativeUsDecimal(a: string, b: string, v: real)
    requires AllDigits(a) && AllDigits(b) && |a| > 0 && |b| > 0
    requires ParseUnsigned(a + "." + b) == Some(v)
    ensures CleanText("-" + (a + "." + b)) == -v
  {
    NegativeUsForm(a, b);
    NegativeDecimalParses(a, b, v);
  }

  /** "n.cc" with two fraction digits reads as n plus cc hundredths. */
  lemma UnsignedCents(n: nat, c: nat)
    requires c < 100
    ensures ParseUnsigned(ShowNat(n) + "." + Padded(c, 2)) == Some(n as real + c as real / 100.0)
  {
    ParseUnsignedJoined(ShowNat(n), Padded(c, 2));
    ShowNatValue(n);
    Padded2Fraction(c);
  }

  predicate NoDigits(s: string) { forall i :: 0 <= i < |s| ==> !IsDigit(s[i]) }

  lemma {:induction false} NoDigitsRemoveCurrency(s: string)
    requires NoDigits(s)
    ensures NoDigits(RemoveCurrency(s))
  {
    if |s| >= 2 && s[0] == 'R' && s[1] == '$' {
      NoDigitsRemoveCurrency(s[2..]);
    } else if |s| > 0 {
      NoDigitsRemoveCurrency(s[1..]);
    }
  }

  lemma {:induction false} NoDigitsRemoveChar(s: string, c: char)
    requires NoDigits(s)
    ensures NoDigits(RemoveChar(s, c))
  {
    if |s| > 0 { NoDigitsRemoveChar(s[1..], c); }
  }

  lemma NoDigitsStrip(s: string)
    requires NoDigits(s)
    ensures NoDigits(Strip(s))
  {
    StripLeftSpec(s);
    StripRightSpec(StripLeft(s));
  }

  /** Text without a single digit cannot be read as a number. */
  lemma NoDigitsNoParse(u: string)
    requires NoDigits(u)
    ensures ParseDecimal(u).None? && PyFloat(u).None?
  {
    NoDigitsUnsigned(u);
    if |u| > 0 { NoDigitsUnsigned(u[1..]); }
    NoDigitsStrip(u);
    var w := Strip(u);
    NoDigitsUnsigned(w);
    if |w| > 0 { NoDigitsUnsigned(w[1..]); }
  }

  lemma NoDigitsUnsigned(u: string)
    requires NoDigits(u)
    ensures ParseUnsigned(u).None?
  {
    var i := IndexOf(u, '.');
    if i == |u| {
      if |u| > 0 { assert !IsDigit(u[0]); }
    } else {
      var whole, frac := u[..i], u[i + 1..];
      if |whole| > 0 { assert whole[0] == u[0]; }
      if |frac| > 0 { assert frac[0] == u[i + 1]; }
    }
  }

  /** Text with no digit at all (words, a bare "R$", blanks) normalises to 0. */
  lemma NoDigitsIsZero(s: string)
    requires NoDigits(s)
    ensures CleanAmount(Text(s)) == 0.0
  {
    NoDigitsRemoveCurrency(s);
    NoDigitsStrip(RemoveCurrency(s));
    var t := Trimmed(s);
    NoDigitsNoParse(t);
    NoDigitsRemoveChar(t, '.');
    var b := BrazilianForm(t);
    assert NoDigits(b);
    NoDigitsNoParse(b);
  }

  lemma UsExampleSpelling()
    ensures ShowNat(570) + "." + Padded(15, 2) == "570.15"
  {
    assert ShowNat(570) == "570";
    assert Padded(15, 2) == "15";
  }

  lemma BrExampleSpelling()
    ensures ShowNat(42) + "," + Padded(0, 2) == "42,00"
    ensures "R$ " + "42,00" == "R$ 42,00"
  {
    assert ShowNat(42) == "42";
    assert Padded(0, 2) == "00";
  }

  lemma GroupedExampleSpelling()
    ensures Grouped(1000) == "1.000"
    ensures Grouped(1000) + "," + Padded(50, 2) == "1.000,50"
    ensures Grouped(1000000) == "1.000.000"
  {
    assert Padded(0, 3) == "000";
    assert ShowNat(1) == "1";
    assert Grouped(1000) == "1.000";
    assert Padded(50, 2) == "50";
  }

  lemma GarbageHasNoDigits()
    ensures NoDigits("garbage")
  {
    var g := "garbage";
    assert forall i | 0 <= i < |g| :: g[i] in {'g', 'a', 'r', 'b', 'e'};
  }

  /** The documented examples of the normaliser, one notation each. */
  lemma NormaliserExamples()
    ensures CleanAmount(Number(100.5)) == 100.5
    ensures CleanAmount(Text("570.15")) == 570.15
    ensures CleanAmount(Text("42,00")) == 42.0
    ensures CleanAmount(Text("R$ 42,00")) == 42.0
    ensures CleanAmount(Text("1.000,50")) == 1000.5
    ensures CleanAmount(Text("1.000")) == 1.0
    ensures CleanAmount(Text("1.000.000")) == 1000000.0
    ensures CleanAmount(Text("")) == 0.0
    ensures CleanAmount(Text("garbage")) == 0.0
  {
    UsExampleSpelling();
    BrExampleSpelling();
    GroupedExampleSpelling();
    GarbageHasNoDigits();
    UsTextRoundTrip(570, 15);
    BrTextRoundTrip(42, 0);
    CurrencyPrefixIgnored("42,00");
    GroupedBrTextRoundTrip(1000, 50);
    SingleGroupReadAsDecimal(1000);
    MultiGroupReadAsThousands(1000000);
    NoDigitsIsZero("");
    NoDigitsIsZero("garbage");
  }
}
