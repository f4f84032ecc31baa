/** The numeric entry validator of the GUI's input fields: a value is accepted when
    it is empty or when Python's `re.match` finds the pattern
    `^[-+]?[0-9]*\.?[0-9]+$` in it, and Tk runs the validator on the value a
    keystroke would leave in the field, refusing the keystroke when it fails. */
module NumericEntry {

  predicate IsDigit(c: char)
  {
    '0' <= c <= '9'
  }

  predicate AllDigits(s: string)
  {
    forall i :: 0 <= i < |s| ==> IsDigit(s[i])
  }

  predicate IsSign(c: char)
  {
    c == '-' || c == '+'
  }

  /** The matcher for `[0-9]*\.?[0-9]+` followed by the end of the text, scanning
      left to right; `dotSeen` records that the one optional point was used. */
  function ScanUnsigned(s: string, dotSeen: bool): bool
  {
    if |s| == 0 then false
    else if |s| == 1 then IsDigit(s[0])
    else if IsDigit(s[0]) then ScanUnsigned(s[1..], dotSeen)
    else if s[0] == '.' && !dotSeen then ScanUnsigned(s[1..], true)
    else false
  }

  /** `[-+]?` followed by the unsigned part, anchored at both ends. */
  function MatchesNumber(s: string): bool
  {
    if |s| > 0 && IsSign(s[0]) then ScanUnsigned(s[1..], false) else ScanUnsigned(s, false)
  }

  /** `validate_numeric`: the empty value passes; otherwise the pattern must match.
      Python's `$` also matches just before a final newline, so a number followed by
      one `"\n"` passes too. */
  function ValidateNumeric(value: string): bool
  {
    value == "" || MatchesNumber(value) ||
    (|value| > 0 && value[|value| - 1] == '\n' && MatchesNumber(value[..|value| - 1]))
  }

  /** The language the pattern describes, written as its parts: an optional sign,
      digits before an optional point, and at least one digit after it. Without a
      point every digit is in `fraction`, so each accepted text has one reading. */
  datatype Numeral = Numeral(sign: string, whole: string, point: bool, fraction: string)

  predicate WellFormed(n: Numeral)
  {
    (n.sign == "" || n.sign == "-" || n.sign == "+") &&
    AllDigits(n.whole) && AllDigits(n.fraction) && |n.fraction| >= 1 &&
    (!n.point ==> n.whole == "")
  }

  function Render(n: Numeral): string
  {
    n.sign + n.whole + (if n.point then "." else "") + n.fraction
  }

  lemma {:induction false} ScanDigits(s: string, dotSeen: bool)
    requires AllDigits(s) && |s| >= 1
    ensures ScanUnsigned(s, dotSeen)
  {
    if |s| > 1 {
      ScanDigits(s[1..], dotSeen);
    }
  }

  lemma {:induction false} ScanWhole(w: string, rest: string)
    requires AllDigits(w) && AllDigits(rest) && |rest| >= 1
    ensures ScanUnsigned(w + "." + rest, false)
  {
    if |w| == 0 {
      assert w + "." + rest == "." + rest;
      assert ("." + rest)[1..] == rest;
      ScanDigits(rest, true);
    } else {
      assert (w + "." + rest)[1..] == w[1..] + "." + rest;
      ScanWhole(w[1..], rest);
    }
  }

  /** Every text of the language is accepted by the matcher. */
  lemma RenderedMatches(n: Numeral)
    requires WellFormed(n)
    ensures MatchesNumber(Render(n))
  {
    var body := n.whole + (if n.point then "." else "") + n.fraction;
    assert Render(n) == n.sign + body;
    BodyMatches(n);
    if n.sign != "" {
      AfterSign(n.sign, body);
    } else {
      assert Render(n) == body;
    }
  }

  /** What follows the sign is accepted by the unsigned matcher and starts with a
      digit or the point. */
  lemma BodyMatches(n: Numeral)
    requires WellFormed(n)
    ensures var body := n.whole + (if n.point then "." else "") + n.fraction;
      ScanUnsigned(body, false) && |body| > 0 && !IsSign(body[0])
  {
    var body := n.whole + (if n.point then "." else "") + n.fraction;
    if n.point {
      ScanWhole(n.whole, n.fraction);
      if |n.whole| == 0 {
        assert body[0] == '.';
      } else {
        assert body[0] == n.whole[0];
      }
    } else {
      assert body == n.fraction;
      ScanDigits(n.fraction, false);
    }
  }

  lemma AfterSign(sign: string, body: string)
    requires |sign| == 1
    ensures (sign + body)[0] == sign[0] && (sign + body)[1..] == body
  {
  }

  /** A text the matcher accepts with the point already used is a run of digits. */
  lemma {:induction false} ScanAfterPoint(s: string)
    requires ScanUnsigned(s, true)
    ensures AllDigits(s) && |s| >= 1
  {
    if |s| > 1 {
      ScanAfterPoint(s[1..]);
    }
  }

  /** The unsigned part the matcher accepts splits into whole digits, an optional
      point and a non-empty run of fraction digits. */
  lemma {:induction false} ScanSplits(s: string) returns (whole: string, point: bool, fraction: string)
    requires ScanUnsigned(s, false)
    ensures AllDigits(whole) && AllDigits(fraction) && |fraction| >= 1 && (!point ==> whole == "")
    ensures s == whole + (if point then "." else "") + fraction
  {
    if |s| == 1 {
      whole, point, fraction := "", false, s;
    } else if IsDigit(s[0]) {
      var w, p, f := ScanSplits(s[1..]);
      if p {
        whole, point, fraction := [s[0]] + w, true, f;
        assert s == [s[0]] + s[1..];
      } else {
        whole, point, fraction := "", false, [s[0]] + f;
        assert s == [s[0]] + s[1..];
      }
    } else {
      ScanAfterPoint(s[1..]);
      whole, point, fraction := "", true, s[1..];
      assert s == [s[0]] + s[1..];
    }
  }

  /** Every text the matcher accepts belongs to the language. */
  lemma MatchedIsRendered(s: string) returns (n: Numeral)
    requires MatchesNumber(s)
    ensures WellFormed(n) && Render(n) == s
  {
    if |s| > 0 && IsSign(s[0]) {
      var w, p, f := ScanSplits(s[1..]);
      n := Numeral(s[..1], w, p, f);
      assert s == s[..1] + s[1..];
    } else {
      var w, p, f := ScanSplits(s);
      n := Numeral("", w, p, f);
    }
  }

  /** The accepted values are exactly: the empty value, a text of the language, and a
      text of the language followed by one newline. */
  lemma ValidateIff(value: string)
    ensures ValidateNumeric(value) <==>
      value == "" ||
      (exists n :: WellFormed(n) && Render(n) == value) ||
      (exists n :: WellFormed(n) && Render(n) + "\n" == value)
  {
    if MatchesNumber(value) {
      var n := MatchedIsRendered(value);
    }
    if |value| > 0 && value[|value| - 1] == '\n' && MatchesNumber(value[..|value| - 1]) {
      var n := MatchedIsRendered(value[..|value| - 1]);
      assert Render(n) + "\n" == value;
    }
    forall n | WellFormed(n) && Render(n) == value
      ensures ValidateNumeric(value)
    {
      RenderedMatches(n);
    }
    forall n | WellFormed(n) && Render(n) + "\n" == value
      ensures ValidateNumeric(value)
    {
      RenderedMatches(n);
      assert value[..|value| - 1] == Render(n);
    }
  }

  /** A text of the language ends in a digit, has no sign past its first character
      and at most one point. */
  lemma RenderedShape(n: Numeral)
    requires WellFormed(n)
    ensures var s := Render(n);
      |s| >= 1 && IsDigit(s[|s| - 1]) &&
      (forall i :: 0 < i < |s| ==> !IsSign(s[i])) &&
      (forall i, j :: 0 <= i < j < |s| && s[i] == '.' ==> s[j] != '.')
  {
    var s := Render(n);
    RenderAt(n, |s| - 1);
    forall i | 0 < i < |s|
      ensures !IsSign(s[i])
    {
      RenderAt(n, i);
    }
    forall i, j | 0 <= i < j < |s| && s[i] == '.'
      ensures s[j] != '.'
    {
      RenderAt(n, i);
      RenderAt(n, j);
    }
  }

  /** Past the sign, each character of a text of the language is a digit, or the
      point, which sits right after the whole digits and before at least one more
      character. */
  lemma RenderAt(n: Numeral, i: int)
    requires WellFormed(n) && 0 <= i < |Render(n)|
    ensures var s, p := Render(n), |n.sign| + |n.whole|;
      |s| > p + 1 - (if n.point then 0 else 1) &&
      (i < |n.sign| ==> s[i] == n.sign[i] && i == 0) &&
      (i >= |n.sign| ==> IsDigit(s[i]) || (s[i] == '.' && n.point && i == p && i < |s| - 1))
  {
    var a := n.sign + n.whole;
    var b := a + (if n.point then "." else "");
    var s := Render(n);
    assert s == b + n.fraction;
    if i < |n.sign| {
      assert s[i] == a[i] == n.sign[i];
    } else if i < |a| {
      assert s[i] == a[i] == n.whole[i - |n.sign|];
    } else if i < |b| {
      assert s[i] == b[i] == '.';
    } else {
      assert s[i] == n.fraction[i - |b|];
    }
  }

  /** A value is refused when it ends in a point or a sign, or holds a second point or
      a sign past its first character ("-", "+", ".", "5.", "1..2", "1-2"). */
  lemma Refusals(value: string)
    requires value != "" && value[|value| - 1] != '\n'
    requires !IsDigit(value[|value| - 1]) ||
      (exists i, j :: 0 <= i < j < |value| && value[i] == '.' && value[j] == '.') ||
      (exists i :: 0 < i < |value| && IsSign(value[i]))
    ensures !ValidateNumeric(value)
  {
    if MatchesNumber(value) {
      var n := MatchedIsRendered(value);
      RenderedShape(n);
    }
  }

  /** Tk's key validation: the text a keystroke would produce replaces the field only
      when the validator accepts it; otherwise the field keeps its text. */
  function Keystroke(field: string, proposed: string): (r: string)
    ensures ValidateNumeric(field) ==> ValidateNumeric(r)
    ensures ValidateNumeric(proposed) ==> r == proposed
    ensures !ValidateNumeric(proposed) ==> r == field
  {
    if ValidateNumeric(proposed) then proposed else field
  }

  /** Typing a lone sign into an empty field, or a point after a digit, is refused. */
  lemma PartialNumbersRefused()
    ensures Keystroke("", "-") == "" && Keystroke("2", "2.") == "2"
    ensures Keystroke("", "5") == "5" && Keystroke("-5", "-5.1") == "-5.1"
  {
    assert "-"[0] == '-' && "2."[1] == '.';
    Refusals("-");
    Refusals("2.");
    RenderedMatches(Numeral("", "", false, "5"));
    assert Render(Numeral("", "", false, "5")) == "5";
    RenderedMatches(Numeral("-", "5", true, "1"));
    assert Render(Numeral("-", "5", true, "1")) == "-5.1";
  }
}
