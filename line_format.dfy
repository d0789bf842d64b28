/**
 * The grammar of one definition line, `LINE_RE` of src/domain/rectParser.ts:
 * an optional `*`, then six fields separated by commas, each field matching
 * `[+-]?\d+(\.\d*)?`, and nothing else. The grammar is given twice: as a
 * character-by-character recogniser (an automaton per field, the line split at
 * commas) and as a declarative predicate; the two are proved to agree. Also
 * here: the exact value of a field and `parseFloat`'s overflow and underflow.
 */
module LineFormat {
  import opened Wrappers
  import opened Rect
  import opened JsText

  predicate IsDigit(c: char) {
    '0' <= c <= '9'
  }

  predicate AllDigits(s: string) {
    forall i :: 0 <= i < |s| ==> IsDigit(s[i])
  }

  predicate IsSignChar(c: char) {
    c == '+' || c == '-'
  }

  /** The characters a field can contain at all. */
  predicate IsFieldChar(c: char) {
    IsSignChar(c) || IsDigit(c) || c == '.'
  }

  // ---------------------------------------------------------------------------
  // One field, recognised character by character

  /**
   * States of the automaton for `[+-]?\d+(\.\d*)?`: nothing read, a sign read,
   * inside the integer digits, just after the point, inside the fraction digits.
   */
  datatype FieldState = Start | Signed | Whole | Point | Fraction

  function Step(st: FieldState, c: char): Option<FieldState> {
    match st
    case Start => if IsSignChar(c) then Some(Signed) else if IsDigit(c) then Some(Whole) else None
    case Signed => if IsDigit(c) then Some(Whole) else None
    case Whole => if IsDigit(c) then Some(Whole) else if c == '.' then Some(Point) else None
    case Point => if IsDigit(c) then Some(Fraction) else None
    case Fraction => if IsDigit(c) then Some(Fraction) else None
  }

  predicate Accepting(st: FieldState) {
    st.Whole? || st.Point? || st.Fraction?
  }

  /** The state after reading all of `t` from `st`, or None once a character is refused. */
  function Run(st: FieldState, t: string): Option<FieldState>
    decreases |t|
  {
    if t == [] then Some(st)
    else match Step(st, t[0])
      case None => None
      case Some(next) => Run(next, t[1..])
  }

  /** The recogniser for one field: the automaton ends in an accepting state. */
  predicate IsNumberLiteral(t: string) {
    var e := Run(Start, t);
    e.Some? && Accepting(e.value)
  }

  // ---------------------------------------------------------------------------
  // One field, declaratively: sign, integer digits, optional fraction

  predicate IsSign(s: string) {
    s == "" || s == "+" || s == "-"
  }

  /** Empty, or a point followed by any number (possibly zero) of digits. */
  predicate IsFractionPart(f: string) {
    f == "" || (f[0] == '.' && AllDigits(f[1..]))
  }

  predicate NumberShape(sign: string, whole: string, frac: string) {
    IsSign(sign) && |whole| > 0 && AllDigits(whole) && IsFractionPart(frac)
  }

  /** Index of the first `.` in `t`, or |t| when there is none. */
  function DotIndex(t: string): (d: nat)
    ensures d <= |t|
    ensures forall i :: 0 <= i < d ==> t[i] != '.'
    ensures d < |t| ==> t[d] == '.'
    decreases |t|
  {
    if t == [] then 0 else if t[0] == '.' then 0 else 1 + DotIndex(t[1..])
  }

  function SignPart(t: string): string {
    if |t| > 0 && IsSignChar(t[0]) then t[..1] else ""
  }

  function Unsigned(t: string): string {
    t[|SignPart(t)|..]
  }

  function WholePart(t: string): string {
    var u := Unsigned(t);
    u[..DotIndex(u)]
  }

  function FractionPart(t: string): string {
    var u := Unsigned(t);
    u[DotIndex(u)..]
  }

  lemma PartsCover(t: string)
    ensures SignPart(t) + WholePart(t) + FractionPart(t) == t
  {
    var u := Unsigned(t);
    assert u[..DotIndex(u)] + u[DotIndex(u)..] == u;
  }

  lemma {:induction false} RunAppend(st: FieldState, a: string, b: string)
    requires Run(st, a).Some?
    ensures Run(st, a + b) == Run(Run(st, a).value, b)
    decreases |a|
  {
    if a != [] {
      var next := Step(st, a[0]).value;
      assert (a + b)[0] == a[0];
      assert (a + b)[1..] == a[1..] + b;
      assert Run(st, a + b) == Run(next, a[1..] + b);
      RunAppend(next, a[1..], b);
    } else {
      assert a + b == b;
    }
  }

  lemma {:induction false} RunDigits(st: FieldState, ds: string)
    requires st == Whole || st == Fraction
    requires AllDigits(ds)
    ensures Run(st, ds) == Some(st)
    decreases |ds|
  {
    if ds != [] {
      RunDigits(st, ds[1..]);
    }
  }

  lemma {:induction false} RunFromFraction(t: string)
    requires Run(Fraction, t).Some?
    ensures AllDigits(t)
    decreases |t|
  {
    if t != [] {
      RunFromFraction(t[1..]);
    }
  }

  lemma RunFromPoint(t: string)
    requires Run(Point, t).Some?
    ensures AllDigits(t)
  {
    if t != [] {
      RunFromFraction(t[1..]);
    }
  }

  /** From inside the integer digits, the automaton sees digits up to the first point and a fraction part after it. */
  lemma {:induction false} RunFromWhole(t: string)
    requires Run(Whole, t).Some?
    ensures AllDigits(t[..DotIndex(t)]) && IsFractionPart(t[DotIndex(t)..])
    decreases |t|
  {
    if t != [] {
      if t[0] == '.' {
        RunFromPoint(t[1..]);
      } else {
        RunFromWhole(t[1..]);
        assert t[..DotIndex(t)] == [t[0]] + t[1..][..DotIndex(t[1..])];
        assert t[DotIndex(t)..] == t[1..][DotIndex(t[1..])..];
      }
    }
  }

  /** Soundness of the recogniser: an accepted field has the declared shape. */
  lemma NumberLiteralSound(t: string)
    requires IsNumberLiteral(t)
    ensures NumberShape(SignPart(t), WholePart(t), FractionPart(t))
    ensures SignPart(t) + WholePart(t) + FractionPart(t) == t
  {
    PartsCover(t);
    assert t != [];
    var u := Unsigned(t);
    if IsSignChar(t[0]) {
      assert u == t[1..];
      assert Run(Start, t) == Run(Signed, u);
      assert u != [];
    } else {
      assert u == t;
    }
    assert IsDigit(u[0]) && Run(Whole, u[1..]) == Run(Whole, u);
    RunFromWhole(u);
  }

  /** Completeness of the recogniser: every field of the declared shape is accepted. */
  lemma NumberLiteralComplete(sign: string, whole: string, frac: string)
    requires NumberShape(sign, whole, frac)
    ensures IsNumberLiteral(sign + whole + frac)
  {
    var t := sign + whole + frac;
    if sign == "" {
      assert Run(Start, sign) == Some(Start);
    } else {
      assert Run(Start, sign) == Run(Signed, "");
    }
    var st := Run(Start, sign).value;
    assert st == Start || st == Signed;
    RunAppend(Start, sign, whole + frac);
    assert t == sign + (whole + frac);
    assert (whole + frac)[0] == whole[0];
    assert (whole + frac)[1..] == whole[1..] + frac;
    RunDigits(Whole, whole[1..]);
    RunAppend(Whole, whole[1..], frac);
    assert Run(Start, t) == Run(Whole, frac);
    if frac != "" {
      var ds := frac[1..];
      if ds != [] {
        RunDigits(Fraction, ds[1..]);
      }
    }
  }

  lemma DotIndexAfterWhole(whole: string, frac: string)
    requires AllDigits(whole) && IsFractionPart(frac)
    ensures DotIndex(whole + frac) == |whole|
    decreases |whole|
  {
    if whole != [] {
      assert (whole + frac)[1..] == whole[1..] + frac;
      DotIndexAfterWhole(whole[1..], frac);
    }
  }

  /** The split of a field into sign, integer digits and fraction is the only one. */
  lemma NumberPartsUnique(sign: string, whole: string, frac: string)
    requires NumberShape(sign, whole, frac)
    ensures var t := sign + whole + frac;
      SignPart(t) == sign && WholePart(t) == whole && FractionPart(t) == frac
  {
    var t := sign + whole + frac;
    if sign == "" {
      assert t[0] == whole[0];
    } else {
      assert t[0] == sign[0];
    }
    assert Unsigned(t) == whole + frac;
    DotIndexAfterWhole(whole, frac);
  }

  /** Every character of an accepted field is a sign, a digit or the point. */
  lemma {:induction false} RunAlphabet(st: FieldState, t: string)
    requires Run(st, t).Some?
    ensures forall i :: 0 <= i < |t| ==> IsFieldChar(t[i])
    decreases |t|
  {
    if t != [] {
      RunAlphabet(Step(st, t[0]).value, t[1..]);
      assert forall i :: 1 <= i < |t| ==> t[i] == t[1..][i - 1];
    }
  }

  // ---------------------------------------------------------------------------
  // The value of a field

  /** The value of a digit character; only applied to digits. */
  function DigitValue(c: char): int {
    (c as int) - ('0' as int)
  }

  predicate IsNonzeroDigit(c: char) {
    '1' <= c <= '9'
  }

  predicate HasNonzeroDigit(s: string) {
    exists i :: 0 <= i < |s| && IsNonzeroDigit(s[i])
  }

  lemma HasNonzeroDigitCons(s: string)
    requires s != []
    ensures HasNonzeroDigit(s) <==> IsNonzeroDigit(s[0]) || HasNonzeroDigit(s[1..])
  {
    if HasNonzeroDigit(s[1..]) {
      var i :| 0 <= i < |s[1..]| && IsNonzeroDigit(s[1..][i]);
      assert s[i + 1] == s[1..][i];
    }
    if HasNonzeroDigit(s) && !IsNonzeroDigit(s[0]) {
      var i :| 0 <= i < |s| && IsNonzeroDigit(s[i]);
      assert s[1..][i - 1] == s[i];
    }
  }

  /** Fraction digits d1 d2 ... read as 0.d1d2...; each step divides by ten. */
  function FractionDigitsValue(ds: string): real
    decreases |ds|
  {
    if ds == [] then 0.0 else (DigitValue(ds[0]) as real + FractionDigitsValue(ds[1..])) / 10.0
  }

  /** Fraction digits stand for a number in [0, 1), positive exactly when one of them is not 0. */
  lemma {:induction false} FractionDigitsValuePositive(ds: string)
    requires AllDigits(ds)
    ensures 0.0 <= FractionDigitsValue(ds) < 1.0
    ensures FractionDigitsValue(ds) > 0.0 <==> HasNonzeroDigit(ds)
    decreases |ds|
  {
    if ds != [] {
      FractionDigitsValuePositive(ds[1..]);
      HasNonzeroDigitCons(ds);
      assert 0 <= DigitValue(ds[0]) <= 9;
    }
  }

  /**
   * The value of an unsigned field read from the left: `acc` holds the
   * integer digits read so far; at the point, the fraction digits follow.
   */
  function UnsignedValue(u: string, acc: int): real
    decreases |u|
  {
    if u == [] then acc as real
    else if u[0] == '.' then acc as real + FractionDigitsValue(u[1..])
    else UnsignedValue(u[1..], 10 * acc + DigitValue(u[0]))
  }

  /** The exact rational value of a field: its sign applied to the value of the rest. */
  function LiteralValue(t: string): real {
    if |t| > 0 && t[0] == '-' then -UnsignedValue(t[1..], 0)
    else if |t| > 0 && t[0] == '+' then UnsignedValue(t[1..], 0)
    else UnsignedValue(t, 0)
  }

  /**
   * From inside the integer digits, the value read is never negative, and it
   * is positive exactly when the digits before it or some digit still to
   * come is not 0.
   */
  lemma {:induction false} UnsignedValuePositive(u: string, acc: int)
    requires acc >= 0 && Run(Whole, u).Some?
    ensures UnsignedValue(u, acc) >= 0.0
    ensures UnsignedValue(u, acc) > 0.0 <==> acc > 0 || HasNonzeroDigit(u)
    decreases |u|
  {
    if u != [] {
      HasNonzeroDigitCons(u);
      if u[0] == '.' {
        RunFromPoint(u[1..]);
        FractionDigitsValuePositive(u[1..]);
      } else {
        assert IsDigit(u[0]);
        UnsignedValuePositive(u[1..], 10 * acc + DigitValue(u[0]));
      }
    }
  }

  /** A field is positive exactly when it has no minus sign and some digit other than 0. */
  lemma LiteralPositive(t: string)
    requires IsNumberLiteral(t)
    ensures LiteralValue(t) > 0.0 <==> !StartsWith(t, "-") && HasNonzeroDigit(t)
  {
    HasNonzeroDigitCons(t);
    if IsSignChar(t[0]) {
      var u := t[1..];
      assert Run(Start, t) == Run(Signed, u);
      assert u != [] && IsDigit(u[0]);
      assert Run(Whole, u) == Run(Whole, u[1..]);
      UnsignedValuePositive(u, 0);
      assert StartsWith(t, "-") <==> t[0] == '-';
    } else {
      assert IsDigit(t[0]);
      assert Run(Whole, t) == Run(Whole, t[1..]);
      UnsignedValuePositive(t, 0);
    }
  }

  /** Reading a trailing point adds nothing to the integer digits read before it. */
  lemma {:induction false} UnsignedValueTrailingPoint(w: string, acc: int)
    requires AllDigits(w)
    ensures UnsignedValue(w + ".", acc) == UnsignedValue(w, acc)
    decreases |w|
  {
    if w != [] {
      assert (w + ".")[1..] == w[1..] + ".";
      UnsignedValueTrailingPoint(w[1..], 10 * acc + DigitValue(w[0]));
    } else {
      assert w + "." == ".";
    }
  }

  // ---------------------------------------------------------------------------
  // parseFloat on an accepted field

  /**
   * 2^1024 - 2^970: the least magnitude that round-to-nearest-even takes to an
   * infinity in IEEE 754 double precision.
   */
  const OverflowThreshold: real := 179769313486231580793728971405303415079934132710037826936173778980444968292764750946649017977587207096330286416692887910946555547851940402630657488671505820681908902000708383676273854845817711531764475730270069855571366959622842914819860834936475292719074168444365510704342711559699508093042880177904174497792.0

  /** 2^-1075: magnitudes up to this one round to zero in IEEE 754 double precision. */
  const UnderflowThreshold: real := 1.0 / 404804506614621236704990693437834614099113299528284236713802716054860679135990693783920767402874248990374155728633623822779617474771586953734026799881477019843034848553132722728933815484186432682479535356945490137124014966849385397236206711298319112681620113024717539104666829230461005064372655017292012526615415482186989568.0

  /**
   * `parseFloat` of an accepted field. Rounding to the nearest double is not
   * modelled, only its two effects on the parser's checks: too large a
   * magnitude becomes an infinity, too small a one becomes zero.
   */
  function ParseFloat(t: string): Num
    requires IsNumberLiteral(t)
  {
    var v := LiteralValue(t);
    if v >= OverflowThreshold then PosInfinity
    else if v <= -OverflowThreshold then NegInfinity
    else if -UnderflowThreshold <= v <= UnderflowThreshold then Finite(0.0)
    else Finite(v)
  }

  /**
   * What `parseFloat` keeps of a field: never NaN; finite exactly below the
   * overflow threshold; a finite result is positive exactly when the exact value
   * is above the underflow threshold, and then it is the exact value.
   */
  lemma ParseFloatFaithful(t: string)
    requires IsNumberLiteral(t)
    ensures ParseFloat(t) != NaN
    ensures IsFiniteNumber(ParseFloat(t)) <==> -OverflowThreshold < LiteralValue(t) < OverflowThreshold
    ensures ParseFloat(t).Finite? ==> (ParseFloat(t).value > 0.0 <==> LiteralValue(t) > UnderflowThreshold)
    ensures ParseFloat(t).Finite? && ParseFloat(t).value != 0.0 ==> ParseFloat(t).value == LiteralValue(t)
  {
  }

  // ---------------------------------------------------------------------------
  // The whole line

  /** What a successful match captures: the `*` flag and the six fields in order. */
  datatype LineMatch = LineMatch(star: bool, fields: seq<string>)

  function StarPrefix(star: bool): string {
    if star then "*" else ""
  }

  /** The declarative reading of `LINE_RE`. */
  ghost predicate LineGrammar(line: string, star: bool, fields: seq<string>) {
    && |fields| == 6
    && (forall i :: 0 <= i < 6 ==> IsNumberLiteral(fields[i]))
    && line == StarPrefix(star) + JoinWith(fields, ',')
  }

  /**
   * The recogniser for a (trimmed) line: take a leading `*` off, cut the rest
   * at commas, and accept when there are six pieces that are all fields.
   */
  function MatchLine(line: string): (r: Option<LineMatch>)
    ensures r.Some? ==> |r.value.fields| == 6
    ensures r.Some? ==> forall i :: 0 <= i < 6 ==> IsNumberLiteral(r.value.fields[i])
    ensures r.Some? ==> (r.value.star <==> StartsWith(line, "*"))
  {
    var star := |line| > 0 && line[0] == '*';
    var fields := SplitOn(if star then line[1..] else line, ',');
    if |fields| == 6 && forall i :: 0 <= i < 6 ==> IsNumberLiteral(fields[i])
    then Some(LineMatch(star, fields))
    else None
  }

  /** Soundness: a recognised line is the `*` flag followed by its six fields joined by commas. */
  lemma MatchLineSound(line: string)
    requires MatchLine(line).Some?
    ensures LineGrammar(line, MatchLine(line).value.star, MatchLine(line).value.fields)
  {
    var m := MatchLine(line).value;
    var body := if m.star then line[1..] else line;
    JoinSplitOn(body, ',');
    if m.star {
      assert line == "*" + line[1..];
    }
  }

  /**
   * Completeness: every line the grammar describes is recognised, and the
   * captures are exactly the flag and fields it was built from.
   */
  lemma MatchLineComplete(line: string, star: bool, fields: seq<string>)
    requires LineGrammar(line, star, fields)
    ensures MatchLine(line) == Some(LineMatch(star, fields))
  {
    forall k | 0 <= k < |fields|
      ensures ',' !in fields[k] && fields[k] != []
    {
      RunAlphabet(Start, fields[k]);
    }
    var body := JoinWith(fields, ',');
    assert body == fields[0] + [','] + JoinWith(fields[1..], ',');
    assert body[0] == fields[0][0];
    assert Step(Start, fields[0][0]).Some?;
    if star {
      assert line[1..] == body;
    } else {
      assert line == body;
    }
    SplitOnJoin(fields, ',');
  }

  /** A recognised line has exactly five commas: five fields (or seven) are a format error. */
  lemma MatchLineCommas(line: string)
    requires MatchLine(line).Some?
    ensures Count(line, ',') == 5
  {
    var m := MatchLine(line).value;
    SplitOnCount(if m.star then line[1..] else line, ',');
  }

  lemma {:induction false} JoinWithChars(parts: seq<string>, sep: char, i: nat)
    requires i < |JoinWith(parts, sep)|
    ensures JoinWith(parts, sep)[i] == sep || exists k :: 0 <= k < |parts| && JoinWith(parts, sep)[i] in parts[k]
    decreases |parts|
  {
    if |parts| == 1 {
      assert JoinWith(parts, sep)[i] in parts[0];
    } else {
      var j := JoinWith(parts, sep);
      if i < |parts[0]| {
        assert j[i] in parts[0];
      } else if i > |parts[0]| {
        JoinWithChars(parts[1..], sep, i - |parts[0]| - 1);
        assert j[i] == JoinWith(parts[1..], sep)[i - |parts[0]| - 1];
      }
    }
  }

  /**
   * A recognised line holds nothing but `*`, commas, signs, digits and points:
   * a space inside the line, an exponent or any other character is a format error.
   */
  lemma MatchedLineAlphabet(line: string, i: nat)
    requires MatchLine(line).Some? && i < |line|
    ensures line[i] == '*' || line[i] == ',' || IsFieldChar(line[i])
  {
    var m := MatchLine(line).value;
    MatchLineSound(line);
    var body := JoinWith(m.fields, ',');
    var off := |StarPrefix(m.star)|;
    if i >= off {
      assert line[i] == body[i - off];
      JoinWithChars(m.fields, ',', i - off);
      if body[i - off] != ',' {
        var k :| 0 <= k < |m.fields| && body[i - off] in m.fields[k];
        RunAlphabet(Start, m.fields[k]);
      }
    }
  }

  /** A field cannot start with the point: `.5` is refused. */
  lemma LeadingPointRefused(t: string)
    requires |t| > 0 && t[0] == '.'
    ensures !IsNumberLiteral(t)
  {
  }

  /** A field may end with the point: `1.` is accepted and has the value of `1`. */
  lemma TrailingPointAccepted(whole: string)
    requires |whole| > 0 && AllDigits(whole)
    ensures IsNumberLiteral(whole + ".")
    ensures LiteralValue(whole + ".") == LiteralValue(whole)
  {
    var t := whole + ".";
    assert t == "" + whole + ".";
    NumberLiteralComplete("", whole, ".");
    assert t[0] == whole[0];
    UnsignedValueTrailingPoint(whole, 0);
  }

  /** An exponent is not part of the grammar: `1e5` is refused. */
  lemma ExponentRefused()
    ensures !IsNumberLiteral("1e5") && !IsNumberLiteral("1E5")
  {
  }
}
