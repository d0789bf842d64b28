/**
 * `parseRectInfo` of src/domain/rectParser.ts: split the text into lines,
 * skip blank and comment lines, and turn every other line into either a
 * rectangle record or exactly one error, checking the grammar, then
 * finiteness, then positive size, and reporting only the first failure.
 */
module RectParser {
  import opened Wrappers
  import opened Rect
  import opened JsText
  import opened LineFormat

  const FormatMessage := "Invalid format. Expect: *?lx,ly,lz,x,y,z"
  const NonFiniteMessage := "Non-finite number detected."
  const SizeMessage := "lx,ly,lz must be > 0."

  /** The status the parser gives a record: the cursor line wins over the `*` flag. */
  datatype RectStatus = Normal | Highlighted | Working

  /**
   * The record the parser builds. It carries `status` where the declared
   * RectDefinition type of src/domain/rect.ts has `highlighted`.
   */
  datatype ParsedRect = ParsedRect(size: Size3, pos: Vec3, status: RectStatus, rawLine: string)

  datatype RectParseResult = RectParseResult(rects: seq<ParsedRect>, errors: seq<ParseError>)

  /** What one line contributes: nothing, one error, or one record. */
  datatype LineOutcome = Skipped | Rejected(error: ParseError) | Accepted(rect: ParsedRect)

  predicate IsComment(line: string) {
    StartsWith(line, "#") || StartsWith(line, "//")
  }

  /** A trimmed line that produces neither a record nor an error. */
  predicate IsIgnored(line: string) {
    line == "" || IsComment(line)
  }

  /** The six fields as `parseFloat` reads them, in the order lx, ly, lz, x, y, z. */
  function FieldValues(fields: seq<string>): seq<Num>
    requires |fields| == 6 && forall i :: 0 <= i < 6 ==> IsNumberLiteral(fields[i])
  {
    [ParseFloat(fields[0]), ParseFloat(fields[1]), ParseFloat(fields[2]),
     ParseFloat(fields[3]), ParseFloat(fields[4]), ParseFloat(fields[5])]
  }

  /** `nums.every(isFiniteNumber)`. */
  predicate AllFinite(nums: seq<Num>) {
    forall i :: 0 <= i < |nums| ==> IsFiniteNumber(nums[i])
  }

  predicate PositiveSize(size: Size3) {
    size.lx > 0.0 && size.ly > 0.0 && size.lz > 0.0
  }

  function StatusOf(cursorLine: Option<int>, lineNo: nat, highlighted: bool): RectStatus {
    if cursorLine == Some(lineNo as int) then Working
    else if highlighted then Highlighted
    else Normal
  }

  /**
   * One iteration of the parser's loop, for the untrimmed line `raw` numbered
   * `lineNo` (1-based). The checks run in a fixed order and the first failing
   * one decides the error.
   */
  function ParseLine(raw: string, lineNo: nat, cursorLine: Option<int>): (o: LineOutcome)
    ensures o.Skipped? <==> IsIgnored(Trim(raw))
    ensures o.Rejected? ==> o.error.line == lineNo && o.error.raw == raw
    ensures o.Accepted? ==> o.rect.rawLine == raw && PositiveSize(o.rect.size)
  {
    var line := Trim(raw);
    if IsIgnored(line) then Skipped
    else match MatchLine(line)
      case None => Rejected(ParseError(lineNo, FormatMessage, raw))
      case Some(m) =>
        var v := FieldValues(m.fields);
        if !AllFinite(v) then Rejected(ParseError(lineNo, NonFiniteMessage, raw))
        else if v[0].value <= 0.0 || v[1].value <= 0.0 || v[2].value <= 0.0 then
          Rejected(ParseError(lineNo, SizeMessage, raw))
        else
          Accepted(ParsedRect(Size3(v[0].value, v[1].value, v[2].value),
                              Vec3(v[3].value, v[4].value, v[5].value),
                              StatusOf(cursorLine, lineNo, m.star), raw))
  }

  /**
   * The checks of one line, in their order: grammar, then finiteness of all
   * six numbers, then positive size; a line that passes all three becomes a
   * record built from the six fields in the order lx, ly, lz, x, y, z, whose
   * status is Working on the cursor line, else Highlighted when the trimmed
   * line starts with `*`, else Normal.
   */
  lemma ChecksInOrder(raw: string, lineNo: nat, cursorLine: Option<int>)
    requires !IsIgnored(Trim(raw))
    ensures var o := ParseLine(raw, lineNo, cursorLine);
      var m := MatchLine(Trim(raw));
      && (m.None? ==> o == Rejected(ParseError(lineNo, FormatMessage, raw)))
      && (m.Some? ==>
            var v := FieldValues(m.value.fields);
            && (!AllFinite(v) ==> o == Rejected(ParseError(lineNo, NonFiniteMessage, raw)))
            && (AllFinite(v) && !PositiveSize(Size3(v[0].value, v[1].value, v[2].value)) ==>
                  o == Rejected(ParseError(lineNo, SizeMessage, raw)))
            && (AllFinite(v) && PositiveSize(Size3(v[0].value, v[1].value, v[2].value)) ==>
                  && o.Accepted?
                  && o.rect.size == Size3(v[0].value, v[1].value, v[2].value)
                  && o.rect.pos == Vec3(v[3].value, v[4].value, v[5].value)
                  && (o.rect.status == Working <==> cursorLine == Some(lineNo as int))
                  && (o.rect.status == Highlighted <==>
                        (cursorLine != Some(lineNo as int) && StartsWith(Trim(raw), "*")))))
  {
  }

  /** Appends what one line contributes to the lists built so far. */
  function AddOutcome(r: RectParseResult, o: LineOutcome): RectParseResult {
    match o
    case Skipped => r
    case Rejected(e) => r.(errors := r.errors + [e])
    case Accepted(rect) => r.(rects := r.rects + [rect])
  }

  /**
   * What the lines contribute, in order, the line at index i being numbered
   * i + 1. Built from the last line backwards, the way the loop grows it.
   */
  function Outcomes(lines: seq<string>, cursorLine: Option<int>): (os: seq<LineOutcome>)
    ensures |os| == |lines|
    decreases |lines|
  {
    if lines == [] then []
    else Outcomes(lines[..|lines| - 1], cursorLine) + [ParseLine(lines[|lines| - 1], |lines|, cursorLine)]
  }

  /** The outcome of line n (1-based) is what that line parses to. */
  lemma {:induction false} OutcomeAt(lines: seq<string>, cursorLine: Option<int>, n: nat)
    requires 1 <= n <= |lines|
    ensures Outcomes(lines, cursorLine)[n - 1] == ParseLine(lines[n - 1], n, cursorLine)
    decreases |lines|
  {
    var init := lines[..|lines| - 1];
    if n < |lines| {
      OutcomeAt(init, cursorLine, n);
      assert init[n - 1] == lines[n - 1];
    }
  }

  /** One more line adds its own outcome at the end. */
  lemma OutcomesSnoc(lines: seq<string>, raw: string, cursorLine: Option<int>, n: nat)
    requires n == |lines| + 1
    ensures Outcomes(lines + [raw], cursorLine) == Outcomes(lines, cursorLine) + [ParseLine(raw, n, cursorLine)]
  {
    assert (lines + [raw])[..|lines|] == lines;
  }

  /** The two lists the loop builds from a sequence of line outcomes. */
  function Collect(os: seq<LineOutcome>): RectParseResult
    decreases |os|
  {
    if os == [] then RectParseResult([], [])
    else AddOutcome(Collect(os[..|os| - 1]), os[|os| - 1])
  }

  /** The parse of `lines`. */
  function ParseLines(lines: seq<string>, cursorLine: Option<int>): RectParseResult {
    Collect(Outcomes(lines, cursorLine))
  }

  /** The specification of `parseRectInfo(text, cursorLine)`. */
  function ParseText(text: string, cursorLine: Option<int>): RectParseResult {
    ParseLines(SplitLines(text), cursorLine)
  }

  /**
   * The body of the parser's loop for one line: the checks in the order the
   * source runs them, each failing check ending the iteration.
   */
  method CheckLine(raw: string, lineNo: nat, cursorLine: Option<int>) returns (outcome: LineOutcome)
    ensures outcome == ParseLine(raw, lineNo, cursorLine)
  {
    var line := Trim(raw);
    if line == "" {
      return Skipped;
    }
    if StartsWith(line, "#") || StartsWith(line, "//") {
      return Skipped;
    }

    var m := MatchLine(line);
    if m.None? {
      return Rejected(ParseError(lineNo, FormatMessage, raw));
    }

    var highlighted := m.value.star;
    var lx := ParseFloat(m.value.fields[0]);
    var ly := ParseFloat(m.value.fields[1]);
    var lz := ParseFloat(m.value.fields[2]);
    var x := ParseFloat(m.value.fields[3]);
    var y := ParseFloat(m.value.fields[4]);
    var z := ParseFloat(m.value.fields[5]);

    var nums := [lx, ly, lz, x, y, z];
    assert nums == FieldValues(m.value.fields);
    if !AllFinite(nums) {
      return Rejected(ParseError(lineNo, NonFiniteMessage, raw));
    }
    assert lx == nums[0] && ly == nums[1] && lz == nums[2] && x == nums[3] && y == nums[4] && z == nums[5];
    if lx.value <= 0.0 || ly.value <= 0.0 || lz.value <= 0.0 {
      return Rejected(ParseError(lineNo, SizeMessage, raw));
    }

    var status: RectStatus;
    if cursorLine.Some? && lineNo == cursorLine.value {
      status := Working;
    } else if highlighted {
      status := Highlighted;
    } else {
      status := Normal;
    }
    return Accepted(ParsedRect(Size3(lx.value, ly.value, lz.value), Vec3(x.value, y.value, z.value), status, raw));
  }

  /** The parser's loop, proved to compute ParseText. */
  method ParseRectInfo(text: string, cursorLine: Option<int>) returns (result: RectParseResult)
    ensures result == ParseText(text, cursorLine)
  {
    var rects: seq<ParsedRect> := [];
    var errors: seq<ParseError> := [];
    var lines := SplitLines(text);
    for i := 0 to |lines|
      invariant RectParseResult(rects, errors) == ParseLines(lines[..i], cursorLine)
    {
      assert lines[..i + 1] == lines[..i] + [lines[i]];
      OutcomesSnoc(lines[..i], lines[i], cursorLine, i + 1);
      ghost var before := Outcomes(lines[..i], cursorLine);
      var outcome := CheckLine(lines[i], i + 1, cursorLine);
      assert (before + [outcome])[..i] == before;
      match outcome {
        case Skipped =>
        case Rejected(e) => errors := errors + [e];
        case Accepted(r) => rects := rects + [r];
      }
    }
    assert lines[..|lines|] == lines;
    result := RectParseResult(rects, errors);
  }

  // ---------------------------------------------------------------------------
  // Properties of collecting line outcomes

  /** The 1-based positions of the rejected outcomes, in order. */
  function RejectedPositions(os: seq<LineOutcome>): (ps: seq<nat>)
    decreases |os|
  {
    if os == [] then []
    else RejectedPositions(os[..|os| - 1]) + (if os[|os| - 1].Rejected? then [|os|] else [])
  }

  /** The 1-based positions of the accepted outcomes, in order. */
  function AcceptedPositions(os: seq<LineOutcome>): (ps: seq<nat>)
    decreases |os|
  {
    if os == [] then []
    else AcceptedPositions(os[..|os| - 1]) + (if os[|os| - 1].Accepted? then [|os|] else [])
  }

  /**
   * The k-th error is the error of the k-th rejected outcome, and the k-th
   * record the record of the k-th accepted outcome; both position lists are
   * strictly increasing and within the outcomes.
   */
  lemma {:induction false} CollectTraceBack(os: seq<LineOutcome>)
    ensures var r := Collect(os);
      var es := RejectedPositions(os);
      var ap := AcceptedPositions(os);
      && |es| == |r.errors| && |ap| == |r.rects|
      && (forall k :: 0 <= k < |es| ==> 1 <= es[k] <= |os| && os[es[k] - 1] == Rejected(r.errors[k]))
      && (forall k :: 0 <= k < |ap| ==> 1 <= ap[k] <= |os| && os[ap[k] - 1] == Accepted(r.rects[k]))
      && (forall j, k :: 0 <= j < k < |es| ==> es[j] < es[k])
      && (forall j, k :: 0 <= j < k < |ap| ==> ap[j] < ap[k])
    decreases |os|
  {
    if os != [] {
      var init := os[..|os| - 1];
      CollectTraceBack(init);
      var es, ap := RejectedPositions(init), AcceptedPositions(init);
      forall k | 0 <= k < |es|
        ensures os[es[k] - 1] == init[es[k] - 1]
      {
      }
      forall k | 0 <= k < |ap|
        ensures os[ap[k] - 1] == init[ap[k] - 1]
      {
      }
    }
  }

  /** Every rejected outcome has its error in the list, and every accepted one its record. */
  lemma {:induction false} CollectComplete(os: seq<LineOutcome>, p: nat)
    requires 1 <= p <= |os|
    ensures os[p - 1].Rejected? ==> os[p - 1].error in Collect(os).errors && p in RejectedPositions(os)
    ensures os[p - 1].Accepted? ==> os[p - 1].rect in Collect(os).rects && p in AcceptedPositions(os)
    decreases |os|
  {
    var init := os[..|os| - 1];
    if p < |os| {
      assert init[p - 1] == os[p - 1];
      CollectComplete(init, p);
    }
  }

  /** The number of outcomes that are not Skipped. */
  function CountContributing(os: seq<LineOutcome>): nat
    decreases |os|
  {
    if os == [] then 0
    else CountContributing(os[..|os| - 1]) + (if os[|os| - 1].Skipped? then 0 else 1)
  }

  /** Every outcome that is not Skipped adds exactly one entry to one of the two lists. */
  lemma {:induction false} CollectCount(os: seq<LineOutcome>)
    ensures |Collect(os).rects| + |Collect(os).errors| == CountContributing(os)
    decreases |os|
  {
    if os != [] {
      CollectCount(os[..|os| - 1]);
    }
  }

  // ---------------------------------------------------------------------------
  // Properties of the whole parse

  /** The number of lines that are neither blank nor comments after trimming. */
  function CountContentLines(lines: seq<string>): nat
    decreases |lines|
  {
    if lines == [] then 0
    else CountContentLines(lines[..|lines| - 1]) + (if IsIgnored(Trim(lines[|lines| - 1])) then 0 else 1)
  }

  /** Every line that is not blank or a comment yields exactly one record or one error. */
  lemma {:induction false} ParseCount(lines: seq<string>, cursorLine: Option<int>)
    ensures var r := ParseLines(lines, cursorLine); |r.rects| + |r.errors| == CountContentLines(lines)
    decreases |lines|
  {
    CollectCount(Outcomes(lines, cursorLine));
    OutcomesCount(lines, cursorLine);
  }

  lemma {:induction false} OutcomesCount(lines: seq<string>, cursorLine: Option<int>)
    ensures CountContributing(Outcomes(lines, cursorLine)) == CountContentLines(lines)
    decreases |lines|
  {
    if lines != [] {
      var os := Outcomes(lines, cursorLine);
      var init := lines[..|lines| - 1];
      var last := ParseLine(lines[|lines| - 1], |lines|, cursorLine);
      OutcomesCount(init, cursorLine);
      assert os == Outcomes(init, cursorLine) + [last];
      assert os[..|os| - 1] == Outcomes(init, cursorLine);
      assert os[|os| - 1] == last;
    }
  }

  /**
   * Each error names its line: it holds the raw text of that line, which is
   * rejected with exactly this error.
   */
  lemma ErrorsTraceBack(lines: seq<string>, cursorLine: Option<int>)
    ensures var r := ParseLines(lines, cursorLine);
      forall k :: 0 <= k < |r.errors| ==>
        var n := r.errors[k].line;
        1 <= n <= |lines| && r.errors[k].raw == lines[n - 1]
        && ParseLine(lines[n - 1], n, cursorLine) == Rejected(r.errors[k])
  {
    var os := Outcomes(lines, cursorLine);
    var r := Collect(os);
    var es := RejectedPositions(os);
    CollectTraceBack(os);
    forall k | 0 <= k < |r.errors|
      ensures var n := r.errors[k].line;
        1 <= n <= |lines| && r.errors[k].raw == lines[n - 1]
        && ParseLine(lines[n - 1], n, cursorLine) == Rejected(r.errors[k])
    {
      var e := r.errors[k];
      var n := es[k];
      OutcomeAt(lines, cursorLine, n);
      assert ParseLine(lines[n - 1], n, cursorLine) == Rejected(e);
      assert e.line == n;
    }
  }

  /** The errors are reported in the order of their lines, each line at most once. */
  lemma ErrorLinesIncrease(lines: seq<string>, cursorLine: Option<int>)
    ensures var r := ParseLines(lines, cursorLine);
      forall j, k :: 0 <= j < k < |r.errors| ==> r.errors[j].line < r.errors[k].line
  {
    var os := Outcomes(lines, cursorLine);
    var r := Collect(os);
    var es := RejectedPositions(os);
    CollectTraceBack(os);
    forall k | 0 <= k < |r.errors|
      ensures r.errors[k].line == es[k]
    {
      OutcomeAt(lines, cursorLine, es[k]);
    }
  }

  /** Every rejected line has its error in the list. */
  lemma RejectedLinesReported(lines: seq<string>, cursorLine: Option<int>, n: nat)
    requires 1 <= n <= |lines| && ParseLine(lines[n - 1], n, cursorLine).Rejected?
    ensures ParseLine(lines[n - 1], n, cursorLine).error in ParseLines(lines, cursorLine).errors
  {
    var os := Outcomes(lines, cursorLine);
    OutcomeAt(lines, cursorLine, n);
    var o := os[n - 1];
    assert o == ParseLine(lines[n - 1], n, cursorLine);
    CollectComplete(os, n);
    assert o.error in Collect(os).errors;
  }

  /** The 1-based numbers of the accepted lines, in order. */
  function AcceptedLineNumbers(lines: seq<string>, cursorLine: Option<int>): seq<nat> {
    AcceptedPositions(Outcomes(lines, cursorLine))
  }

  /**
   * The k-th record comes from the k-th accepted line: the line numbers are
   * strictly increasing, and each record is what its line parses to, so it
   * carries that line's untrimmed text and has a positive size.
   */
  lemma RectsTraceBack(lines: seq<string>, cursorLine: Option<int>)
    ensures var r := ParseLines(lines, cursorLine);
      var ns := AcceptedLineNumbers(lines, cursorLine);
      && |ns| == |r.rects|
      && (forall j, k :: 0 <= j < k < |ns| ==> ns[j] < ns[k])
      && (forall k :: 0 <= k < |ns| ==>
            1 <= ns[k] <= |lines|
            && ParseLine(lines[ns[k] - 1], ns[k], cursorLine) == Accepted(r.rects[k])
            && r.rects[k].rawLine == lines[ns[k] - 1]
            && PositiveSize(r.rects[k].size))
  {
    var os := Outcomes(lines, cursorLine);
    var r := Collect(os);
    var ns := AcceptedPositions(os);
    CollectTraceBack(os);
    forall k | 0 <= k < |ns|
      ensures ParseLine(lines[ns[k] - 1], ns[k], cursorLine) == Accepted(r.rects[k])
    {
      OutcomeAt(lines, cursorLine, ns[k]);
    }
  }

  /** Every accepted line is among the record lines. */
  lemma AcceptedLinesReported(lines: seq<string>, cursorLine: Option<int>, n: nat)
    requires 1 <= n <= |lines| && ParseLine(lines[n - 1], n, cursorLine).Accepted?
    ensures n in AcceptedLineNumbers(lines, cursorLine)
    ensures ParseLine(lines[n - 1], n, cursorLine).rect in ParseLines(lines, cursorLine).rects
  {
    var os := Outcomes(lines, cursorLine);
    OutcomeAt(lines, cursorLine, n);
    var o := os[n - 1];
    assert o == ParseLine(lines[n - 1], n, cursorLine);
    CollectComplete(os, n);
    assert o.rect in Collect(os).rects && n in AcceptedPositions(os);
  }

  /** Without a cursor, a line's verdict does not depend on its number, except for the number in an error. */
  lemma ParseLineRenumbered(raw: string, n: nat, m: nat)
    ensures ParseLine(raw, n, None).Accepted? ==> ParseLine(raw, m, None) == ParseLine(raw, n, None)
  {
  }

  /**
   * Round trip: without a cursor, the raw text of any record parses, on its
   * own, to exactly that record and no error.
   */
  lemma ReparseRecord(text: string, k: nat)
    requires k < |ParseText(text, None).rects|
    ensures var r := ParseText(text, None).rects[k];
      ParseText(r.rawLine, None) == RectParseResult([r], [])
  {
    var lines := SplitLines(text);
    RectsTraceBack(lines, None);
    var n := AcceptedLineNumbers(lines, None)[k];
    var r := ParseText(text, None).rects[k];
    var raw := lines[n - 1];
    assert ParseLine(raw, n, None) == Accepted(r);
    ParseLineRenumbered(raw, n, 1);
    SplitLinesSingle(raw);
    SingleLineParse(raw, None);
  }

  /**
   * The status a record's line gets without a cursor: the cursor line's
   * `working` falls back to what the `*` flag says.
   */
  function StatusWithoutCursor(r: ParsedRect): RectStatus {
    if r.status == Working then StatusOf(None, 1, StartsWith(Trim(r.rawLine), "*")) else r.status
  }

  /**
   * Round trip with a cursor line: the raw text of any record parses, on its
   * own and without a cursor, to the same size, position and raw line, with
   * `working` replaced by the status the `*` flag gives.
   */
  lemma ReparseRecordAtCursor(text: string, cursorLine: Option<int>, k: nat)
    requires k < |ParseText(text, cursorLine).rects|
    ensures var r := ParseText(text, cursorLine).rects[k];
      ParseText(r.rawLine, None) == RectParseResult([r.(status := StatusWithoutCursor(r))], [])
  {
    var lines := SplitLines(text);
    RectsTraceBack(lines, cursorLine);
    var n := AcceptedLineNumbers(lines, cursorLine)[k];
    var r := ParseText(text, cursorLine).rects[k];
    var raw := lines[n - 1];
    assert ParseLine(raw, n, cursorLine) == Accepted(r);
    ChecksInOrder(raw, n, cursorLine);
    ChecksInOrder(raw, 1, None);
    SplitLinesSingle(raw);
    SingleLineParse(raw, None);
  }

  /** A text that is one line contributes exactly what that line, numbered 1, contributes. */
  lemma SingleLineParse(raw: string, cursorLine: Option<int>)
    requires '\n' !in raw
    ensures ParseText(raw, cursorLine) == AddOutcome(RectParseResult([], []), ParseLine(raw, 1, cursorLine))
  {
    SplitLinesSingle(raw);
    var o := ParseLine(raw, 1, cursorLine);
    OutcomesSnoc([], raw, cursorLine, 1);
    assert [] + [raw] == [raw];
    assert [o][..0] == [];
    assert Collect([o]) == AddOutcome(Collect([]), o);
  }

  /** Blank lines and comment lines add nothing to the result. */
  lemma IgnoredLineAddsNothing(lines: seq<string>, raw: string, cursorLine: Option<int>)
    requires IsIgnored(Trim(raw))
    ensures ParseLines(lines + [raw], cursorLine) == ParseLines(lines, cursorLine)
  {
    var os := Outcomes(lines, cursorLine);
    OutcomesSnoc(lines, raw, cursorLine, |lines| + 1);
    assert (os + [Skipped])[..|os|] == os;
  }
}
