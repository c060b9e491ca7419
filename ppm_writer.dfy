/**
 * The Portable Pixel Map writer (`src/utils/ppm_writer.rs`): a header "P3"
 * at construction, then exactly one size block, then colours. Writing the
 * size twice, or a colour before the size, panics in the program; here it
 * is a `Fail` outcome that leaves the writer unchanged.
 *
 * The output sink is the sequence of strings written so far, one entry per
 * `write!` call. `Color::to_string` is not part of this model: the text of a
 * colour is given by the parameter `render`.
 */
module PpmWriters {
  import opened Options
  import opened Vectors

  /** A call either completes or panics with the program's message. */
  datatype Outcome = Pass | Fail(message: string)

  const HeaderLine: string := "P3\n"
  const MaxColorLine: string := "255\n"
  const SizeWrittenTwice: string := "Size has already been written and should not be written more than once."
  const SizeNotWritten: string := "Size hasn't been written yet. Please call the 'write_size' method before calling 'write_color' method."

  // ---------------------------------------------------------------------
  // Decimal text of `usize` values, as `{}` formats them.

  function DigitChar(d: nat): (c: char)
    requires d < 10
    ensures '0' <= c <= '9' && c as int - '0' as int == d
  {
    (d + '0' as int) as char
  }

  predicate IsDigits(s: string) {
    forall i :: 0 <= i < |s| ==> '0' <= s[i] <= '9'
  }

  /** The value of a string of decimal digits. */
  function DecimalValue(s: string): nat
    requires IsDigits(s)
  {
    if s == [] then 0 else DecimalValue(s[..|s| - 1]) * 10 + (s[|s| - 1] as int - '0' as int)
  }

  /** `n` in decimal, without leading zeros. */
  function Decimal(n: nat): (s: string)
    ensures |s| >= 1 && IsDigits(s)
    ensures s[0] == '0' ==> n == 0
  {
    if n < 10 then [DigitChar(n)] else Decimal(n / 10) + [DigitChar(n % 10)]
  }

  /** Reading back the decimal text gives the number. */
  lemma {:induction false} DecimalRoundTrip(n: nat)
    ensures DecimalValue(Decimal(n)) == n
  {
    if n >= 10 {
      DecimalRoundTrip(n / 10);
      var s := Decimal(n);
      assert s[..|s| - 1] == Decimal(n / 10);
    }
  }

  /** Different numbers have different texts. */
  lemma DecimalInjective(m: nat, n: nat)
    requires Decimal(m) == Decimal(n)
    ensures m == n
  {
    DecimalRoundTrip(m);
    DecimalRoundTrip(n);
  }

  // ---------------------------------------------------------------------
  // The protocol as a state machine over values.

  /** What the writer holds: the text written so far and the size flag. */
  datatype WriterState = WriterState(output: seq<string>, isSizeWritten: bool)

  /** The two public operations after construction. */
  datatype Call = WriteSize(rows: nat, columns: nat) | WriteColor(color: Color)

  /** "columns rows\n" (columns first), then the maximum colour value. */
  function SizeBlock(rows: nat, columns: nat): seq<string> {
    [Decimal(columns) + " " + Decimal(rows) + "\n", MaxColorLine]
  }

  /** `PPMWriter::new`: only the header, size not yet written. */
  function Initial(): (st: WriterState)
    ensures st.output == [HeaderLine] && !st.isSizeWritten
  {
    WriterState([HeaderLine], false)
  }

  /** Whether a call is accepted in a state: size only once, colours only after it. */
  predicate Accepts(st: WriterState, call: Call) {
    match call
    case WriteSize(_, _) => !st.isSizeWritten
    case WriteColor(_) => st.isSizeWritten
  }

  /** The effect of one accepted call. */
  function Step(st: WriterState, call: Call, render: Color -> string): (st': WriterState)
    requires Accepts(st, call)
    ensures st'.isSizeWritten
    ensures |st'.output| > |st.output| && st'.output[..|st.output|] == st.output
  {
    match call
    case WriteSize(rows, columns) => WriterState(st.output + SizeBlock(rows, columns), true)
    case WriteColor(color) => WriterState(st.output + [render(color)], st.isSizeWritten)
  }

  /** The panic message of a refused call. */
  function Refusal(call: Call): string {
    match call
    case WriteSize(_, _) => SizeWrittenTwice
    case WriteColor(_) => SizeNotWritten
  }

  /** Run a sequence of calls from `Initial()`; `None` as soon as one is refused. */
  function Run(calls: seq<Call>, render: Color -> string): (st: Option<WriterState>)
    decreases |calls|
  {
    if calls == [] then Some(Initial())
    else
      match Run(calls[..|calls| - 1], render)
      case None => None
      case Some(before) =>
        var call := calls[|calls| - 1];
        if Accepts(before, call) then Some(Step(before, call, render)) else None
  }

  /** The calls that write colours. */
  predicate AllColors(calls: seq<Call>) {
    forall i :: 0 <= i < |calls| ==> calls[i].WriteColor?
  }

  /** The texts of a sequence of colour calls. */
  function Rendered(calls: seq<Call>, render: Color -> string): (texts: seq<string>)
    requires AllColors(calls)
    ensures |texts| == |calls|
    ensures forall i :: 0 <= i < |calls| ==> texts[i] == render(calls[i].color)
  {
    if calls == [] then []
    else Rendered(calls[..|calls| - 1], render) + [render(calls[|calls| - 1].color)]
  }

  /** The well-formed call sequences: empty, or one size call followed by colours. */
  predicate WellFormedCalls(calls: seq<Call>) {
    calls == [] || (calls[0].WriteSize? && AllColors(calls[1..]))
  }

  /** The output of a run whose first call wrote the size and whose other calls wrote colours. */
  function Document(sizeCall: Call, colorCalls: seq<Call>, render: Color -> string): seq<string>
    requires sizeCall.WriteSize? && AllColors(colorCalls)
  {
    [HeaderLine] + SizeBlock(sizeCall.rows, sizeCall.columns) + Rendered(colorCalls, render)
  }

  /**
   * A call sequence is accepted exactly when it is well formed, and then the
   * output is the header, one size block (if the size was written) and the
   * colours in order.
   */
  lemma RunShape(calls: seq<Call>, render: Color -> string)
    ensures Run(calls, render).Some? <==> WellFormedCalls(calls)
    ensures calls == [] ==> Run(calls, render) == Some(Initial())
    ensures Run(calls, render).Some? && calls != [] ==>
              Run(calls, render).value == WriterState(Document(calls[0], calls[1..], render), true)
  {
    RunAccepted(calls, render);
    if WellFormedCalls(calls) && calls != [] {
      RunOutput(calls, render);
    }
  }

  /** Only well-formed call sequences run to the end. */
  lemma {:induction false} RunAccepted(calls: seq<Call>, render: Color -> string)
    ensures Run(calls, render).Some? <==> WellFormedCalls(calls)
    ensures Run(calls, render).Some? ==> Run(calls, render).value.isSizeWritten == (calls != [])
    decreases |calls|
  {
    if calls != [] {
      var prefix := calls[..|calls| - 1];
      var last := calls[|calls| - 1];
      assert calls == prefix + [last];
      RunAccepted(prefix, render);
      WellFormedSnoc(prefix, last);
    }
  }

  /** The output of a well-formed, non-empty call sequence. */
  lemma {:induction false} RunOutput(calls: seq<Call>, render: Color -> string)
    requires WellFormedCalls(calls) && calls != []
    ensures Run(calls, render).Some?
    ensures Run(calls, render).value == WriterState(Document(calls[0], calls[1..], render), true)
    decreases |calls|
  {
    RunAccepted(calls, render);
    var prefix := calls[..|calls| - 1];
    var last := calls[|calls| - 1];
    assert calls == prefix + [last];
    if prefix == [] {
      assert calls[1..] == [];
    } else {
      WellFormedSnoc(prefix, last);
      RunOutput(prefix, render);
      RenderedSnoc(prefix, last, render);
      assert prefix[0] == calls[0];
    }
  }

  /** Extending a call sequence by one call keeps it well formed exactly when the call fits. */
  lemma WellFormedSnoc(prefix: seq<Call>, last: Call)
    ensures WellFormedCalls(prefix + [last]) <==>
            if prefix == [] then last.WriteSize? else WellFormedCalls(prefix) && last.WriteColor?
  {
    var calls := prefix + [last];
    if prefix != [] {
      assert calls[1..] == prefix[1..] + [last];
      if WellFormedCalls(calls) {
        forall i | 0 <= i < |prefix[1..]| ensures prefix[1..][i].WriteColor? {
          assert prefix[1..][i] == calls[1..][i];
        }
        assert calls[1..][|calls[1..]| - 1] == last;
      }
    }
  }

  /** The output of a well-formed sequence grows by the last colour's text. */
  lemma RenderedSnoc(prefix: seq<Call>, last: Call, render: Color -> string)
    requires prefix != [] && WellFormedCalls(prefix + [last])
    ensures (prefix + [last])[0] == prefix[0]
    ensures AllColors(prefix[1..]) && last.WriteColor?
    ensures Rendered((prefix + [last])[1..], render) == Rendered(prefix[1..], render) + [render(last.color)]
  {
    WellFormedSnoc(prefix, last);
    var tail := (prefix + [last])[1..];
    assert tail == prefix[1..] + [last];
    assert tail[..|tail| - 1] == prefix[1..];
  }

  /** Every accepted sequence writes the size at most once, and always first. */
  lemma SizeWrittenOnce(calls: seq<Call>, render: Color -> string, i: nat, j: nat)
    requires Run(calls, render).Some?
    requires i < j < |calls|
    ensures !calls[j].WriteSize?
    ensures calls[i].WriteSize? ==> i == 0
  {
    RunShape(calls, render);
    assert calls[j] == calls[1..][j - 1];
    if i > 0 {
      assert calls[i] == calls[1..][i - 1];
    }
  }

  /** After an accepted size call, a second one is always refused. */
  lemma SecondSizeFails(st: WriterState, rows: nat, columns: nat, rows': nat, columns': nat, render: Color -> string)
    requires Accepts(st, WriteSize(rows, columns))
    ensures !Accepts(Step(st, WriteSize(rows, columns), render), WriteSize(rows', columns'))
  {
  }

  // ---------------------------------------------------------------------
  // The writer object.

  class PPMWriter {
    var output: seq<string>
    var isSizeWritten: bool

    function State(): WriterState
      reads this
    {
      WriterState(output, isSizeWritten)
    }

    /** `PPMWriter::new`: writes the "P3" header. */
    constructor()
      ensures State() == Initial()
      ensures output == [HeaderLine] && !isSizeWritten
    {
      output := [HeaderLine];
      isSizeWritten := false;
    }

    /**
     * `write_size`: refused once the size is written; otherwise appends
     * "columns rows\n" and "255\n" and sets the flag.
     */
    method WriteSize(rows: nat, columns: nat) returns (outcome: Outcome)
      modifies this
      ensures outcome.Fail? <==> old(isSizeWritten)
      ensures outcome.Fail? ==> outcome == Fail(Refusal(Call.WriteSize(rows, columns))) && State() == old(State())
      ensures outcome.Pass? ==>
                output == old(output) + [Decimal(columns) + " " + Decimal(rows) + "\n", MaxColorLine] &&
                isSizeWritten
      ensures outcome.Pass? ==> State() == Step(old(State()), Call.WriteSize(rows, columns), (c: Color) => "")
    {
      if isSizeWritten {
        return Fail(SizeWrittenTwice);
      }
      output := output + [Decimal(columns) + " " + Decimal(rows) + "\n"];
      output := output + [MaxColorLine];
      isSizeWritten := true;
      outcome := Pass;
    }

    /**
     * `write_color`: refused before the size is written; otherwise appends
     * the colour's text and changes nothing else.
     */
    method WriteColor(color: Color, render: Color -> string) returns (outcome: Outcome)
      modifies this
      ensures outcome.Fail? <==> !old(isSizeWritten)
      ensures outcome.Fail? ==> outcome == Fail(Refusal(Call.WriteColor(color))) && State() == old(State())
      ensures outcome.Pass? ==> output == old(output) + [render(color)] && isSizeWritten == old(isSizeWritten)
      ensures outcome.Pass? ==> State() == Step(old(State()), Call.WriteColor(color), render)
    {
      if !isSizeWritten {
        return Fail(SizeNotWritten);
      }
      output := output + [render(color)];
      outcome := Pass;
    }
  }
}
