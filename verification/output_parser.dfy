/**
 * The streaming reader of the compiler's diagnostic output
 * (`CompilerOutputParser`): text arrives in chunks, every complete line is
 * recognised as `filename:L:C: severity: message` or ignored, and the
 * recognised ones become diagnostics whose positions are 0-based and shifted
 * by a line offset.
 */
module OutputParser {
  import opened Wrappers
  import opened Text

  /** The four severities an editor diagnostic can carry. */
  datatype Severity = Error | Warning | Information | Hint

  /** A diagnostic anchored at a 0-based position of the edited document. */
  datatype Diagnostic = Diagnostic(line: nat, column: nat, severity: Severity, message: string)

  /** The severity word of a compiler line, compared exactly; any other
      word is reported as information. */
  function SeverityOf(word: string): (sv: Severity)
    ensures sv == Warning <==> word == "warning"
    ensures sv == Error <==> word == "error"
    ensures sv == Hint <==> word == "note"
    ensures sv == Information <==> (word != "warning" && word != "error" && word != "note")
  {
    if word == "warning" then Warning
    else if word == "error" then Error
    else if word == "note" then Hint
    else Information
  }

  // ---- Positions ----

  predicate IsDigits(s: string) {
    forall k :: 0 <= k < |s| ==> '0' <= s[k] <= '9'
  }

  /** The value of a decimal numeral (what `parseInt` gives for one). */
  function DecimalValue(s: string): nat
    requires IsDigits(s)
  {
    if s == [] then 0
    else DecimalValue(s[..|s| - 1]) * 10 + (s[|s| - 1] as int - '0' as int)
  }

  /** The shortest decimal numeral of `n`, as the compiler prints positions. */
  function Decimal(n: nat): (s: string)
    ensures IsDigits(s) && s != []
  {
    var digit := ('0' as int + n % 10) as char;
    if n < 10 then [digit] else Decimal(n / 10) + [digit]
  }

  lemma {:induction false} DecimalRoundTrip(n: nat)
    ensures DecimalValue(Decimal(n)) == n
  {
    var s := Decimal(n);
    if n >= 10 {
      DecimalRoundTrip(n / 10);
      assert s[..|s| - 1] == Decimal(n / 10);
    }
  }

  /** A position field: an empty field reads as `'0'`. */
  function PositionValue(field: string): nat
    requires IsDigits(field)
  {
    if field == "" then DecimalValue("0") else DecimalValue(field)
  }

  /** `Math.max(0, x)`. */
  function Clamp(x: int): nat {
    if x < 0 then 0 else x
  }

  /** The 0-based document line of a 1-based line field, shifted by `offset`. */
  function TargetLine(field: string, offset: int): nat
    requires IsDigits(field)
  {
    Clamp(PositionValue(field) - 1 + offset)
  }

  /** The 0-based column of a 1-based column field. */
  function TargetColumn(field: string): nat
    requires IsDigits(field)
  {
    Clamp(PositionValue(field) - 1)
  }

  // ---- The suppression marker `// @nolint` ----

  /** The first position at or after `k` that is not white space. */
  function SkipSpaces(s: string, k: nat): (j: nat)
    requires k <= |s|
    ensures k <= j <= |s|
    ensures forall m :: k <= m < j ==> IsSpace(s[m])
    ensures j == |s| || !IsSpace(s[j])
    decreases |s| - k
  {
    if k < |s| && IsSpace(s[k]) then SkipSpaces(s, k + 1) else k
  }

  /** `c` is the ASCII letter `lower` in either case. */
  predicate SameLetter(c: char, lower: char) {
    c == lower || c as int == lower as int - 32
  }

  /** The word `nolint` in any mix of letter cases. */
  predicate IsNolint(w: string) {
    |w| == 6 && forall k :: 0 <= k < 6 ==> SameLetter(w[k], "nolint"[k])
  }

  /** The marker `//`, white space, `@nolint` starts at `i`, and the line holds
      no line terminator before it or after it (the `.*` around it in the
      pattern matches none). */
  predicate MarkerAt(text: string, i: nat) {
    i + 2 <= |text| && text[i] == '/' && text[i + 1] == '/' &&
    var j := SkipSpaces(text, i + 2);
    j + 7 <= |text| && text[j] == '@' && IsNolint(text[j + 1..j + 7]) &&
    NoLineTerminator(text[..i]) && NoLineTerminator(text[j + 7..])
  }

  /** The document line carries the suppression marker. */
  predicate Suppressed(text: string) {
    exists i: nat :: i < |text| && MarkerAt(text, i)
  }

  /** A marker written anywhere in a line, in any letter case and with any
      white space after the slashes, suppresses the line. */
  lemma MarkerSuppresses(before: string, spaces: string, word: string, after: string)
    requires NoLineTerminator(before) && NoLineTerminator(after)
    requires forall k :: 0 <= k < |spaces| ==> IsSpace(spaces[k])
    requires IsNolint(word)
    ensures Suppressed(before + "//" + spaces + "@" + word + after)
  {
    var text := before + "//" + spaces + "@" + word + after;
    var i := |before|;
    var j := i + 2 + |spaces|;
    assert text[i + 2..j] == spaces;
    assert text[j] == '@';
    assert forall m :: i + 2 <= m < j ==> IsSpace(text[m]) by {
      forall m | i + 2 <= m < j ensures IsSpace(text[m]) {
        assert text[m] == spaces[m - i - 2];
      }
    }
    assert !IsSpace(text[j]);
    assert SkipSpaces(text, i + 2) == j;
    assert text[j + 1..j + 7] == word;
    assert text[..i] == before;
    assert text[j + 7..] == after;
    assert MarkerAt(text, i);
  }

  // ---- One line ----

  /** The `:`-separated fields after the filename and the one character
      following it. */
  function Fields(filename: string, line: string): seq<string> {
    Split(Substring(line, |filename| + 1), ':')
  }

  /** The line names the parser's file and has at least four fields. */
  predicate Recognised(filename: string, line: string) {
    StartsWith(line, filename) && |Fields(filename, line)| > 3
  }

  /** What the parser relies on for a recognised line: numeric position
      fields, and a target line that exists in the document. */
  predicate Readable(filename: string, document: seq<string>, offset: int, line: string) {
    Recognised(filename, line) ==>
      var parts := Fields(filename, line);
      IsDigits(parts[0]) && IsDigits(parts[1]) && TargetLine(parts[0], offset) < |document|
  }

  predicate AllReadable(filename: string, document: seq<string>, offset: int, lines: seq<string>) {
    forall k :: 0 <= k < |lines| ==> Readable(filename, document, offset, lines[k])
  }

  /** The diagnostic one line yields, if any. */
  function ParseLine(filename: string, document: seq<string>, offset: int, line: string): (d: Option<Diagnostic>)
    requires Readable(filename, document, offset, line)
    ensures d.Some? ==> Recognised(filename, line)
    ensures d.Some? ==> d.value.line < |document| && !Suppressed(document[d.value.line])
  {
    if !Recognised(filename, line) then None
    else
      var parts := Fields(filename, line);
      var ln := TargetLine(parts[0], offset);
      if Suppressed(document[ln]) then None
      else Some(Diagnostic(ln, TargetColumn(parts[1]), SeverityOf(TrimLeft(parts[2])), Trim(Join(parts[3..], ':'))))
  }

  /** The diagnostics of a sequence of lines, in line order. */
  function Diagnose(filename: string, document: seq<string>, offset: int, lines: seq<string>): (ds: seq<Diagnostic>)
    requires AllReadable(filename, document, offset, lines)
    ensures |ds| <= |lines|
    ensures forall k :: 0 <= k < |ds| ==> ds[k].line < |document| && !Suppressed(document[ds[k].line])
    decreases |lines|
  {
    if lines == [] then []
    else
      var init := lines[..|lines| - 1];
      assert forall k :: 0 <= k < |init| ==> init[k] == lines[k];
      Diagnose(filename, document, offset, init) + ToSeq(ParseLine(filename, document, offset, lines[|lines| - 1]))
  }

  /** Lines are readable together exactly when each part is. */
  lemma AllReadableAppend(filename: string, document: seq<string>, offset: int, a: seq<string>, b: seq<string>)
    ensures AllReadable(filename, document, offset, a + b) <==>
            AllReadable(filename, document, offset, a) && AllReadable(filename, document, offset, b)
  {
    assert forall k :: 0 <= k < |a| ==> (a + b)[k] == a[k];
    assert forall k :: 0 <= k < |b| ==> (a + b)[|a| + k] == b[k];
  }

  lemma {:induction false} DiagnoseAppend(filename: string, document: seq<string>, offset: int, a: seq<string>, b: seq<string>)
    requires AllReadable(filename, document, offset, a + b)
    ensures AllReadable(filename, document, offset, a) && AllReadable(filename, document, offset, b)
    ensures Diagnose(filename, document, offset, a + b) ==
            Diagnose(filename, document, offset, a) + Diagnose(filename, document, offset, b)
    decreases |b|
  {
    AllReadableAppend(filename, document, offset, a, b);
    if b == [] {
      assert a + b == a;
    } else {
      var init, last := b[..|b| - 1], b[|b| - 1];
      assert b == init + [last];
      AllReadableAppend(filename, document, offset, init, [last]);
      AllReadableAppend(filename, document, offset, a, init);
      DropLast(a, b);
      DiagnoseAppend(filename, document, offset, a, init);
      Assoc(Diagnose(filename, document, offset, a), Diagnose(filename, document, offset, init),
            ToSeq(ParseLine(filename, document, offset, last)));
    }
  }

  // ---- Chunked streams ----

  function Concat(chunks: seq<string>): string {
    if chunks == [] then "" else chunks[0] + Concat(chunks[1..])
  }

  /** The lines consumed when the chunks are handed over one `write` at a
      time, starting from `buffer`. */
  function LinesConsumed(buffer: string, chunks: seq<string>): seq<string>
    decreases |chunks|
  {
    if chunks == [] then []
    else CompleteLines(buffer + chunks[0]) + LinesConsumed(Pending(buffer + chunks[0]), chunks[1..])
  }

  /** The buffer left after the chunks are handed over one at a time. */
  function BufferAfter(buffer: string, chunks: seq<string>): string
    decreases |chunks|
  {
    if chunks == [] then buffer else BufferAfter(Pending(buffer + chunks[0]), chunks[1..])
  }

  /** However a stream is cut into chunks, the same lines are consumed, in
      order, and the same unterminated tail stays buffered. */
  lemma {:induction false} ChunkingIrrelevant(buffer: string, chunks: seq<string>)
    requires '\n' !in buffer
    ensures LinesConsumed(buffer, chunks) == CompleteLines(buffer + Concat(chunks))
    ensures BufferAfter(buffer, chunks) == Pending(buffer + Concat(chunks))
    decreases |chunks|
  {
    if chunks == [] {
      assert buffer + Concat(chunks) == buffer;
      NoLines(buffer);
    } else {
      var head := buffer + chunks[0];
      assert buffer + Concat(chunks) == head + Concat(chunks[1..]);
      LinesAppend(head, Concat(chunks[1..]));
      ChunkingIrrelevant(Pending(head), chunks[1..]);
    }
  }

  /** Two `write`s with the same offset yield the diagnostics of one `write`
      of both chunks together. */
  lemma TwoWritesAsOne(filename: string, document: seq<string>, offset: int, buffer: string, a: string, b: string)
    requires AllReadable(filename, document, offset, CompleteLines(buffer + a + b))
    ensures CompleteLines(buffer + a + b) == CompleteLines(buffer + a) + CompleteLines(Pending(buffer + a) + b)
    ensures AllReadable(filename, document, offset, CompleteLines(buffer + a))
    ensures AllReadable(filename, document, offset, CompleteLines(Pending(buffer + a) + b))
    ensures Diagnose(filename, document, offset, CompleteLines(buffer + a + b)) ==
            Diagnose(filename, document, offset, CompleteLines(buffer + a)) +
            Diagnose(filename, document, offset, CompleteLines(Pending(buffer + a) + b))
  {
    LinesAppend(buffer + a, b);
    DiagnoseAppend(filename, document, offset, CompleteLines(buffer + a), CompleteLines(Pending(buffer + a) + b));
  }

  /** Text after the last `'\n'` is never parsed; it only waits in the buffer. */
  lemma UnterminatedTailNeverParsed(s: string, tail: string)
    requires '\n' !in tail
    ensures CompleteLines(s + tail) == CompleteLines(s)
    ensures Pending(s + tail) == Pending(s) + tail
  {
    LinesAppend(s, tail);
    NoLines(Pending(s) + tail);
  }

  // ---- Recognised lines ----

  /** A line as the compiler writes it: file, line, column, severity field and
      message field separated by `:`. */
  function Report(filename: string, line: nat, column: nat, severity: string, message: string): string {
    Colon(filename, Colon(Decimal(line), Colon(Decimal(column), Colon(severity, message))))
  }

  function Colon(left: string, right: string): string {
    left + [':'] + right
  }

  lemma SplitCons(first: string, rest: string, sep: char)
    requires sep !in first
    ensures Split(first + [sep] + rest, sep) == [first] + Split(rest, sep)
  {
    var s := first + [sep] + rest;
    assert s[..|first|] == first;
    IndexOfIs(s, sep, |first|);
    assert s[|first| + 1..] == rest;
  }

  lemma NoColonInDecimal(n: nat)
    ensures ':' !in Decimal(n)
  {
    var s := Decimal(n);
    assert forall k :: 0 <= k < |s| ==> s[k] != ':';
  }

  lemma SplitThree(l: string, c: string, severity: string, message: string)
    requires ':' !in l && ':' !in c && ':' !in severity
    ensures Split(Colon(l, Colon(c, Colon(severity, message))), ':') == [l, c, severity] + Split(message, ':')
  {
    var pieces := Split(message, ':');
    SplitCons(severity, message, ':');
    SplitCons(c, Colon(severity, message), ':');
    SplitCons(l, Colon(c, Colon(severity, message)), ':');
    PrependThree(l, c, severity, pieces);
  }

  lemma PrependThree<T>(a: T, b: T, c: T, rest: seq<T>)
    ensures [a] + ([b] + ([c] + rest)) == [a, b, c] + rest
  {
  }

  /** The fields of a compiler line: the two numerals, the severity field,
      and the pieces of the message. */
  lemma ReportFields(filename: string, line: nat, column: nat, severity: string, message: string)
    requires ':' !in severity
    ensures StartsWith(Report(filename, line, column, severity, message), filename)
    ensures Fields(filename, Report(filename, line, column, severity, message)) ==
            [Decimal(line), Decimal(column), severity] + Split(message, ':')
  {
    var l, c := Decimal(line), Decimal(column);
    var after := Colon(l, Colon(c, Colon(severity, message)));
    var text := Colon(filename, after);
    assert text[..|filename|] == filename;
    assert text[|filename| + 1..] == after;
    NoColonInDecimal(line);
    NoColonInDecimal(column);
    SplitThree(l, c, severity, message);
  }

  /** A well-formed compiler line yields exactly one diagnostic unless its
      target line is suppressed: the 1-based positions become 0-based, the
      offset moves only the line, both are clamped at 0, and the message
      keeps every `:` it contains. */
  lemma ReportRoundTrip(filename: string, document: seq<string>, offset: int,
                        line: nat, column: nat, severity: string, message: string, target: nat)
    requires ':' !in severity
    requires target == Clamp(line - 1 + offset) && target < |document|
    ensures Readable(filename, document, offset, Report(filename, line, column, severity, message))
    ensures ParseLine(filename, document, offset, Report(filename, line, column, severity, message)) ==
      if Suppressed(document[target]) then None
      else Some(Diagnostic(target, Clamp(column - 1), SeverityOf(TrimLeft(severity)), Trim(message)))
  {
    var text := Report(filename, line, column, severity, message);
    ReportFields(filename, line, column, severity, message);
    var parts := Fields(filename, text);
    assert parts[3..] == Split(message, ':');
    JoinSplit(message, ':');
    DecimalRoundTrip(line);
    DecimalRoundTrip(column);
    assert PositionValue(parts[0]) == line;
    assert PositionValue(parts[1]) == column;
    assert Join(parts[3..], ':') == message;
    assert parts[2] == severity;
    assert TargetLine(parts[0], offset) == target;
    assert TargetColumn(parts[1]) == Clamp(column - 1);
  }

  /** The offset moves the line of a diagnostic and nothing else. */
  lemma OffsetShiftsOnlyLine(filename: string, document: seq<string>, o1: int, o2: int, line: string)
    requires Readable(filename, document, o1, line) && Readable(filename, document, o2, line)
    requires ParseLine(filename, document, o1, line).Some? && ParseLine(filename, document, o2, line).Some?
    ensures var d1, d2 := ParseLine(filename, document, o1, line).value, ParseLine(filename, document, o2, line).value;
      d1.column == d2.column && d1.severity == d2.severity && d1.message == d2.message &&
      (d1.line > 0 && d2.line > 0 ==> d2.line - d1.line == o2 - o1)
  {
  }

  /** Cutting the first line off a buffer that holds a `'\n'`: the line is
      readable, the remaining lines follow it, and its diagnostic comes
      after those of the lines cut before it. */
  lemma ConsumeLine(filename: string, document: seq<string>, offset: int, done: seq<string>, data: string, i: nat)
    requires i < |data| && i == IndexOf(data, '\n')
    requires AllReadable(filename, document, offset, CompleteLines(data))
    requires AllReadable(filename, document, offset, done)
    ensures Readable(filename, document, offset, data[..i])
    ensures AllReadable(filename, document, offset, CompleteLines(data[i + 1..]))
    ensures done + CompleteLines(data) == (done + [data[..i]]) + CompleteLines(data[i + 1..])
    ensures Pending(data) == Pending(data[i + 1..])
    ensures AllReadable(filename, document, offset, done + [data[..i]])
    ensures Diagnose(filename, document, offset, done + [data[..i]]) ==
            Diagnose(filename, document, offset, done) + ToSeq(ParseLine(filename, document, offset, data[..i]))
  {
    var line := data[..i];
    var rest := CompleteLines(data[i + 1..]);
    assert data[i] == '\n';
    LinesCons(data);
    AllReadableAppend(filename, document, offset, [line], rest);
    assert [line][0] == line;
    AllReadableAppend(filename, document, offset, done, [line]);
    Regroup(done, line, rest);
    DropLast(done, [line]);
  }

  /** The parser for one run of the compiler on one document. */
  class CompilerOutputParser {
    /** Received text not yet cut into lines. */
    var data: string
    const filename: string
    /** The document's lines, for the suppression check. */
    const document: seq<string>
    var diagnostics: seq<Diagnostic>
    var lineOffset: int

    constructor (filename: string, document: seq<string>)
      ensures this.filename == filename && this.document == document
      ensures data == "" && diagnostics == [] && lineOffset == 0
    {
      this.data := "";
      this.filename := filename;
      this.document := document;
      this.diagnostics := [];
      this.lineOffset := 0;
    }

    /** Appends a chunk and processes every line it completes, in order;
        the unterminated rest stays in `data`. */
    method Write(chunk: string)
      requires AllReadable(filename, document, lineOffset, CompleteLines(data + chunk))
      modifies this`data, this`diagnostics
      ensures data == Pending(old(data) + chunk)
      ensures diagnostics == old(diagnostics) + Diagnose(filename, document, lineOffset, CompleteLines(old(data) + chunk))
    {
      data := data + chunk;
      ghost var done: seq<string> := [];
      var newlineIndex := IndexOf(data, '\n');
      while newlineIndex > -1
        invariant newlineIndex == IndexOf(data, '\n')
        invariant CompleteLines(old(data) + chunk) == done + CompleteLines(data)
        invariant Pending(data) == Pending(old(data) + chunk)
        invariant AllReadable(filename, document, lineOffset, CompleteLines(data))
        invariant AllReadable(filename, document, lineOffset, done)
        invariant diagnostics == old(diagnostics) + Diagnose(filename, document, lineOffset, done)
        decreases |data|
      {
        ConsumeLine(filename, document, lineOffset, done, data, newlineIndex);
        ghost var parsed := ToSeq(ParseLine(filename, document, lineOffset, data[..newlineIndex]));
        ProcessLine(data[..newlineIndex]);
        Assoc(old(diagnostics), Diagnose(filename, document, lineOffset, done), parsed);
        done := done + [data[..newlineIndex]];
        data := data[newlineIndex + 1..];
        newlineIndex := IndexOf(data, '\n');
      }
      NoLines(data);
      assert done + [] == done;
      assert CompleteLines(old(data) + chunk) == done;
    }

    /** Appends the diagnostic of one line, if it yields one. */
    method ProcessLine(line: string)
      requires Readable(filename, document, lineOffset, line)
      modifies this`diagnostics
      ensures diagnostics == old(diagnostics) + ToSeq(ParseLine(filename, document, lineOffset, line))
    {
      if !StartsWith(line, filename) {
        assert ParseLine(filename, document, lineOffset, line) == None;
        return;
      }
      var parts := Split(Substring(line, |filename| + 1), ':');
      assert parts == Fields(filename, line);
      if |parts| > 3 {
        var ln := TargetLine(parts[0], lineOffset);
        var column := TargetColumn(parts[1]);
        if Suppressed(document[ln]) {
          assert ParseLine(filename, document, lineOffset, line) == None;
          return;
        }
        var severity := SeverityOf(TrimLeft(parts[2]));
        var message := Trim(Join(parts[3..], ':'));
        assert ParseLine(filename, document, lineOffset, line) == Some(Diagnostic(ln, column, severity, message));
        diagnostics := diagnostics + [Diagnostic(ln, column, severity, message)];
      } else {
        assert ParseLine(filename, document, lineOffset, line) == None;
      }
    }

    method GetDiagnostics() returns (ds: seq<Diagnostic>)
      ensures ds == diagnostics
    {
      ds := diagnostics;
    }

    /** Changes the offset for the lines processed from now on; what has been
        recognised already stays as it is. */
    method SetLineOffset(value: int)
      modifies this`lineOffset
      ensures lineOffset == value
      ensures data == old(data) && diagnostics == old(diagnostics)
    {
      lineOffset := value;
    }
  }
}
