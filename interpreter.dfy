/**
 * The line interpreter of DevPerc (interpreter.c, state from interpreter.h).
 *
 * The interpreter keeps the program text, a cursor `startPos` at the start of
 * the next line and 26 one-byte registers named A..Z. Each step scans one
 * line into a bounded buffer, replacing every upper-case letter by the value
 * of its register as it goes, then splits the line at the first `/` (the
 * comment) and at the first space (after the statement name), runs the
 * statement and moves the cursor past the line. The only statement the code
 * implements is `PUT <expression>`, which writes one byte.
 *
 * The pure functions below state what a step computes; the class
 * `Interpreter` holds the state and performs the step in place, and its
 * contracts tie each method to those functions.
 */
module Interpreter {
  import opened Numbers

  /** `BUF_SIZE`: the line buffer holds this many bytes plus a terminating NUL. */
  const BufSize: nat := 1024

  /** The number of registers, one per upper-case letter. */
  const RegisterCount: nat := 26

  datatype Option<T> = None | Some(value: T)

  /** The fatal errors of the interpreter; each one ends the process in the source. */
  datatype ErrorKind =
    | InvalidRegisterName(register: Byte)
    | UnhandledExpression(expr: seq<Byte>)
    | LineTooLong
    | EmptyLine
    | InvalidStatement(statement: seq<Byte>)
    | UnrecognisedStatementName(statementName: seq<Byte>)

  datatype Result<T> = Ok(value: T) | Err(error: ErrorKind)

  /** What `step_interpreter` reports: the program is done, more lines remain, or a fatal error. */
  datatype StepResult = Done | More | Error(kind: ErrorKind)

  /*************************************************************************
   * Registers and substitution
   *************************************************************************/

  predicate IsRegisterName(c: Byte)
  {
    'A' <= c <= 'Z'
  }

  /** The register a letter names: A is 0, Z is 25. */
  function RegisterIndex(c: Byte): (i: nat)
    requires IsRegisterName(c)
    ensures i < RegisterCount
  {
    c as int - 'A' as int
  }

  /** The register file as `init_interpreter` leaves it: each register holds its own letter. */
  function InitialRegisters(): (regs: seq<Byte>)
    ensures |regs| == RegisterCount
    ensures forall i :: 0 <= i < RegisterCount ==> regs[i] as int == 'A' as int + i
  {
    seq(RegisterCount, i requires 0 <= i < RegisterCount => ('A' as int + i) as char)
  }

  /** The byte the scan puts in the line buffer for the source byte `c`. */
  function Substitute(c: Byte, regs: seq<Byte>): Byte
    requires |regs| == RegisterCount
  {
    if IsRegisterName(c) then regs[RegisterIndex(c)] else c
  }

  /** A stretch of source text with every letter replaced by its register's value. */
  function SubstituteLine(s: seq<Byte>, regs: seq<Byte>): (r: seq<Byte>)
    requires |regs| == RegisterCount
    ensures |r| == |s|
  {
    seq(|s|, k requires 0 <= k < |s| => Substitute(s[k], regs))
  }

  /** A buffer holding the substitute of each byte of the text from `start` on holds the substituted stretch. */
  lemma SubstitutedCopy(buf: seq<Byte>, text: seq<Byte>, start: nat, regs: seq<Byte>)
    requires |regs| == RegisterCount && start + |buf| <= |text|
    requires forall k :: 0 <= k < |buf| ==> buf[k] == Substitute(text[start + k], regs)
    ensures buf == SubstituteLine(text[start..start + |buf|], regs)
  {
  }

  /**
   * With the registers as initialised, substitution changes nothing: every
   * letter holds its own code. Since no statement of this code writes a
   * register, the materialised line is always the raw source line.
   */
  lemma SubstitutionWithInitialRegisters(s: seq<Byte>)
    ensures SubstituteLine(s, InitialRegisters()) == s
  {
    var regs := InitialRegisters();
    forall k | 0 <= k < |s|
      ensures SubstituteLine(s, regs)[k] == s[k]
    {
      if IsRegisterName(s[k]) {
        assert regs[RegisterIndex(s[k])] as int == s[k] as int;
      }
    }
  }

  /*************************************************************************
   * C-string searches on the line buffer
   *************************************************************************/

  /** `strlen` of a buffer holding `s` followed by a NUL: the index of the first NUL byte. */
  function CStringLength(s: seq<Byte>): (n: nat)
    ensures n <= |s| && (n < |s| ==> s[n] == '\0')
    ensures forall k :: 0 <= k < n ==> s[k] != '\0'
  {
    if |s| == 0 || s[0] == '\0' then 0 else 1 + CStringLength(s[1..])
  }

  /**
   * `strchr` on a buffer holding `s` followed by a NUL: the index of the
   * first `c`, where the search stops at the first NUL byte.
   */
  function StrChr(s: seq<Byte>, c: Byte): (r: Option<nat>)
    requires c != '\0'
    ensures r.Some? ==> r.value < CStringLength(s) && s[r.value] == c
    ensures r.Some? ==> forall k :: 0 <= k < r.value ==> s[k] != c
    ensures r.None? ==> forall k :: 0 <= k < CStringLength(s) ==> s[k] != c
  {
    if |s| == 0 || s[0] == '\0' then None
    else if s[0] == c then Some(0)
    else match StrChr(s[1..], c)
      case None => None
      case Some(i) => Some(i + 1)
  }

  /** A stretch of bytes with no NUL and no `c` in it. */
  predicate Avoids(s: seq<Byte>, c: Byte)
  {
    forall k :: 0 <= k < |s| ==> s[k] != '\0' && s[k] != c
  }

  /*************************************************************************
   * Evaluating an expression and executing a line
   *************************************************************************/

  /**
   * `interpret_expression`: a one-byte span is a register reference, valid
   * only for A..Z; any other span is a number word, resolved by the English
   * number resolver.
   */
  function Evaluate(expr: seq<Byte>, regs: seq<Byte>): (r: Result<Byte>)
    requires |regs| == RegisterCount
    ensures |expr| == 1 && IsRegisterName(expr[0]) ==> r == Ok(regs[RegisterIndex(expr[0])])
    ensures |expr| == 1 && !IsRegisterName(expr[0]) ==> r == Err(InvalidRegisterName(expr[0]))
    ensures |expr| != 1 && r.Ok? ==> r.value as int == ParseEnglishNumber(expr) <= 250
    ensures |expr| != 1 && r.Err? ==> r.error == UnhandledExpression(expr) && ParseEnglishNumber(expr) < 0
  {
    if |expr| == 1 then
      var name := expr[0];
      if !IsRegisterName(name) then Err(InvalidRegisterName(name))
      else Ok(regs[RegisterIndex(name)])
    else
      var result := ParseEnglishNumber(expr);
      if result < 0 then Err(UnhandledExpression(expr))
      else
        ParseEnglishNumberAtMost250(expr);
        Ok(result as char)
  }

  /** The length of the statement: the line up to its first `/`, or all of it. */
  function StatementLength(line: seq<Byte>): (n: nat)
    ensures n <= |line|
    ensures n == |line| || (n < CStringLength(line) && line[n] == '/')
    ensures forall k :: 0 <= k < n && k < CStringLength(line) ==> line[k] != '/'
  {
    match StrChr(line, '/')
    case Some(i) => i
    case None => |line|
  }

  /**
   * The parse and dispatch half of `step_interpreter`, on the materialised
   * line: an empty line, a line without a space and a statement name other
   * than PUT are errors; `PUT` evaluates the bytes from after its space up
   * to the comment.
   */
  function ExecuteLine(line: seq<Byte>, regs: seq<Byte>): (r: Result<Byte>)
    requires |regs| == RegisterCount
    ensures |line| == 0 ==> r == Err(EmptyLine)
    ensures |line| > 0 && StrChr(line, ' ').None? ==> r == Err(InvalidStatement(line[..StatementLength(line)]))
    ensures |line| > 0 && StrChr(line, ' ').Some? && !(StrChr(line, ' ').value == 3 && line[..3] == "PUT")
            ==> r == Err(UnrecognisedStatementName(line[..StrChr(line, ' ').value]))
    ensures r != Err(LineTooLong)
    ensures r.Ok? ==> 4 <= StatementLength(line) && line[..4] == "PUT "
                      && r == Evaluate(line[4..StatementLength(line)], regs)
  {
    if |line| == 0 then Err(EmptyLine)
    else
      var statementLen := StatementLength(line);
      match StrChr(line, ' ')
      case None => Err(InvalidStatement(line[..statementLen]))
      case Some(nameLen) =>
        if nameLen == 3 && line[..3] == "PUT" then
          // `/` cannot come before the space at index 3
          assert line[3] == ' ' && forall k :: 0 <= k < 3 ==> line[k] != '/';
          Evaluate(line[4..statementLen], regs)
        else
          Err(UnrecognisedStatementName(line[..nameLen]))
  }

  /**
   * A line starting `PUT ` is dispatched to the expression between that
   * space and the comment, whatever that expression is.
   */
  lemma PutLineEvaluates(rest: seq<Byte>, regs: seq<Byte>)
    requires |regs| == RegisterCount
    ensures var line := "PUT " + rest;
      4 <= StatementLength(line) && ExecuteLine(line, regs) == Evaluate(line[4..StatementLength(line)], regs)
  {
    var line := "PUT " + rest;
    assert line[0] == 'P' && line[1] == 'U' && line[2] == 'T' && line[3] == ' ';
    StrChrAt(line, ' ', 3);
    assert line[..3] == "PUT";
  }

  /**
   * `PUT <e>` outputs the value of `e`, whatever comment follows it: the
   * operand ends at the first `/`.
   */
  lemma PutExecutes(e: seq<Byte>, comment: seq<Byte>, regs: seq<Byte>)
    requires |regs| == RegisterCount
    requires Avoids(e, '/')
    requires comment == [] || comment[0] == '/'
    ensures ExecuteLine("PUT " + e + comment, regs) == Evaluate(e, regs)
  {
    var line := "PUT " + e + comment;
    assert line[..4] == "PUT ";
    assert line[0] == 'P' && line[1] == 'U' && line[2] == 'T' && line[3] == ' ';
    StrChrAt(line, ' ', 3);
    if comment == [] {
      StrChrAbsent(line, '/');
    } else {
      StrChrAt(line, '/', 4 + |e|);
    }
    assert line[4..StatementLength(line)] == e;
  }

  /**
   * A comment changes nothing about a statement that has its space: the
   * line `s/c` executes as `s` does.
   */
  lemma CommentIgnored(s: seq<Byte>, comment: seq<Byte>, regs: seq<Byte>)
    requires |regs| == RegisterCount
    requires Avoids(s, '/') && exists k :: 0 <= k < |s| && s[k] == ' '
    ensures ExecuteLine(s + "/" + comment, regs) == ExecuteLine(s, regs)
  {
    var line := s + "/" + comment;
    var k :| 0 <= k < |s| && s[k] == ' ';
    var i := FirstIndexOf(s, ' ', k);
    StrChrAt(s, ' ', i);
    StrChrAt(line, ' ', i);
    StrChrAbsent(s, '/');
    StrChrAt(line, '/', |s|);
    assert line[..i] == s[..i];
    if i == 3 {
      assert line[..3] == s[..3] && line[4..|s|] == s[4..|s|];
    }
  }

  /** The index of the first `c` in `s`, given that `s[k]` is one. */
  lemma FirstIndexOf(s: seq<Byte>, c: Byte, k: nat) returns (i: nat)
    requires k < |s| && s[k] == c
    ensures i <= k && s[i] == c && forall j :: 0 <= j < i ==> s[j] != c
  {
    i := k;
    while i > 0 && exists j :: 0 <= j < i && s[j] == c
      invariant i <= k && s[i] == c
      decreases i
    {
      var j :| 0 <= j < i && s[j] == c;
      i := j;
    }
  }

  /** `strchr` finds `c` at `i` when `s[i]` is the first `c` and no NUL comes before it. */
  lemma StrChrAt(s: seq<Byte>, c: Byte, i: nat)
    requires c != '\0' && i < |s| && s[i] == c
    requires forall k :: 0 <= k < i ==> s[k] != '\0' && s[k] != c
    ensures StrChr(s, c) == Some(i)
  {
    if i > 0 {
      StrChrAt(s[1..], c, i - 1);
    }
  }

  /** `strchr` finds nothing in a stretch without `c` and without NUL. */
  lemma StrChrAbsent(s: seq<Byte>, c: Byte)
    requires c != '\0' && Avoids(s, c)
    ensures StrChr(s, c) == None
  {
    if |s| > 0 {
      StrChrAbsent(s[1..], c);
    }
  }

  /*************************************************************************
   * Scanning one line
   *************************************************************************/

  /** The index of the first raw newline at or after `start`, or the end of the text. */
  function LineEnd(text: seq<Byte>, start: nat): (e: nat)
    requires start <= |text|
    ensures start <= e <= |text|
    ensures forall k :: start <= k < e ==> text[k] != '\n'
    ensures e < |text| ==> text[e] == '\n'
    decreases |text| - start
  {
    if start == |text| || text[start] == '\n' then start else LineEnd(text, start + 1)
  }

  /** The line ends at `e` when no newline comes before `e` and `e` is a newline or the end of the text. */
  lemma {:induction false} LineEndAt(text: seq<Byte>, start: nat, e: nat)
    requires start <= e <= |text| && (e == |text| || text[e] == '\n')
    requires forall k :: start <= k < e ==> text[k] != '\n'
    ensures LineEnd(text, start) == e
    decreases e - start
  {
    if start < e {
      LineEndAt(text, start + 1, e);
    }
  }

  datatype Scan = TooLong | Scanned(line: seq<Byte>)

  /**
   * The scan half of `step_interpreter`. The scan copies substituted bytes
   * up to the first raw newline or the end of the text. After each copied
   * byte that is neither a newline nor the last byte of the text, it checks
   * the ABSOLUTE position `pos` (not the position within the line) against
   * `BufSize`: the positions checked are those after `start` up to the
   * newline, or up to the last byte of the text.
   */
  function ScanLine(text: seq<Byte>, start: nat, regs: seq<Byte>): (r: Scan)
    requires start < |text| && |regs| == RegisterCount
    ensures r.Scanned? ==> |r.line| == LineEnd(text, start) - start <= BufSize
  {
    var e := LineEnd(text, start);
    var lastChecked := if e < |text| then e else |text| - 1;
    if start < lastChecked && lastChecked >= BufSize then TooLong
    else Scanned(SubstituteLine(text[start..e], regs))
  }

  /**
   * The scan stops with too-long once the position after a copied byte
   * reaches `BufSize` before the line has ended.
   */
  lemma ScanTooLong(text: seq<Byte>, start: nat, pos: nat, regs: seq<Byte>)
    requires start < pos < |text| && pos >= BufSize && |regs| == RegisterCount
    requires forall k :: start <= k < pos ==> text[k] != '\n'
    ensures ScanLine(text, start, regs) == TooLong
  {
    var e := LineEnd(text, start);
    assert e == |text| || text[e] == '\n';
  }

  /**
   * The scan stops with the whole line when it reaches the newline or the
   * end of the text at `e` and the last position it checked was the
   * cursor's own or below `BufSize`.
   */
  lemma ScanFits(text: seq<Byte>, start: nat, e: nat, regs: seq<Byte>)
    requires start < |text| && |regs| == RegisterCount
    requires start <= e <= |text| && (e == |text| || text[e] == '\n')
    requires forall k :: start <= k < e ==> text[k] != '\n'
    requires var lastChecked := if e < |text| then e else |text| - 1;
      lastChecked == start || lastChecked < BufSize
    ensures ScanLine(text, start, regs) == Scanned(SubstituteLine(text[start..e], regs))
  {
    LineEndAt(text, start, e);
  }

  /** A program of at most `BufSize` bytes never has a line that is too long. */
  lemma ShortTextFits(text: seq<Byte>, start: nat, regs: seq<Byte>)
    requires start < |text| <= BufSize && |regs| == RegisterCount
    ensures ScanLine(text, start, regs).Scanned?
  {
  }

  /**
   * A line that ends before byte `BufSize` of the text fits; a line longer
   * than `BufSize` bytes does not; and, because the position checked is
   * absolute, neither does any non-empty line that starts at or beyond
   * byte `BufSize - 1` with more text after its first byte, even a one-byte
   * line followed by its newline.
   */
  lemma LineLengthLimit(text: seq<Byte>, start: nat, regs: seq<Byte>)
    requires start < |text| && |regs| == RegisterCount
    ensures LineEnd(text, start) < BufSize ==> ScanLine(text, start, regs).Scanned?
    ensures LineEnd(text, start) - start > BufSize ==> ScanLine(text, start, regs) == TooLong
    ensures start + 1 >= BufSize && start + 1 < |text| && text[start] != '\n'
            ==> ScanLine(text, start, regs) == TooLong
  {
  }

  /*************************************************************************
   * One step and a whole run
   *************************************************************************/

  datatype Outcome = Failed(error: ErrorKind) | Executed(output: Byte, next: nat)

  /** What one call of `step_interpreter` does from the cursor `start`. */
  function StepSpec(text: seq<Byte>, start: nat, regs: seq<Byte>): (o: Outcome)
    requires start < |text| && |regs| == RegisterCount
    ensures o == Failed(LineTooLong) <==> ScanLine(text, start, regs) == TooLong
  {
    match ScanLine(text, start, regs)
    case TooLong => Failed(LineTooLong)
    case Scanned(line) =>
      match ExecuteLine(line, regs)
      case Err(e) => Failed(e)
      case Ok(b) => Executed(b, start + |line| + 1)
  }

  /**
   * A successful step moves the cursor strictly forward, to one past the
   * newline ending the line, or one past the end of the text when the line
   * was the last; a raw newline at the cursor is an empty-line error.
   */
  lemma StepAdvances(text: seq<Byte>, start: nat, regs: seq<Byte>)
    requires start < |text| && |regs| == RegisterCount
    ensures text[start] == '\n' ==> StepSpec(text, start, regs) == Failed(EmptyLine)
    ensures StepSpec(text, start, regs).Executed? ==>
      var next := StepSpec(text, start, regs).next;
      start + 1 < next <= |text| + 1 && next == LineEnd(text, start) + 1
      && (next <= |text| ==> text[next - 1] == '\n')
  {
  }

  /** With the registers as initialised, a step runs the raw source line. */
  lemma StepRunsRawLine(text: seq<Byte>, start: nat)
    requires start < |text|
    ensures ScanLine(text, start, InitialRegisters()).Scanned? ==>
      ScanLine(text, start, InitialRegisters()).line == text[start..LineEnd(text, start)]
  {
    SubstitutionWithInitialRegisters(text[start..LineEnd(text, start)]);
  }

  datatype RunOutcome = RunOutcome(output: seq<Byte>, error: Option<ErrorKind>)

  /**
   * The driver loop of main.c: step until the cursor reaches the end of the
   * text or a fatal error stops the run; the bytes written on the way.
   */
  function ExecuteProgram(text: seq<Byte>, start: nat, regs: seq<Byte>): RunOutcome
    requires start < |text| && |regs| == RegisterCount
    decreases |text| - start
  {
    match StepSpec(text, start, regs)
    case Failed(e) => RunOutcome([], Some(e))
    case Executed(b, next) =>
      StepAdvances(text, start, regs);
      if next >= |text| then RunOutcome([b], None)
      else
        var rest := ExecuteProgram(text, next, regs);
        RunOutcome([b] + rest.output, rest.error)
  }

  /**
   * Each line that writes a byte takes that line and its newline, at least
   * two bytes, except the last line of the text, so a run writes at most
   * one byte for every two bytes of text, rounded up.
   */
  lemma {:induction false} RunOutputBound(text: seq<Byte>, start: nat, regs: seq<Byte>)
    requires start < |text| && |regs| == RegisterCount
    ensures 2 * |ExecuteProgram(text, start, regs).output| <= |text| - start + 1
    decreases |text| - start
  {
    StepAdvances(text, start, regs);
    match StepSpec(text, start, regs)
    case Failed(e) =>
    case Executed(b, next) =>
      if next < |text| {
        RunOutputBound(text, next, regs);
      }
  }

  /** The verdict the driver sees at the end of a run. */
  function Verdict(run: RunOutcome): StepResult
  {
    match run.error
    case None => Done
    case Some(e) => Error(e)
  }

  /** One step of a run: the run from `start` is that step followed by the run from the next line. */
  lemma ExecuteProgramSteps(text: seq<Byte>, start: nat, regs: seq<Byte>)
    requires start < |text| && |regs| == RegisterCount
    ensures match StepSpec(text, start, regs)
      case Failed(e) => ExecuteProgram(text, start, regs) == RunOutcome([], Some(e))
      case Executed(b, next) =>
        start < next
        && (next >= |text| ==> ExecuteProgram(text, start, regs) == RunOutcome([b], None))
        && (next < |text| ==>
              ExecuteProgram(text, start, regs)
                == RunOutcome([b] + ExecuteProgram(text, next, regs).output,
                              ExecuteProgram(text, next, regs).error))
  {
    StepAdvances(text, start, regs);
  }

  /**
   * A step taken by the driver loop keeps the run on course: the bytes
   * written so far, followed by the run from the new cursor, are the bytes
   * of the whole run, and a step that ends the run ends it with the verdict
   * of the whole run.
   */
  lemma RunContinues(text: seq<Byte>, regs: seq<Byte>, before: nat, after: nat, r: StepResult,
                     written: seq<Byte>, total: RunOutcome, done: seq<Byte>)
    requires before < |text| && |regs| == RegisterCount
    requires total.output == done + ExecuteProgram(text, before, regs).output
    requires total.error == ExecuteProgram(text, before, regs).error
    requires match StepSpec(text, before, regs)
      case Failed(e) => r == Error(e) && written == []
      case Executed(b, next) =>
        after == next && written == [b] && r == (if next < |text| then More else Done)
    ensures r == More ==> before < after < |text|
    ensures r == More ==> total.output == done + written + ExecuteProgram(text, after, regs).output
    ensures r == More ==> total.error == ExecuteProgram(text, after, regs).error
    ensures r != More ==> done + written == total.output && r == Verdict(total)
  {
    ExecuteProgramSteps(text, before, regs);
    match StepSpec(text, before, regs)
    case Failed(e) =>
      assert ExecuteProgram(text, before, regs) == RunOutcome([], Some(e));
    case Executed(b, next) =>
      if next < |text| {
        var rest := ExecuteProgram(text, next, regs);
        assert ExecuteProgram(text, before, regs) == RunOutcome([b] + rest.output, rest.error);
        assert done + written + rest.output == done + ExecuteProgram(text, before, regs).output;
      } else {
        assert ExecuteProgram(text, before, regs) == RunOutcome([b], None);
      }
  }

  /** A program of at most `BufSize` bytes never stops because a line is too long. */
  lemma {:induction false} ShortProgramNeverTooLong(text: seq<Byte>, start: nat, regs: seq<Byte>)
    requires start < |text| <= BufSize && |regs| == RegisterCount
    ensures ExecuteProgram(text, start, regs).error != Some(LineTooLong)
    decreases |text| - start
  {
    StepAdvances(text, start, regs);
    ShortTextFits(text, start, regs);
    match StepSpec(text, start, regs)
    case Failed(e) =>
    case Executed(b, next) =>
      if next < |text| {
        ShortProgramNeverTooLong(text, next, regs);
      }
  }

  /** `PUT A` writes the letter A: register A holds its own code. */
  lemma PutRegisterExample()
    ensures ExecuteLine("PUT A", InitialRegisters()) == Result<Byte>.Ok('A')
  {
    var regs := InitialRegisters();
    assert "PUT A" == "PUT " + "A" + [];
    PutExecutes("A", [], regs);
    assert regs[RegisterIndex('A')] == 'A';
  }

  /**
   * `PUT` followed by the spelling of `n` writes the value the resolver
   * gives that spelling, or stops with an unhandled expression when the
   * resolver rejects it.
   */
  lemma PutSpelling(n: int)
    requires 0 <= n < 300
    ensures var v := ValueAsWritten(n);
      && (v < 0 ==> ExecuteLine("PUT " + Spell(n), InitialRegisters()) == Err(UnhandledExpression(Spell(n))))
      && (v >= 0 ==> ExecuteLine("PUT " + Spell(n), InitialRegisters()) == Result<Byte>.Ok(v as char))
  {
    var w := Spell(n);
    SpellingIsCapitalWord(n);
    SpellingParses(n);
    assert "PUT " + w == "PUT " + w + [];
    PutExecutes(w, [], InitialRegisters());
  }

  /** The comment after `/` is ignored: `PUT ONE/ ignored` writes byte 1. */
  lemma PutCommentExample()
    ensures ExecuteLine("PUT ONE/ ignored", InitialRegisters()) == Result<Byte>.Ok(1 as char)
  {
    assert ParseEnglishNumber("ONE") == 1 by {
      assert Spell(1) == "ONE";
      SpellingParses(1);
    }
    assert "PUT ONE/ ignored" == "PUT " + "ONE" + "/ ignored";
    PutExecutes("ONE", "/ ignored", InitialRegisters());
  }

  /**
   * A space before the comment stays in the operand, and no number word
   * ends in a space: `PUT e /c` stops with the unhandled expression `e `.
   */
  lemma SpaceBeforeCommentRejected(e: seq<Byte>, comment: seq<Byte>, regs: seq<Byte>)
    requires |regs| == RegisterCount
    requires |e| >= 1 && Avoids(e, '/')
    requires comment == [] || comment[0] == '/'
    ensures ExecuteLine("PUT " + e + " " + comment, regs) == Err(UnhandledExpression(e + " "))
  {
    assert "PUT " + e + " " + comment == "PUT " + (e + " ") + comment;
    PutExecutes(e + " ", comment, regs);
    TrailingSpaceRejected(e);
  }

  /** A line without a space is an invalid statement. */
  lemma NoSpaceExample()
    ensures ExecuteLine("PUTONE", InitialRegisters()) == Err(InvalidStatement("PUTONE"))
  {
    StrChrAbsent("PUTONE", ' ');
    StrChrAbsent("PUTONE", '/');
    assert ("PUTONE")[..6] == "PUTONE";
  }

  /** A statement name other than PUT is unrecognised. */
  lemma UnknownStatementExample()
    ensures ExecuteLine("GET A", InitialRegisters()) == Err(UnrecognisedStatementName("GET"))
  {
    StrChrAt("GET A", ' ', 3);
    assert ("GET A")[..3] == "GET";
  }

  /** A one-byte operand that is not a letter is an invalid register name. */
  lemma BadRegisterExample()
    ensures ExecuteLine("PUT 1", InitialRegisters()) == Err(InvalidRegisterName('1'))
  {
    assert "PUT 1" == "PUT " + "1" + [];
    PutExecutes("1", [], InitialRegisters());
  }

  /**
   * A line `PUT <letter>` ending before byte `BufSize` writes that letter,
   * with the registers as initialised, and moves the cursor past its newline.
   */
  lemma PutLetterStep(text: seq<Byte>, start: nat, c: Byte)
    requires IsRegisterName(c) && start + 5 <= |text| && start + 5 < BufSize
    requires text[start..start + 5] == "PUT " + [c]
    requires start + 5 == |text| || text[start + 5] == '\n'
    ensures StepSpec(text, start, InitialRegisters()) == Executed(c, start + 6)
  {
    var regs := InitialRegisters();
    var line := text[start..start + 5];
    assert forall k :: start <= k < start + 5 ==> text[k] == line[k - start];
    ScanFits(text, start, start + 5, regs);
    SubstitutionWithInitialRegisters(line);
    assert line == "PUT " + [c] + [];
    PutExecutes([c], [], regs);
    assert regs[RegisterIndex(c)] == c;
  }

  /** The program `PUT a`, newline, `PUT b` writes the letters a and b and ends without error. */
  lemma TwoLineProgram(a: Byte, b: Byte)
    requires IsRegisterName(a) && IsRegisterName(b)
    ensures ExecuteProgram("PUT " + [a] + "\n" + "PUT " + [b], 0, InitialRegisters()) == RunOutcome([a, b], None)
  {
    var text := "PUT " + [a] + "\n" + "PUT " + [b];
    var regs := InitialRegisters();
    assert text[0..5] == "PUT " + [a] && text[5] == '\n' && text[6..11] == "PUT " + [b];
    PutLetterStep(text, 0, a);
    PutLetterStep(text, 6, b);
    ExecuteProgramSteps(text, 6, regs);
    ExecuteProgramSteps(text, 0, regs);
  }

  /** A blank line after `PUT a` stops the run with an empty-line error, whatever follows it. */
  lemma BlankLineStopsRun(a: Byte, rest: seq<Byte>)
    requires IsRegisterName(a)
    ensures ExecuteProgram("PUT " + [a] + "\n\n" + rest, 0, InitialRegisters()) == RunOutcome([a], Some(EmptyLine))
  {
    var text := "PUT " + [a] + "\n\n" + rest;
    var regs := InitialRegisters();
    assert text[0..5] == "PUT " + [a] && text[5] == '\n' && text[6] == '\n';
    PutLetterStep(text, 0, a);
    StepAdvances(text, 6, regs);
    ExecuteProgramSteps(text, 6, regs);
    ExecuteProgramSteps(text, 0, regs);
  }

  /**
   * The whole run of main.c on the bytes of a file. An empty file is a
   * special case: `step_interpreter` then reads the NUL that main.c puts
   * after the file contents, and that NUL is the one byte of the line.
   */
  function RunProgram(text: seq<Byte>): RunOutcome
  {
    if |text| == 0 then
      match ExecuteLine("\0", InitialRegisters())
      case Err(e) => RunOutcome([], Some(e))
      case Ok(b) => RunOutcome([b], None)
    else ExecuteProgram(text, 0, InitialRegisters())
  }

  /** An empty file is an invalid statement: the line holding a lone NUL has no space. */
  lemma EmptyFileIsInvalid()
    ensures RunProgram([]) == RunOutcome([], Some(InvalidStatement("\0")))
  {
    assert ("\0")[..1] == "\0";
  }

  /*************************************************************************
   * The interpreter state and its operations
   *************************************************************************/

  /** `interpreter_state`; `text_len` is the length of `text`. */
  class Interpreter {
    const text: seq<Byte>
    var startPos: nat
    const registers: array<Byte>
    /** The bytes written by `putchar` so far. */
    ghost var output: seq<Byte>

    ghost predicate Valid()
      reads this
    {
      registers.Length == RegisterCount
    }

    /** `init_interpreter`: keep the text, put the cursor at 0, give each register its letter. */
    constructor (text: seq<Byte>)
      ensures Valid() && fresh(registers)
      ensures this.text == text && startPos == 0 && output == []
      ensures registers[..] == InitialRegisters()
    {
      this.text := text;
      startPos := 0;
      output := [];
      var regs := new Byte[RegisterCount];
      for i := 0 to RegisterCount
        invariant forall k :: 0 <= k < i ==> regs[k] as int == 'A' as int + k
      {
        regs[i] := ('A' as int + i) as char;
      }
      registers := regs;
    }

    /**
     * The scan loop of `step_interpreter`: copy the line at the cursor into
     * `lineBuf`, substituting letters, and NUL-terminate it, or report that
     * the absolute position reached `BufSize` before the line ended. Every
     * write stays below `BufSize + 1`.
     */
    method ScanInto(lineBuf: array<Byte>) returns (lineLen: nat, tooLong: bool)
      requires Valid() && startPos < |text| && lineBuf.Length == BufSize + 1
      requires lineBuf != registers
      modifies lineBuf
      ensures tooLong <==> ScanLine(text, startPos, registers[..]) == TooLong
      ensures !tooLong ==> lineLen <= BufSize && lineBuf[lineLen] == '\0'
                           && ScanLine(text, startPos, registers[..]) == Scanned(lineBuf[..lineLen])
    {
      ghost var regs := registers[..];
      var pos := startPos;
      var linePos: nat := 0;
      while true
        invariant startPos <= pos < |text| && linePos == pos - startPos
        invariant pos == startPos || pos < BufSize
        invariant forall k :: startPos <= k < pos ==> text[k] != '\n'
        invariant forall k :: 0 <= k < linePos ==> lineBuf[k] == Substitute(text[startPos + k], regs)
        invariant registers[..] == regs
        decreases |text| - pos
      {
        var inChar := text[pos];
        if IsRegisterName(inChar) {
          lineBuf[linePos] := registers[RegisterIndex(inChar)];
        } else {
          lineBuf[linePos] := inChar;
        }
        if inChar == '\n' {
          ghost var copied := lineBuf[..linePos];
          SubstitutedCopy(copied, text, startPos, regs);
          lineBuf[linePos] := '\0';
          assert lineBuf[..linePos] == copied;
          ScanFits(text, startPos, pos, regs);
          break;
        }
        assert lineBuf[linePos] == Substitute(inChar, regs);
        pos := pos + 1;
        linePos := linePos + 1;
        if !(pos < |text|) {
          ghost var copied := lineBuf[..linePos];
          SubstitutedCopy(copied, text, startPos, regs);
          lineBuf[linePos] := '\0';
          assert lineBuf[..linePos] == copied;
          ScanFits(text, startPos, pos, regs);
          break;
        }
        if !(pos < BufSize) {
          ScanTooLong(text, startPos, pos, regs);
          return 0, true;
        }
      }
      lineLen, tooLong := linePos, false;
    }

    /**
     * `step_interpreter`: scan the line at the cursor into a bounded buffer,
     * substituting letters, then parse and run it. On success the byte is
     * appended to `output`, the cursor moves past the line and the result
     * says whether the text is exhausted; the registers are never written.
     */
    method Step() returns (r: StepResult)
      requires Valid() && startPos < |text|
      modifies this
      ensures Valid() && registers[..] == old(registers[..])
      ensures match StepSpec(text, old(startPos), registers[..])
        case Failed(e) =>
          r == Error(e) && startPos == old(startPos) && output == old(output)
        case Executed(b, next) =>
          startPos == next && output == old(output) + [b]
          && r == (if next < |text| then More else Done)
    {
      ghost var regs := registers[..];
      var lineBuf := new Byte[BufSize + 1];
      var lineLen, tooLong := ScanInto(lineBuf);
      if tooLong {
        return Error(LineTooLong);
      }
      var line := lineBuf[..lineLen];
      ghost var executed := ExecuteLine(line, regs);

      if lineLen == 0 {
        return Error(EmptyLine);
      }
      var slashPos := StrChr(line, '/');
      var statementLen := if slashPos.Some? then slashPos.value else lineLen;
      assert statementLen == StatementLength(line);
      var spacePos := StrChr(line, ' ');
      if spacePos.None? {
        assert executed == Err(InvalidStatement(line[..statementLen]));
        return Error(InvalidStatement(line[..statementLen]));
      }
      var nameLen := spacePos.value;
      if nameLen == 3 && line[..3] == "PUT" {
        assert line[3] == ' ' && forall k :: 0 <= k < 3 ==> line[k] != '/';
        var result := Evaluate(line[4..statementLen], registers[..]);
        assert executed == result;
        if result.Err? {
          return Error(result.error);
        }
        output := output + [result.value];
      } else {
        assert executed == Err(UnrecognisedStatementName(line[..nameLen]));
        return Error(UnrecognisedStatementName(line[..nameLen]));
      }
      startPos := startPos + lineLen + 1;
      if !(startPos < |text|) {
        r := Done;
      } else {
        r := More;
      }
    }

    /**
     * The driver loop of main.c, `while (!step_interpreter(&state))`: run
     * lines until the text is exhausted or a step fails.
     */
    method Run() returns (r: StepResult)
      requires Valid() && startPos < |text|
      modifies this
      ensures Valid() && registers[..] == old(registers[..])
      ensures output == old(output) + ExecuteProgram(text, old(startPos), registers[..]).output
      ensures r == Verdict(ExecuteProgram(text, old(startPos), registers[..]))
    {
      ghost var regs := registers[..];
      ghost var total := ExecuteProgram(text, startPos, regs);
      ghost var done: seq<Byte> := [];
      r := More;
      while r == More
        invariant Valid() && registers[..] == regs
        invariant output == old(output) + done
        invariant r == More ==> startPos < |text|
        invariant r == More ==> total.output == done + ExecuteProgram(text, startPos, regs).output
        invariant r == More ==> total.error == ExecuteProgram(text, startPos, regs).error
        invariant r != More ==> done == total.output && r == Verdict(total)
        decreases if r == More then |text| - startPos + 1 else 0
      {
        ghost var before := startPos;
        ghost var o := StepSpec(text, before, regs);
        ghost var written: seq<Byte> := if o.Executed? then [o.output] else [];
        r := Step();
        RunContinues(text, regs, before, startPos, r, written, total, done);
        done := done + written;
      }
    }
  }

  /**
   * The driver of main.c after the file is read: initialise the state and
   * step until a step reports the end of the text; a fatal error ends the
   * run early.
   */
  method Interpret(text: seq<Byte>) returns (r: StepResult, state: Interpreter)
    ensures fresh(state) && state.Valid()
    ensures state.output == RunProgram(text).output
    ensures r == Verdict(RunProgram(text))
  {
    state := new Interpreter(text);
    if |text| == 0 {
      EmptyFileIsInvalid();
      r := Error(InvalidStatement("\0"));
    } else {
      r := state.Run();
    }
  }
}
