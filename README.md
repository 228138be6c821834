# DevPerc.c line interpreter and number-word resolver, in Dafny

DevPerc (Deviating Percolator) is an esoteric language in which the letters
A..Z of the program text are 26 one-byte registers: every line is scanned
byte by byte, each letter replaced by the value of its register, and only
then parsed as a statement. The C implementation has two parts worth
modelling, and this project models both:

- `numbers.dfy` (module `Numbers`): the English number-word resolver of
  `numbers.c`. It is a pure function from a byte span to -1 or a byte value.
  It dispatches on exact length, compares against fixed words and resolves
  compound words by prefix plus remainder. Next to it is the canonical
  spelling grammar (`Spell`, 0..299), used as the reference. Lemmas relate
  the two in both directions: every spelling resolves to the value the code
  gives it (`SpellingParses`), and every accepted word is a spelling
  (`AcceptedWordIsSpelling`).
- `interpreter.dfy` (module `Interpreter`): the line interpreter of
  `interpreter.c`, with the state record of `interpreter.h`. Pure functions
  state what one step does:
  - `ScanLine`: the scan with substitution and the buffer limit;
  - `ExecuteLine`: the comment and space split and the PUT dispatch;
  - `Evaluate`: `interpret_expression`;
  - `StepSpec`: one whole step;
  - `ExecuteProgram` / `RunProgram`: the driver loop of `main.c`.

  The class `Interpreter` keeps `text`, the cursor `startPos` and the
  26-entry register array. Its methods:
  - the constructor (`init_interpreter`, with its `for` loop);
  - `ScanInto` (the `while (true)` scan loop over a `BufSize + 1` byte buffer);
  - `Step` (`step_interpreter`);
  - `Run` (`while (!step_interpreter(&state))`).

  Each method is proved against those functions. `putchar` appends to a
  ghost `output` sequence. Every fatal error becomes an `ErrorKind` in the
  result instead of a message and `exit`.

A byte of program text is `Byte`, a `char` whose code is below 256, so that
words like `"ONE"` can be written as string literals. `text_len` is the
length of `text`.

### Quirks of the code as written

The model keeps these behaviours of the C code:

- `MATCH_PREFIX_AND_TRY_SUFFIX("FIFTY", 40, units)` gives FIFTY compounds
  the base 40. So FIFTYFIVE resolves to 45, the value of FORTYFIVE
  (`FiftyCompoundsAreFortyCompounds`), and TWOHUNDREDANDFIFTYFIVE resolves
  to 245 (`TwoHundredAndFiftyFiveIs245`). No word resolves above 250
  (`ParseEnglishNumberAtMost250`), and two distinct words can share a value.
- Compounds of eight bytes (FORTY, FIFTY or SIXTY followed by ONE, TWO or
  SIX) reach the `case 8` teen branch, which rejects them. The compound
  prefixes are tried only in the `default` branch.
- There is no SEVENTEEN case, so 17, 117 and 217 have no word.
- The line-too-long test compares the absolute text position with
  `BUF_SIZE`, not the position within the line. So a non-empty line whose
  newline lies at byte 1024 or later is rejected, however short it is.
- The newline test is on the raw source byte, not the substituted one.
- A space before the `/` of a comment stays in the operand. So `PUT ONE / x`
  evaluates `ONE ` with its trailing space, and no number word ends in a
  space, so the line stops with an unhandled expression
  (`SpaceBeforeCommentRejected`).
- The scan and parse errors (line too long, empty line, invalid statement,
  unrecognised statement name) report a character position of the text;
  the two expression errors report none. `PUT` is the only
  statement, and no register is ever written, so substitution with the
  initial registers leaves every line unchanged
  (`SubstitutionWithInitialRegisters`).

## Model

| member | source | states |
|---|---|---|
| `Numbers.ParseUnits` | numbers.c:45-65 | the result is -1 or a digit 1..9 |
| `Numbers.UnitsAreExact` | numbers.c:45-65 | whatever `_units` accepts is exactly the word of its digit, so a unit word matches only at its own length |
| `Numbers.UnitWordParses` | numbers.c:45-65 | every unit word resolves to its digit |
| `Numbers.ParseTens` | numbers.c:67-86 | the result is -1 or a round ten 20..90 |
| `Numbers.TensAreExact` | numbers.c:67-86 | whatever `_tens` accepts is exactly the word of its round ten |
| `Numbers.TensWordParses` | numbers.c:88-94 | in `_tens_and_units`, after units fail, each round ten TWENTY..NINETY resolves to its value |
| `Numbers.TeenWordParses` | numbers.c:95-112 | TEN..NINETEEN resolve to 10..19 by the length cases 3/6/7/8, except SEVENTEEN, which gives -1 |
| `Numbers.SeventeenRejected` | numbers.c:95-122 | SEVENTEEN matches no teen case and no compound prefix, so it gives -1 |
| `Numbers.MatchesPrefix` | numbers.c:22-27 | the `MATCH_PREFIX` condition: the span starts with the prefix and leaves a remainder of at least three bytes |
| `Numbers.PrefixThenUnits` | numbers.c:29-43 | `MATCH_PREFIX_AND_TRY_SUFFIX` with `_units`: the base plus the unit value of the remainder when the prefix matches and the remainder is a unit word, and -1 (fall through) otherwise |
| `Numbers.ParseTensAndUnits` | numbers.c:88-125 | the result is -1 or a value in 1..99 |
| `Numbers.ParseCompound` | numbers.c:113-122 | the compound branch gives -1 or a value in 21..99 |
| `Numbers.CompoundPrefixParses` | numbers.c:113-122 | the compound branch reads a tens word followed by a unit word as the prefix's base plus the unit, the base of FIFTY being 40 |
| `Numbers.EightByteCompoundRejected` | numbers.c:107-112 | FORTY, FIFTY or SIXTY followed by ONE, TWO or SIX is eight bytes long and gives -1 |
| `Numbers.CompoundParses` | numbers.c:107-122 | a tens word plus a unit word gives the prefix's base plus the unit, the base of FIFTY being 40; the eight-byte compounds give -1 |
| `Numbers.SpellTensAndUnitsParses` | numbers.c:88-125 | the canonical spelling of m in 1..99 resolves to m, except 17 and the eight-byte compounds (-1) and 53..55 and 57..59 (m - 10) |
| `Numbers.PrefixThenUnitsSpelled` | numbers.c:22-43 | a prefix match that accepts the span splits it into the prefix followed by the word of a digit 1..9 |
| `Numbers.PrefixThenUnitsIsCompound` | numbers.c:113-122 | a span accepted by a tens prefix is the spelling of some compound number in 21..99 |
| `Numbers.CompoundIsSpelled` | numbers.c:113-122 | every span the compound branch accepts is the spelling of some number in 21..99 |
| `Numbers.TensAndUnitsIsSpelled` | numbers.c:88-125 | every span `_tens_and_units` accepts is the spelling of some number in 1..99 |
| `Numbers.ParseEnglishNumber` | numbers.c:127-146 | the result is -1 or a byte value 0..255 |
| `Numbers.RoundValuesHaveOneWord` | numbers.c:129-131 | the result is 0, 100 or 200 if and only if the span is exactly ZERO, ONEHUNDRED or TWOHUNDRED |
| `Numbers.HundredAndIsNotTensAndUnits` | numbers.c:141-145 | a span starting ONEHUNDREDAND or TWOHUNDREDAND is rejected by the final tens-and-units fallback |
| `Numbers.OneHundredAndParses` | numbers.c:132 | ONEHUNDREDAND plus w gives 100 + `_tens_and_units(w)` when w has at least three bytes and that value is non-negative, and -1 otherwise |
| `Numbers.TwoHundredAndParses` | numbers.c:133-145 | TWOHUNDREDAND plus w gives 200 + v only when w has at least three bytes, v >= 0 and 200 + v <= 255; otherwise it falls through to the whole-span fallback and gives -1 |
| `Numbers.SpellingParses` | numbers.c:127-146 | the canonical spelling of every n in 0..299 resolves to the value the code gives it (`ValueAsWritten`) |
| `Numbers.SpellingRoundTrip` | numbers.c:127-146 | every byte value whose last two digits avoid 17, the eight-byte compounds and 51..59 resolves from its spelling back to itself |
| `Numbers.AcceptedWordIsSpelling` | numbers.c:127-146 | every accepted span is the canonical spelling of some n in 0..299 and resolves to the value the code gives that spelling |
| `Numbers.ParseEnglishNumberAtMost250` | numbers.c:117 | because FIFTY has base 40, no span resolves above 250 |
| `Numbers.AcceptedWordIsCapitalWord` | numbers.c:127-146 | every span the resolver accepts is at least three bytes long and made only of the letters A..Z |
| `Numbers.TrailingSpaceRejected` | numbers.c:127-146 | a span that ends in a space resolves to -1 |
| `Numbers.FiftyFiveIs45` | numbers.c:117 | FIFTYFIVE resolves to 45 |
| `Numbers.FiftyCompoundsAreFortyCompounds` | numbers.c:116-117 | for every unit u, FIFTY followed by u resolves to the same value as FORTY followed by u |
| `Numbers.FortyOneRejected` | numbers.c:107-112 | FORTYONE, an eight-byte compound, resolves to -1 |
| `Numbers.TwoHundredAndFiftyFiveIs245` | numbers.c:133-140 | TWOHUNDREDANDFIFTYFIVE resolves to 245 |
| `Numbers.TwoHundredAndFiftyIs250` | numbers.c:133-140 | TWOHUNDREDANDFIFTY resolves to 250 |
| `Numbers.TwoHundredAndFiftySixRejected` | numbers.c:133-145 | TWOHUNDREDANDFIFTYSIX resolves to -1, because its remainder is an eight-byte compound |
| `Numbers.TwoHundredAndSixtyRejected` | numbers.c:133-145 | TWOHUNDREDANDSIXTY resolves to -1, because 260 exceeds 255 and the fallback rejects the whole span |
| `Interpreter.InitialRegisters` | interpreter.c:21-23 | the register file has 26 entries and entry i holds 'A' + i |
| `Interpreter.Interpreter.constructor` | interpreter.c:11-24 | after initialisation, text is stored unchanged, the cursor is 0, nothing has been output and register i holds 'A' + i |
| `Interpreter.Substitute` | interpreter.c:63-68 | the byte stored for a source byte: the value of its register for A..Z, the byte itself otherwise |
| `Interpreter.SubstituteLine` | interpreter.c:60-68 | a stretch of source text with each byte substituted; it has the stretch's length |
| `Interpreter.SubstitutedCopy` | interpreter.c:63-68 | a buffer holding the substitute of each source byte from the cursor on holds the substituted line |
| `Interpreter.SubstitutionWithInitialRegisters` | interpreter.c:63-68 | with the registers as initialised, substituting a line leaves it unchanged |
| `Interpreter.CStringLength` | interpreter.c:72-81 | the index of the first NUL of the line buffer, where the C string the searches see ends: no NUL comes before it, and it is the line's length when the line holds no NUL |
| `Interpreter.StrChr` | interpreter.c:101 | `strchr` gives the index of the first occurrence before the first NUL, or none if there is no occurrence before it |
| `Interpreter.StatementLength` | interpreter.c:101-105 | the statement length is the index of the first `/` before the line's first NUL, or the whole line when no `/` comes before it |
| `Interpreter.Evaluate` | interpreter.c:31-49 | a one-byte span in A..Z yields that register; any other one-byte span is an invalid register name; a longer or empty span yields the resolver's value, at most 250, or an unhandled-expression error when the resolver gives a negative result |
| `Interpreter.ExecuteLine` | interpreter.c:95-124 | an empty line is an empty-line error; a line with no space before its NUL is an invalid statement quoting the statement; a line whose first space is not at index 3 after `PUT` is an unrecognised statement name quoting the bytes before that space; a line succeeds only when it starts with `PUT `, the statement is at least four bytes, and the result is the value of bytes 4 to the statement's end |
| `Interpreter.PutLineEvaluates` | interpreter.c:113-119 | every line starting `PUT ` (its first space at index 3, after `PUT`) has a statement of at least four bytes and does exactly what its operand, bytes 4 to the statement's end, evaluates to, success or error |
| `Interpreter.PutExecutes` | interpreter.c:115-120 | `PUT ` plus e, optionally followed by a comment, outputs the value of e |
| `Interpreter.CommentIgnored` | interpreter.c:100-113 | for a statement with a space and no `/`, appending a `/` comment does not change what the line does |
| `Interpreter.SpaceBeforeCommentRejected` | interpreter.c:101-119 | `PUT ` plus an operand of at least one byte plus a space, optionally followed by a `/` comment, is an unhandled expression of the operand with its trailing space |
| `Interpreter.LineEnd` | interpreter.c:60-82 | the line runs from the cursor to the first raw newline, or to the end of the text |
| `Interpreter.ScanLine` | interpreter.c:58-88 | the scan of one line: too long when a position checked after a copied byte is past the cursor and at least `BUF_SIZE`, and otherwise the substituted line up to the raw newline, which is never longer than `BUF_SIZE` |
| `Interpreter.LineEndAt` | interpreter.c:60-82 | the line ends at e exactly when no raw newline comes before e and e is a newline or the end of the text |
| `Interpreter.ScanTooLong` | interpreter.c:76-87 | once the absolute position after a copied byte reaches `BUF_SIZE` before the line has ended and more text remains, the scan reports too-long |
| `Interpreter.ScanFits` | interpreter.c:60-82 | a scan that meets the newline or the end of the text without a too-long test failing yields the substituted line |
| `Interpreter.StepSpec` | interpreter.c:53-137 | a step fails with line-too-long if and only if the scan reports it |
| `Interpreter.ShortTextFits` | interpreter.c:84-87 | in a text of at most `BUF_SIZE` bytes, no line is too long |
| `Interpreter.LineLengthLimit` | interpreter.c:76-87 | a line ending before byte `BUF_SIZE` fits; a line longer than `BUF_SIZE` does not; nor does any non-empty line that starts at or after byte `BUF_SIZE - 1` with more text after its first byte, even a one-byte line followed by its newline |
| `Interpreter.StepAdvances` | interpreter.c:95-136 | a raw newline at the cursor is an empty-line error; after a successful step the cursor moves strictly forward, to one past the line's newline or one past the end of the text |
| `Interpreter.StepRunsRawLine` | interpreter.c:58-82 | with the registers as initialised, the scanned line is exactly the raw source bytes from the cursor to the newline |
| `Interpreter.ExecuteProgram` | main.c:54-55 | the driver loop from a cursor: the bytes of the steps up to the one that ends the text or fails, and that failure's error |
| `Interpreter.ExecuteProgramSteps` | main.c:54-55 | a run from the cursor is one step followed by the run from the next line; a failed step ends it with that error, and a step that reaches the end of the text ends it without one |
| `Interpreter.RunOutputBound` | interpreter.c:95-136 | a run writes at most one byte for every two bytes of text, rounded up, since every line that writes takes a byte and its newline, except the last line |
| `Interpreter.RunContinues` | main.c:54-55 | after one step of the driver loop, the bytes written so far followed by the run from the new cursor are the whole run's bytes; a step that stops the loop yields the whole run's verdict |
| `Interpreter.ShortProgramNeverTooLong` | interpreter.c:84-87 | a program of at most `BUF_SIZE` bytes never stops with line-too-long |
| `Interpreter.PutRegisterExample` | interpreter.c:33-40 | `PUT A` outputs the letter A |
| `Interpreter.PutSpelling` | interpreter.c:41-48 | `PUT` followed by the spelling of any n in 0..299 outputs the resolver's value for it, or is an unhandled expression when the resolver rejects it |
| `Interpreter.PutCommentExample` | interpreter.c:101-105 | `PUT ONE/ ignored` outputs byte 1 |
| `Interpreter.NoSpaceExample` | interpreter.c:108-112 | `PUTONE` is an invalid statement |
| `Interpreter.UnknownStatementExample` | interpreter.c:116-124 | `GET A` is an unrecognised statement name |
| `Interpreter.BadRegisterExample` | interpreter.c:34-38 | `PUT 1` is an invalid register name |
| `Interpreter.PutLetterStep` | interpreter.c:58-136 | a line `PUT` plus a letter, ending before `BUF_SIZE`, outputs that letter and moves the cursor past its newline |
| `Interpreter.TwoLineProgram` | main.c:54-55 | for any letters a and b, the program `PUT a`, newline, `PUT b` outputs a then b and ends without error |
| `Interpreter.BlankLineStopsRun` | interpreter.c:95-98 | after `PUT a` and a newline, a blank line stops the run with an empty-line error, whatever follows |
| `Interpreter.RunProgram` | main.c:49-55 | the run of a whole file: the driver loop from cursor 0 with the initial registers; for an empty file, the step on the NUL that main.c puts after the contents |
| `Interpreter.EmptyFileIsInvalid` | main.c:49-55 | an empty file is an invalid statement: the step reads the NUL that terminates the buffer as the line's one byte |
| `Interpreter.Interpreter.ScanInto` | interpreter.c:57-88 | given a line buffer of `BUF_SIZE + 1` bytes that is not the register file, the scan loop reports too-long exactly when `ScanLine` does, and otherwise leaves the substituted line in the buffer, NUL-terminated |
| `Interpreter.Interpreter.Step` | interpreter.c:53-137 | registers are unchanged; a failing step returns its error and changes nothing else; a successful step appends its byte to the output, moves the cursor to the start of the next line, and returns Done exactly when the cursor has reached the end of the text |
| `Interpreter.Interpreter.Run` | main.c:54-55 | stepping until a step does not say More outputs exactly the bytes of `ExecuteProgram` and ends with its verdict; the loop terminates because the cursor strictly increases |
| `Interpreter.Interpret` | main.c:51-55 | initialising and running a file outputs exactly the bytes of `RunProgram` and ends with its verdict |

## Left out

- File opening, size query, reading, allocation and the argument check in
  main.c are I/O. The model starts from the bytes of the file.
- The message texts and "character %zu" positions of the errors, and
  `exit(EXIT_FAILURE)`, are left out. Each error is an `ErrorKind` carrying
  the span the message quotes (`printf` stops printing it at a NUL), and the
  run stops there.
- `putchar` is modelled as appending to the ghost sequence `output`. The
  actual writing to standard output is left out.
- random.c is left out: its function is never called.
- `size_t` and `int` widths are left out. Positions are bounded by the text
  length, and every resolver value fits an `int`, so no wrap-around is
  reachable. A byte cast by `unsigned char` from a result of at most 250
  keeps its value.
- The register file is never written after initialisation. `Step` and
  `Run` take each step's registers as `registers` and prove them
  unchanged.
