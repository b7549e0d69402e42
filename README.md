# KL27 assembler, modelled in Dafny

This project models `kl27_compile` in `compiler/compiler.py`, the two-pass assembler for the KL27 virtual machine, and proves properties of that model.

- **Pass one** walks the source lines with a cursor. It classifies each stripped line as blank, `//` comment, `#` directive, `name:` label, or instruction. A `#include` splices lines in ahead of the cursor. Labels are recorded in an insertion-ordered table as (id, address). Each instruction's encoder output is appended to the code, and the code pointer advances by its length.
- **Pass two** (`fix_jumps`) replaces every label placeholder with the two big-endian bytes of the label's **id**. The loader maps ids to addresses through the label table. Pass two also collects the referenced labels, so that every other label except the entry point can be reported as unused.
- **The emitter** writes the module:
  - a 16-byte header: `KL27`, version 1, compression 0, the entry address, stack size 4 and a zero checksum;
  - the label table: a 2-byte count, one `>hi` record per label, and six `0xFF` bytes;
  - the code bytes.

Files, one module each:

| file | module | what it holds |
|---|---|---|
| `bytes.dfy` | `BigEndian` | bytes, big-endian values, `to_bytes` and the signed `struct.pack` range |
| `text.dfy` | `Text` | `strip`, first-space split, ASCII `upper`, a quote-free `shlex.split` |
| `literals.dfy` | `Literals` | `int(text, 0)` |
| `encoders.dfy` | `Encoders` | segments, `R_MAP`, the `compile_*` encoders, the instruction table |
| `errors.dfy` | `Errors` | the ways a run stops, and the warnings |
| `labels.dfy` | `Labels` | the `OrderedDict` label table |
| `preprocessor.dfy` | `Preprocessor` | `process_include` over a map from path to lines |
| `driver.dfy` | `Driver` | the scan loop: per-line step function, whole-scan function, and the `Scan`/`Turn`/`Assemble` methods proved equal to them |
| `fixup.dfy` | `Fixup` | placeholder resolution, the `FixJumps` loop, the unused-label report |
| `emitter.dfy` | `Emitter` | header and label table bytes, and a reader for the layout used in the round-trip lemmas |
| `compiler.dfy` | `Compiler` | the whole run: `CompileSpec`, the `Compile` method and end-to-end lemmas |

Each loop of the source is a Dafny method with a loop, proved equal to a specification function:
- the scan loop is `Scan`;
- the fixup loop is `FixJumps`;
- the label-table loop is `BuildLabelSection`;
- the unused-label loop is `ReportUnused`.

The properties are proved about those functions.

The scan takes its instruction table as a parameter, mirroring the source's lookup of `compile_<mnemonic>` in `globals()`. `Encoders.Dispatch` is the table the assembler uses. `CompileSpec` takes the table too: the end-to-end lemmas hold for any table, and the `Compile` method runs with `Encoders.Dispatch`. The scan lemmas that depend on particular encoders require that table.

Behaviour of the source that the model reproduces on purpose:
- `compile_jmpl` has no `return`, so it gives back `None`. `code.extend(None)` then raises, so a `jmpl` line always aborts the run (`ExtendNone`).
- A redefined label takes the current table size as its id, not its old id. It keeps its position in the table. Two labels can then share an id (`Driver.RedefinedIdsCollide`).
- `#include` always consumes the first line of the included file as a possible `#ID` guard. That line is never spliced in, even when it is not a guard.
- The four errors the assembler reports itself return exit status 1: unknown directive, missing label context, unknown instruction and missing entry point. All other failures are Python exceptions, and each is a distinct `Error` value here.

## Model

| member | source | states |
|---|---|---|
| BigEndian.BE | compiler/compiler.py:31 | n written as w bytes is w bytes long and reads back as n |
| BigEndian.ToBytes | compiler/compiler.py:66 | `to_bytes(w, "big")` succeeds iff 0 <= v < 256^w; the result is w bytes reading back as v |
| BigEndian.PackSigned | compiler/compiler.py:320 | a signed `struct.pack` field of w bytes succeeds iff v < 2^(8w-1); it is w bytes, reads back as v, and its sign bit is clear |
| Text.StripLeftSpec | compiler/compiler.py:239 | `lstrip` removes exactly the leading whitespace and leaves a suffix that starts with non-whitespace |
| Text.StripRightSpec | compiler/compiler.py:239 | `rstrip` removes exactly the trailing whitespace and leaves a prefix that ends with non-whitespace |
| Text.StripSpec | compiler/compiler.py:239 | the stripped line is a slice of the line that neither starts nor ends with whitespace, and text without whitespace is unchanged |
| Text.StripAround | compiler/compiler.py:239 | whitespace around a text that starts and ends with something else is exactly what stripping removes |
| Text.StripIdempotent | compiler/compiler.py:239 | stripping twice equals stripping once |
| Text.SplitAtSpaceSpec | compiler/compiler.py:281 | the mnemonic has no space; when the line has a space it is mnemonic + " " + operand, otherwise the operand is empty |
| Text.SplitJoin | compiler/compiler.py:293 | splitting `a + " " + b` at the first space gives back (a, b) for any a without a space |
| Text.UpperSpec | compiler/compiler.py:94 | `upper` keeps the length and maps character by character |
| Text.UpperIdempotent | compiler/compiler.py:102 | upper-casing twice equals upper-casing once |
| Text.WordSpec | compiler/compiler.py:206 | a word is the longest separator-free prefix |
| Text.TokensSpec | compiler/compiler.py:206 | every shell word is non-empty and contains no separator |
| Text.WordOf | compiler/compiler.py:206 | a separator-free run ended by a separator or by the end of the text is the first word |
| Text.TokensSeparator | compiler/compiler.py:206 | a leading separator starts no word |
| Text.TokensWord | compiler/compiler.py:206 | a non-empty separator-free run ended by a separator or the end is the first word, followed by the words of the rest |
| Literals.ParseDigits | compiler/compiler.py:65 | a numeral parses iff it is non-empty and all its characters are digits of the base |
| Literals.Numeral | compiler/compiler.py:65 | the shortest numeral of n is non-empty, spaceless and all digits; it starts with 0 iff n is 0 |
| Literals.ParseNumeral | compiler/compiler.py:65 | reading the numeral of n in any base from 2 to 36 gives back n |
| Literals.DecimalLiteral | compiler/compiler.py:65 | `int(text, 0)` reads every decimal numeral as its value |
| Literals.HexLiteral | compiler/compiler.py:172 | `int(text, 0)` reads the shortest lower-case `0x` numeral of n as n |
| Literals.PrefixedLiteral | compiler/compiler.py:65 | after `0x`, `0X`, `0o`, `0O`, `0b` or `0B` the digits are read in that base, whatever their case or leading zeros, and the literal is rejected exactly when they are empty or not all digits of the base |
| Literals.DecimalUnsigned | compiler/compiler.py:65 | without a prefix a numeral starting with 1 to 9 is read in base 10, and one starting with 0 is accepted only as all zeros, giving 0 |
| Literals.SignedLiteral | compiler/compiler.py:65 | surrounding whitespace is ignored, and an optional `+` or `-` is applied to the unsigned literal's value; the literal fails exactly when the unsigned part does |
| Encoders.Seg.Len | compiler/compiler.py:34-35 | a placeholder always counts 2 bytes |
| Encoders.Flatten | compiler/compiler.py:352 | the joined bytes of a placeholder-free list are exactly its total length |
| Encoders.Unit | compiler/compiler.py:50-52 | an instruction unit is 4 bytes |
| Encoders.RegisterMapOneToOne | compiler/compiler.py:38-44 | each register index from 0 to 10 belongs to exactly one name, and every index is at most 10 |
| Encoders.ParseMnemonic | compiler/compiler.py:284-286 | the encoder lookup is exact and case-sensitive: found iff some mnemonic has that name |
| Encoders.MnemonicNamesDistinct | compiler/compiler.py:284-286 | no two mnemonics share a name |
| Encoders.ParseMnemonicName | compiler/compiler.py:284-291 | each mnemonic is found under its own name |
| Encoders.FixedUnits | compiler/compiler.py:50-87 | `nop` and `hlt` are the units 0x00/0x01 with operand 0, as is `jmpa` with 0x23; `llbl` is opcode 4 then the placeholder (4 bytes) |
| Encoders.RetUnits | compiler/compiler.py:144-157 | `ret` is the units `rgr R7` and `jmpa`: placeholder-free and 8 bytes |
| Encoders.NumericUnit | compiler/compiler.py:62-77 | `sl`, `spop` and `add` succeed iff the operand value is in 0..65535; they fail with the literal error or the range error otherwise; on success they are the unit (opcode, value); empty `spop` means 1, empty `add` means 0, empty `sl` fails |
| Encoders.SlUnit | compiler/compiler.py:62-66 | `sl` fails with the literal error on malformed text and with the range error outside 0..65535, and is otherwise the unit (0x02, value) |
| Encoders.SpopUnit | compiler/compiler.py:69-77 | `spop` behaves like `sl` with opcode 0x03, except that an empty operand means 1 |
| Encoders.AddUnit | compiler/compiler.py:168-178 | `add` behaves like `sl` with opcode 0x30, except that an empty operand means 0 |
| Encoders.LiteralUnitValue | compiler/compiler.py:65-66 | `[opcode, int(text, 0).to_bytes(2, "big")]` succeeds iff the text parses to a value in 0..65535, and is then the unit (opcode, value) |
| Encoders.AddSentinel | compiler/compiler.py:168-178 | `add` with no operand and `add 0` encode identically |
| Encoders.RegisterOperand | compiler/compiler.py:91-104 | `rgw`/`rgr` succeed iff the upper-cased name is a register; on success they are the unit (opcode, register index); otherwise they fail naming it |
| Encoders.RegisterUnitValue | compiler/compiler.py:94-96 | `[opcode, R_MAP[text.upper()].to_bytes(2, "big")]` succeeds iff the upper-cased name is a register, and is then the unit (opcode, register index); otherwise the KeyError names it |
| Encoders.JmprHeadUnits | compiler/compiler.py:133-136 | the first three units of `jmpr` are exactly what `rgr PC`, `add 0x10` and `rgw R7` encode to |
| Encoders.RegisterCaseInsensitive | compiler/compiler.py:94 | a register operand and its upper-case form encode alike |
| Encoders.JmprExpansion | compiler/compiler.py:122-141 | `jmpr` is the units `rgr 10`, `add 0x10`, `rgw 7`, followed by the list `jmpl` builds |
| Encoders.JmplIsLlblJmpa | compiler/compiler.py:108-119 | the list `jmpl` builds is `llbl <label>` followed by the `jmpa` unit |
| Encoders.JmprLength | compiler/compiler.py:122-141 | `jmpr` is 20 bytes, and its `add` operand 0x10 equals the byte length of the four units after the `rgr PC` unit |
| Encoders.JmplDropsItsList | compiler/compiler.py:108-119 | `jmpl` returns None although its discarded list is 8 bytes |
| Encoders.EncodedLength | compiler/compiler.py:50-178 | every successful encoding is 4 bytes per unit: 4 for a primitive, 8 for `ret`, 20 for `jmpr` |
| Encoders.EncodedShape | compiler/compiler.py:50-178 | every encoder outcome that is a list has 4 bytes per unit, and a primitive one starts with the bytes 0 and its opcode |
| Encoders.EncodeOutcome | compiler/compiler.py:50-178 | only `jmpl` returns None, and only the numeric and register encoders raise |
| Encoders.PrimitiveOpcode | compiler/compiler.py:50-178 | a successful primitive encoding begins with its 2-byte opcode |
| Encoders.Dispatch | compiler/compiler.py:284-291 | the instruction table has no entry for a mnemonic iff no mnemonic has that name |
| Encoders.DispatchName | compiler/compiler.py:284-291 | the table entry under each mnemonic's name calls that mnemonic's encoder on the operand |
| Encoders.DispatchJmpl | compiler/compiler.py:108-119 | `jmpl` is in the table, and what it gives back is None |
| Encoders.DispatchLength | compiler/compiler.py:296-298 | a list from the table is 4 bytes for each unit of the mnemonic named |
| Labels.IndexOf | compiler/compiler.py:264 | the position found holds the name and is the first such position; None iff the name is not a key |
| Labels.Assign | compiler/compiler.py:267 | assigning to a present key replaces it in place; a new key is appended |
| Labels.AssignEntries | compiler/compiler.py:267 | an assignment adds at most one entry; every other entry is unchanged |
| Labels.Lookup | compiler/compiler.py:303-307 | found iff the name is a key, and then it is that entry's (id, address) |
| Labels.LookupAt | compiler/compiler.py:307 | with unique keys, the entry at position i is the one found under its name |
| Labels.AssignKeys | compiler/compiler.py:264-267 | assignment keeps keys unique, appends the name iff it was new, and makes the pair the one found under the name |
| Labels.AssignOthers | compiler/compiler.py:267 | assignment does not change the lookup of any other key |
| Preprocessor.IncludePathWord | compiler/compiler.py:206 | `directive path` followed by nothing or by a separator gives `path` as the include path; a one-word line gives no path |
| Preprocessor.ProcessInclude | compiler/compiler.py:204-227 | fails iff the path is missing or names no file. If the guard id was seen before, the lines are unchanged. Otherwise the file minus its first line is spliced in at the cursor: a new guard id is recorded, and a missing guard gives a warning |
| Preprocessor.IncludeNextLines | compiler/compiler.py:227 | the spliced lines come right after the cursor, in file order, followed by the remaining lines |
| Preprocessor.IncludeOnce | compiler/compiler.py:214-218 | once a guarded file has been included, including it again changes nothing |
| Driver.Classify | compiler/compiler.py:239-261 | blank iff empty; a directive starts with `#` and not `//`; a label is `name:` and not a directive; an instruction is non-empty, not a label and not a directive |
| Driver.ClassifyCases | compiler/compiler.py:241-281 | a `//` line is a comment; a `#` line is the directive named by its first word without the `#`; any other line ending in `:` is the label named by the text before it; every other non-empty line is the instruction split at its first space into mnemonic and operand |
| Driver.StartInv | compiler/compiler.py:187-201 | the initial state satisfies the scan invariant |
| Driver.DeclareInv | compiler/compiler.py:261-270 | declaring a label keeps the invariant: pointer = code length, unique names, addresses within the code, ids = positions without redefinitions |
| Driver.AutoMainInv | compiler/compiler.py:272-279 | creating the automatic `main` keeps the invariant |
| Driver.EmitOk | compiler/compiler.py:281-298 | a successful instruction appends its encoder's segments and advances the pointer by their length; nothing else changes |
| Driver.EmitInv | compiler/compiler.py:293-298 | appending an instruction keeps the invariant |
| Driver.StepInv | compiler/compiler.py:229-298 | every turn of the loop keeps the invariant |
| Driver.InstructInv | compiler/compiler.py:272-298 | an instruction line, with or without the automatic `main`, keeps the invariant |
| Driver.StepLabel | compiler/compiler.py:261-270 | a label line records (table size, pointer) under the name. A redefinition keeps the key order and warns; a new name is appended. Other labels, the pointer and the code are unchanged |
| Driver.DeclareFacts | compiler/compiler.py:261-270 | recording a label puts (table size, pointer) under its name, appends the name iff it is new, warns iff it was already there, and leaves the other labels, the pointer and the code alone |
| Driver.StepKeepsCode | compiler/compiler.py:239-270 | blank, comment, directive and label lines never move the pointer or change the code |
| Driver.StepInstruction | compiler/compiler.py:281-298 | an instruction line that assembles has an entry in the table that gives a list; the line appends exactly that list to the code and advances the pointer by its length |
| Driver.StepAutoMain | compiler/compiler.py:272-279 | an instruction before any label fails when `no_automatic_main` is set, and otherwise creates `main` with id 0 and address 0 and warns |
| Driver.InstructNone | compiler/compiler.py:294 | under a label or the automatic `main`, an encoder that gives None fails the line |
| Driver.StepJmpl | compiler/compiler.py:291-294 | with the assembler's table, a `jmpl` line aborts the run with the `extend(None)` error wherever an instruction may appear |
| Driver.StepUnknownInstruction | compiler/compiler.py:284-288 | with the assembler's table, an unknown mnemonic fails, naming the line and the current label |
| Driver.ScanInv | compiler/compiler.py:229-298 | the whole scan keeps the invariant |
| Driver.ScanFuel | compiler/compiler.py:229-234 | more turns never change a result that did not run out of turns |
| Driver.AfterFuel | compiler/compiler.py:229-234 | the same for the rest of the scan after one turn |
| Driver.EmitErrors | compiler/compiler.py:284-294 | an instruction fails only as an unknown instruction, the `extend(None)` error or an encoder error |
| Driver.StepErrors | compiler/compiler.py:229-298 | a turn fails only with an error of the scan |
| Driver.ScanErrors | compiler/compiler.py:229-298 | the scan fails only with an error of the scan, never with a later one |
| Driver.RedefinedIdsCollide | compiler/compiler.py:267 | after `a:` and `b:`, redefining `a` and then `b` gives both id 2 |
| Driver.ScanStops | compiler/compiler.py:231-234 | a scan that finishes has its cursor past the last line |
| Driver.Assemble | compiler/compiler.py:281-298 | the instruction part of the loop body, looking the mnemonic up in the table, equals Emit |
| Driver.Turn | compiler/compiler.py:231-298 | one pass of the loop body equals Step |
| Driver.Scan | compiler/compiler.py:229-298 | the loop equals ScanFrom; on success the invariant holds and the cursor is at the end |
| Fixup.ResolveSegSpec | compiler/compiler.py:27-31 | a missing label fails, an id from 65536 on fails, and success gives 2 bytes reading back as the label's id, not its address; bytes pass through |
| Fixup.ResolvePositions | compiler/compiler.py:31 | when ids are positions, each placeholder becomes the 2 bytes of the position of the label it names |
| Fixup.ResolveErrors | compiler/compiler.py:333-338 | the fixup fails only on a placeholder whose label is missing or whose id is out of range |
| Fixup.ResolveSegments | compiler/compiler.py:330-338 | the fixed code has one segment per segment, each the resolution of the original one |
| Fixup.ResolveOk | compiler/compiler.py:330-338 | the fixup succeeds iff every segment resolves |
| Fixup.ResolveSegLen | compiler/compiler.py:34-35 | a resolved segment is concrete and keeps its length |
| Fixup.ResolveLength | compiler/compiler.py:352 | the fixed code holds no placeholder and has the same total length |
| Fixup.ResolvePrefixErr | compiler/compiler.py:333-337 | the first failing segment decides the error |
| Fixup.FixJumps | compiler/compiler.py:328-341 | the in-place loop equals Resolve, and the names it collects are the referenced labels |
| Fixup.UnusedLabelsSpec | compiler/compiler.py:345-350 | a name is reported iff it is a label, not the entry point, and never resolved |
| Fixup.ReportUnused | compiler/compiler.py:345-350 | the report loop gives one warning per unused label, in table order |
| Emitter.HeaderLayout | compiler/compiler.py:356-370 | the header exists iff the entry is below 2^32; it is 16 bytes with magic, version, compression, entry, stack size 4 and 4 zero bytes at their offsets |
| Emitter.BuildLabelSection | compiler/compiler.py:313-326 | the table loop equals LabelSection |
| Emitter.RecordsPrefixErr | compiler/compiler.py:317-321 | the first failing record decides the error |
| Emitter.RecordsErrors | compiler/compiler.py:317-321 | the records fail only on a label whose record does not fit |
| Emitter.RecordsOk | compiler/compiler.py:317-321 | the records can be packed iff every id is below 2^15 and every address below 2^31; then they are 6 bytes per label |
| Emitter.RecordBack | compiler/compiler.py:320 | one packed record reads back as the label's id and address |
| Emitter.ReadRecordsBack | compiler/compiler.py:317-321 | the packed records read back as the (id, address) pairs in table order |
| Emitter.ReadTableBack | compiler/compiler.py:313-326 | the label table reads back as its records, followed by whatever comes after it |
| Emitter.ReadBack | compiler/compiler.py:372-375 | header + table + any code reads back as (entry, records, code) |
| Compiler.Compile | compiler/compiler.py:303-375 | the main routine equals CompileSpec with the assembler's instruction table `Encoders.Dispatch` |
| Compiler.CompileParts | compiler/compiler.py:352-375 | a successful run writes header + table + fixed code, and warns with the scan warnings followed by the unused labels |
| Compiler.CompileReadBack | compiler/compiler.py:372-375 | the module reads back as the entry label's address (field 1, not its id), the records in table order, and the fixed code |
| Compiler.CompileLayout | compiler/compiler.py:352-375 | the code section is as long as the final pointer, there is one record per label, and the entry and every label address lie within the code or at its end |
| Compiler.CompileLength | compiler/compiler.py:372-375 | the module is 16 + 2 + 6 per label + 6 + pointer bytes |
| Compiler.CompileMissingEntry | compiler/compiler.py:303-305 | the run fails with a missing entry point iff the scan succeeds and the name is not a label |
| Compiler.UnusedWarningsSpec | compiler/compiler.py:345-350 | scan warnings followed by unused-label warnings name exactly the given labels |
| Compiler.CompileWarnings | compiler/compiler.py:345-350 | the scan warnings come first; then an unused-label warning names n iff n is a label, not the entry point, and referenced by no jump |
| Compiler.CompileJumpIds | compiler/compiler.py:328-338 | without redefinitions, each jump's 2 bytes are the table position of the named label, and that position's record carries that id |

## Left out

- File and console I/O are not modelled: reading the input and the included files, writing the output, `print`/`pprint`, `argparse` and `sys.exit`.
  - The source is given as a sequence of lines, and the included files as a map from path to lines.
  - The exit status is the `Result` value; `Error.ReturnsOne` marks the errors the assembler answers with status 1.
- Warnings are modelled by kind only, without their wording. Warnings printed before a run fails are not part of an `Err` result.
- The `while True` loop may never end: a file can include itself without an `#ID` guard. The scan therefore takes a `fuel` bound on loop turns and fails with `StepLimit` when it runs out. `Driver.ScanFuel` shows that more fuel never changes any other outcome.
- The reflective dispatch through `globals()` and `locals()` is replaced as follows:
  - The scan takes the instruction table as a parameter, a function from mnemonic and operand to the encoder's outcome. `Encoders.Dispatch` is the assembler's own table: an exact, case-sensitive match over the twelve mnemonics. The twelve `compile_*` functions are the only module globals with that prefix, so the match has the same entries.
  - Directives are matched exactly against the one directive, `include`.
- `int(text, 0)`: underscore separators and non-ASCII digits are not modelled. Whitespace, sign, the `0x`/`0o`/`0b` prefixes in either case and the leading-zero rule are modelled.
- `upper` is modelled for ASCII letters only.
- `shlex.split`: quotes and backslash escapes are not modelled. Words are split at space, tab, carriage return and line feed.
- Line splitting is not modelled: both the input and each included file are given already split into lines. The difference between `splitlines` and `readline`, and the removal of `\r` from the guard line, therefore do not arise.
- The checksum field is written as four zero bytes, as in the source. No checksum is computed.
- `Emitter.ReadModule`, `Emitter.ReadTable` and `Emitter.ReadRecords` are a reader written for the round-trip lemmas. The repository's loader is not part of this model.
- The mutable state of the scan loop (`lines`, `label_table`, `code`, the pointer and the current label) is one `ScanState` value updated at each turn. Likewise `FixJumps` overwrites its own copy of the code element by element. So the aliasing of the source's lists is not modelled.
- Fixup.FixJumps: the set of resolved names is stated only when the fixup succeeds. When it fails, the run stops and the set is never used.
- The `print` at line 335 reads `label_table[name][1]` before resolving. It raises the same `KeyError` for a missing label as the resolution itself, so it needs no separate error.
- Under `struct.pack(">hi")` an id must be below 2^15. A run therefore fails with `RecordOutOfRange` before the fixup could fail with `IdOutOfRange`, and an address that fits a record also fits the header. Both later errors are still modelled in the order the source raises them.
- The comment at compiler/compiler.py:112 says `jmpl` compiles to `llbl <label>; jmpa`, which is 8 bytes. `compile_jmpl` builds that list but has no `return`, so a `jmpl` aborts the run instead, and the model follows the code. `Encoders.JmplIsLlblJmpa` states the list it builds.
