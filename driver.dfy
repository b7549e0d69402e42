/** The first pass of the assembler: a cursor walks the line list (which a
    `#include` may extend ahead of the cursor), classifies each stripped
    line, records labels at the current code pointer, and appends the
    segments of each instruction to the code. */
module Driver {
  import opened BigEndian
  import opened Text
  import opened Encoders
  import opened Errors
  import opened Labels
  import opened Preprocessor

  /** What a stripped source line is, in the order the scanner tests. */
  datatype LineKind =
    | Blank
    | Comment
    | Directive(name: string)                        // `#name ...`
    | LabelDecl(name: string)                        // `name:`
    | Instruction(mnemonic: string, operand: string)

  function Classify(line: string): (k: LineKind)
    ensures k.Blank? <==> line == ""
    ensures k.Directive? ==> StartsWith(line, "#") && !StartsWith(line, "//")
    ensures k.LabelDecl? ==> line == k.name + ":" && !StartsWith(line, "#")
    ensures k.Instruction? ==> line != "" && !EndsWith(line, ":") && !StartsWith(line, "#")
  {
    if line == "" then Blank
    else if StartsWith(line, "//") then Comment
    else if StartsWith(line, "#") then Directive(Head(line)[1..])
    else if EndsWith(line, ":") then LabelDecl(line[..|line| - 1])
    else Instruction(Head(line), Tail(line))
  }

  /** Each kind of line, with what it carries, under the condition the
      scanner tests for it: a `//` comment; a `#` directive named by its
      first word without the `#`; a `name:` label; otherwise an instruction
      split at its first space into mnemonic and operand. */
  lemma ClassifyCases(line: string)
    ensures StartsWith(line, "//") ==> Classify(line) == Comment
    ensures StartsWith(line, "#") ==> Classify(line) == Directive(Head(line)[1..])
                                      && "#" + Classify(line).name == Head(line)
    ensures line != "" && !StartsWith(line, "//") && !StartsWith(line, "#") && EndsWith(line, ":")
            ==> Classify(line) == LabelDecl(line[..|line| - 1]) && line == Classify(line).name + ":"
    ensures line != "" && !StartsWith(line, "//") && !StartsWith(line, "#") && !EndsWith(line, ":")
            ==> Classify(line) == Instruction(Head(line), Tail(line))
  {
    if StartsWith(line, "#") {
      assert line[0] == '#';
      assert Head(line) == ['#'] + SplitAtSpace(line[1..]).0;
    }
  }

  /** The scanner's variables: the line list and the cursor into it, the
      code pointer, the label table, the code, the ids of included files,
      the current label, and the warnings so far. */
  datatype ScanState = ScanState(lines: seq<string>, lineno: nat, pointer: nat, labels: LabelTable,
                                 code: seq<Seg>, includes: seq<string>, current: Option<string>,
                                 warnings: seq<Warning>)

  function Start(src: seq<string>): ScanState {
    ScanState(src, 0, 0, [], [], [], None, [])
  }

  /** `label_table[name] = (len(label_table), current_pointer)` */
  function Declare(s: ScanState, name: string): ScanState {
    s.(labels := Assign(s.labels, name, |s.labels|, s.pointer),
       current := Some(name),
       warnings := s.warnings + if name in Names(s.labels) then [RedefinedLabel(name)] else [])
  }

  /** The label `main` that the first instruction before any label gets:
      assigned like a declared label, but with its own warning. */
  function AutoMainLabel(s: ScanState): ScanState {
    s.(labels := Assign(s.labels, "main", |s.labels|, s.pointer),
       current := Some("main"),
       warnings := s.warnings + [AutoMain])
  }

  /** An instruction line: look up the encoder in the instruction table,
      run it, extend the code. */
  function Emit(s: ScanState, dispatch: Dispatcher, inLabel: string, mnemonic: string, operand: string): Result<ScanState> {
    match dispatch(mnemonic, operand)
    case None => Err(UnknownInstruction(s.lineno, inLabel, mnemonic))
    case Some(e) => Extend(s, e)
  }

  /** `code.extend(instructions)` and the pointer increment, for what the
      encoder gave back. */
  function Extend(s: ScanState, e: Encoded): Result<ScanState> {
    match e
    case NoneValue => Err(ExtendNone(s.lineno))
    case Raised(cause) => Err(EncoderFailed(s.lineno, cause))
    case Segments(segs) => Ok(s.(code := s.code + segs, pointer := s.pointer + TotalLen(segs)))
  }

  /** One turn of the scan loop, on the line under the cursor. */
  function Step(s: ScanState, files: map<string, seq<string>>, noAutoMain: bool, dispatch: Dispatcher): (r: Result<ScanState>)
    requires s.lineno < |s.lines|
  {
    var line := Strip(s.lines[s.lineno]);
    var s := s.(lineno := s.lineno + 1);
    match Classify(line)
    case Blank => Ok(s)
    case Comment => Ok(s)
    case Directive(name) =>
      if name != "include" then Err(UnknownDirective(s.lineno, name))
      else
        var inc := ProcessInclude(line, s.lines, s.lineno, s.includes, files);
        if inc.Err? then Err(inc.error)
        else Ok(s.(lines := inc.value.lines, includes := inc.value.includes,
                warnings := s.warnings + inc.value.warnings))
    case LabelDecl(name) => Ok(Declare(s, name))
    case Instruction(mnemonic, operand) => Instruct(s, noAutoMain, dispatch, mnemonic, operand)
  }

  /** An instruction line: under the current label, or, before any label,
      under an automatic `main` unless that is switched off. */
  function Instruct(s: ScanState, noAutoMain: bool, dispatch: Dispatcher, mnemonic: string, operand: string): Result<ScanState> {
    if s.current.Some? then Emit(s, dispatch, s.current.value, mnemonic, operand)
    else if noAutoMain then Err(NoLabel(s.lineno))
    else Emit(AutoMainLabel(s), dispatch, "main", mnemonic, operand)
  }

  /** The scan from state s until the cursor passes the last line, taking at
      most `fuel` turns of the loop. */
  function ScanFrom(s: ScanState, files: map<string, seq<string>>, noAutoMain: bool, dispatch: Dispatcher, fuel: nat): (r: Result<ScanState>)
    decreases fuel, 0
  {
    if s.lineno >= |s.lines| then Ok(s)
    else if fuel == 0 then Err(StepLimit)
    else ScanAfter(Step(s, files, noAutoMain, dispatch), files, noAutoMain, dispatch, fuel - 1)
  }

  /** The rest of the scan after one turn of the loop had outcome t. */
  function ScanAfter(t: Result<ScanState>, files: map<string, seq<string>>, noAutoMain: bool, dispatch: Dispatcher, fuel: nat): (r: Result<ScanState>)
    decreases fuel, 1
  {
    if t.Err? then t else ScanFrom(t.value, files, noAutoMain, dispatch, fuel)
  }

  predicate NoRedefinition(warnings: seq<Warning>) {
    forall i :: 0 <= i < |warnings| ==> !warnings[i].RedefinedLabel?
  }

  /** What holds between turns of the loop. */
  predicate Inv(s: ScanState) {
    s.lineno <= |s.lines| && Tables(s)
  }

  /** The part of the invariant about the label table and the code: the
      pointer is the length of the code, label names are unique, every label
      points into the code or at its end, nothing is recorded before the
      first label, and without redefinitions the ids are the positions. */
  predicate Tables(s: ScanState) {
    && s.pointer == TotalLen(s.code)
    && UniqueNames(s.labels)
    && (forall i :: 0 <= i < |s.labels| ==> s.labels[i].addr <= s.pointer)
    && (s.current.None? ==> s.labels == [] && s.code == [])
    && (NoRedefinition(s.warnings) ==> forall i :: 0 <= i < |s.labels| ==> s.labels[i].id == i)
  }

  lemma StartInv(src: seq<string>)
    ensures Inv(Start(src))
  {
  }

  /** Adding warnings that are not redefinitions keeps NoRedefinition as it was. */
  lemma NoRedefinitionAppend(w: seq<Warning>, more: seq<Warning>)
    ensures NoRedefinition(w + more) ==> NoRedefinition(w)
  {
    if NoRedefinition(w + more) {
      forall i | 0 <= i < |w| ensures !w[i].RedefinedLabel? {
        assert (w + more)[i] == w[i];
      }
    }
  }

  /** Assigning a label at the pointer keeps the label part of the
      invariant; `fresh` says the name is new or a redefinition is recorded. */
  lemma AssignInv(s: ScanState, name: string, t: ScanState)
    requires Tables(s)
    requires t.labels == Assign(s.labels, name, |s.labels|, s.pointer)
    requires t.pointer == s.pointer && t.code == s.code && t.current.Some?
    requires NoRedefinition(t.warnings) ==> NoRedefinition(s.warnings) && name !in Names(s.labels)
    ensures Tables(t)
  {
    AssignKeys(s.labels, name, |s.labels|, s.pointer);
    AssignEntries(s.labels, name, |s.labels|, s.pointer);
    forall i | 0 <= i < |t.labels| ensures t.labels[i].addr <= t.pointer {
      if t.labels[i] != Label(name, |s.labels|, s.pointer) {
        assert t.labels[i] == s.labels[i];
      }
    }
  }

  lemma DeclareInv(s: ScanState, name: string)
    requires Tables(s)
    ensures Tables(Declare(s, name))
  {
    var t := Declare(s, name);
    var added := if name in Names(s.labels) then [RedefinedLabel(name)] else [];
    assert t.warnings == s.warnings + added;
    NoRedefinitionAppend(s.warnings, added);
    if name in Names(s.labels) {
      assert t.warnings[|s.warnings|].RedefinedLabel?;
    }
    AssignInv(s, name, t);
  }

  lemma AutoMainInv(s: ScanState)
    requires Tables(s) && s.current.None?
    ensures Tables(AutoMainLabel(s))
  {
    NoRedefinitionAppend(s.warnings, [AutoMain]);
    AssignInv(s, "main", AutoMainLabel(s));
  }

  /** An instruction that assembles appends its encoder's segments to the
      code and advances the pointer by their length; nothing else changes. */
  lemma EmitOk(s: ScanState, dispatch: Dispatcher, inLabel: string, mnemonic: string, operand: string)
    requires Emit(s, dispatch, inLabel, mnemonic, operand).Ok?
    ensures var e := dispatch(mnemonic, operand);
      && e.Some? && e.value.Segments?
      && var segs := e.value.segs;
         Emit(s, dispatch, inLabel, mnemonic, operand).value == s.(code := s.code + segs, pointer := s.pointer + TotalLen(segs))
  {
  }

  lemma EmitInv(s: ScanState, dispatch: Dispatcher, inLabel: string, mnemonic: string, operand: string)
    requires Tables(s) && s.current.Some? && Emit(s, dispatch, inLabel, mnemonic, operand).Ok?
    ensures Tables(Emit(s, dispatch, inLabel, mnemonic, operand).value)
  {
    EmitOk(s, dispatch, inLabel, mnemonic, operand);
    TotalLenConcat(s.code, dispatch(mnemonic, operand).value.segs);
  }

  /** The new state of a turn of the loop that succeeds, by the kind of line. */
  lemma StepOk(s: ScanState, files: map<string, seq<string>>, noAutoMain: bool, dispatch: Dispatcher)
    requires s.lineno < |s.lines| && Step(s, files, noAutoMain, dispatch).Ok?
    ensures var line := Strip(s.lines[s.lineno]);
      var s1 := s.(lineno := s.lineno + 1);
      var t := Step(s, files, noAutoMain, dispatch).value;
      match Classify(line)
      case Blank => t == s1
      case Comment => t == s1
      case Directive(name) =>
        var inc := ProcessInclude(line, s1.lines, s1.lineno, s1.includes, files);
        && inc.Ok?
        && t == s1.(lines := inc.value.lines, includes := inc.value.includes,
                    warnings := s1.warnings + inc.value.warnings)
      case LabelDecl(name) => t == Declare(s1, name)
      case Instruction(mnemonic, operand) =>
        if s1.current.Some? then Emit(s1, dispatch, s1.current.value, mnemonic, operand) == Ok(t)
        else Emit(AutoMainLabel(s1), dispatch, "main", mnemonic, operand) == Ok(t)
  {
  }

  /** Every turn of the loop keeps the invariant. */
  lemma StepInv(s: ScanState, files: map<string, seq<string>>, noAutoMain: bool, dispatch: Dispatcher)
    requires Inv(s) && s.lineno < |s.lines|
    requires Step(s, files, noAutoMain, dispatch).Ok?
    ensures Inv(Step(s, files, noAutoMain, dispatch).value)
  {
    var line := Strip(s.lines[s.lineno]);
    var s1 := s.(lineno := s.lineno + 1);
    match Classify(line)
    case Blank =>
    case Comment =>
    case Directive(name) =>
      StepDirective(s, files, noAutoMain, dispatch, name);
      var inc := ProcessInclude(line, s1.lines, s1.lineno, s1.includes, files).value;
      NoRedefinitionAppend(s1.warnings, inc.warnings);
    case LabelDecl(name) =>
      StepDeclare(s, files, noAutoMain, dispatch, name);
      DeclareInv(s1, name);
    case Instruction(mnemonic, operand) =>
      StepInstructionCase(s, files, noAutoMain, dispatch, mnemonic, operand);
      InstructInv(s1, noAutoMain, dispatch, mnemonic, operand);
  }

  lemma InstructInv(s: ScanState, noAutoMain: bool, dispatch: Dispatcher, mnemonic: string, operand: string)
    requires Tables(s) && Instruct(s, noAutoMain, dispatch, mnemonic, operand).Ok?
    ensures Tables(Instruct(s, noAutoMain, dispatch, mnemonic, operand).value)
  {
    if s.current.Some? {
      EmitInv(s, dispatch, s.current.value, mnemonic, operand);
    } else {
      AutoMainInv(s);
      EmitInv(AutoMainLabel(s), dispatch, "main", mnemonic, operand);
    }
  }

  /** A label line records the label at the current pointer with the
      current table size as its id, keeps a redefined label at its old
      position (and warns), appends a new one, and does not move the pointer. */
  lemma StepLabel(s: ScanState, files: map<string, seq<string>>, noAutoMain: bool, dispatch: Dispatcher, name: string)
    requires Inv(s) && s.lineno < |s.lines|
    requires Classify(Strip(s.lines[s.lineno])) == LabelDecl(name)
    ensures Step(s, files, noAutoMain, dispatch).Ok?
    ensures var t := Step(s, files, noAutoMain, dispatch).value;
      && Lookup(t.labels, name) == Some((|s.labels|, s.pointer))
      && (name in Names(s.labels) ==> Names(t.labels) == Names(s.labels)
                                      && t.warnings == s.warnings + [RedefinedLabel(name)])
      && (name !in Names(s.labels) ==> Names(t.labels) == Names(s.labels) + [name]
                                       && t.warnings == s.warnings)
      && (forall other :: other != name ==> Lookup(t.labels, other) == Lookup(s.labels, other))
      && t.pointer == s.pointer && t.code == s.code && t.current == Some(name)
  {
    var s1 := s.(lineno := s.lineno + 1);
    StepDeclare(s, files, noAutoMain, dispatch, name);
    DeclareFacts(s1, name);
  }

  /** What recording a label does to the table, the warnings and the rest
      of the state. */
  lemma DeclareFacts(s: ScanState, name: string)
    requires UniqueNames(s.labels)
    ensures var t := Declare(s, name);
      && Lookup(t.labels, name) == Some((|s.labels|, s.pointer))
      && (name in Names(s.labels) ==> Names(t.labels) == Names(s.labels)
                                      && t.warnings == s.warnings + [RedefinedLabel(name)])
      && (name !in Names(s.labels) ==> Names(t.labels) == Names(s.labels) + [name]
                                       && t.warnings == s.warnings)
      && (forall other :: other != name ==> Lookup(t.labels, other) == Lookup(s.labels, other))
      && t.pointer == s.pointer && t.code == s.code && t.current == Some(name)
  {
    AssignKeys(s.labels, name, |s.labels|, s.pointer);
    forall other | other != name
      ensures Lookup(Assign(s.labels, name, |s.labels|, s.pointer), other) == Lookup(s.labels, other)
    {
      AssignOthers(s.labels, name, |s.labels|, s.pointer, other);
    }
  }

  /** Blank lines, comments, directives and labels never move the pointer
      or change the code. */
  lemma StepKeepsCode(s: ScanState, files: map<string, seq<string>>, noAutoMain: bool, dispatch: Dispatcher)
    requires s.lineno < |s.lines| && Step(s, files, noAutoMain, dispatch).Ok?
    requires !Classify(Strip(s.lines[s.lineno])).Instruction?
    ensures Step(s, files, noAutoMain, dispatch).value.pointer == s.pointer
    ensures Step(s, files, noAutoMain, dispatch).value.code == s.code
  {
    StepOk(s, files, noAutoMain, dispatch);
  }

  /** An instruction line that assembles appends exactly its encoder's
      segments and advances the pointer by their length. */
  lemma StepInstruction(s: ScanState, files: map<string, seq<string>>, noAutoMain: bool, dispatch: Dispatcher,
                        mnemonic: string, operand: string)
    requires s.lineno < |s.lines| && Step(s, files, noAutoMain, dispatch).Ok?
    requires Classify(Strip(s.lines[s.lineno])) == Instruction(mnemonic, operand)
    ensures var e := dispatch(mnemonic, operand);
      var t := Step(s, files, noAutoMain, dispatch).value;
      && e.Some? && e.value.Segments?
      && t.code == s.code + e.value.segs
      && t.pointer == s.pointer + TotalLen(e.value.segs)
  {
    StepOk(s, files, noAutoMain, dispatch);
    var s1 := s.(lineno := s.lineno + 1);
    if s1.current.Some? {
      EmitOk(s1, dispatch, s1.current.value, mnemonic, operand);
    } else {
      EmitOk(AutoMainLabel(s1), dispatch, "main", mnemonic, operand);
    }
  }

  /** The first instruction before any label fails with `--no-automatic-main`
      and otherwise creates `main` with id 0 at address 0. */
  lemma StepAutoMain(s: ScanState, files: map<string, seq<string>>, noAutoMain: bool, dispatch: Dispatcher,
                     mnemonic: string, operand: string)
    requires Inv(s) && s.lineno < |s.lines| && s.current.None?
    requires Classify(Strip(s.lines[s.lineno])) == Instruction(mnemonic, operand)
    ensures noAutoMain ==> Step(s, files, noAutoMain, dispatch) == Err(NoLabel(s.lineno + 1))
    ensures Step(s, files, noAutoMain, dispatch).Ok? ==>
      var t := Step(s, files, noAutoMain, dispatch).value;
      && t.labels == [Label("main", 0, 0)]
      && t.current == Some("main")
      && t.warnings == s.warnings + [AutoMain]
  {
    StepInstructionCase(s, files, noAutoMain, dispatch, mnemonic, operand);
    if !noAutoMain {
      AutoMainEmit(s.(lineno := s.lineno + 1), dispatch, mnemonic, operand);
    }
  }

  /** The implicit `main` label on an empty table, and the instruction
      emitted under it. */
  lemma AutoMainEmit(s: ScanState, dispatch: Dispatcher, mnemonic: string, operand: string)
    requires s.labels == [] && s.pointer == 0
    ensures Emit(AutoMainLabel(s), dispatch, "main", mnemonic, operand).Ok? ==>
      var t := Emit(AutoMainLabel(s), dispatch, "main", mnemonic, operand).value;
      && t.labels == [Label("main", 0, 0)]
      && t.current == Some("main")
      && t.warnings == s.warnings + [AutoMain]
  {
    if Emit(AutoMainLabel(s), dispatch, "main", mnemonic, operand).Ok? {
      EmitOk(AutoMainLabel(s), dispatch, "main", mnemonic, operand);
    }
  }

  /** Blank lines and comments only move the cursor. */
  lemma StepSkip(s: ScanState, files: map<string, seq<string>>, noAutoMain: bool, dispatch: Dispatcher)
    requires s.lineno < |s.lines|
    requires Classify(Strip(s.lines[s.lineno])) in {Blank, Comment}
    ensures Step(s, files, noAutoMain, dispatch) == Ok(s.(lineno := s.lineno + 1))
  {
  }

  /** A label line declares the label, after the cursor moves on. */
  lemma StepDeclare(s: ScanState, files: map<string, seq<string>>, noAutoMain: bool, dispatch: Dispatcher, name: string)
    requires s.lineno < |s.lines|
    requires Classify(Strip(s.lines[s.lineno])) == LabelDecl(name)
    ensures Step(s, files, noAutoMain, dispatch) == Ok(Declare(s.(lineno := s.lineno + 1), name))
  {
    StepLabelKind(s, files, noAutoMain, dispatch);
  }

  /** StepDeclare with the name as the classification gives it. */
  lemma StepLabelKind(s: ScanState, files: map<string, seq<string>>, noAutoMain: bool, dispatch: Dispatcher)
    requires s.lineno < |s.lines| && Classify(Strip(s.lines[s.lineno])).LabelDecl?
    ensures Step(s, files, noAutoMain, dispatch)
            == Ok(Declare(s.(lineno := s.lineno + 1), Classify(Strip(s.lines[s.lineno])).name))
  {
  }

  /** A mnemonic with an encoder that gives segments extends the code. */
  lemma EmitSegments(s: ScanState, dispatch: Dispatcher, inLabel: string, mnemonic: string, operand: string, segs: seq<Seg>)
    requires dispatch(mnemonic, operand) == Some(Segments(segs))
    ensures Emit(s, dispatch, inLabel, mnemonic, operand)
            == Ok(s.(code := s.code + segs, pointer := s.pointer + TotalLen(segs)))
  {
  }

  /** An encoder that gives back None makes `code.extend` fail. */
  lemma EmitNone(s: ScanState, dispatch: Dispatcher, inLabel: string, mnemonic: string, operand: string)
    requires dispatch(mnemonic, operand) == Some(NoneValue)
    ensures Emit(s, dispatch, inLabel, mnemonic, operand) == Err(ExtendNone(s.lineno))
  {
  }

  lemma InstructNone(s: ScanState, noAutoMain: bool, dispatch: Dispatcher, mnemonic: string, operand: string)
    requires dispatch(mnemonic, operand) == Some(NoneValue) && (s.current.Some? || !noAutoMain)
    ensures Instruct(s, noAutoMain, dispatch, mnemonic, operand) == Err(ExtendNone(s.lineno))
  {
    if s.current.Some? {
      EmitNone(s, dispatch, s.current.value, mnemonic, operand);
    } else {
      EmitNone(AutoMainLabel(s), dispatch, "main", mnemonic, operand);
    }
  }

  /** An instruction line goes to Instruct, after the cursor moves on. */
  lemma StepInstructionCase(s: ScanState, files: map<string, seq<string>>, noAutoMain: bool, dispatch: Dispatcher,
                            mnemonic: string, operand: string)
    requires s.lineno < |s.lines|
    requires Classify(Strip(s.lines[s.lineno])) == Instruction(mnemonic, operand)
    ensures Step(s, files, noAutoMain, dispatch) == Instruct(s.(lineno := s.lineno + 1), noAutoMain, dispatch, mnemonic, operand)
  {
    StepInstructionKind(s, files, noAutoMain, dispatch);
  }

  /** StepInstructionCase with the mnemonic and operand as the
      classification gives them. */
  lemma StepInstructionKind(s: ScanState, files: map<string, seq<string>>, noAutoMain: bool, dispatch: Dispatcher)
    requires s.lineno < |s.lines| && Classify(Strip(s.lines[s.lineno])).Instruction?
    ensures var k := Classify(Strip(s.lines[s.lineno]));
      Step(s, files, noAutoMain, dispatch) == Instruct(s.(lineno := s.lineno + 1), noAutoMain, dispatch, k.mnemonic, k.operand)
  {
  }

  /** With the assembler's table, `jmpl` aborts the build wherever it appears. */
  lemma StepJmpl(s: ScanState, files: map<string, seq<string>>, noAutoMain: bool, dispatch: Dispatcher, operand: string)
    requires dispatch == Dispatch && s.lineno < |s.lines|
    requires Classify(Strip(s.lines[s.lineno])) == Instruction("jmpl", operand)
    requires s.current.Some? || !noAutoMain
    ensures Step(s, files, noAutoMain, dispatch) == Err(ExtendNone(s.lineno + 1))
  {
    StepInstructionCase(s, files, noAutoMain, dispatch, "jmpl", operand);
    DispatchJmpl(operand);
    InstructNone(s.(lineno := s.lineno + 1), noAutoMain, dispatch, "jmpl", operand);
  }

  /** With the assembler's table, an unknown mnemonic stops the run, naming
      the line and the label. */
  lemma StepUnknownInstruction(s: ScanState, files: map<string, seq<string>>, noAutoMain: bool, dispatch: Dispatcher,
                               mnemonic: string, operand: string)
    requires dispatch == Dispatch && s.lineno < |s.lines| && s.current.Some?
    requires Classify(Strip(s.lines[s.lineno])) == Instruction(mnemonic, operand)
    requires forall m: Mnemonic :: MnemonicName(m) != mnemonic
    ensures Step(s, files, noAutoMain, dispatch) == Err(UnknownInstruction(s.lineno + 1, s.current.value, mnemonic))
  {
    StepInstructionCase(s, files, noAutoMain, dispatch, mnemonic, operand);
  }

  /** `include` is the only directive; any other stops the run. */
  lemma StepDirective(s: ScanState, files: map<string, seq<string>>, noAutoMain: bool, dispatch: Dispatcher, name: string)
    requires s.lineno < |s.lines|
    requires Classify(Strip(s.lines[s.lineno])) == Directive(name)
    ensures name != "include" ==> Step(s, files, noAutoMain, dispatch) == Err(UnknownDirective(s.lineno + 1, name))
    ensures name == "include" ==>
      var line := Strip(s.lines[s.lineno]);
      var inc := ProcessInclude(line, s.lines, s.lineno + 1, s.includes, files);
      && (inc.Err? ==> Step(s, files, noAutoMain, dispatch) == Err(inc.error))
      && (inc.Ok? ==> Step(s, files, noAutoMain, dispatch)
                      == Ok(s.(lineno := s.lineno + 1, lines := inc.value.lines, includes := inc.value.includes,
                               warnings := s.warnings + inc.value.warnings)))
  {
  }

  /** One turn of the loop, then the rest of the scan. */
  lemma ScanUnfold(s: ScanState, files: map<string, seq<string>>, noAutoMain: bool, dispatch: Dispatcher, fuel: nat)
    requires s.lineno < |s.lines| && fuel > 0
    ensures ScanFrom(s, files, noAutoMain, dispatch, fuel) == ScanAfter(Step(s, files, noAutoMain, dispatch), files, noAutoMain, dispatch, fuel - 1)
  {
  }

  /** The whole scan keeps the invariant. */
  lemma {:induction false} ScanInv(s: ScanState, files: map<string, seq<string>>, noAutoMain: bool, dispatch: Dispatcher, fuel: nat)
    requires Inv(s) && ScanFrom(s, files, noAutoMain, dispatch, fuel).Ok?
    ensures Inv(ScanFrom(s, files, noAutoMain, dispatch, fuel).value)
    decreases fuel
  {
    if s.lineno < |s.lines| {
      ScanUnfold(s, files, noAutoMain, dispatch, fuel);
      var t := Step(s, files, noAutoMain, dispatch);
      StepInv(s, files, noAutoMain, dispatch);
      ScanInv(t.value, files, noAutoMain, dispatch, fuel - 1);
    }
  }

  /** More fuel never changes the outcome of a scan that did not run out. */
  lemma {:induction false} ScanFuel(s: ScanState, files: map<string, seq<string>>, noAutoMain: bool, dispatch: Dispatcher, fuel: nat, more: nat)
    requires ScanFrom(s, files, noAutoMain, dispatch, fuel) != Err(StepLimit) && fuel <= more
    ensures ScanFrom(s, files, noAutoMain, dispatch, more) == ScanFrom(s, files, noAutoMain, dispatch, fuel)
    decreases fuel, 0
  {
    if s.lineno < |s.lines| {
      ScanUnfold(s, files, noAutoMain, dispatch, fuel);
      ScanUnfold(s, files, noAutoMain, dispatch, more);
      AfterFuel(Step(s, files, noAutoMain, dispatch), files, noAutoMain, dispatch, fuel - 1, more - 1);
    }
  }

  /** ScanFuel for the rest of the scan after one turn. */
  lemma {:induction false} AfterFuel(t: Result<ScanState>, files: map<string, seq<string>>, noAutoMain: bool, dispatch: Dispatcher, fuel: nat, more: nat)
    requires ScanAfter(t, files, noAutoMain, dispatch, fuel) != Err(StepLimit) && fuel <= more
    ensures ScanAfter(t, files, noAutoMain, dispatch, more) == ScanAfter(t, files, noAutoMain, dispatch, fuel)
    decreases fuel, 1
  {
    if t.Ok? {
      ScanFuel(t.value, files, noAutoMain, dispatch, fuel, more);
    }
  }

  /** The scan past a blank line or a comment. */
  lemma ScanSkip(s: ScanState, files: map<string, seq<string>>, noAutoMain: bool, dispatch: Dispatcher, fuel: nat)
    requires s.lineno < |s.lines| && fuel > 0
    requires Classify(Strip(s.lines[s.lineno])) in {Blank, Comment}
    ensures ScanFrom(s, files, noAutoMain, dispatch, fuel) == ScanFrom(s.(lineno := s.lineno + 1), files, noAutoMain, dispatch, fuel - 1)
  {
    ScanUnfold(s, files, noAutoMain, dispatch, fuel);
    StepSkip(s, files, noAutoMain, dispatch);
  }

  /** The scan past a directive line. */
  lemma ScanDirective(s: ScanState, files: map<string, seq<string>>, noAutoMain: bool, dispatch: Dispatcher, fuel: nat, name: string)
    requires s.lineno < |s.lines| && fuel > 0
    requires Classify(Strip(s.lines[s.lineno])) == Directive(name)
    ensures name != "include" ==> ScanFrom(s, files, noAutoMain, dispatch, fuel) == Err(UnknownDirective(s.lineno + 1, name))
    ensures name == "include" ==>
      var inc := ProcessInclude(Strip(s.lines[s.lineno]), s.lines, s.lineno + 1, s.includes, files);
      && (inc.Err? ==> ScanFrom(s, files, noAutoMain, dispatch, fuel) == Err(inc.error))
      && (inc.Ok? ==> ScanFrom(s, files, noAutoMain, dispatch, fuel)
                      == ScanFrom(s.(lineno := s.lineno + 1, lines := inc.value.lines, includes := inc.value.includes,
                                     warnings := s.warnings + inc.value.warnings), files, noAutoMain, dispatch, fuel - 1))
  {
    ScanUnfold(s, files, noAutoMain, dispatch, fuel);
    StepDirective(s, files, noAutoMain, dispatch, name);
  }

  /** The scan past a label line. */
  lemma ScanDeclare(s: ScanState, files: map<string, seq<string>>, noAutoMain: bool, dispatch: Dispatcher, fuel: nat, name: string)
    requires s.lineno < |s.lines| && fuel > 0
    requires Classify(Strip(s.lines[s.lineno])) == LabelDecl(name)
    ensures ScanFrom(s, files, noAutoMain, dispatch, fuel) == ScanFrom(Declare(s.(lineno := s.lineno + 1), name), files, noAutoMain, dispatch, fuel - 1)
  {
    ScanUnfold(s, files, noAutoMain, dispatch, fuel);
    StepDeclare(s, files, noAutoMain, dispatch, name);
  }

  /** The scan past an instruction line. */
  lemma ScanInstruct(s: ScanState, files: map<string, seq<string>>, noAutoMain: bool, dispatch: Dispatcher, fuel: nat,
                     mnemonic: string, operand: string)
    requires s.lineno < |s.lines| && fuel > 0
    requires Classify(Strip(s.lines[s.lineno])) == Instruction(mnemonic, operand)
    ensures ScanFrom(s, files, noAutoMain, dispatch, fuel)
            == ScanAfter(Instruct(s.(lineno := s.lineno + 1), noAutoMain, dispatch, mnemonic, operand), files, noAutoMain, dispatch, fuel - 1)
  {
    ScanUnfold(s, files, noAutoMain, dispatch, fuel);
    StepInstructionCase(s, files, noAutoMain, dispatch, mnemonic, operand);
  }

  /** The ways the scan itself can stop: problems on a source line, a
      failing include, and the bound on turns. */
  predicate ScanError(e: Error) {
    e.UnknownDirective? || e.NoLabel? || e.UnknownInstruction? || e.IncludeMissingPath?
    || e.IncludeNotFound? || e.EncoderFailed? || e.ExtendNone? || e.StepLimit?
  }

  lemma EmitErrors(s: ScanState, dispatch: Dispatcher, inLabel: string, mnemonic: string, operand: string)
    requires Emit(s, dispatch, inLabel, mnemonic, operand).Err?
    ensures var e := Emit(s, dispatch, inLabel, mnemonic, operand).error;
      e == UnknownInstruction(s.lineno, inLabel, mnemonic) || e == ExtendNone(s.lineno) || e.EncoderFailed?
  {
  }

  /** A turn of the loop fails only with an error of the scan. */
  lemma StepErrors(s: ScanState, files: map<string, seq<string>>, noAutoMain: bool, dispatch: Dispatcher)
    requires s.lineno < |s.lines| && Step(s, files, noAutoMain, dispatch).Err?
    ensures ScanError(Step(s, files, noAutoMain, dispatch).error)
  {
    var s1 := s.(lineno := s.lineno + 1);
    match Classify(Strip(s.lines[s.lineno]))
    case Blank =>
      StepSkip(s, files, noAutoMain, dispatch);
    case Comment =>
      StepSkip(s, files, noAutoMain, dispatch);
    case Directive(name) =>
      StepDirective(s, files, noAutoMain, dispatch, name);
    case LabelDecl(name) =>
      StepDeclare(s, files, noAutoMain, dispatch, name);
    case Instruction(mnemonic, operand) =>
      StepInstructionCase(s, files, noAutoMain, dispatch, mnemonic, operand);
      if s1.current.Some? {
        EmitErrors(s1, dispatch, s1.current.value, mnemonic, operand);
      } else if !noAutoMain {
        EmitErrors(AutoMainLabel(s1), dispatch, "main", mnemonic, operand);
      }
  }

  /** The scan fails only with an error of the scan. */
  lemma {:induction false} ScanErrors(s: ScanState, files: map<string, seq<string>>, noAutoMain: bool, dispatch: Dispatcher, fuel: nat)
    requires ScanFrom(s, files, noAutoMain, dispatch, fuel).Err?
    ensures ScanError(ScanFrom(s, files, noAutoMain, dispatch, fuel).error)
    decreases fuel
  {
    if s.lineno < |s.lines| && fuel > 0 {
      ScanUnfold(s, files, noAutoMain, dispatch, fuel);
      var t := Step(s, files, noAutoMain, dispatch);
      if t.Err? {
        StepErrors(s, files, noAutoMain, dispatch);
      } else {
        ScanErrors(t.value, files, noAutoMain, dispatch, fuel - 1);
      }
    }
  }

  /** Redefining labels gives each the current table size as id, so two
      labels can end up with the same id: after `a:` and `b:`, redefining
      `a` and then `b` leaves both with id 2. */
  lemma RedefinedIdsCollide(s: ScanState, a: string, b: string, p: nat, q: nat)
    requires a != b && s.labels == [Label(a, 0, p), Label(b, 1, q)]
    ensures var t := Declare(Declare(s, a), b);
      t.labels == [Label(a, 2, s.pointer), Label(b, 2, s.pointer)]
  {
    assert Names(s.labels) == [a, b];
    var t1 := Declare(s, a);
    assert t1.labels == [Label(a, 2, s.pointer), Label(b, 1, q)];
    assert Names(t1.labels) == [a, b];
  }

  /** A scan that finishes has moved the cursor past the last line. */
  lemma {:induction false} ScanStops(s: ScanState, files: map<string, seq<string>>, noAutoMain: bool, dispatch: Dispatcher, fuel: nat)
    requires ScanFrom(s, files, noAutoMain, dispatch, fuel).Ok?
    ensures var t := ScanFrom(s, files, noAutoMain, dispatch, fuel).value; t.lineno >= |t.lines|
    decreases fuel
  {
    if s.lineno < |s.lines| {
      ScanUnfold(s, files, noAutoMain, dispatch, fuel);
      ScanStops(Step(s, files, noAutoMain, dispatch).value, files, noAutoMain, dispatch, fuel - 1);
    }
  }

  /** The instruction part of the loop body: look the encoder up by name,
      run it on the operand, extend the code with what it gives back and
      advance the pointer by its length. */
  method Assemble(s: ScanState, dispatch: Dispatcher, inLabel: string, mnemonic: string, operand: string) returns (r: Result<ScanState>)
    ensures r == Emit(s, dispatch, inLabel, mnemonic, operand)
  {
    var found := dispatch(mnemonic, operand);
    if found.None? {
      return Err(UnknownInstruction(s.lineno, inLabel, mnemonic));
    }
    match found.value
    case NoneValue =>
      r := Err(ExtendNone(s.lineno));
    case Raised(cause) =>
      r := Err(EncoderFailed(s.lineno, cause));
    case Segments(instructions) =>
      var code := s.code + instructions;
      var pointer := s.pointer + TotalLen(instructions);
      r := Ok(s.(code := code, pointer := pointer));
  }

  /** One turn of the scan loop of `kl27_compile`: read the line under the
      cursor, move the cursor on, and handle the stripped line by its kind. */
  method Turn(s: ScanState, files: map<string, seq<string>>, noAutoMain: bool, dispatch: Dispatcher) returns (r: Result<ScanState>)
    requires s.lineno < |s.lines|
    ensures r == Step(s, files, noAutoMain, dispatch)
  {
    var line := Strip(s.lines[s.lineno]);
    var t := s.(lineno := s.lineno + 1);
    match Classify(line) {
    case Blank =>
      StepSkip(s, files, noAutoMain, dispatch);
    case Comment =>
      StepSkip(s, files, noAutoMain, dispatch);
    case Directive(name) =>
      StepDirective(s, files, noAutoMain, dispatch, name);
      if name != "include" {
        return Err(UnknownDirective(t.lineno, name));
      }
      var inc := ProcessInclude(line, t.lines, t.lineno, t.includes, files);
      if inc.Err? {
        return Err(inc.error);
      }
      t := t.(lines := inc.value.lines, includes := inc.value.includes, warnings := t.warnings + inc.value.warnings);
    case LabelDecl(name) =>
      StepDeclare(s, files, noAutoMain, dispatch, name);
      var warnings := t.warnings;
      if name in Names(t.labels) {
        warnings := warnings + [RedefinedLabel(name)];
      } else {
        assert warnings == t.warnings + [];
      }
      t := t.(labels := Assign(t.labels, name, |t.labels|, t.pointer), current := Some(name), warnings := warnings);
    case Instruction(mnemonic, operand) =>
      StepInstructionCase(s, files, noAutoMain, dispatch, mnemonic, operand);
      if t.current.None? {
        if noAutoMain {
          return Err(NoLabel(t.lineno));
        }
        t := t.(warnings := t.warnings + [AutoMain]);
        t := t.(labels := Assign(t.labels, "main", |t.labels|, t.pointer), current := Some("main"));
      }
      r := Assemble(t, dispatch, t.current.value, mnemonic, operand);
      return;
    }
    return Ok(t);
  }

  /** The scan loop of `kl27_compile`: turns of the loop until the cursor
      passes the last line or a turn fails, at most `fuel` of them. */
  method Scan(src: seq<string>, files: map<string, seq<string>>, noAutoMain: bool, dispatch: Dispatcher, fuel: nat)
    returns (r: Result<ScanState>)
    ensures r == ScanFrom(Start(src), files, noAutoMain, dispatch, fuel)
    ensures r.Ok? ==> Inv(r.value) && r.value.lineno == |r.value.lines|
  {
    var s := Start(src);
    var left: nat := fuel;
    while s.lineno < |s.lines|
      invariant ScanFrom(s, files, noAutoMain, dispatch, left) == ScanFrom(Start(src), files, noAutoMain, dispatch, fuel)
      decreases left
    {
      if left == 0 {
        return Err(StepLimit);
      }
      ScanUnfold(s, files, noAutoMain, dispatch, left);
      var t := Turn(s, files, noAutoMain, dispatch);
      if t.Err? {
        return t;
      }
      s, left := t.value, left - 1;
    }
    r := Ok(s);
    StartInv(src);
    ScanInv(Start(src), files, noAutoMain, dispatch, fuel);
    ScanStops(Start(src), files, noAutoMain, dispatch, fuel);
  }
}
