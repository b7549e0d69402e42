/** `kl27_compile` from start to end: scan the source, look up the entry
    point, build the label table, fix the jumps, report the unused labels,
    build the header, and put the module together. */
module Compiler {
  import opened BigEndian
  import opened Encoders
  import opened Errors
  import opened Labels
  import opened Preprocessor
  import opened Driver
  import opened Fixup
  import opened Emitter

  /** The command-line options the assembler reads (`--entry-point`,
      `--no-automatic-main`). */
  datatype Options = Options(entryPoint: string, noAutoMain: bool)

  /** The bytes written to the output file and the warnings reported. */
  datatype Output = Output(image: seq<Byte>, warnings: seq<Warning>)

  function UnusedWarnings(names: seq<string>): (r: seq<Warning>)
    ensures |r| == |names| && forall k :: 0 <= k < |names| ==> r[k] == UnusedLabel(names[k])
  {
    seq(|names|, k requires 0 <= k < |names| => UnusedLabel(names[k]))
  }

  /** The outcome of an assembly run with a given instruction table, in the
      order the assembler fails. */
  function CompileSpec(src: seq<string>, files: map<string, seq<string>>, options: Options, dispatch: Dispatcher, fuel: nat): Result<Output> {
    var scanned := ScanFrom(Start(src), files, options.noAutoMain, dispatch, fuel);
    if scanned.Err? then Err(scanned.error)
    else
      var s := scanned.value;
      var entry := Lookup(s.labels, options.entryPoint);
      if entry.None? then Err(MissingEntryPoint(options.entryPoint))
      else
        var table := LabelSection(s.labels);
        if table.Err? then Err(table.error)
        else
          var fixed := Resolve(s.code, s.labels);
          if fixed.Err? then Err(fixed.error)
          else
            var header := Header(entry.value.1);
            if header.Err? then Err(header.error)
            else
              ResolveLength(s.code, s.labels);
              Ok(Output(header.value + table.value + Flatten(fixed.value),
                        s.warnings + UnusedWarnings(UnusedLabels(s.labels, options.entryPoint, Referenced(s.code)))))
  }

  /** The assembler's main routine, after the source has been read into
      lines. */
  method Compile(src: seq<string>, files: map<string, seq<string>>, options: Options, fuel: nat)
    returns (r: Result<Output>)
    ensures r == CompileSpec(src, files, options, Dispatch, fuel)
  {
    var scanned := Scan(src, files, options.noAutoMain, Dispatch, fuel);
    if scanned.Err? {
      return Err(scanned.error);
    }
    var s := scanned.value;
    var entry := Lookup(s.labels, options.entryPoint);
    if entry.None? {
      return Err(MissingEntryPoint(options.entryPoint));
    }
    var entryAddr := entry.value.1;
    var table := BuildLabelSection(s.labels);
    if table.Err? {
      return Err(table.error);
    }
    var fixed, resolved := FixJumps(s.code, s.labels);
    if fixed.Err? {
      return Err(fixed.error);
    }
    var unused := ReportUnused(s.labels, options.entryPoint, resolved);
    ResolveLength(s.code, s.labels);
    var finalCode := Flatten(fixed.value);
    var header := Header(entryAddr);
    if header.Err? {
      return Err(header.error);
    }
    assert unused == UnusedWarnings(UnusedLabels(s.labels, options.entryPoint, resolved));
    r := Ok(Output(header.value + table.value + finalCode, s.warnings + unused));
  }

  /** The pieces of a successful run. */
  lemma CompileParts(src: seq<string>, files: map<string, seq<string>>, options: Options, dispatch: Dispatcher, fuel: nat)
    requires CompileSpec(src, files, options, dispatch, fuel).Ok?
    ensures var s := ScanFrom(Start(src), files, options.noAutoMain, dispatch, fuel).value;
      && Lookup(s.labels, options.entryPoint).Some?
      && Header(Lookup(s.labels, options.entryPoint).value.1).Ok?
      && LabelSection(s.labels).Ok?
      && Resolve(s.code, s.labels).Ok?
      && AllBytes(Resolve(s.code, s.labels).value)
      && CompileSpec(src, files, options, dispatch, fuel).value.image
         == Header(Lookup(s.labels, options.entryPoint).value.1).value + LabelSection(s.labels).value
            + Flatten(Resolve(s.code, s.labels).value)
      && CompileSpec(src, files, options, dispatch, fuel).value.warnings
         == s.warnings + UnusedWarnings(UnusedLabels(s.labels, options.entryPoint, Referenced(s.code)))
  {
    var s := ScanFrom(Start(src), files, options.noAutoMain, dispatch, fuel).value;
    ResolveLength(s.code, s.labels);
  }

  /** The module that is written reads back as the entry label's address,
      the records of the label table in table order, and the resolved code. */
  lemma CompileReadBack(src: seq<string>, files: map<string, seq<string>>, options: Options, dispatch: Dispatcher, fuel: nat)
    requires CompileSpec(src, files, options, dispatch, fuel).Ok?
    ensures var s := ScanFrom(Start(src), files, options.noAutoMain, dispatch, fuel).value;
      && Lookup(s.labels, options.entryPoint).Some?
      && Resolve(s.code, s.labels).Ok?
      && AllBytes(Resolve(s.code, s.labels).value)
      && ReadModule(CompileSpec(src, files, options, dispatch, fuel).value.image)
         == Some(Image(Lookup(s.labels, options.entryPoint).value.1, Pairs(s.labels),
                       Flatten(Resolve(s.code, s.labels).value)))
  {
    var s := ScanFrom(Start(src), files, options.noAutoMain, dispatch, fuel).value;
    CompileParts(src, files, options, dispatch, fuel);
    ReadBack(Lookup(s.labels, options.entryPoint).value.1, s.labels, Flatten(Resolve(s.code, s.labels).value));
  }

  /** The code section is exactly as long as the final code pointer, and
      the entry address and every label address lie within it or at its end. */
  lemma CompileLayout(src: seq<string>, files: map<string, seq<string>>, options: Options, dispatch: Dispatcher, fuel: nat)
    requires CompileSpec(src, files, options, dispatch, fuel).Ok?
    ensures var s := ScanFrom(Start(src), files, options.noAutoMain, dispatch, fuel).value;
      var image := ReadModule(CompileSpec(src, files, options, dispatch, fuel).value.image);
      && image.Some?
      && |image.value.code| == s.pointer
      && |image.value.records| == |s.labels|
      && image.value.entry <= |image.value.code|
      && (forall i :: 0 <= i < |image.value.records| ==> 0 <= image.value.records[i].1 <= |image.value.code|)
  {
    var s := ScanFrom(Start(src), files, options.noAutoMain, dispatch, fuel).value;
    StartInv(src);
    ScanInv(Start(src), files, options.noAutoMain, dispatch, fuel);
    CompileReadBack(src, files, options, dispatch, fuel);
    ImageLayout(s, options.entryPoint, ReadModule(CompileSpec(src, files, options, dispatch, fuel).value.image).value);
  }

  /** The layout facts of CompileLayout for the module read back from a
      scanned state that keeps the invariant. */
  lemma ImageLayout(s: ScanState, entryPoint: string, image: Image)
    requires Inv(s) && Lookup(s.labels, entryPoint).Some?
    requires Resolve(s.code, s.labels).Ok? && AllBytes(Resolve(s.code, s.labels).value)
    requires image == Image(Lookup(s.labels, entryPoint).value.1, Pairs(s.labels), Flatten(Resolve(s.code, s.labels).value))
    ensures && |image.code| == s.pointer
            && |image.records| == |s.labels|
            && image.entry <= |image.code|
            && (forall i :: 0 <= i < |image.records| ==> 0 <= image.records[i].1 <= |image.code|)
  {
    ResolveLength(s.code, s.labels);
    var entry := Lookup(s.labels, entryPoint).value;
    var k :| 0 <= k < |s.labels| && s.labels[k] == Label(entryPoint, entry.0, entry.1);
  }

  /** The module is the 16-byte header, the 2-byte count, 6 bytes per
      label, the 6-byte terminator, and one byte per code byte. */
  lemma CompileLength(src: seq<string>, files: map<string, seq<string>>, options: Options, dispatch: Dispatcher, fuel: nat)
    requires CompileSpec(src, files, options, dispatch, fuel).Ok?
    ensures var s := ScanFrom(Start(src), files, options.noAutoMain, dispatch, fuel).value;
      |CompileSpec(src, files, options, dispatch, fuel).value.image|
      == HeaderSize + 2 + RecordSize * |s.labels| + |Terminator| + s.pointer
  {
    var s := ScanFrom(Start(src), files, options.noAutoMain, dispatch, fuel).value;
    StartInv(src);
    ScanInv(Start(src), files, options.noAutoMain, dispatch, fuel);
    CompileParts(src, files, options, dispatch, fuel);
    ResolveLength(s.code, s.labels);
    HeaderLayout(Lookup(s.labels, options.entryPoint).value.1);
    ReadRecordsBack(s.labels);
    Pow256Widths();
  }

  /** A missing entry point is reported exactly when the scan succeeds and
      no label of that name was declared; it is then reported before the
      label table is built or any jump is fixed. */
  lemma CompileMissingEntry(src: seq<string>, files: map<string, seq<string>>, options: Options, dispatch: Dispatcher, fuel: nat)
    ensures var scanned := ScanFrom(Start(src), files, options.noAutoMain, dispatch, fuel);
      CompileSpec(src, files, options, dispatch, fuel) == Err(MissingEntryPoint(options.entryPoint))
      <==> scanned.Ok? && options.entryPoint !in Names(scanned.value.labels)
  {
    var scanned := ScanFrom(Start(src), files, options.noAutoMain, dispatch, fuel);
    if scanned.Err? {
      ScanErrors(Start(src), files, options.noAutoMain, dispatch, fuel);
    } else {
      var s := scanned.value;
      if Lookup(s.labels, options.entryPoint).Some? {
        var table := LabelSection(s.labels);
        if table.Err? && ToBytes(|s.labels|, 2).Some? {
          RecordsErrors(s.labels);
        } else if table.Ok? && Resolve(s.code, s.labels).Err? {
          ResolveErrors(s.code, s.labels);
        }
      }
    }
  }

  /** A warning list followed by the unused-label warnings for some names
      warns about an unused label exactly for those names. */
  lemma UnusedWarningsSpec(prefix: seq<Warning>, names: seq<string>, name: string)
    ensures var w := prefix + UnusedWarnings(names);
      && |w| >= |prefix| && w[..|prefix|] == prefix
      && (UnusedLabel(name) in w[|prefix|..] <==> name in names)
  {
    var w := prefix + UnusedWarnings(names);
    assert w[|prefix|..] == UnusedWarnings(names);
    if UnusedLabel(name) in UnusedWarnings(names) {
      var k :| 0 <= k < |names| && UnusedWarnings(names)[k] == UnusedLabel(name);
    }
    if name in names {
      var k :| 0 <= k < |names| && names[k] == name;
      assert UnusedWarnings(names)[k] == UnusedLabel(name);
    }
  }

  /** The warnings of a run are those of the scan followed by one
      `UnusedLabel` per label that is not the entry point and that no jump
      refers to, in table order. */
  lemma CompileWarnings(src: seq<string>, files: map<string, seq<string>>, options: Options, dispatch: Dispatcher, fuel: nat, name: string)
    requires CompileSpec(src, files, options, dispatch, fuel).Ok?
    ensures var s := ScanFrom(Start(src), files, options.noAutoMain, dispatch, fuel).value;
      var w := CompileSpec(src, files, options, dispatch, fuel).value.warnings;
      && |w| >= |s.warnings| && w[..|s.warnings|] == s.warnings
      && (UnusedLabel(name) in w[|s.warnings|..]
          <==> name in Names(s.labels) && name != options.entryPoint && name !in Referenced(s.code))
  {
    var s := ScanFrom(Start(src), files, options.noAutoMain, dispatch, fuel).value;
    var unused := UnusedLabels(s.labels, options.entryPoint, Referenced(s.code));
    CompileParts(src, files, options, dispatch, fuel);
    UnusedLabelsSpec(s.labels, options.entryPoint, Referenced(s.code), name);
    UnusedWarningsSpec(s.warnings, unused, name);
  }

  /** Without redefined labels, each jump's two bytes hold the position in
      the label table of the label it names, and the record at that
      position carries that id: the loader finds the target through the
      table. */
  lemma CompileJumpIds(src: seq<string>, files: map<string, seq<string>>, options: Options, dispatch: Dispatcher, fuel: nat, i: nat)
    requires CompileSpec(src, files, options, dispatch, fuel).Ok?
    ensures var s := ScanFrom(Start(src), files, options.noAutoMain, dispatch, fuel).value;
      && Resolve(s.code, s.labels).Ok?
      && |Resolve(s.code, s.labels).value| == |s.code|
      && (NoRedefinition(s.warnings) && i < |s.code| && s.code[i].Pending? ==>
            exists k :: 0 <= k < |s.labels| && k < 0x1_0000 && s.labels[k].name == s.code[i].name
                        && Resolve(s.code, s.labels).value[i] == Bytes(BE2(k))
                        && Pairs(s.labels)[k].0 == k)
  {
    var s := ScanFrom(Start(src), files, options.noAutoMain, dispatch, fuel).value;
    StartInv(src);
    ScanInv(Start(src), files, options.noAutoMain, dispatch, fuel);
    CompileParts(src, files, options, dispatch, fuel);
    JumpIds(s, i);
  }

  /** CompileJumpIds for a scanned state that keeps the invariant. */
  lemma JumpIds(s: ScanState, i: nat)
    requires Inv(s) && Resolve(s.code, s.labels).Ok?
    ensures && |Resolve(s.code, s.labels).value| == |s.code|
            && (NoRedefinition(s.warnings) && i < |s.code| && s.code[i].Pending? ==>
                  exists k :: 0 <= k < |s.labels| && k < 0x1_0000 && s.labels[k].name == s.code[i].name
                              && Resolve(s.code, s.labels).value[i] == Bytes(BE2(k))
                              && Pairs(s.labels)[k].0 == k)
  {
    ResolveSegments(s.code, s.labels);
    if NoRedefinition(s.warnings) && i < |s.code| && s.code[i].Pending? {
      ResolvePositions(s.code, s.labels, i);
    }
  }
}
