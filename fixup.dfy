/** The jump fixup: every label placeholder in the code is replaced by the
    2-byte big-endian id of the label it names (the id, not the address:
    the loader maps ids to addresses through the label table), and the
    names of the labels that some jump refers to are collected.  Afterwards
    every label other than the entry point that no jump refers to is
    reported as unused, in table order. */
module Fixup {
  import opened BigEndian
  import opened Encoders
  import opened Errors
  import opened Labels

  /** `LabelPlaceholder.resolve`: the id of the named label as two bytes.
      A name that is not in the table is a KeyError; an id from 65536 on
      does not fit `to_bytes(2)`.  Concrete bytes pass through. */
  function ResolveSeg(seg: Seg, labels: LabelTable): Result<Seg> {
    if seg.Bytes? then Ok(seg)
    else
      var entry := Lookup(labels, seg.name);
      if entry.None? then Err(UnresolvedLabel(seg.name))
      else if entry.value.0 >= 0x1_0000 then Err(IdOutOfRange(seg.name))
      else Ok(Bytes(BE2(entry.value.0)))
  }

  /** A placeholder resolves exactly when its label is in the table with an
      id below 65536, and then to two bytes that read back as the id (not
      the address) of the label; concrete bytes are left as they are. */
  lemma ResolveSegSpec(seg: Seg, labels: LabelTable)
    ensures seg.Bytes? ==> ResolveSeg(seg, labels) == Ok(seg)
    ensures seg.Pending? ==>
      && (Lookup(labels, seg.name).None? ==> ResolveSeg(seg, labels) == Err(UnresolvedLabel(seg.name)))
      && (Lookup(labels, seg.name).Some? && Lookup(labels, seg.name).value.0 >= 0x1_0000
          ==> ResolveSeg(seg, labels) == Err(IdOutOfRange(seg.name)))
      && (ResolveSeg(seg, labels).Ok? ==>
            var b := ResolveSeg(seg, labels).value;
            && Lookup(labels, seg.name).Some?
            && b.Bytes? && |b.bytes| == 2
            && FromBE(b.bytes) == Lookup(labels, seg.name).value.0)
  {
  }

  /** The code after the fixup, or the error of the first placeholder that
      cannot be resolved. */
  function Resolve(code: seq<Seg>, labels: LabelTable): (r: Result<seq<Seg>>)
  {
    if code == [] then Ok([])
    else
      var init := Resolve(code[..|code| - 1], labels);
      if init.Err? then init
      else
        var last := ResolveSeg(code[|code| - 1], labels);
        if last.Err? then Err(last.error) else Ok(init.value + [last.value])
  }

  /** When every label's id is its position in the table, each placeholder
      is resolved to the two bytes of the position of the label it names. */
  lemma ResolvePositions(code: seq<Seg>, labels: LabelTable, i: nat)
    requires Resolve(code, labels).Ok? && i < |code| && code[i].Pending?
    requires forall k :: 0 <= k < |labels| ==> labels[k].id == k
    ensures |Resolve(code, labels).value| == |code|
    ensures exists k :: 0 <= k < |labels| && k < 0x1_0000 && labels[k].name == code[i].name
                        && Resolve(code, labels).value[i] == Bytes(BE2(k))
  {
    ResolveSegments(code, labels);
    var seg := code[i];
    ResolveSegSpec(seg, labels);
    var entry := Lookup(labels, seg.name).value;
    var k :| 0 <= k < |labels| && labels[k] == Label(seg.name, entry.0, entry.1);
    assert labels[k].id == k;
  }

  /** The fixup fails only on a placeholder: its label is missing or its
      id does not fit two bytes. */
  lemma {:induction false} ResolveErrors(code: seq<Seg>, labels: LabelTable)
    requires Resolve(code, labels).Err?
    ensures var e := Resolve(code, labels).error;
      exists i :: 0 <= i < |code| && code[i].Pending?
        && (e == UnresolvedLabel(code[i].name) || e == IdOutOfRange(code[i].name))
  {
    var init := code[..|code| - 1];
    if Resolve(init, labels).Err? {
      ResolveErrors(init, labels);
      var i :| 0 <= i < |init| && init[i].Pending?
        && (Resolve(init, labels).error == UnresolvedLabel(init[i].name) || Resolve(init, labels).error == IdOutOfRange(init[i].name));
      assert code[i] == init[i];
    } else {
      ResolveSegSpec(code[|code| - 1], labels);
    }
  }

  /** The resolved code has one segment per segment of the code: concrete
      bytes stay as they were, and each placeholder becomes the two bytes of
      its label's id. */
  lemma {:induction false} ResolveSegments(code: seq<Seg>, labels: LabelTable)
    requires Resolve(code, labels).Ok?
    ensures var fixed := Resolve(code, labels).value;
      && |fixed| == |code|
      && forall i :: 0 <= i < |code| ==> Ok(fixed[i]) == ResolveSeg(code[i], labels)
  {
    if code != [] {
      var init := code[..|code| - 1];
      ResolveSegments(init, labels);
      var fixed := Resolve(code, labels).value;
      forall i | 0 <= i < |code| ensures Ok(fixed[i]) == ResolveSeg(code[i], labels) {
        if i < |init| {
          assert fixed[i] == Resolve(init, labels).value[i];
          assert code[i] == init[i];
        }
      }
    }
  }

  /** The fixup succeeds exactly when every placeholder resolves. */
  lemma {:induction false} ResolveOk(code: seq<Seg>, labels: LabelTable)
    ensures Resolve(code, labels).Ok? <==> forall i :: 0 <= i < |code| ==> ResolveSeg(code[i], labels).Ok?
  {
    if code != [] {
      var init := code[..|code| - 1];
      ResolveOk(init, labels);
      assert forall i :: 0 <= i < |init| ==> init[i] == code[i];
      if Resolve(code, labels).Ok? {
        ResolveSegments(code, labels);
      }
    }
  }

  /** A resolved segment is concrete and as long as the segment it replaces. */
  lemma ResolveSegLen(seg: Seg, labels: LabelTable)
    requires ResolveSeg(seg, labels).Ok?
    ensures ResolveSeg(seg, labels).value.Bytes? && ResolveSeg(seg, labels).value.Len() == seg.Len()
  {
  }

  lemma TotalLenOne(seg: Seg)
    ensures TotalLen([seg]) == seg.Len()
  {
    assert [seg][1..] == [];
  }

  /** After the fixup no placeholder is left and the code bytes are as long
      as before: a placeholder took its two bytes already. */
  lemma {:induction false} ResolveLength(code: seq<Seg>, labels: LabelTable)
    requires Resolve(code, labels).Ok?
    ensures AllBytes(Resolve(code, labels).value)
    ensures TotalLen(Resolve(code, labels).value) == TotalLen(code)
  {
    if code != [] {
      var init := code[..|code| - 1];
      var last := code[|code| - 1];
      ResolveLength(init, labels);
      ResolveSegLen(last, labels);
      assert code == init + [last];
      SnocLength(init, last, Resolve(init, labels).value, ResolveSeg(last, labels).value);
    }
  }

  /** Appending a segment and its resolution to a list and its resolution
      keeps the lengths equal and the resolution concrete. */
  lemma SnocLength(init: seq<Seg>, last: Seg, fixedInit: seq<Seg>, fixedLast: Seg)
    requires AllBytes(fixedInit) && TotalLen(fixedInit) == TotalLen(init)
    requires fixedLast.Bytes? && fixedLast.Len() == last.Len()
    ensures AllBytes(fixedInit + [fixedLast])
    ensures TotalLen(fixedInit + [fixedLast]) == TotalLen(init + [last])
  {
    TotalLenConcat(init, [last]);
    TotalLenConcat(fixedInit, [fixedLast]);
    TotalLenOne(last);
    TotalLenOne(fixedLast);
  }

  /** When a prefix of the code already fails, the whole fixup fails the
      same way: the error is the first failing placeholder's. */
  lemma {:induction false} ResolvePrefixErr(code: seq<Seg>, k: nat, labels: LabelTable)
    requires k <= |code| && Resolve(code[..k], labels).Err?
    ensures Resolve(code, labels) == Resolve(code[..k], labels)
    decreases |code| - k
  {
    if k < |code| {
      assert code[..k + 1][..k] == code[..k];
      assert Resolve(code[..k + 1], labels) == Resolve(code[..k], labels);
      ResolvePrefixErr(code, k + 1, labels);
    } else {
      assert code[..k] == code;
    }
  }

  /** The names the placeholders of the code refer to. */
  function Referenced(code: seq<Seg>): set<string> {
    set i | 0 <= i < |code| && code[i].Pending? :: code[i].name
  }

  /** Resolving one more segment of the code. */
  lemma ResolveSnoc(code: seq<Seg>, n: nat, labels: LabelTable)
    requires n < |code| && Resolve(code[..n], labels).Ok?
    ensures var seg := ResolveSeg(code[n], labels);
      Resolve(code[..n + 1], labels)
      == if seg.Err? then Err(seg.error) else Ok(Resolve(code[..n], labels).value + [seg.value])
  {
    assert code[..n + 1][..n] == code[..n];
  }

  lemma ReferencedSnoc(code: seq<Seg>, n: nat)
    requires n < |code|
    ensures Referenced(code[..n + 1]) == Referenced(code[..n]) + (if code[n].Pending? then {code[n].name} else {})
  {
    assert forall i :: 0 <= i < n ==> code[..n + 1][i] == code[..n][i];
    assert code[..n + 1][n] == code[n];
  }

  /** `fix_jumps()`: walks a copy of the code and overwrites each
      placeholder in place with its resolved bytes, collecting the names it
      resolved. */
  method FixJumps(code: seq<Seg>, labels: LabelTable) returns (r: Result<seq<Seg>>, resolved: set<string>)
    ensures r == Resolve(code, labels)
    ensures r.Ok? ==> resolved == Referenced(code)
  {
    var fixed := code;
    resolved := {};
    for n := 0 to |code|
      invariant Resolve(code[..n], labels).Ok?
      invariant |fixed| == |code|
      invariant fixed[..n] == Resolve(code[..n], labels).value
      invariant forall i :: n <= i < |code| ==> fixed[i] == code[i]
      invariant resolved == Referenced(code[..n])
    {
      ResolveSnoc(code, n, labels);
      ReferencedSnoc(code, n);
      if code[n].Pending? {
        var seg := ResolveSeg(code[n], labels);
        if seg.Err? {
          ResolvePrefixErr(code, n + 1, labels);
          return Err(seg.error), resolved;
        }
        fixed := fixed[n := seg.value];
        resolved := resolved + {code[n].name};
      }
      assert fixed[..n + 1] == fixed[..n] + [fixed[n]];
    }
    assert code[..|code|] == code;
    assert fixed[..|code|] == fixed;
    r := Ok(fixed);
  }

  /** The labels reported as unused, in table order: every label except the
      entry point whose name no jump resolved. */
  function UnusedLabels(labels: LabelTable, entry: string, resolved: set<string>): (r: seq<string>)
  {
    if labels == [] then []
    else
      var rest := UnusedLabels(labels[..|labels| - 1], entry, resolved);
      var name := labels[|labels| - 1].name;
      if name == entry || name in resolved then rest else rest + [name]
  }

  /** A name is reported exactly when it is a label, not the entry point,
      and not resolved by any jump. */
  lemma {:induction false} UnusedLabelsSpec(labels: LabelTable, entry: string, resolved: set<string>, name: string)
    ensures name in UnusedLabels(labels, entry, resolved)
            <==> name in Names(labels) && name != entry && name !in resolved
  {
    if labels != [] {
      var init := labels[..|labels| - 1];
      UnusedLabelsSpec(init, entry, resolved, name);
      InNamesSnoc(labels, name);
    }
  }

  /** The report loop: one warning per unused label, in table order. */
  method ReportUnused(labels: LabelTable, entry: string, resolved: set<string>) returns (w: seq<Warning>)
    ensures |w| == |UnusedLabels(labels, entry, resolved)|
    ensures forall k :: 0 <= k < |w| ==> w[k] == UnusedLabel(UnusedLabels(labels, entry, resolved)[k])
  {
    w := [];
    for i := 0 to |labels|
      invariant |w| == |UnusedLabels(labels[..i], entry, resolved)|
      invariant forall k :: 0 <= k < |w| ==> w[k] == UnusedLabel(UnusedLabels(labels[..i], entry, resolved)[k])
    {
      assert labels[..i + 1][..i] == labels[..i];
      var name := labels[i].name;
      if name != entry && name !in resolved {
        w := w + [UnusedLabel(name)];
      }
    }
    assert labels[..|labels|] == labels;
  }
}
