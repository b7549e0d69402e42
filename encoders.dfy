/** The instruction encoders: one function per mnemonic from its operand text
    to a list of code segments.  A segment is either concrete bytes or a
    placeholder for a label reference whose two bytes are filled in by the
    jump fixup.  Every primitive instruction is one 4-byte unit: a 16-bit
    opcode and a 16-bit operand, both big-endian. */
module Encoders {
  import opened BigEndian
  import opened Text
  import opened Literals

  /** A code segment: a byte string, or a reference to a label that is
      resolved later and is always 2 bytes wide. */
  datatype Seg = Bytes(bytes: seq<Byte>) | Pending(name: string) {
    function Len(): (n: nat)
      ensures Pending? ==> n == 2
    {
      if Bytes? then |bytes| else 2
    }
  }

  /** The number of code bytes a segment list occupies. */
  function TotalLen(segs: seq<Seg>): nat {
    if segs == [] then 0 else segs[0].Len() + TotalLen(segs[1..])
  }

  lemma {:induction false} TotalLenConcat(a: seq<Seg>, b: seq<Seg>)
    ensures TotalLen(a + b) == TotalLen(a) + TotalLen(b)
  {
    if a != [] {
      assert (a + b)[0] == a[0] && (a + b)[1..] == a[1..] + b;
      TotalLenConcat(a[1..], b);
    } else {
      assert a + b == b;
    }
  }

  predicate AllBytes(segs: seq<Seg>) {
    forall i :: 0 <= i < |segs| ==> segs[i].Bytes?
  }

  /** The bytes of a segment list that holds no placeholder. */
  function Flatten(segs: seq<Seg>): (r: seq<Byte>)
    requires AllBytes(segs)
    ensures |r| == TotalLen(segs)
  {
    if segs == [] then [] else segs[0].bytes + Flatten(segs[1..])
  }

  lemma {:induction false} FlattenConcat(a: seq<Seg>, b: seq<Seg>)
    requires AllBytes(a) && AllBytes(b)
    ensures AllBytes(a + b) && Flatten(a + b) == Flatten(a) + Flatten(b)
  {
    if a != [] {
      assert (a + b)[0] == a[0] && (a + b)[1..] == a[1..] + b;
      FlattenConcat(a[1..], b);
    } else {
      assert a + b == b;
    }
  }

  lemma TotalLenPair(a: Seg, b: Seg)
    ensures TotalLen([a, b]) == a.Len() + b.Len()
  {
    assert [a, b][1..] == [b];
    assert [b][1..] == [];
    assert TotalLen([b]) == b.Len() + TotalLen([]);
  }

  lemma FlattenPair(x: seq<Byte>, y: seq<Byte>)
    ensures AllBytes([Bytes(x), Bytes(y)]) && Flatten([Bytes(x), Bytes(y)]) == x + y
  {
    assert [Bytes(x), Bytes(y)][1..] == [Bytes(y)];
    assert [Bytes(y)][1..] == [];
  }

  /** One 4-byte instruction unit. */
  function Unit(opcode: nat, operand: nat): (u: seq<Byte>)
    requires opcode < 0x1_0000 && operand < 0x1_0000
    ensures |u| == 4
  {
    BE2(opcode) + BE2(operand)
  }

  /** The register table: R0..R7 are 0..7, MAR is 8, MVR is 9, PC is 10. */
  type RegisterIndex = i: nat | i <= 10

  const RegisterMap: map<string, RegisterIndex> := map[
    "MAR" := 8, "MVR" := 9, "PC" := 10,
    "R0" := 0, "R1" := 1, "R2" := 2, "R3" := 3, "R4" := 4, "R5" := 5, "R6" := 6, "R7" := 7]

  /** Each index 0..10 names exactly one register. */
  lemma RegisterMapOneToOne()
    ensures forall a, b :: a in RegisterMap && b in RegisterMap && RegisterMap[a] == RegisterMap[b] ==> a == b
    ensures forall a :: a in RegisterMap ==> RegisterMap[a] <= 10
    ensures forall i :: 0 <= i <= 10 ==> i in RegisterMap.Values
  {
    assert RegisterMap.Keys == {"MAR", "MVR", "PC", "R0", "R1", "R2", "R3", "R4", "R5", "R6", "R7"};
    assert forall i :: 0 <= i <= 10 ==> i in RegisterMap.Values by {
      assert RegisterMap["R0"] == 0 && RegisterMap["R1"] == 1 && RegisterMap["R2"] == 2;
      assert RegisterMap["R3"] == 3 && RegisterMap["R4"] == 4 && RegisterMap["R5"] == 5;
      assert RegisterMap["R6"] == 6 && RegisterMap["R7"] == 7 && RegisterMap["MAR"] == 8;
      assert RegisterMap["MVR"] == 9 && RegisterMap["PC"] == 10;
    }
  }

  /** What an encoder gives back: its segments, Python's `None` (the
      encoder has no `return`), or the exception it raises. */
  datatype Encoded = Segments(segs: seq<Seg>) | NoneValue | Raised(error: EncodeError)

  datatype EncodeError =
    | BadLiteral(text: string)   // ValueError from int(text, 0)
    | OutOfRange(value: int)     // OverflowError from to_bytes(2, "big")
    | NoRegister(name: string)   // KeyError from R_MAP

  /** `[opcode, int(text, 0).to_bytes(2, "big")]` */
  function LiteralUnit(opcode: seq<Byte>, text: string): Encoded {
    var v := ParseInt(text);
    if v.None? then Raised(BadLiteral(text))
    else
      var b := ToBytes(v.value, 2);
      if b.None? then Raised(OutOfRange(v.value)) else Segments([Bytes(opcode), Bytes(b.value)])
  }

  /** `[opcode, R_MAP[text.upper()].to_bytes(2, "big")]` */
  function RegisterUnit(opcode: seq<Byte>, text: string): Encoded {
    var reg := Upper(text);
    if reg in RegisterMap then
      Segments([Bytes(opcode), Bytes(BE2(RegisterMap[reg]))])
    else Raised(NoRegister(reg))
  }

  function CompileNop(operand: string): Encoded { Segments([Bytes([0x00, 0x00, 0x00, 0x00])]) }

  function CompileHlt(operand: string): Encoded { Segments([Bytes([0x00, 0x01, 0x00, 0x00])]) }

  function CompileSl(operand: string): Encoded { LiteralUnit([0x00, 0x02], operand) }

  function CompileSpop(operand: string): Encoded {
    if operand != "" then LiteralUnit([0x00, 0x03], operand)
    else Segments([Bytes([0x00, 0x03]), Bytes(BE2(1))])
  }

  function CompileLlbl(operand: string): Encoded { Segments([Bytes([0x00, 0x04]), Pending(operand)]) }

  function CompileRgw(operand: string): Encoded { RegisterUnit([0x00, 0x10], operand) }

  function CompileRgr(operand: string): Encoded { RegisterUnit([0x00, 0x11], operand) }

  /** The list `compile_jmpl` builds (`llbl <label>; jmpa`) and then drops. */
  function JmplList(operand: string): seq<Seg> {
    [Bytes([0x00, 0x04]), Pending(operand)] + [Bytes([0x00, 0x23]), Bytes([0x00, 0x00])]
  }

  /** `compile_jmpl` has no return statement, so it returns None. */
  function CompileJmpl(operand: string): Encoded { NoneValue }

  /** `rgr PC; add 0x10; rgw R7; llbl <label>; jmpa` */
  function CompileJmpr(operand: string): Encoded {
    Segments([Bytes([0x00, 0x11]), Bytes(BE2(RegisterMap["PC"]))]
             + [Bytes([0x00, 0x30]), Bytes([0x00, 0x10])]
             + [Bytes([0x00, 0x10]), Bytes(BE2(RegisterMap["R7"]))]
             + JmplList(operand))
  }

  /** `rgr R7; jmpa` */
  function CompileRet(operand: string): Encoded {
    Segments([Bytes([0x00, 0x11]), Bytes(BE2(RegisterMap["R7"]))]
             + [Bytes([0x00, 0x23]), Bytes([0x00, 0x00])])
  }

  function CompileJmpa(operand: string): Encoded { Segments([Bytes([0x00, 0x23, 0x00, 0x00])]) }

  /** With no operand the field holds 0, which means "add the top two stack items". */
  function CompileAdd(operand: string): Encoded {
    if operand != "" then LiteralUnit([0x00, 0x30], operand)
    else Segments([Bytes([0x00, 0x30]), Bytes([0x00, 0x00])])
  }

  datatype Mnemonic = Nop | Hlt | Sl | Spop | Llbl | Rgw | Rgr | Jmpl | Jmpr | Ret | Jmpa | Add {
    /** The instructions the virtual machine executes directly. */
    predicate IsPrimitive() { !(Jmpl? || Jmpr? || Ret?) }
  }

  function MnemonicName(m: Mnemonic): string {
    match m
    case Nop => "nop" case Hlt => "hlt" case Sl => "sl" case Spop => "spop"
    case Llbl => "llbl" case Rgw => "rgw" case Rgr => "rgr" case Jmpl => "jmpl"
    case Jmpr => "jmpr" case Ret => "ret" case Jmpa => "jmpa" case Add => "add"
  }

  /** The encoder lookup: exact, case-sensitive match on the mnemonic. */
  function ParseMnemonic(s: string): (r: Option<Mnemonic>)
    ensures r.Some? ==> MnemonicName(r.value) == s
    ensures r.None? ==> forall m: Mnemonic :: MnemonicName(m) != s
  {
    match s
    case "nop" => Some(Nop) case "hlt" => Some(Hlt) case "sl" => Some(Sl) case "spop" => Some(Spop)
    case "llbl" => Some(Llbl) case "rgw" => Some(Rgw) case "rgr" => Some(Rgr) case "jmpl" => Some(Jmpl)
    case "jmpr" => Some(Jmpr) case "ret" => Some(Ret) case "jmpa" => Some(Jmpa) case "add" => Some(Add)
    case _ => None
  }

  /** No two mnemonics share a name. */
  lemma MnemonicNamesDistinct(m: Mnemonic, n: Mnemonic)
    requires MnemonicName(m) == MnemonicName(n)
    ensures m == n
  {
    var a, b := MnemonicName(m), MnemonicName(n);
    assert |a| == |b| && a[0] == b[0] && a[|a| - 1] == b[|b| - 1];
  }

  /** Every mnemonic is found under its own name. */
  lemma ParseMnemonicName(m: Mnemonic)
    ensures ParseMnemonic(MnemonicName(m)) == Some(m)
  {
    var r := ParseMnemonic(MnemonicName(m));
    MnemonicNamesDistinct(r.value, m);
  }

  /** The outcome of calling the encoder registered under a mnemonic on an
      operand. */
  function Encode(m: Mnemonic, operand: string): Encoded {
    match m
    case Nop => CompileNop(operand)
    case Hlt => CompileHlt(operand)
    case Sl => CompileSl(operand)
    case Spop => CompileSpop(operand)
    case Llbl => CompileLlbl(operand)
    case Rgw => CompileRgw(operand)
    case Rgr => CompileRgr(operand)
    case Jmpl => CompileJmpl(operand)
    case Jmpr => CompileJmpr(operand)
    case Ret => CompileRet(operand)
    case Jmpa => CompileJmpa(operand)
    case Add => CompileAdd(operand)
  }

  /** The opcode of a primitive instruction. */
  function Opcode(m: Mnemonic): (op: nat)
    requires m.IsPrimitive()
    ensures op < 0x100
  {
    match m
    case Nop => 0x00 case Hlt => 0x01 case Sl => 0x02 case Spop => 0x03
    case Llbl => 0x04 case Rgw => 0x10 case Rgr => 0x11 case Jmpa => 0x23
    case Add => 0x30
  }

  /** The operand value `sl`, `spop` and `add` put in their operand field:
      `int(text, 0)`, except that an empty operand means 1 for `spop` and the
      stack-operand sentinel 0 for `add`. */
  function NumericOperand(m: Mnemonic, operand: string): Option<int>
    requires m == Sl || m == Spop || m == Add
  {
    if operand == "" && m == Spop then Some(1)
    else if operand == "" && m == Add then Some(0)
    else ParseInt(operand)
  }

  /** How many 4-byte units an instruction expands to. */
  function UnitCount(m: Mnemonic): nat {
    if m == Jmpr then 5 else if m == Jmpl || m == Ret then 2 else 1
  }

  /** The operand-less primitives and `llbl`, as units. */
  lemma FixedUnits(operand: string)
    ensures Flatten(CompileNop(operand).segs) == Unit(0x00, 0)
    ensures Flatten(CompileHlt(operand).segs) == Unit(0x01, 0)
    ensures Flatten(CompileJmpa(operand).segs) == Unit(0x23, 0)
    ensures CompileLlbl(operand).segs == [Bytes(BE2(0x04)), Pending(operand)]
    ensures TotalLen(CompileLlbl(operand).segs) == 4
  {
    var one := [Bytes([0x00, 0x00, 0x00, 0x00])];
    assert one[1..] == [];
    assert [Bytes([0x00, 0x01, 0x00, 0x00])][1..] == [];
    assert [Bytes([0x00, 0x23, 0x00, 0x00])][1..] == [];
    TotalLenPair(Bytes([0x00, 0x04]), Pending(operand));
  }

  /** `ret` is the units `rgr R7` and `jmpa`. */
  lemma RetUnits(operand: string)
    ensures AllBytes(CompileRet(operand).segs)
    ensures Flatten(CompileRet(operand).segs) == Unit(0x11, 7) + Unit(0x23, 0)
    ensures TotalLen(CompileRet(operand).segs) == 8
  {
    assert RegisterMap["R7"] == 7;
    var a, b := [Bytes([0x00, 0x11]), Bytes(BE2(7))], [Bytes([0x00, 0x23]), Bytes([0x00, 0x00])];
    FlattenPair([0x00, 0x11], BE2(7));
    FlattenPair([0x00, 0x23], [0x00, 0x00]);
    FlattenConcat(a, b);
  }

  /** `sl`, `spop` and `add` put the big-endian 16-bit value of their operand
      after the opcode, and fail exactly when the text is malformed or the
      value is outside 0..65535. */
  lemma NumericUnit(m: Mnemonic, operand: string)
    requires m == Sl || m == Spop || m == Add
    ensures var v := NumericOperand(m, operand);
      var e := Encode(m, operand);
      && (e.Segments? <==> v.Some? && 0 <= v.value < 0x1_0000)
      && (v.None? ==> e == Raised(BadLiteral(operand)))
      && (v.Some? && !(0 <= v.value < 0x1_0000) ==> e == Raised(OutOfRange(v.value)))
      && (e.Segments? ==> e.segs == UnitSegs(Opcode(m), v.value))
  {
    var v, e := NumericOperand(m, operand), Encode(m, operand);
    match m {
      case Sl =>
        assert v == ParseInt(operand) && e == CompileSl(operand) && Opcode(m) == 0x02;
        SlUnit(operand);
      case Spop =>
        assert v == (if operand == "" then Some(1) else ParseInt(operand));
        assert e == CompileSpop(operand) && Opcode(m) == 0x03;
        SpopUnit(operand);
      case Add =>
        assert v == (if operand == "" then Some(0) else ParseInt(operand));
        assert e == CompileAdd(operand) && Opcode(m) == 0x30;
        AddUnit(operand);
    }
  }

  /** `sl`: the unit (0x02, value) or the error of `int` or `to_bytes`. */
  lemma SlUnit(operand: string)
    ensures var v := ParseInt(operand);
      var e := CompileSl(operand);
      && (e.Segments? <==> v.Some? && 0 <= v.value < 0x1_0000)
      && (v.None? ==> e == Raised(BadLiteral(operand)))
      && (v.Some? && !(0 <= v.value < 0x1_0000) ==> e == Raised(OutOfRange(v.value)))
      && (e.Segments? ==> e.segs == UnitSegs(0x02, v.value))
  {
    BE2Byte(0x02);
    LiteralUnitValue(0x02, operand);
  }

  /** `spop`: as `sl` with opcode 0x03, and an empty operand means 1. */
  lemma SpopUnit(operand: string)
    ensures var v := if operand == "" then Some(1) else ParseInt(operand);
      var e := CompileSpop(operand);
      && (e.Segments? <==> v.Some? && 0 <= v.value < 0x1_0000)
      && (v.None? ==> e == Raised(BadLiteral(operand)))
      && (v.Some? && !(0 <= v.value < 0x1_0000) ==> e == Raised(OutOfRange(v.value)))
      && (e.Segments? ==> e.segs == UnitSegs(0x03, v.value))
  {
    if operand == "" {
      BE2Byte(0x03);
    } else {
      BE2Byte(0x03);
      LiteralUnitValue(0x03, operand);
    }
  }

  /** `add`: as `sl` with opcode 0x30, and an empty operand means 0. */
  lemma AddUnit(operand: string)
    ensures var v := if operand == "" then Some(0) else ParseInt(operand);
      var e := CompileAdd(operand);
      && (e.Segments? <==> v.Some? && 0 <= v.value < 0x1_0000)
      && (v.None? ==> e == Raised(BadLiteral(operand)))
      && (v.Some? && !(0 <= v.value < 0x1_0000) ==> e == Raised(OutOfRange(v.value)))
      && (e.Segments? ==> e.segs == UnitSegs(0x30, v.value))
  {
    if operand == "" {
      assert UnitSegs(0x30, 0) == [Bytes([0x00, 0x30]), Bytes([0x00, 0x00])];
    } else {
      BE2Byte(0x30);
      LiteralUnitValue(0x30, operand);
    }
  }

  /** The unit `[opcode, int(text, 0).to_bytes(2, "big")]`, or the error
      `int` or `to_bytes` raises. */
  lemma LiteralUnitValue(opcode: nat, text: string)
    requires opcode < 0x1_0000
    ensures var v := ParseInt(text);
      var e := LiteralUnit(BE2(opcode), text);
      && (e.Segments? <==> v.Some? && 0 <= v.value < 0x1_0000)
      && (v.None? ==> e == Raised(BadLiteral(text)))
      && (v.Some? && !(0 <= v.value < 0x1_0000) ==> e == Raised(OutOfRange(v.value)))
      && (e.Segments? ==> e.segs == UnitSegs(opcode, v.value))
  {
    Pow256Widths();
  }

  /** `add` without an operand and `add 0` are the same bytes: the value 0
      doubles as the "operands from the stack" sentinel. */
  lemma AddSentinel()
    ensures CompileAdd("") == CompileAdd("0")
  {
    DecimalLiteral(0);
    assert Numeral(0, 10) == "0";
    Pow256Widths();
    assert BE2(0) == [0x00, 0x00];
  }

  /** `rgw`/`rgr` upper-case the operand, look it up in the register table,
      and fail exactly when the name is not there. */
  lemma RegisterOperand(m: Mnemonic, operand: string)
    requires m == Rgw || m == Rgr
    ensures var reg := Upper(operand);
      var e := Encode(m, operand);
      && (e.Segments? <==> reg in RegisterMap)
      && (reg !in RegisterMap ==> e == Raised(NoRegister(reg)))
      && (e.Segments? ==> e.segs == UnitSegs(Opcode(m), RegisterMap[reg]))
  {
    match m {
      case Rgw =>
        assert BE2(0x10) == [0x00, 0x10];
        RegisterUnitValue(0x10, operand);
      case Rgr =>
        assert BE2(0x11) == [0x00, 0x11];
        RegisterUnitValue(0x11, operand);
    }
  }

  /** The unit `[opcode, R_MAP[text.upper()].to_bytes(2, "big")]`, or the
      KeyError for a name that is not a register. */
  lemma RegisterUnitValue(opcode: nat, text: string)
    requires opcode < 0x1_0000
    ensures var reg := Upper(text);
      var e := RegisterUnit(BE2(opcode), text);
      && (e.Segments? <==> reg in RegisterMap)
      && (reg !in RegisterMap ==> e == Raised(NoRegister(reg)))
      && (e.Segments? ==> e.segs == UnitSegs(opcode, RegisterMap[reg]))
  {
  }

  /** A unit as the two segments opcode and operand. */
  function UnitSegs(opcode: nat, operand: nat): (segs: seq<Seg>)
    requires opcode < 0x1_0000 && operand < 0x1_0000
    ensures AllBytes(segs) && Flatten(segs) == Unit(opcode, operand) && TotalLen(segs) == 4
  {
    FlattenPair(BE2(opcode), BE2(operand));
    TotalLenPair(Bytes(BE2(opcode)), Bytes(BE2(operand)));
    [Bytes(BE2(opcode)), Bytes(BE2(operand))]
  }

  /** The three units at the head of `jmpr`, as the general encoders give them. */
  lemma JmprHeadUnits()
    ensures CompileRgr("PC") == Segments(UnitSegs(0x11, 10))
    ensures CompileAdd("0x10") == Segments(UnitSegs(0x30, 0x10))
    ensures CompileRgw("R7") == Segments(UnitSegs(0x10, 7))
  {
    RegisterUnits();
    AddSixteen();
  }

  lemma RegisterUnits()
    ensures CompileRgr("PC") == Segments(UnitSegs(0x11, 10))
    ensures CompileRgw("R7") == Segments(UnitSegs(0x10, 7))
  {
    assert Upper("PC") == "PC" && Upper("R7") == "R7";
    assert RegisterMap["PC"] == 10 && RegisterMap["R7"] == 7;
  }

  lemma AddSixteen()
    ensures CompileAdd("0x10") == Segments(UnitSegs(0x30, 0x10))
  {
    SixteenLiteral();
    Pow256Widths();
    assert BE2(16) == [0x00, 0x10];
  }

  lemma SixteenLiteral()
    ensures ParseInt("0x10") == Some(16)
  {
    assert DigitChar(1) == '1' && DigitChar(0) == '0';
    assert Numeral(1, 16) == "1";
    assert Numeral(16, 16) == Numeral(1, 16) + [DigitChar(0)];
    HexLiteral(16);
  }

  /** Register names are case-insensitive: an operand and its upper-case form
      encode alike. */
  lemma RegisterCaseInsensitive(m: Mnemonic, operand: string)
    requires m == Rgw || m == Rgr
    ensures Encode(m, Upper(operand)) == Encode(m, operand)
  {
    UpperIdempotent(operand);
  }

  /** `jmpr` is the units `rgr PC`, `add 0x10`, `rgw R7` (see JmprHeadUnits)
      followed by exactly the list `jmpl` builds (see JmplIsLlblJmpa). */
  lemma JmprExpansion(operand: string)
    ensures CompileJmpr(operand).segs
         == UnitSegs(0x11, 10) + UnitSegs(0x30, 0x10) + UnitSegs(0x10, 7) + JmplList(operand)
  {
    var pc, r7 := RegisterMap["PC"], RegisterMap["R7"];
    assert pc == 10 && r7 == 7;
    assert UnitSegs(0x11, 10) == [Bytes([0x00, 0x11]), Bytes(BE2(pc))];
    assert UnitSegs(0x30, 0x10) == [Bytes([0x00, 0x30]), Bytes([0x00, 0x10])];
    assert UnitSegs(0x10, 7) == [Bytes([0x00, 0x10]), Bytes(BE2(r7))];
  }

  /** The list `jmpl` builds is `llbl <label>` followed by the `jmpa` unit. */
  lemma JmplIsLlblJmpa(operand: string)
    ensures JmplList(operand) == CompileLlbl(operand).segs + UnitSegs(0x23, 0)
    ensures Flatten(UnitSegs(0x23, 0)) == Flatten(CompileJmpa(operand).segs)
  {
    assert BE2(0x23) == [0x00, 0x23] && BE2(0) == [0x00, 0x00];
    assert [Bytes([0x00, 0x23, 0x00, 0x00])][1..] == [];
  }

  /** `jmpr` is 20 bytes, and the offset its `add` unit puts on the saved PC
      is the 16 bytes that follow the `rgr PC` unit: the return address lands
      just past the whole expansion. */
  lemma JmprLength(operand: string)
    ensures TotalLen(CompileJmpr(operand).segs) == 20
    ensures CompileJmpr(operand).segs[2..4] == UnitSegs(0x30, 0x10)
    ensures TotalLen(CompileJmpr(operand).segs[2..]) == 0x10
  {
    JmprExpansion(operand);
    JmplDropsItsList(operand);
    var a, b, c, d := UnitSegs(0x11, 10), UnitSegs(0x30, 0x10), UnitSegs(0x10, 7), JmplList(operand);
    SliceParts(CompileJmpr(operand).segs, a, b, c, d);
    FourLens(a, b, c, d);
  }

  /** The length of a list made of four parts, associated to the right. */
  lemma FourLens(a: seq<Seg>, b: seq<Seg>, c: seq<Seg>, d: seq<Seg>)
    ensures TotalLen(b + (c + d)) == TotalLen(b) + TotalLen(c) + TotalLen(d)
    ensures TotalLen(a + (b + (c + d))) == TotalLen(a) + TotalLen(b + (c + d))
  {
    TotalLenConcat(a, b + (c + d));
    TotalLenConcat(b, c + d);
    TotalLenConcat(c, d);
  }

  /** Where the parts of a list made of a 2-segment head, a 2-segment second
      part and two more parts begin. */
  lemma SliceParts(segs: seq<Seg>, a: seq<Seg>, b: seq<Seg>, c: seq<Seg>, d: seq<Seg>)
    requires segs == a + b + c + d && |a| == 2 && |b| == 2
    ensures segs == a + (b + (c + d))
    ensures segs[2..] == b + (c + d)
    ensures segs[2..4] == b
  {
    assert segs[2..] == b + (c + d);
  }

  /** `jmpl` always hands None to the caller, although the 8-byte list it
      builds is the tail of `jmpr`. */
  lemma JmplDropsItsList(operand: string)
    ensures CompileJmpl(operand) == NoneValue
    ensures TotalLen(JmplList(operand)) == 8
  {
    TotalLenPair(Bytes([0x00, 0x04]), Pending(operand));
    TotalLenPair(Bytes([0x00, 0x23]), Bytes([0x00, 0x00]));
    TotalLenConcat([Bytes([0x00, 0x04]), Pending(operand)], [Bytes([0x00, 0x23]), Bytes([0x00, 0x00])]);
  }

  /** What a successful encoding of m looks like: its units' worth of
      bytes, and, for an instruction the machine executes directly, its
      2-byte opcode first. */
  predicate Shaped(m: Mnemonic, e: Encoded) {
    e.Segments? ==>
      && TotalLen(e.segs) == 4 * UnitCount(m)
      && (m.IsPrimitive() ==>
            e.segs != [] && e.segs[0].Bytes? && |e.segs[0].bytes| >= 2
            && e.segs[0].bytes[0] == 0 && e.segs[0].bytes[1] == Opcode(m))
  }

  /** An encoder that succeeds yields exactly its units' worth of bytes:
      4 for a primitive, 8 for `ret`, 20 for `jmpr`. */
  lemma EncodedLength(m: Mnemonic, operand: string)
    ensures Encode(m, operand).Segments? ==> TotalLen(Encode(m, operand).segs) == 4 * UnitCount(m)
  {
    EncodedShape(m, operand);
  }

  /** A primitive encoder that succeeds begins with its 2-byte opcode. */
  lemma PrimitiveOpcode(m: Mnemonic, operand: string)
    requires m.IsPrimitive() && Encode(m, operand).Segments?
    ensures var segs := Encode(m, operand).segs;
      segs != [] && segs[0].Bytes? && |segs[0].bytes| >= 2 && segs[0].bytes[..2] == BE2(Opcode(m))
  {
    EncodedShape(m, operand);
    ShapedHead(m, Encode(m, operand));
  }

  /** The first two bytes of a well-shaped primitive encoding. */
  lemma ShapedHead(m: Mnemonic, e: Encoded)
    requires m.IsPrimitive() && e.Segments? && Shaped(m, e)
    ensures e.segs[0].bytes[..2] == BE2(Opcode(m))
  {
    var b, op := e.segs[0].bytes, Opcode(m);
    BE2Byte(op);
    assert b[..2] == [b[0], b[1]];
  }

  /** Every encoder's outcome is well shaped for its mnemonic. */
  lemma EncodedShape(m: Mnemonic, operand: string)
    ensures Shaped(m, Encode(m, operand))
  {
    match m {
      case Nop => NopShape(operand);
      case Hlt => HltShape(operand);
      case Sl => SlShape(operand);
      case Spop => SpopShape(operand);
      case Llbl => LlblShape(operand);
      case Rgw => RgwShape(operand);
      case Rgr => RgrShape(operand);
      case Jmpl =>
      case Jmpr => JmprLength(operand);
      case Ret => RetUnits(operand);
      case Jmpa => JmpaShape(operand);
      case Add => AddShape(operand);
    }
  }

  /** The shape of a literal unit and of a register unit. */
  lemma LiteralUnitShape(opcode: seq<Byte>, text: string)
    requires |opcode| == 2
    ensures var e := LiteralUnit(opcode, text);
      e.Segments? ==> TotalLen(e.segs) == 4 && e.segs[0] == Bytes(opcode)
  {
    assert opcode[..2] == opcode;
    var v := ParseInt(text);
    if v.Some? && ToBytes(v.value, 2).Some? {
      TotalLenPair(Bytes(opcode), Bytes(ToBytes(v.value, 2).value));
    }
  }

  lemma RegisterUnitShape(opcode: seq<Byte>, text: string)
    requires |opcode| == 2
    ensures var e := RegisterUnit(opcode, text);
      e.Segments? ==> TotalLen(e.segs) == 4 && e.segs[0] == Bytes(opcode)
  {
    assert opcode[..2] == opcode;
    var reg := Upper(text);
    if reg in RegisterMap {
      TotalLenPair(Bytes(opcode), Bytes(BE2(RegisterMap[reg])));
    }
  }

  lemma NopShape(operand: string) ensures Shaped(Nop, CompileNop(operand)) {
    assert [Bytes([0x00, 0x00, 0x00, 0x00])][1..] == [];
  }

  lemma HltShape(operand: string) ensures Shaped(Hlt, CompileHlt(operand)) {
    assert [Bytes([0x00, 0x01, 0x00, 0x00])][1..] == [];
  }

  lemma JmpaShape(operand: string) ensures Shaped(Jmpa, CompileJmpa(operand)) {
    assert [Bytes([0x00, 0x23, 0x00, 0x00])][1..] == [];
  }

  lemma LlblShape(operand: string) ensures Shaped(Llbl, CompileLlbl(operand)) {
    TotalLenPair(Bytes([0x00, 0x04]), Pending(operand));
  }

  lemma SlShape(operand: string) ensures Shaped(Sl, CompileSl(operand)) {
    LiteralUnitShape([0x00, 0x02], operand);
  }

  lemma SpopShape(operand: string) ensures Shaped(Spop, CompileSpop(operand)) {
    LiteralUnitShape([0x00, 0x03], operand);
    TotalLenPair(Bytes([0x00, 0x03]), Bytes(BE2(1)));
  }

  lemma AddShape(operand: string) ensures Shaped(Add, CompileAdd(operand)) {
    LiteralUnitShape([0x00, 0x30], operand);
    TotalLenPair(Bytes([0x00, 0x30]), Bytes([0x00, 0x00]));
  }

  lemma RgwShape(operand: string) ensures Shaped(Rgw, CompileRgw(operand)) {
    RegisterUnitShape([0x00, 0x10], operand);
  }

  lemma RgrShape(operand: string) ensures Shaped(Rgr, CompileRgr(operand)) {
    RegisterUnitShape([0x00, 0x11], operand);
  }

  /** `jmpl` is the one encoder that gives back None, and only the numeric
      and register encoders can raise. */
  lemma EncodeOutcome(m: Mnemonic, operand: string)
    ensures Encode(m, operand).NoneValue? <==> m == Jmpl
    ensures Encode(m, operand).Raised? ==> m in {Sl, Spop, Add, Rgw, Rgr}
  {
    match m {
      case Nop => assert Encode(m, operand) == CompileNop(operand);
      case Hlt => assert Encode(m, operand) == CompileHlt(operand);
      case Sl => assert Encode(m, operand) == CompileSl(operand);
      case Spop => assert Encode(m, operand) == CompileSpop(operand);
      case Llbl => assert Encode(m, operand) == CompileLlbl(operand);
      case Rgw => assert Encode(m, operand) == CompileRgw(operand);
      case Rgr => assert Encode(m, operand) == CompileRgr(operand);
      case Jmpl => assert Encode(m, operand) == CompileJmpl(operand);
      case Jmpr => assert Encode(m, operand) == CompileJmpr(operand);
      case Ret => assert Encode(m, operand) == CompileRet(operand);
      case Jmpa => assert Encode(m, operand) == CompileJmpa(operand);
      case Add => assert Encode(m, operand) == CompileAdd(operand);
    }
  }

  /** The instruction table the scanner consults: for a mnemonic and its
      operand text, the encoder's outcome, or None when no encoder has that
      name (the assembler's `globals()[f"compile_{mnemonic}"]`). */
  type Dispatcher = (string, string) -> Option<Encoded>

  /** The assembler's own instruction table. */
  function Dispatch(mnemonic: string, operand: string): (r: Option<Encoded>)
    ensures r.None? <==> forall m: Mnemonic :: MnemonicName(m) != mnemonic
  {
    var m := ParseMnemonic(mnemonic);
    if m.None? then None else Some(Encode(m.value, operand))
  }

  /** Each mnemonic's name leads to its own encoder. */
  lemma DispatchName(m: Mnemonic, operand: string)
    ensures Dispatch(MnemonicName(m), operand) == Some(Encode(m, operand))
  {
    ParseMnemonicName(m);
  }

  /** `jmpl` is in the table, and its encoder gives back None. */
  lemma DispatchJmpl(operand: string)
    ensures Dispatch("jmpl", operand) == Some(NoneValue)
  {
    assert MnemonicName(Jmpl) == "jmpl";
    DispatchName(Jmpl, operand);
  }

  /** What the table gives for a known mnemonic is 4 bytes per unit. */
  lemma DispatchLength(mnemonic: string, operand: string)
    requires Dispatch(mnemonic, operand).Some? && Dispatch(mnemonic, operand).value.Segments?
    ensures exists m: Mnemonic ::
              MnemonicName(m) == mnemonic && TotalLen(Dispatch(mnemonic, operand).value.segs) == 4 * UnitCount(m)
  {
    var m := ParseMnemonic(mnemonic).value;
    EncodedLength(m, operand);
  }
}
