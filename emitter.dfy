/** The module file: a 16-byte header, the label table, then the code.

      header   "KL27", version 1, compression 0, the 4-byte entry address,
               the 2-byte stack size 4, and a 4-byte checksum left 0
      table    the 2-byte label count, one 6-byte record per label (a
               signed 16-bit id and a signed 32-bit address, `struct.pack(">hi")`),
               and six 0xFF bytes
      code     the resolved code bytes

    All fields are big-endian.  A reader for the layout is given as well,
    so that what is written can be shown to read back. */
module Emitter {
  import opened BigEndian
  import opened Errors
  import opened Labels

  const Magic: seq<Byte> := [0x4B, 0x4C, 0x32, 0x37]   // "KL27"
  const Version: Byte := 1
  const Compression: Byte := 0
  const StackSize: nat := 4
  const HeaderSize: nat := 16
  const RecordSize: nat := 6
  const Terminator: seq<Byte> := [0xFF, 0xFF, 0xFF, 0xFF, 0xFF, 0xFF]

  /** The header for the given entry address; an address from 2^32 on does
      not fit `to_bytes(4)`. */
  function Header(entry: nat): Result<seq<Byte>> {
    var body := ToBytes(entry, 4);
    if body.None? then Err(EntryOutOfRange(entry))
    else Ok(Magic + [Version] + [Compression] + body.value + BE2(StackSize) + [0, 0, 0, 0])
  }

  /** The header exists exactly for addresses below 2^32, is 16 bytes long,
      and holds its fields at their offsets. */
  lemma HeaderLayout(entry: nat)
    ensures Header(entry).Ok? <==> entry < 0x1_0000_0000
    ensures Header(entry).Ok? ==>
      var h := Header(entry).value;
      && |h| == HeaderSize
      && h[..4] == Magic && h[4] == Version && h[5] == Compression
      && FromBE(h[6..10]) == entry
      && h[10..12] == [0, 4] && h[12..16] == [0, 0, 0, 0]
  {
    Pow256Widths();
    if entry < 0x1_0000_0000 {
      var h := Header(entry).value;
      var body := ToBytes(entry, 4).value;
      assert h == Magic + [Version] + [Compression] + body + [0, 4] + [0, 0, 0, 0];
      assert h[6..10] == body;
    }
  }

  /** `struct.pack(">hi", id, addr)`: a struct.error unless the id fits a
      signed 16-bit field and the address a signed 32-bit field. */
  function Record(l: Label): Result<seq<Byte>> {
    var id := PackSigned(l.id, 2);
    var addr := PackSigned(l.addr, 4);
    if id.None? || addr.None? then Err(RecordOutOfRange(l.name)) else Ok(id.value + addr.value)
  }

  /** The records of all labels in table order, or the error of the first
      label whose record cannot be packed. */
  function Records(labels: LabelTable): Result<seq<Byte>> {
    if labels == [] then Ok([])
    else
      var init := Records(labels[..|labels| - 1]);
      if init.Err? then init
      else
        var last := Record(labels[|labels| - 1]);
        if last.Err? then last else Ok(init.value + last.value)
  }

  /** The label table; a count from 65536 on does not fit `to_bytes(2)`. */
  function LabelSection(labels: LabelTable): Result<seq<Byte>> {
    var count := ToBytes(|labels|, 2);
    if count.None? then Err(TooManyLabels(|labels|))
    else
      var records := Records(labels);
      if records.Err? then records else Ok(count.value + records.value + Terminator)
  }

  /** Building the label table as the assembler does: the count, then one
      packed record per label appended in table order, then the terminator. */
  method BuildLabelSection(labels: LabelTable) returns (r: Result<seq<Byte>>)
    ensures r == LabelSection(labels)
  {
    var count := ToBytes(|labels|, 2);
    if count.None? {
      return Err(TooManyLabels(|labels|));
    }
    var records: seq<Byte> := [];
    for i := 0 to |labels|
      invariant Records(labels[..i]) == Ok(records)
    {
      assert labels[..i + 1][..i] == labels[..i];
      var record := Record(labels[i]);
      if record.Err? {
        RecordsPrefixErr(labels, i + 1);
        return record;
      }
      records := records + record.value;
    }
    assert labels[..|labels|] == labels;
    r := Ok(count.value + records + Terminator);
  }

  /** A label whose record fails makes the whole table fail with the first
      such error. */
  lemma {:induction false} RecordsPrefixErr(labels: LabelTable, k: nat)
    requires k <= |labels| && Records(labels[..k]).Err?
    ensures Records(labels) == Records(labels[..k])
    decreases |labels| - k
  {
    if k < |labels| {
      assert labels[..k + 1][..k] == labels[..k];
      assert Records(labels[..k + 1]) == Records(labels[..k]);
      RecordsPrefixErr(labels, k + 1);
    } else {
      assert labels[..k] == labels;
    }
  }

  /** The label table fails only on too many labels or on a label whose
      record does not fit. */
  lemma {:induction false} RecordsErrors(labels: LabelTable)
    requires Records(labels).Err?
    ensures exists i :: 0 <= i < |labels| && Records(labels).error == RecordOutOfRange(labels[i].name)
  {
    var init := labels[..|labels| - 1];
    if Records(init).Err? {
      RecordsErrors(init);
      var i :| 0 <= i < |init| && Records(init).error == RecordOutOfRange(init[i].name);
      assert labels[i] == init[i];
    }
  }

  /** The table can be written exactly when there are fewer than 65536
      labels and every id is below 2^15 and every address below 2^31. */
  lemma {:induction false} RecordsOk(labels: LabelTable)
    ensures Records(labels).Ok? <==>
      forall i :: 0 <= i < |labels| ==> labels[i].id < 0x8000 && labels[i].addr < 0x8000_0000
    ensures Records(labels).Ok? ==> |Records(labels).value| == RecordSize * |labels|
  {
    Pow256Widths();
    if labels != [] {
      var init := labels[..|labels| - 1];
      RecordsOk(init);
      assert forall i :: 0 <= i < |init| ==> init[i] == labels[i];
    }
  }

  /** A signed big-endian field as `struct.unpack` reads it. */
  function FromBESigned(bs: seq<Byte>): int
    requires |bs| >= 1
  {
    if bs[0] < 128 then FromBE(bs) else FromBE(bs) - Pow256(|bs|)
  }

  /** What a loader finds in a module: the entry address, the (id, address)
      records, and the code. */
  datatype Image = Image(entry: nat, records: seq<(int, int)>, code: seq<Byte>)

  /** The (id, address) pairs of a label table, in table order. */
  function Pairs(labels: LabelTable): (r: seq<(int, int)>)
    ensures |r| == |labels| && forall i :: 0 <= i < |labels| ==> r[i] == (labels[i].id as int, labels[i].addr as int)
  {
    seq(|labels|, i requires 0 <= i < |labels| => (labels[i].id as int, labels[i].addr as int))
  }

  /** count records of 6 bytes each. */
  function ReadRecords(bs: seq<Byte>, count: nat): (r: seq<(int, int)>)
    requires |bs| == RecordSize * count
    ensures |r| == count
  {
    if count == 0 then []
    else
      var last := bs[|bs| - RecordSize..];
      ReadRecords(bs[..|bs| - RecordSize], count - 1) + [(FromBESigned(last[..2]), FromBESigned(last[2..]))]
  }

  /** The reader: None when the bytes are not a well-formed module. */
  function ReadModule(bs: seq<Byte>): Option<Image> {
    if |bs| < HeaderSize then None
    else
      var h, rest := bs[..HeaderSize], bs[HeaderSize..];
      if h[..4] != Magic || h[4] != Version || h[5] != Compression || h[10..12] != [0, 4] || h[12..] != [0, 0, 0, 0] then None
      else
        var table := ReadTable(rest);
        if table.None? then None else Some(Image(FromBE(h[6..10]), table.value.0, table.value.1))
  }

  /** The label table and the code after it. */
  function ReadTable(bs: seq<Byte>): Option<(seq<(int, int)>, seq<Byte>)> {
    if |bs| < 2 then None
    else
      var count, body := FromBE(bs[..2]), bs[2..];
      var size := RecordSize * count;
      if |body| < size + |Terminator| || body[size..size + |Terminator|] != Terminator then None
      else Some((ReadRecords(body[..size], count), body[size + |Terminator|..]))
  }

  /** One packed record reads back as the label's id and address. */
  lemma RecordBack(l: Label)
    requires Record(l).Ok?
    ensures var rec := Record(l).value;
      |rec| == RecordSize && FromBESigned(rec[..2]) == l.id && FromBESigned(rec[2..]) == l.addr
  {
    var id := PackSigned(l.id, 2).value;
    var addr := PackSigned(l.addr, 4).value;
    var rec := Record(l).value;
    assert rec[..2] == id && rec[2..] == addr;
  }

  /** Packed records read back as the (id, address) pairs they were
      written from. */
  lemma {:induction false} ReadRecordsBack(labels: LabelTable)
    requires Records(labels).Ok?
    ensures |Records(labels).value| == RecordSize * |labels|
            && ReadRecords(Records(labels).value, |labels|) == Pairs(labels)
  {
    RecordsOk(labels);
    if labels != [] {
      var init := labels[..|labels| - 1];
      var l := labels[|labels| - 1];
      RecordsOk(init);
      ReadRecordsBack(init);
      RecordBack(l);
      ReadRecordsSnoc(Records(init).value, Record(l).value, |init|);
      PairsSnoc(labels);
    }
  }

  /** Reading one more record off the end of the bytes. */
  lemma ReadRecordsSnoc(front: seq<Byte>, rec: seq<Byte>, count: nat)
    requires |front| == RecordSize * count && |rec| == RecordSize
    ensures ReadRecords(front + rec, count + 1)
            == ReadRecords(front, count) + [(FromBESigned(rec[..2]), FromBESigned(rec[2..]))]
  {
    var bs := front + rec;
    assert bs[..|bs| - RecordSize] == front;
    assert bs[|bs| - RecordSize..] == rec;
  }

  /** The pairs of a table are those of all but its last label, then the
      last one's. */
  lemma PairsSnoc(labels: LabelTable)
    requires labels != []
    ensures var l := labels[|labels| - 1];
      Pairs(labels) == Pairs(labels[..|labels| - 1]) + [(l.id as int, l.addr as int)]
  {
  }

  /** The label table reads back as its records, followed by whatever
      comes after it. */
  lemma ReadTableBack(labels: LabelTable, code: seq<Byte>)
    requires LabelSection(labels).Ok?
    ensures ReadTable(LabelSection(labels).value + code) == Some((Pairs(labels), code))
  {
    Pow256Widths();
    var count := ToBytes(|labels|, 2).value;
    var records := Records(labels).value;
    ReadRecordsBack(labels);
    assert LabelSection(labels).value == count + records + Terminator;
    var bs := LabelSection(labels).value + code;
    var body := records + Terminator + code;
    assert bs == count + body;
    assert bs[..2] == count && bs[2..] == body;
    var size := |records|;
    assert body[..size] == records;
    assert body[size..size + 6] == Terminator;
    assert body[size + 6..] == code;
  }

  /** What the assembler writes reads back: the entry address, the label
      records in table order, and the code, whatever the code is. */
  lemma ReadBack(entry: nat, labels: LabelTable, code: seq<Byte>)
    requires Header(entry).Ok? && LabelSection(labels).Ok?
    ensures ReadModule(Header(entry).value + LabelSection(labels).value + code)
            == Some(Image(entry, Pairs(labels), code))
  {
    HeaderLayout(entry);
    ReadTableBack(labels, code);
    var h := Header(entry).value;
    var rest := LabelSection(labels).value + code;
    var bs := h + LabelSection(labels).value + code;
    assert bs == h + rest;
    assert bs[..HeaderSize] == h && bs[HeaderSize..] == rest;
  }
}
