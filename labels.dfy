/** The label table: an insertion-ordered map from label name to the pair
    (id, address), with the assignment semantics of Python's `OrderedDict`:
    assigning to a present key replaces its value in place and keeps its
    position; a new key goes to the end. */
module Labels {
  import opened BigEndian

  datatype Label = Label(name: string, id: nat, addr: nat)

  type LabelTable = seq<Label>

  /** The keys in table order. */
  function Names(t: LabelTable): (r: seq<string>)
    ensures |r| == |t| && forall i :: 0 <= i < |t| ==> r[i] == t[i].name
  {
    seq(|t|, i requires 0 <= i < |t| => t[i].name)
  }

  /** A name is a key of a table iff it is a key of all but its last
      entry or the last entry's name. */
  lemma InNamesSnoc(t: LabelTable, name: string)
    requires t != []
    ensures name in Names(t) <==> name in Names(t[..|t| - 1]) || name == t[|t| - 1].name
  {
    var init := t[..|t| - 1];
    if name in Names(t) {
      var k :| 0 <= k < |t| && Names(t)[k] == name;
      if k < |init| {
        assert Names(init)[k] == name;
      }
    }
    if name in Names(init) {
      var k :| 0 <= k < |init| && Names(init)[k] == name;
      assert Names(t)[k] == name;
    }
    if name == t[|t| - 1].name {
      assert Names(t)[|t| - 1] == name;
    }
  }

  predicate UniqueNames(t: LabelTable) {
    forall i, j :: 0 <= i < j < |t| ==> t[i].name != t[j].name
  }

  /** The position of name in the table, if it is a key. */
  function IndexOf(t: LabelTable, name: string): (r: Option<nat>)
    ensures r.Some? ==> r.value < |t| && t[r.value].name == name
                        && forall j :: 0 <= j < r.value ==> t[j].name != name
    ensures r.None? <==> name !in Names(t)
  {
    if t == [] then None
    else if t[0].name == name then Some(0)
    else
      var rest := IndexOf(t[1..], name);
      assert Names(t) == [t[0].name] + Names(t[1..]);
      if rest.None? then None else Some(rest.value + 1)
  }

  /** `table[name] = (id, addr)` */
  function Assign(t: LabelTable, name: string, id: nat, addr: nat): (r: LabelTable)
    ensures IndexOf(t, name).None? ==> r == t + [Label(name, id, addr)]
    ensures IndexOf(t, name).Some? ==> r == t[IndexOf(t, name).value := Label(name, id, addr)]
  {
    var i := IndexOf(t, name);
    if i.None? then t + [Label(name, id, addr)] else t[i.value := Label(name, id, addr)]
  }

  /** Assignment adds at most one entry, and every entry afterwards is
      either the one assigned or the one that was at that position. */
  lemma AssignEntries(t: LabelTable, name: string, id: nat, addr: nat)
    ensures var r := Assign(t, name, id, addr);
      && |t| <= |r| <= |t| + 1
      && forall i :: 0 <= i < |r| ==> r[i] == Label(name, id, addr) || (i < |t| && r[i] == t[i])
  {
  }

  /** `table[name]`, the (id, address) pair, when name is a key. */
  function Lookup(t: LabelTable, name: string): (r: Option<(nat, nat)>)
    ensures r.Some? <==> name in Names(t)
    ensures r.Some? ==> exists i :: 0 <= i < |t| && t[i] == Label(name, r.value.0, r.value.1)
  {
    var i := IndexOf(t, name);
    if i.None? then None else Some((t[i.value].id, t[i.value].addr))
  }

  /** In a table with unique keys the entry at position i is the one found
      under its name. */
  lemma LookupAt(t: LabelTable, i: nat)
    requires UniqueNames(t) && i < |t|
    ensures IndexOf(t, t[i].name) == Some(i)
    ensures Lookup(t, t[i].name) == Some((t[i].id, t[i].addr))
  {
    IndexOfAt(t, i);
  }

  /** In a table with unique keys a name is found at its own position. */
  lemma IndexOfAt(t: LabelTable, i: nat)
    requires UniqueNames(t) && i < |t|
    ensures IndexOf(t, t[i].name) == Some(i)
  {
    var name := t[i].name;
    assert Names(t)[i] == name;
    var r := IndexOf(t, name);
    SamePosition(t, i, r.value);
  }

  /** With unique keys, two positions holding the same name are one. */
  lemma SamePosition(t: LabelTable, i: nat, k: nat)
    requires UniqueNames(t) && i < |t| && k < |t| && t[k].name == t[i].name
    ensures k == i
  {
  }

  /** Assignment keeps the keys unique, adds name at the end exactly when it
      was not yet a key, and makes the new pair the one found under name. */
  lemma AssignKeys(t: LabelTable, name: string, id: nat, addr: nat)
    requires UniqueNames(t)
    ensures var r := Assign(t, name, id, addr);
      && UniqueNames(r)
      && (name in Names(t) ==> Names(r) == Names(t))
      && (name !in Names(t) ==> Names(r) == Names(t) + [name])
      && Lookup(r, name) == Some((id, addr))
  {
    var r := Assign(t, name, id, addr);
    var i := IndexOf(t, name);
    if i.Some? {
      ReplaceKeys(t, i.value, Label(name, id, addr));
      LookupAt(r, i.value);
    } else {
      AppendKeys(t, Label(name, id, addr));
      LookupAt(r, |t|);
    }
  }

  /** Replacing an entry by one with the same name keeps the keys. */
  lemma ReplaceKeys(t: LabelTable, i: nat, l: Label)
    requires UniqueNames(t) && i < |t| && l.name == t[i].name
    ensures UniqueNames(t[i := l]) && Names(t[i := l]) == Names(t)
  {
    var r := t[i := l];
    forall a, b | 0 <= a < b < |r| ensures r[a].name != r[b].name {
      assert r[a].name == t[a].name && r[b].name == t[b].name;
    }
    assert forall k :: 0 <= k < |r| ==> Names(r)[k] == Names(t)[k];
  }

  /** Appending an entry under a new name adds that name to the keys. */
  lemma AppendKeys(t: LabelTable, l: Label)
    requires UniqueNames(t) && l.name !in Names(t)
    ensures UniqueNames(t + [l]) && Names(t + [l]) == Names(t) + [l.name]
  {
    var r := t + [l];
    forall a, b | 0 <= a < b < |r| ensures r[a].name != r[b].name {
      if b == |t| {
        assert Names(t)[a] == t[a].name;
      }
    }
    assert forall k :: 0 <= k < |r| ==> Names(r)[k] == (Names(t) + [l.name])[k];
  }

  /** Assignment does not change what any other key maps to. */
  lemma AssignOthers(t: LabelTable, name: string, id: nat, addr: nat, other: string)
    requires UniqueNames(t) && other != name
    ensures Lookup(Assign(t, name, id, addr), other) == Lookup(t, other)
  {
    var r := Assign(t, name, id, addr);
    AssignKeys(t, name, id, addr);
    if other in Names(t) {
      var i := IndexOf(t, other).value;
      assert r[i] == t[i];
      LookupAt(r, i);
    } else {
      assert other !in Names(r);
    }
  }
}
