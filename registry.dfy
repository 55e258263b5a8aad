/** The embedding registry: the name -> embedding dictionary that the pickle
    file holds. A Python dict keeps its keys in insertion order, and the
    matcher's tie-break depends on that order, so the registry is a sequence of
    entries whose labels are pairwise distinct. */
module Registry {

  /** A face embedding produced by the detector. Its numeric contents are never
      inspected: the matcher only sees similarities between two embeddings. */
  type Embedding = seq<real>

  datatype Entry = Entry(name: string, embedding: Embedding)

  type Registry = seq<Entry>

  /** Dictionary keys are unique. */
  ghost predicate Distinct(reg: Registry)
  {
    forall i, j :: 0 <= i < |reg| && 0 <= j < |reg| && i != j ==> reg[i].name != reg[j].name
  }

  /** The keys of the dictionary (`name in embeddings_dict`). */
  function Labels(reg: Registry): (ls: set<string>)
    ensures forall i :: 0 <= i < |reg| ==> reg[i].name in ls
    ensures forall l :: l in ls ==> exists i :: 0 <= i < |reg| && reg[i].name == l
  {
    if reg == [] then {}
    else
      var rest := Labels(reg[1..]);
      assert forall i :: 0 < i < |reg| ==> reg[i] == reg[1..][i - 1];
      assert forall l :: l in rest ==> exists i :: 0 < i < |reg| && reg[i].name == l by {
        forall l | l in rest ensures exists i :: 0 < i < |reg| && reg[i].name == l {
          var i :| 0 <= i < |reg[1..]| && reg[1..][i].name == l;
          assert reg[i + 1].name == l;
        }
      }
      {reg[0].name} + rest
  }

  /** `embeddings_dict[name] = embedding`: a key already present keeps its
      position and gets the new value; a new key goes to the end. */
  function Assign(reg: Registry, name: string, embedding: Embedding): (r: Registry)
    requires Distinct(reg)
    ensures Distinct(r)
    ensures Labels(r) == Labels(reg) + {name}
    ensures name !in Labels(reg) ==> r == reg + [Entry(name, embedding)]
    ensures name in Labels(reg) ==> (|r| == |reg| &&
      forall i :: 0 <= i < |reg| ==>
        r[i] == if reg[i].name == name then Entry(name, embedding) else reg[i])
  {
    if name in Labels(reg) then
      var r := seq(|reg|, i requires 0 <= i < |reg| =>
        if reg[i].name == name then Entry(name, embedding) else reg[i]);
      SameNames(reg, r);
      r
    else
      AppendFresh(reg, Entry(name, embedding));
      reg + [Entry(name, embedding)]
  }

  /** Overwriting values in place keeps the keys and their distinctness. */
  lemma SameNames(reg: Registry, r: Registry)
    requires Distinct(reg) && |r| == |reg|
    requires forall i :: 0 <= i < |reg| ==> r[i].name == reg[i].name
    ensures Distinct(r) && Labels(r) == Labels(reg)
  {
    LabelsSameNames(reg, r);
  }

  /** Appending an entry under a new key keeps the keys distinct. */
  lemma AppendFresh(reg: Registry, e: Entry)
    requires Distinct(reg) && e.name !in Labels(reg)
    ensures Distinct(reg + [e]) && Labels(reg + [e]) == Labels(reg) + {e.name}
  {
    LabelsAppend(reg, e);
  }

  lemma {:induction false} LabelsAppend(reg: Registry, e: Entry)
    ensures Labels(reg + [e]) == Labels(reg) + {e.name}
  {
    if reg != [] {
      assert (reg + [e])[1..] == reg[1..] + [e];
      LabelsAppend(reg[1..], e);
    }
  }

  lemma {:induction false} LabelsSameNames(a: Registry, b: Registry)
    requires |a| == |b|
    requires forall i :: 0 <= i < |a| ==> a[i].name == b[i].name
    ensures Labels(a) == Labels(b)
  {
    if a != [] {
      LabelsSameNames(a[1..], b[1..]);
    }
  }

  /** Reading the value stored under a key. The program only tests keys for
      membership; this read is what states the meaning of an assignment
      (AssignLookup). */
  function Lookup(reg: Registry, name: string): (r: Option<Embedding>)
    requires Distinct(reg)
    ensures r.None? <==> name !in Labels(reg)
    ensures r.Some? ==> exists i :: 0 <= i < |reg| && reg[i] == Entry(name, r.value)
  {
    if reg == [] then None
    else if reg[0].name == name then Some(reg[0].embedding)
    else
      assert Labels(reg) == {reg[0].name} + Labels(reg[1..]);
      var r := Lookup(reg[1..], name);
      assert r.Some? ==> exists i :: 0 <= i < |reg| && reg[i] == Entry(name, r.value) by {
        if r.Some? {
          var i :| 0 <= i < |reg[1..]| && reg[1..][i] == Entry(name, r.value);
          assert reg[i + 1] == Entry(name, r.value);
        }
      }
      r
  }

  /** After an assignment the key reads back its new value and every other key
      reads back what it did before. */
  lemma {:induction false} AssignLookup(reg: Registry, name: string, embedding: Embedding, other: string)
    requires Distinct(reg)
    ensures Lookup(Assign(reg, name, embedding), name) == Some(embedding)
    ensures other != name ==>
      Lookup(Assign(reg, name, embedding), other) == Lookup(reg, other)
  {
    var r := Assign(reg, name, embedding);
    LookupAt(r, name, embedding);
    if other != name && other in Labels(reg) {
      var v := Lookup(reg, other).value;
      var i :| 0 <= i < |reg| && reg[i] == Entry(other, v);
      if name in Labels(reg) {
        assert r[i] == reg[i];
      } else {
        assert r[i] == reg[i];
      }
      LookupAt(r, other, v);
    }
  }

  /** In a registry with distinct labels an entry present at any position is
      what Lookup returns. */
  lemma LookupAt(reg: Registry, name: string, embedding: Embedding)
    requires Distinct(reg)
    requires exists i :: 0 <= i < |reg| && reg[i] == Entry(name, embedding)
    ensures Lookup(reg, name) == Some(embedding)
  {
    var i :| 0 <= i < |reg| && reg[i] == Entry(name, embedding);
    var v := Lookup(reg, name).value;
    var j :| 0 <= j < |reg| && reg[j] == Entry(name, v);
    assert i == j;
  }

  datatype Option<T> = None | Some(value: T)
}
