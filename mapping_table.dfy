/** The mapping table of the component: `addMapping`, `removeMapping` and the
    merge step of the two preset imports. Each builds a new table from the old
    one, as the source does before handing it to `setMappings`. */
module MappingTable {
  import opened Wrappers
  import opened Seqs

  /** One row of the table. `preset` is false for rows the user typed in
      (the source leaves the field undefined there); `id` is the timestamp
      the row was created with. */
  datatype Mapping = Mapping(originalId: string, replacementId: string, name: string, preset: bool, id: int)

  /** The form the user fills in before pressing "add". */
  datatype Draft = Draft(originalId: string, replacementId: string, name: string)

  const EmptyDraft: Draft := Draft("", "", "")

  type Table = seq<Mapping>

  /** The original ids present in the table: `new Set(mappings.map(m => m.originalId))`. */
  function Originals(t: Table): set<string> {
    set m | m in t :: m.originalId
  }

  /** The table invariant: at most one row per original id. */
  ghost predicate UniqueOriginals(t: Table) {
    forall i, j :: 0 <= i < j < |t| ==> t[i].originalId != t[j].originalId
  }

  /** `mappings.find(m => m.originalId === o)`, as the index of the row found. */
  function FindByOriginal(t: Table, o: string): (r: Option<nat>)
    ensures r.Some? ==> r.value < |t| && t[r.value].originalId == o
    ensures r.Some? ==> forall k :: 0 <= k < r.value ==> t[k].originalId != o
    ensures r.None? <==> o !in Originals(t)
  {
    if t == [] then None
    else if t[0].originalId == o then Some(0)
    else
      var rest := FindByOriginal(t[1..], o);
      assert Originals(t) == {t[0].originalId} + Originals(t[1..]) by {
        assert forall m :: m in t <==> m == t[0] || m in t[1..];
      }
      if rest.Some? then Some(rest.value + 1) else None
  }

  /** `mappings.find(m => m.id === id)`, as the index of the row found. */
  function FindById(t: Table, id: int): (r: Option<nat>)
    ensures r.Some? ==> r.value < |t| && t[r.value].id == id
    ensures r.Some? ==> forall k :: 0 <= k < r.value ==> t[k].id != id
    ensures r.None? ==> forall k :: 0 <= k < |t| ==> t[k].id != id
  {
    if t == [] then None
    else if t[0].id == id then Some(0)
    else
      var rest := FindById(t[1..], id);
      if rest.Some? then Some(rest.value + 1) else None
  }

  /** How many rows carry the original id `o`. A named count rather than `Count` with a lambda: two
      textually equal lambdas are not provably the same function, so lemmas
      about this count need a term of their own. */
  function CountOriginal(t: Table, o: string): nat {
    if t == [] then 0 else (if t[0].originalId == o then 1 else 0) + CountOriginal(t[1..], o)
  }

  /** How many rows carry the row id `id` (named for the same reason). */
  function CountId(t: Table, id: int): nat {
    if t == [] then 0 else (if t[0].id == id then 1 else 0) + CountId(t[1..], id)
  }

  /** A filter that drops exactly the rows with original id `o` keeps all the others. */
  lemma {:induction false} KeptWithoutOriginal(t: Table, o: string, keep: Mapping -> bool)
    requires forall m :: keep(m) == (m.originalId != o)
    ensures Count(t, keep) + CountOriginal(t, o) == |t|
    decreases |t|
  {
    if t != [] {
      KeptWithoutOriginal(t[1..], o, keep);
    }
  }

  /** A filter that drops exactly the rows with row id `id` keeps all the others. */
  lemma {:induction false} KeptWithoutId(t: Table, id: int, keep: Mapping -> bool)
    requires forall m :: keep(m) == (m.id != id)
    ensures Count(t, keep) + CountId(t, id) == |t|
    decreases |t|
  {
    if t != [] {
      KeptWithoutId(t[1..], id, keep);
    }
  }

  /** `mappings.filter(m => m.originalId !== o)`. */
  function WithoutOriginal(t: Table, o: string): (r: Table)
    ensures IsSubsequence(r, t)
    ensures forall m :: m in r <==> m in t && m.originalId != o
    ensures |r| == |t| - CountOriginal(t, o)
    ensures o !in Originals(t) ==> r == t
  {
    var keep := (m: Mapping) => m.originalId != o;
    FilterSpec(t, keep);
    KeptWithoutOriginal(t, o, keep);
    Filter(t, keep)
  }

  /** `mappings.filter(m => m.id !== id)`. */
  function WithoutId(t: Table, id: int): (r: Table)
    ensures IsSubsequence(r, t)
    ensures forall m :: m in r <==> m in t && m.id != id
    ensures |r| == |t| - CountId(t, id)
  {
    var keep := (m: Mapping) => m.id != id;
    FilterSpec(t, keep);
    KeptWithoutId(t, id, keep);
    Filter(t, keep)
  }

  /** What `addMapping` leaves behind: the new table and the new draft. */
  datatype AddResult = AddResult(table: Table, draft: Draft)

  /** `addMapping`. `confirmReplace` is the user's answer to the overwrite
      question (asked only when the original id is already mapped) and `now`
      the value of `Date.now()` that becomes the row's id. */
  function AddMapping(t: Table, draft: Draft, confirmReplace: bool, now: int): (r: AddResult)
    // An incomplete draft changes nothing, not even the form.
    ensures draft.originalId == [] || draft.replacementId == [] ==> r == AddResult(t, draft)
    // Otherwise the form is cleared, whatever the user answered.
    ensures draft.originalId != [] && draft.replacementId != [] ==> r.draft == EmptyDraft
    // A declined overwrite keeps the table as it was.
    ensures draft.originalId in Originals(t) && !confirmReplace ==> r.table == t
    // Otherwise the new row ends the table and no other row has its original id.
    ensures draft.originalId != [] && draft.replacementId != [] && (draft.originalId !in Originals(t) || confirmReplace) ==>
      && |r.table| >= 1
      && r.table[|r.table| - 1] == Mapping(draft.originalId, draft.replacementId, draft.name, false, now)
      && IsSubsequence(r.table[..|r.table| - 1], t)
      && (forall m :: m in r.table[..|r.table| - 1] <==> m in t && m.originalId != draft.originalId)
      && |r.table| == |t| - CountOriginal(t, draft.originalId) + 1
    // A new original id is appended to the unchanged table.
    ensures draft.originalId != [] && draft.replacementId != [] && draft.originalId !in Originals(t) ==>
      r.table == t + [Mapping(draft.originalId, draft.replacementId, draft.name, false, now)]
  {
    if draft.originalId != [] && draft.replacementId != [] then
      var entry := Mapping(draft.originalId, draft.replacementId, draft.name, false, now);
      if FindByOriginal(t, draft.originalId).Some? then
        if confirmReplace then
          var kept := WithoutOriginal(t, draft.originalId);
          assert (kept + [entry])[..|kept|] == kept;
          AddResult(kept + [entry], EmptyDraft)
        else
          AddResult(t, EmptyDraft)
      else
        assert (t + [entry])[..|t|] == t;
        assert WithoutOriginal(t, draft.originalId) == t;
        SubsequenceReflexive(t);
        AddResult(t + [entry], EmptyDraft)
    else
      AddResult(t, draft)
  }

  /** Deleting rows cannot create two rows with the same original id. */
  lemma {:induction false} SubsequenceKeepsUnique(a: Table, b: Table)
    requires IsSubsequence(a, b) && UniqueOriginals(b)
    ensures UniqueOriginals(a)
    decreases |b|
  {
    if a != [] && b != [] {
      if a[0] == b[0] {
        SubsequenceKeepsUnique(a[1..], b[1..]);
        forall j | 0 < j < |a|
          ensures a[0].originalId != a[j].originalId
        {
          SubsequenceMember(a[1..], b[1..], j - 1);
        }
      } else {
        SubsequenceKeepsUnique(a, b[1..]);
      }
    }
  }

  /** `addMapping` keeps the table free of duplicate original ids. */
  lemma AddMappingKeepsUnique(t: Table, draft: Draft, confirmReplace: bool, now: int)
    requires UniqueOriginals(t)
    ensures UniqueOriginals(AddMapping(t, draft, confirmReplace, now).table)
  {
    var r := AddMapping(t, draft, confirmReplace, now).table;
    if r != t {
      var front := r[..|r| - 1];
      SubsequenceKeepsUnique(front, t);
      forall i | 0 <= i < |front|
        ensures front[i].originalId != draft.originalId
      {
        assert front[i] in front;
      }
    }
  }

  /** `removeMapping`. The veto looks at the first row carrying `id`; when it
      is not a preset, every row carrying `id` goes. */
  function RemoveMapping(t: Table, id: int): (r: Table)
    ensures IsSubsequence(r, t)
    ensures FindById(t, id).Some? && t[FindById(t, id).value].preset ==> r == t
    ensures FindById(t, id).None? || !t[FindById(t, id).value].preset ==>
      && (forall m :: m in r <==> m in t && m.id != id)
      && |r| == |t| - CountId(t, id)
  {
    match FindById(t, id)
    case Some(k) =>
      if t[k].preset then
        SubsequenceReflexive(t);
        t
      else
        WithoutId(t, id)
    case None =>
      WithoutId(t, id)
  }

  /** The veto only looks at the first row with the id: a preset row that
      shares its id with an earlier custom row is deleted along with it. */
  lemma RemoveMappingDeletesSharedPreset(custom: Mapping, preset: Mapping)
    requires custom.id == preset.id && !custom.preset && preset.preset
    ensures RemoveMapping([custom, preset], custom.id) == []
  {
    assert FindById([custom, preset], custom.id) == Some(0);
    assert CountId([custom, preset], custom.id) == 2 by {
      assert [custom, preset][1..] == [preset];
      assert [preset][1..] == [];
      assert CountId([preset], custom.id) == 1;
    }
  }

  /** When row ids are distinct, `removeMapping` never deletes a preset row. */
  lemma RemoveMappingKeepsPresets(t: Table, id: int)
    requires forall i, j :: 0 <= i < j < |t| ==> t[i].id != t[j].id
    ensures forall m :: m in t && m.preset ==> m in RemoveMapping(t, id)
  {
    var r := RemoveMapping(t, id);
    match FindById(t, id)
    case Some(k) =>
      if !t[k].preset {
        forall m | m in t && m.preset
          ensures m in r
        {
          var j :| 0 <= j < |t| && t[j] == m;
          assert j != k;
        }
      }
    case None =>
  }

  /** `removeMapping` keeps the table free of duplicate original ids. */
  lemma RemoveMappingKeepsUnique(t: Table, id: int)
    requires UniqueOriginals(t)
    ensures UniqueOriginals(RemoveMapping(t, id))
  {
    SubsequenceKeepsUnique(RemoveMapping(t, id), t);
  }

  /** One record of a preset file. An empty `name` stands for a missing one. */
  datatype PresetEntry = PresetEntry(originalId: string, replacementId: string, name: string)

  const HalloweenDefaultName: string := "Halloween 2024"
  const WinterDefaultName: string := "Winter 2024"

  /** The `map((m, idx) => …)` step: every record becomes a preset row whose
      name falls back to `defaultName`. The callback reads `Date.now()` once
      per record: `readings[idx]` is that reading, and the row id is
      `readings[idx] + idx`. */
  function PresetRows(data: seq<PresetEntry>, defaultName: string, readings: seq<int>): (r: Table)
    requires |readings| == |data|
    ensures |r| == |data|
    ensures forall i :: 0 <= i < |r| ==> r[i].preset && r[i].originalId == data[i].originalId
    ensures forall i :: 0 <= i < |r| ==> r[i].id == readings[i] + i && r[i].replacementId == data[i].replacementId
    ensures forall i :: 0 <= i < |r| ==> r[i].name == if data[i].name == [] then defaultName else data[i].name
  {
    seq(|data|, i requires 0 <= i < |data| =>
      Mapping(data[i].originalId, data[i].replacementId,
              if data[i].name == [] then defaultName else data[i].name, true, readings[i] + i))
  }

  /** The clock never runs backwards, so the `+ idx` makes the ids of one
      import strictly increasing, hence distinct, even when two records are
      mapped within the same millisecond. */
  lemma PresetRowIdsIncrease(data: seq<PresetEntry>, defaultName: string, readings: seq<int>)
    requires |readings| == |data|
    requires forall i, j :: 0 <= i <= j < |readings| ==> readings[i] <= readings[j]
    ensures var r := PresetRows(data, defaultName, readings);
            forall i, j :: 0 <= i < j < |r| ==> r[i].id < r[j].id
  {
  }

  /** How many records of a preset file carry an original id outside
      `existing`, repeats counted. */
  function CountNew(data: seq<PresetEntry>, existing: set<string>): nat {
    if data == [] then 0
    else (if data[0].originalId !in existing then 1 else 0) + CountNew(data[1..], existing)
  }

  /** Rows made one per record, keeping each record's original id, pass a
      filter on new original ids exactly as often as the records are new. */
  lemma {:induction false} KeptNew(rows: Table, data: seq<PresetEntry>, existing: set<string>, keep: Mapping -> bool)
    requires |rows| == |data|
    requires forall i :: 0 <= i < |rows| ==> rows[i].originalId == data[i].originalId
    requires forall m :: keep(m) == (m.originalId !in existing)
    ensures Count(rows, keep) == CountNew(data, existing)
    decreases |rows|
  {
    if rows != [] {
      assert forall i :: 0 <= i < |rows| - 1 ==> rows[1..][i] == rows[i + 1];
      KeptNew(rows[1..], data[1..], existing, keep);
    }
  }

  /** The result of a preset import: the new table and how many rows it added. */
  datatype MergeResult = MergeResult(table: Table, added: nat)

  /** The merge step of `importHalloweenPreset` and `importWinterPreset`.
      `fetched` is `None` when the preset file could not be loaded or parsed,
      in which case the table is left alone. */
  function MergePreset(t: Table, fetched: Option<seq<PresetEntry>>, defaultName: string, readings: seq<int>): (r: MergeResult)
    requires fetched.Some? ==> |readings| == |fetched.value|
    // The old table is kept whole, in place, at the front.
    ensures |r.table| == |t| + r.added && r.table[..|t|] == t
    // Everything added is a preset row of the file, in file order, with an original id the table lacked.
    ensures fetched.Some? ==> IsSubsequence(r.table[|t|..], PresetRows(fetched.value, defaultName, readings))
    ensures forall m :: m in r.table[|t|..] ==> m.preset && m.originalId !in Originals(t)
    // Every row of the file whose original id the table lacked is added.
    ensures fetched.Some? ==> forall m :: m in PresetRows(fetched.value, defaultName, readings) && m.originalId !in Originals(t) ==> m in r.table
    // Exactly the new records are added, a repeated record as often as it occurs.
    ensures fetched.Some? ==> r.added == CountNew(fetched.value, Originals(t))
    // A failed load adds nothing.
    ensures fetched.None? ==> r.table == t
  {
    match fetched
    case None =>
      MergeResult(t, 0)
    case Some(data) =>
      var existing := Originals(t);
      var rows := PresetRows(data, defaultName, readings);
      var keep := (m: Mapping) => m.originalId !in existing;
      var newRows := Filter(rows, keep);
      FilterSpec(rows, keep);
      KeptNew(rows, data, existing, keep);
      assert (t + newRows)[..|t|] == t && (t + newRows)[|t|..] == newRows;
      if |newRows| == 0 then
        MergeResult(t, 0)
      else
        MergeResult(t + newRows, |newRows|)
  }

  /** A preset import keeps the table free of duplicate original ids when the
      preset file itself has none. */
  lemma MergePresetKeepsUnique(t: Table, data: seq<PresetEntry>, defaultName: string, readings: seq<int>)
    requires |readings| == |data|
    requires UniqueOriginals(t)
    requires forall i, j :: 0 <= i < j < |data| ==> data[i].originalId != data[j].originalId
    ensures UniqueOriginals(MergePreset(t, Some(data), defaultName, readings).table)
  {
    var r := MergePreset(t, Some(data), defaultName, readings).table;
    var rows := PresetRows(data, defaultName, readings);
    var newRows := r[|t|..];
    assert UniqueOriginals(rows);
    SubsequenceKeepsUnique(newRows, rows);
    forall i, j | 0 <= i < j < |r|
      ensures r[i].originalId != r[j].originalId
    {
      if j >= |t| {
        assert r[j] == newRows[j - |t|];
        assert r[j] in newRows;
        if i < |t| {
          assert r[i] in t;
        }
      }
    }
  }

  /** The merge does not filter duplicates inside the preset file: a file that
      names an id the table lacks twice adds two rows for it, whatever the
      clock readings. */
  lemma MergePresetKeepsFileDuplicates(t: Table, e: PresetEntry, readings: seq<int>)
    requires e.originalId !in Originals(t)
    requires |readings| == 2
    ensures var r := MergePreset(t, Some([e, e]), HalloweenDefaultName, readings).table;
            |r| == |t| + 2 && r[|t|].originalId == r[|t| + 1].originalId == e.originalId
  {
    var rows := PresetRows([e, e], HalloweenDefaultName, readings);
    var keep := (m: Mapping) => m.originalId !in Originals(t);
    FilterSpec(rows, keep);
    assert Filter(rows, keep) == rows;
  }
}
