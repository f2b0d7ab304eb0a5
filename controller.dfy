/** The model (list of entries plus selection) and the controller that
    drives it: add and remove rows, select, and update, save or reset the
    selected entry. */
module MasterDetail {
  import opened Records
  import opened Lists
  import opened Entries

  /** The value of the `selected` observable: null, or `{idx, entry}`. */
  datatype Selection = NoSelection | Selected(idx: int, entry: Entry)

  /** Outcome of an operation on the selected entry. Without a selection
      the source dereferences null and throws before writing anything. */
  datatype Status = Done | InvalidState

  /** The selection names a position of the list and the entry found there. */
  predicate Consistent(entries: seq<Entry>, s: Selection) {
    s.Selected? ==> 0 <= s.idx < |entries| && entries[s.idx] == s.entry
  }

  /** `Model()`: the entry list and the selection. */
  class Model {
    var entries: seq<Entry>
    var selected: Selection

    /** Entries are distinct objects, and each one's dirty flag is current. */
    ghost predicate Valid()
      reads this, entries
    {
      && Distinct(entries)
      && forall i :: 0 <= i < |entries| ==> entries[i].Valid()
    }

    /** The selection refers to the entry at its index. */
    predicate SelectionConsistent()
      reads this
    {
      Consistent(entries, selected)
    }

    /** A new model: empty list, nothing selected. */
    constructor ()
      ensures entries == [] && selected == NoSelection
      ensures Valid() && SelectionConsistent()
    {
      entries := [];
      selected := NoSelection;
    }
  }

  /** `Controller(model)`. */
  class Controller {
    const model: Model

    constructor (model: Model)
      ensures this.model == model
    {
      this.model := model;
    }

    /** The objects an operation on the selected entry may write. */
    function SelectedFrame(): set<Entry>
      reads this, model
    {
      if model.selected.Selected? then {model.selected.entry} else {}
    }

    /** `addRow`: appends one fresh entry holding `Person({})`, with its
        dirty recomputation wired up; the earlier entries and the selection
        stay as they were. */
    method AddRow()
      requires model.Valid()
      modifies model
      ensures model.Valid()
      ensures |model.entries| == |old(model.entries)| + 1
      ensures model.entries[..|old(model.entries)|] == old(model.entries)
      ensures var e := model.entries[|old(model.entries)|];
              fresh(e) && e.saved == Person(map[]) && e.edited == Person(map[]) && !e.dirty
      ensures model.selected == old(model.selected)
      ensures old(model.SelectionConsistent()) ==> model.SelectionConsistent()
    {
      var e := new Entry(Person(map[]));
      AppendDistinct(model.entries, e);
      model.entries := model.entries + [e];
    }

    /** `removeRow(obj)`: deletes `obj` from the list and clears the
        selection, whichever entry was selected. */
    method RemoveRow(obj: Entry)
      requires model.Valid()
      modifies model
      ensures model.Valid()
      ensures model.entries == Remove(old(model.entries), obj)
      ensures obj !in model.entries
      ensures model.selected == NoSelection
      ensures model.SelectionConsistent()
    {
      RemoveDistinct(model.entries, obj);
      model.entries := Remove(model.entries, obj);
      model.selected := NoSelection;
    }

    /** `select(s)`: stores `s` as the selection and changes nothing else;
        the selection is consistent exactly when `s` fits the list. */
    method Select(s: Selection)
      requires model.Valid()
      modifies model
      ensures model.Valid()
      ensures model.selected == s && model.entries == old(model.entries)
      ensures model.SelectionConsistent() <==> Consistent(old(model.entries), s)
    {
      model.selected := s;
    }

    /** `update(r)`: sets the selected entry's edited record to `r`; its
        saved record, the list and the selection are unchanged. */
    method Update(r: Record) returns (status: Status)
      requires model.Valid()
      modifies SelectedFrame()
      ensures model.Valid()
      ensures model.entries == old(model.entries) && model.selected == old(model.selected)
      ensures forall x :: x in model.entries && x !in old(SelectedFrame()) ==> unchanged(x)
      ensures status == (if old(model.selected).Selected? then Done else InvalidState)
      ensures old(model.selected).Selected? ==>
                var e := old(model.selected).entry;
                e.edited == r && e.saved == old(e.saved) && e.Valid()
    {
      if model.selected.NoSelection? {
        return InvalidState;
      }
      model.selected.entry.SetEdited(r);
      status := Done;
    }

    /** `save`: copies the selected entry's edited record into saved, so
        the two agree and the entry is clean; saving an entry whose two
        records are equal keeps saved as it was, so saving twice is saving once. */
    method Save() returns (status: Status)
      requires model.Valid()
      modifies SelectedFrame()
      ensures model.Valid()
      ensures model.entries == old(model.entries) && model.selected == old(model.selected)
      ensures forall x :: x in model.entries && x !in old(SelectedFrame()) ==> unchanged(x)
      ensures status == (if old(model.selected).Selected? then Done else InvalidState)
      ensures old(model.selected).Selected? ==>
                var e := old(model.selected).entry;
                && e.saved == old(e.edited) && e.edited == old(e.edited) && !e.dirty
                && (old(e.saved == e.edited) ==> e.saved == old(e.saved))
    {
      if model.selected.NoSelection? {
        return InvalidState;
      }
      var e := model.selected.entry;
      e.SetSaved(e.edited);
      NotDiffersSelf(e.saved);
      status := Done;
    }

    /** `reset`: copies the selected entry's saved record into edited,
        discarding the edits; the entry is clean and saved is unchanged. */
    method Reset() returns (status: Status)
      requires model.Valid()
      modifies SelectedFrame()
      ensures model.Valid()
      ensures model.entries == old(model.entries) && model.selected == old(model.selected)
      ensures forall x :: x in model.entries && x !in old(SelectedFrame()) ==> unchanged(x)
      ensures status == (if old(model.selected).Selected? then Done else InvalidState)
      ensures old(model.selected).Selected? ==>
                var e := old(model.selected).entry;
                e.edited == old(e.saved) && e.saved == old(e.saved) && !e.dirty
    {
      if model.selected.NoSelection? {
        return InvalidState;
      }
      var e := model.selected.entry;
      e.SetEdited(e.saved);
      NotDiffersSelf(e.saved);
      status := Done;
    }
  }

  /** An editing session from start to finish, derived from the contracts
      alone: add a row, select it, edit, save, edit again, reset, then
      delete another row and see the selection cleared. */
  method EditSession() {
    var model := new Model();
    var c := new Controller(model);
    c.AddRow();
    var e := model.entries[0];
    assert !e.dirty;
    PersonOfEmpty();
    c.Select(Selected(0, e));
    assert model.SelectionConsistent();

    var ada: Record := map[FirstName := Str("Ada"), LastName := Str("Lovelace"), Workload := Num(20)];
    var status := c.Update(ada);
    assert status == Done;
    assert Mismatch(e.saved, e.edited, FirstName);
    assert e.dirty;

    status := c.Save();
    assert e.saved == ada && !e.dirty;
    status := c.Save();
    assert e.saved == ada && e.edited == ada && !e.dirty;

    status := c.Update(ada[Workload := Num(30)]);
    assert Mismatch(e.saved, e.edited, Workload);
    assert e.dirty;
    status := c.Reset();
    assert e.edited == ada && e.edited[Workload] == Num(20) && !e.dirty;

    c.AddRow();
    var other := model.entries[1];
    c.RemoveRow(other);
    assert model.selected == NoSelection && model.entries == [e];
    status := c.Save();
    assert status == InvalidState;
  }
}
