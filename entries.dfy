/** An entry of the editor: the saved record, the record being edited, and
    the derived dirty flag that is recomputed after every write to either. */
module Entries {
  import opened Records

  /** Field `key` of `saved` reads differently in `edited`: a key missing
      from `edited` reads as undefined, which differs from every value. */
  ghost predicate Mismatch(saved: Record, edited: Record, key: string) {
    key in saved && (key !in edited || edited[key] != saved[key])
  }

  /** The dirty condition: some field of `saved` differs in `edited`.
      Only the keys of `saved` are looked at. */
  ghost predicate Differs(saved: Record, edited: Record) {
    exists key :: Mismatch(saved, edited, key)
  }

  /** A record never differs from itself. */
  lemma NotDiffersSelf(r: Record)
    ensures !Differs(r, r)
  {
  }

  /** Not dirty exactly when `edited` agrees with `saved` on every key of
      `saved`, that is, when `saved` is `edited` cut down to the keys of `saved`. */
  lemma CleanIffAgreesOnSavedKeys(saved: Record, edited: Record)
    ensures !Differs(saved, edited) <==> (map key | key in saved.Keys && key in edited :: edited[key]) == saved
  {
    var cut := map key | key in saved.Keys && key in edited :: edited[key];
    if !Differs(saved, edited) {
      forall key | key in saved ensures key in cut && cut[key] == saved[key] {
        assert !Mismatch(saved, edited, key);
      }
    } else {
      var key :| Mismatch(saved, edited, key);
      assert key !in cut || cut[key] != saved[key];
    }
  }

  /** Only the keys of `saved` are compared: a field that `edited` has and
      `saved` lacks never changes the dirty condition. */
  lemma ExtraEditedKeyIgnored(saved: Record, edited: Record, key: string, v: Value)
    requires key !in saved
    ensures Differs(saved, edited[key := v]) <==> Differs(saved, edited)
  {
    if Differs(saved, edited) {
      var k :| Mismatch(saved, edited, k);
      assert Mismatch(saved, edited[key := v], k);
    }
    if Differs(saved, edited[key := v]) {
      var k :| Mismatch(saved, edited[key := v], k);
      assert Mismatch(saved, edited, k);
    }
  }

  /** A field of `saved` that `edited` lacks reads as undefined there, which
      always makes the entry dirty. */
  lemma MissingSavedKeyDirty(saved: Record, edited: Record, key: string)
    requires key in saved
    ensures Differs(saved, edited - {key})
  {
    assert Mismatch(saved, edited - {key}, key);
  }

  /** One entry: `saved` and `edited` are the values of its two observables,
      `dirty` the value of the derived one. */
  class Entry {
    var saved: Record
    var edited: Record
    var dirty: bool

    /** The dirty flag agrees with the two records. */
    ghost predicate Valid()
      reads this
    {
      dirty == Differs(saved, edited)
    }

    /** `Entry(record)`: both records start as copies of `record`, not dirty. */
    constructor (record: Record)
      ensures saved == record && edited == record && !dirty
      ensures Valid()
    {
      saved := record;
      edited := record;
      dirty := false;
    }

    /** `updateDirtyField`: walks the keys of `saved` and sets `dirty` to
        true at the first field that `edited` does not match, else to false.
        The keys are taken in an unspecified order, which the result does
        not depend on. */
    method UpdateDirtyField()
      modifies this`dirty
      ensures Valid()
    {
      var keys := saved.Keys;
      while keys != {}
        invariant keys <= saved.Keys
        invariant forall key :: key in saved.Keys - keys ==> !Mismatch(saved, edited, key)
        decreases keys
      {
        var key :| key in keys;
        if key !in edited || saved[key] != edited[key] {
          assert Mismatch(saved, edited, key);
          dirty := true;
          return;
        }
        keys := keys - {key};
      }
      dirty := false;
    }

    /** `saved.setValue(record)`, followed by the dirty recomputation. */
    method SetSaved(record: Record)
      modifies this
      ensures saved == record && edited == old(edited)
      ensures Valid()
    {
      saved := record;
      UpdateDirtyField();
    }

    /** `edited.setValue(record)`, followed by the dirty recomputation. */
    method SetEdited(record: Record)
      modifies this
      ensures edited == record && saved == old(saved)
      ensures Valid()
    {
      edited := record;
      UpdateDirtyField();
    }
  }
}
