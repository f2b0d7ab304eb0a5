/** Records of the master-detail editor: flat maps from field names to
    primitive values, and the `Person` constructor that fills in defaults. */
module Records {

  /** A primitive field value. Strict inequality (`!==`) between a string
      and a number is always true, and the datatype keeps the two apart. */
  datatype Value = Str(s: string) | Num(n: int)

  /** A plain record: field name to value; an absent key reads as undefined. */
  type Record = map<string, Value>

  const FirstName: string := "firstName"
  const LastName: string := "lastName"
  const Workload: string := "workload"

  const DefaultFirstName: Value := Str("Vorname")
  const DefaultLastName: Value := Str("Nachname")
  const DefaultWorkload: Value := Num(0)

  /** `Person`: exactly the three person fields; a supplied field is kept,
      a missing one gets its default, and any other field is dropped. */
  function Person(init: Record): (r: Record)
    ensures r.Keys == {FirstName, LastName, Workload}
    ensures forall key :: key in r && key in init ==> r[key] == init[key]
    ensures FirstName !in init ==> r[FirstName] == DefaultFirstName
    ensures LastName !in init ==> r[LastName] == DefaultLastName
    ensures Workload !in init ==> r[Workload] == DefaultWorkload
  {
    map[FirstName := if FirstName in init then init[FirstName] else DefaultFirstName,
        LastName := if LastName in init then init[LastName] else DefaultLastName,
        Workload := if Workload in init then init[Workload] else DefaultWorkload]
  }

  /** `Person({})` is the all-defaults person. */
  lemma PersonOfEmpty()
    ensures Person(map[]) == map[FirstName := Str("Vorname"), LastName := Str("Nachname"), Workload := Num(0)]
  {
  }
}
