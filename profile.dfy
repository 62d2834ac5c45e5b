/**
 * The profile as the fill engine reads it, and the step of the settings form's
 * submit handler that decides which custom-field rows are stored.
 */
module Profile {
  import opened Options

  /** A user-defined field: its name is both its label and its matching key. */
  datatype CustomField = CustomField(name: string, value: string)

  /**
   * One row of the custom-field editor: the current value of its name input and of
   * its value input, or None where the row has no such input.
   */
  datatype CustomFieldRow = CustomFieldRow(nameInput: Option<string>, valueInput: Option<string>)

  /** A row is stored only if both inputs exist and both hold a non-empty text. */
  predicate IsComplete(row: CustomFieldRow) {
    row.nameInput.Some? && row.valueInput.Some? && row.nameInput.value != "" && row.valueInput.value != ""
  }

  function FieldOf(row: CustomFieldRow): CustomField
    requires IsComplete(row)
  {
    CustomField(row.nameInput.value, row.valueInput.value)
  }

  /** The custom fields stored for the given rows: the complete ones, in document order. */
  function Collected(rows: seq<CustomFieldRow>): (fields: seq<CustomField>)
    ensures |fields| <= |rows|
    ensures forall f :: f in fields ==> f.name != "" && f.value != ""
  {
    if rows == [] then []
    else
      var last := rows[|rows| - 1];
      Collected(rows[..|rows| - 1]) + if IsComplete(last) then [FieldOf(last)] else []
  }

  /** The collection loop of the submit handler: pushes the fields of the complete rows. */
  method CollectCustomFields(rows: seq<CustomFieldRow>) returns (fields: seq<CustomField>)
    ensures fields == Collected(rows)
    ensures forall f :: f in fields ==> f.name != "" && f.value != ""
  {
    fields := [];
    for i := 0 to |rows|
      invariant fields == Collected(rows[..i])
    {
      assert rows[..i + 1][..i] == rows[..i];
      var row := rows[i];
      if row.nameInput.Some? && row.valueInput.Some? && row.nameInput.value != "" && row.valueInput.value != "" {
        fields := fields + [CustomField(row.nameInput.value, row.valueInput.value)];
      }
    }
    assert rows[..|rows|] == rows;
  }

  /** Collecting works row by row: the rows of a later stretch come after those of an earlier one. */
  lemma {:induction false} CollectedAppend(a: seq<CustomFieldRow>, b: seq<CustomFieldRow>)
    ensures Collected(a + b) == Collected(a) + Collected(b)
    decreases |b|
  {
    if b == [] {
      assert a + b == a;
    } else {
      var n := |b| - 1;
      assert (a + b)[..|a + b| - 1] == a + b[..n];
      assert (a + b)[|a + b| - 1] == b[n];
      CollectedAppend(a, b[..n]);
    }
  }

  /** A field is stored exactly when some complete row holds it. */
  lemma {:induction false} CollectedMembers(rows: seq<CustomFieldRow>, f: CustomField)
    ensures f in Collected(rows) <==> exists i :: 0 <= i < |rows| && IsComplete(rows[i]) && FieldOf(rows[i]) == f
  {
    if rows != [] {
      var n := |rows| - 1;
      CollectedMembers(rows[..n], f);
      if f in Collected(rows) && !(f in Collected(rows[..n])) {
        assert IsComplete(rows[n]) && FieldOf(rows[n]) == f;
      }
      if i :| 0 <= i < |rows| && IsComplete(rows[i]) && FieldOf(rows[i]) == f {
        if i < n {
          assert rows[..n][i] == rows[i];
        }
      }
    }
  }
}
