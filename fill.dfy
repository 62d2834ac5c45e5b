/**
 * The fill engine proper: how a control's label text is chosen in the two page
 * dialects, how the matched key is resolved to a value, and the loop that fills the
 * candidate controls and counts the fills.
 */
module Fill {
  import opened Options
  import opened Text
  import opened Profile
  import opened Mapping

  /**
   * One candidate text control, reduced to the hints the engine reads from it.
   * An absent placeholder, name, id or aria-label is the empty text.
   */
  datatype Control = Control(
    labelText: Option<string>, // text of the label element whose `for` is the control's id, if there is one
    placeholder: string,
    name: string,
    id: string,
    ariaLabel: string,
    heading: Option<string>)  // Google Forms: text of the heading in the control's question container, if both exist

  /** A value written into the candidate control at position `input`. */
  datatype Write = Write(input: nat, value: string)

  /** What the engine does with one control: nothing, or fill it (and count it) with a value. */
  datatype Outcome = Skipped | Filled(key: string, value: string)

  /** Truthiness of a match result: `null` and the empty key are both false. */
  predicate Found(r: Option<string>) {
    r.Some? && r.value != ""
  }

  // ---------------------------------------------------------------------------
  // Generic pages: the label-source cascade

  /**
   * The texts the cascade may consult, in order: the label's text whenever there is a
   * label, even an empty one, then placeholder, name, id and aria-label when non-empty.
   */
  function GenericSources(c: Control): seq<string> {
    Present(c.labelText.Some?, if c.labelText.Some? then c.labelText.value else "") +
    Present(c.placeholder != "", c.placeholder) +
    Present(c.name != "", c.name) +
    Present(c.id != "", c.id) +
    Present(c.ariaLabel != "", c.ariaLabel)
  }

  /** The match result of each source. */
  function Results(sources: seq<string>, m: Mappings): (rs: seq<Option<string>>)
    ensures |rs| == |sources|
    ensures forall i :: 0 <= i < |sources| ==> rs[i] == MatchField(sources[i], m)
  {
    seq(|sources|, i requires 0 <= i < |sources| => MatchField(sources[i], m))
  }

  /** The first truthy result, or None when every result is false. */
  function FirstTruthy(rs: seq<Option<string>>): (r: Option<string>)
    ensures r.Some? ==> r.value != ""
    ensures r.None? <==> forall i :: 0 <= i < |rs| ==> !Found(rs[i])
  {
    if rs == [] then None
    else if Found(rs[0]) then rs[0]
    else FirstTruthy(rs[1..])
  }

  /** Result i is the first truthy one. */
  ghost predicate IsFirstTruthy(rs: seq<Option<string>>, i: int) {
    0 <= i < |rs| && Found(rs[i]) && forall j :: 0 <= j < i ==> !Found(rs[j])
  }

  /** The value kept is the first truthy result, and conversely. */
  lemma {:induction false} FirstTruthyIsFirst(rs: seq<Option<string>>, k: string)
    ensures FirstTruthy(rs) == Some(k) <==> exists i :: IsFirstTruthy(rs, i) && rs[i] == Some(k)
  {
    if rs != [] {
      if Found(rs[0]) {
        assert IsFirstTruthy(rs, 0);
        forall i | IsFirstTruthy(rs, i)
          ensures i == 0
        {
        }
      } else {
        FirstTruthyIsFirst(rs[1..], k);
        if i :| IsFirstTruthy(rs[1..], i) && rs[1..][i] == Some(k) {
          assert IsFirstTruthy(rs, i + 1);
        }
        if i :| IsFirstTruthy(rs, i) && rs[i] == Some(k) {
          assert IsFirstTruthy(rs[1..], i - 1);
        }
      }
    }
  }

  /** Scanning a + b scans a first and b only when a yields nothing. */
  lemma {:induction false} FirstTruthyAppend(a: seq<Option<string>>, b: seq<Option<string>>)
    ensures FirstTruthy(a + b) == if FirstTruthy(a).Some? then FirstTruthy(a) else FirstTruthy(b)
  {
    if a == [] {
      assert a + b == b;
    } else {
      assert (a + b)[0] == a[0];
      assert (a + b)[1..] == a[1..] + b;
      FirstTruthyAppend(a[1..], b);
    }
  }

  /** The first found match among the sources. */
  function FirstFound(sources: seq<string>, m: Mappings): Option<string> {
    FirstTruthy(Results(sources, m))
  }

  /**
   * The cascade of the generic path: each source is matched only while the result so
   * far is false, so the truthy result is the first source's found match.
   */
  method GenericFieldType(c: Control, m: Mappings) returns (fieldType: Option<string>)
    ensures Found(fieldType) <==> FirstFound(GenericSources(c), m).Some?
    ensures Found(fieldType) ==> fieldType == FirstFound(GenericSources(c), m)
  {
    fieldType := None;
    if c.labelText.Some? {
      fieldType := MatchField(c.labelText.value, m);
    }
    ghost var labelText := if c.labelText.Some? then c.labelText.value else "";
    ghost var seen := Present(c.labelText.Some?, labelText);
    FirstFoundStep([], c.labelText.Some?, labelText, m);
    assert [] + seen == seen;
    if !Found(fieldType) && c.placeholder != "" {
      fieldType := MatchField(c.placeholder, m);
    }
    FirstFoundStep(seen, c.placeholder != "", c.placeholder, m);
    seen := seen + Present(c.placeholder != "", c.placeholder);
    if !Found(fieldType) && c.name != "" {
      fieldType := MatchField(c.name, m);
    }
    FirstFoundStep(seen, c.name != "", c.name, m);
    seen := seen + Present(c.name != "", c.name);
    if !Found(fieldType) && c.id != "" {
      fieldType := MatchField(c.id, m);
    }
    FirstFoundStep(seen, c.id != "", c.id, m);
    seen := seen + Present(c.id != "", c.id);
    if !Found(fieldType) && c.ariaLabel != "" {
      fieldType := MatchField(c.ariaLabel, m);
    }
    FirstFoundStep(seen, c.ariaLabel != "", c.ariaLabel, m);
    seen := seen + Present(c.ariaLabel != "", c.ariaLabel);
  }

  /** The one-element source list when the source is consulted, else none. */
  function Present(consulted: bool, text: string): seq<string> {
    if consulted then [text] else []
  }

  /** Consulting one more source after `seen`. */
  lemma FirstFoundStep(seen: seq<string>, consulted: bool, text: string, m: Mappings)
    ensures FirstFound(seen + Present(consulted, text), m) ==
      if FirstFound(seen, m).Some? || !consulted then FirstFound(seen, m)
      else if Found(MatchField(text, m)) then MatchField(text, m) else None
  {
    var more := Present(consulted, text);
    assert Results(seen + more, m) == Results(seen, m) + Results(more, m);
    FirstTruthyAppend(Results(seen, m), Results(more, m));
    if consulted {
      assert Results(more, m)[1..] == [];
    }
  }

  // ---------------------------------------------------------------------------
  // Google Forms: the question text

  /** The heading's text when it is non-empty, otherwise the aria-label. */
  function QuestionText(c: Control): (t: string)
    ensures t == "" <==> (c.heading.None? || c.heading.value == "") && c.ariaLabel == ""
    ensures t == c.ariaLabel || (c.heading.Some? && t == c.heading.value)
    ensures c.heading.Some? && c.heading.value != "" ==> t == c.heading.value
    ensures c.heading.None? || c.heading.value == "" ==> t == c.ariaLabel
  {
    if c.heading.Some? && c.heading.value != "" then c.heading.value else c.ariaLabel
  }

  /**
   * The Google Forms path: the question text is the heading's text, replaced by the
   * aria-label when it is empty; an empty question text is not matched at all.
   */
  method GoogleFieldType(c: Control, m: Mappings) returns (fieldType: Option<string>)
    ensures QuestionText(c) == "" ==> fieldType == None
    ensures QuestionText(c) != "" ==> fieldType == MatchField(QuestionText(c), m)
  {
    var questionText := "";
    if c.heading.Some? {
      questionText := c.heading.value;
    }
    if questionText == "" && c.ariaLabel != "" {
      questionText := c.ariaLabel;
    }
    fieldType := None;
    if questionText != "" {
      fieldType := MatchField(questionText, m);
    }
  }

  /** The key a control is recognised as, when the match result is truthy. */
  function FieldKey(isGoogleForm: bool, c: Control, m: Mappings): (r: Option<string>)
    ensures r.Some? ==> r.value != ""
  {
    if isGoogleForm then
      var t := QuestionText(c);
      if t != "" && Found(MatchField(t, m)) then MatchField(t, m) else None
    else FirstFound(GenericSources(c), m)
  }

  // ---------------------------------------------------------------------------
  // Value resolution

  /** Field i is the first one with the given name. */
  ghost predicate IsFirstNamed(fields: seq<CustomField>, name: string, i: int) {
    0 <= i < |fields| && fields[i].name == name && forall j :: 0 <= j < i ==> fields[j].name != name
  }

  /** `customFields.find(f => f.name === name)`. */
  function FindCustom(fields: seq<CustomField>, name: string): (r: Option<CustomField>)
    ensures r.None? <==> forall i :: 0 <= i < |fields| ==> fields[i].name != name
    ensures r.Some? ==> r.value.name == name
    ensures r.Some? ==> exists i :: IsFirstNamed(fields, name, i) && fields[i] == r.value
  {
    if fields == [] then None
    else if fields[0].name == name then Some(fields[0])
    else
      var r := FindCustom(fields[1..], name);
      assert r.Some? ==> forall i :: IsFirstNamed(fields[1..], name, i) ==> IsFirstNamed(fields, name, i + 1);
      r
  }

  /**
   * A truthy profile value for the key wins; otherwise the first custom field with
   * exactly that name supplies the value, which may be empty; otherwise nothing.
   */
  function Resolve(key: string, profile: map<string, string>, fields: seq<CustomField>): (o: Outcome)
    ensures o.Filled? ==> o.key == key
    ensures key in profile && profile[key] != "" ==> o == Filled(key, profile[key])
    ensures o.Filled? <==> (key in profile && profile[key] != "") || exists i :: 0 <= i < |fields| && fields[i].name == key
    ensures o.Filled? && !(key in profile && profile[key] != "") ==>
      exists i :: IsFirstNamed(fields, key, i) && o.value == fields[i].value
  {
    if key in profile && profile[key] != "" then Filled(key, profile[key])
    else match FindCustom(fields, key)
      case Some(f) => Filled(key, f.value)
      case None => Skipped
  }

  /** The outcome for one control. */
  function OutcomeOf(isGoogleForm: bool, c: Control, m: Mappings, profile: map<string, string>,
                     fields: seq<CustomField>): Outcome
  {
    match FieldKey(isGoogleForm, c, m)
    case None => Skipped
    case Some(k) => Resolve(k, profile, fields)
  }

  /** The outcome for every candidate control, in document order. */
  function Outcomes(isGoogleForm: bool, inputs: seq<Control>, profile: map<string, string>,
                    fields: seq<CustomField>): (outs: seq<Outcome>)
    ensures |outs| == |inputs|
    ensures forall i :: 0 <= i < |inputs| ==> outs[i] == OutcomeOf(isGoogleForm, inputs[i], Table(fields), profile, fields)
  {
    seq(|inputs|, i requires 0 <= i < |inputs| => OutcomeOf(isGoogleForm, inputs[i], Table(fields), profile, fields))
  }

  /** Each control's outcome depends on that control alone, not on its neighbours. */
  lemma OutcomesAppend(isGoogleForm: bool, a: seq<Control>, b: seq<Control>, profile: map<string, string>,
                       fields: seq<CustomField>)
    ensures Outcomes(isGoogleForm, a + b, profile, fields) ==
            Outcomes(isGoogleForm, a, profile, fields) + Outcomes(isGoogleForm, b, profile, fields)
  {
    var all := Outcomes(isGoogleForm, a + b, profile, fields);
    var both := Outcomes(isGoogleForm, a, profile, fields) + Outcomes(isGoogleForm, b, profile, fields);
    forall i | 0 <= i < |all|
      ensures all[i] == both[i]
    {
      if i < |a| {
        assert (a + b)[i] == a[i];
      } else {
        assert (a + b)[i] == b[i - |a|];
      }
    }
  }

  // ---------------------------------------------------------------------------
  // Counting and writing

  /** The number of filled controls. */
  function Count(outs: seq<Outcome>): nat {
    if outs == [] then 0 else Count(outs[..|outs| - 1]) + if outs[|outs| - 1].Filled? then 1 else 0
  }

  /** The writes performed: one per filled control whose value is non-empty, in order. */
  function WriteLog(outs: seq<Outcome>): seq<Write> {
    if outs == [] then []
    else
      var n := |outs| - 1;
      WriteLog(outs[..n]) + if outs[n].Filled? && outs[n].value != "" then [Write(n, outs[n].value)] else []
  }

  /** fillInput: an empty value writes nothing. */
  function FillInput(log: seq<Write>, input: nat, value: string): (w: seq<Write>)
    ensures |log| <= |w| && w[..|log|] == log
    ensures forall x :: x in w <==> x in log || (value != "" && x == Write(input, value))
    ensures |w| == |log| + (if value == "" then 0 else 1)
    ensures value != "" ==> w[|log|] == Write(input, value)
  {
    if value == "" then log else log + [Write(input, value)]
  }

  /**
   * The body of the loop over the candidate controls: picks the label text, matches it,
   * resolves the key and fills the control, reporting whether it counts as filled.
   */
  method FillControl(isGoogleForm: bool, input: Control, index: nat, mappings: Mappings,
                     profile: map<string, string>, customFields: seq<CustomField>, writes: seq<Write>)
    returns (filled: bool, written: seq<Write>)
    ensures var o := OutcomeOf(isGoogleForm, input, mappings, profile, customFields);
      filled == o.Filled? &&
      written == writes + if o.Filled? && o.value != "" then [Write(index, o.value)] else []
  {
    var fieldType: Option<string>;
    if isGoogleForm {
      fieldType := GoogleFieldType(input, mappings);
    } else {
      fieldType := GenericFieldType(input, mappings);
    }
    filled, written := false, writes;
    if Found(fieldType) {
      var key := fieldType.value;
      if key in profile && profile[key] != "" {
        written := FillInput(writes, index, profile[key]);
        filled := true;
      } else {
        var customField := FindCustom(customFields, key);
        if customField.Some? {
          written := FillInput(writes, index, customField.value.value);
          filled := true;
        }
      }
    }
  }

  /**
   * fillFormFields after the profile has been read: builds the table, then decides and
   * performs the fill of each candidate control in turn, counting the fills.
   */
  method FillFormFields(isGoogleForm: bool, inputs: seq<Control>, profile: map<string, string>,
                        customFields: seq<CustomField>)
    returns (filledCount: nat, writes: seq<Write>)
    ensures filledCount == Count(Outcomes(isGoogleForm, inputs, profile, customFields))
    ensures writes == WriteLog(Outcomes(isGoogleForm, inputs, profile, customFields))
    ensures filledCount <= |inputs|
    ensures |writes| <= filledCount
    ensures forall w :: w in writes ==> w.input < |inputs| && w.value != ""
  {
    var mappings := BuildMappings(customFields);
    ghost var outs := Outcomes(isGoogleForm, inputs, profile, customFields);
    filledCount, writes := 0, [];
    for i := 0 to |inputs|
      invariant filledCount == Count(outs[..i])
      invariant writes == WriteLog(outs[..i])
    {
      var filled;
      filled, writes := FillControl(isGoogleForm, inputs[i], i, mappings, profile, customFields, writes);
      if filled {
        filledCount := filledCount + 1;
      }
      CountWriteLogStep(outs, i);
    }
    assert outs[..|inputs|] == outs;
    CountBounded(outs);
    WriteLogMembers(outs);
  }

  /** Count and WriteLog of a prefix grow by the next outcome. */
  lemma CountWriteLogStep(outs: seq<Outcome>, i: nat)
    requires i < |outs|
    ensures Count(outs[..i + 1]) == Count(outs[..i]) + if outs[i].Filled? then 1 else 0
    ensures WriteLog(outs[..i + 1]) ==
      WriteLog(outs[..i]) + if outs[i].Filled? && outs[i].value != "" then [Write(i, outs[i].value)] else []
  {
    assert outs[..i + 1][..i] == outs[..i];
  }

  /** At most one fill per control, and at most one write per fill. */
  lemma {:induction false} CountBounded(outs: seq<Outcome>)
    ensures Count(outs) <= |outs|
    ensures |WriteLog(outs)| <= Count(outs)
  {
    if outs != [] {
      CountBounded(outs[..|outs| - 1]);
    }
  }

  /** A write of v into control i happens exactly when control i is filled with the non-empty v. */
  lemma {:induction false} WriteLogMembers(outs: seq<Outcome>)
    ensures forall w :: w in WriteLog(outs) <==>
      w.input < |outs| && outs[w.input].Filled? && outs[w.input].value == w.value && w.value != ""
  {
    if outs != [] {
      var n := |outs| - 1;
      WriteLogMembers(outs[..n]);
    }
  }

  /** The controls written to come in document order, each at most once. */
  lemma {:induction false} WriteLogOrdered(outs: seq<Outcome>)
    ensures forall i, j :: 0 <= i < j < |WriteLog(outs)| ==> WriteLog(outs)[i].input < WriteLog(outs)[j].input
  {
    if outs != [] {
      var n := |outs| - 1;
      WriteLogOrdered(outs[..n]);
      WriteLogMembers(outs[..n]);
      var log := WriteLog(outs[..n]);
      assert forall i :: 0 <= i < |log| ==> log[i] in log;
    }
  }

  /** When every filled control received a non-empty value, every fill is a write. */
  lemma {:induction false} CountEqualsWrites(outs: seq<Outcome>)
    requires forall i :: 0 <= i < |outs| && outs[i].Filled? ==> outs[i].value != ""
    ensures |WriteLog(outs)| == Count(outs)
  {
    if outs != [] {
      CountEqualsWrites(outs[..|outs| - 1]);
    }
  }

  /**
   * With custom fields as the settings form stores them (every value non-empty), the
   * count is exactly the number of writes.
   */
  lemma SavedFieldsCountOnlyWrites(isGoogleForm: bool, inputs: seq<Control>, profile: map<string, string>,
                                   rows: seq<CustomFieldRow>)
    ensures var outs := Outcomes(isGoogleForm, inputs, profile, Collected(rows));
      |WriteLog(outs)| == Count(outs)
  {
    var fields := Collected(rows);
    var outs := Outcomes(isGoogleForm, inputs, profile, fields);
    forall i | 0 <= i < |outs| && outs[i].Filled?
      ensures outs[i].value != ""
    {
      var k := FieldKey(isGoogleForm, inputs[i], Table(fields)).value;
      if !(k in profile && profile[k] != "") {
        var f := FindCustom(fields, k).value;
        assert f in fields;
      }
    }
    CountEqualsWrites(outs);
  }

  /**
   * A custom field with an empty value still counts as a fill although nothing is
   * written: one such control yields the count 1 and no write.
   */
  lemma EmptyCustomValueCountsWithoutWrite(isGoogleForm: bool, c: Control, profile: map<string, string>,
                                           fields: seq<CustomField>, k: string)
    requires FieldKey(isGoogleForm, c, Table(fields)) == Some(k)
    requires k !in profile || profile[k] == ""
    requires FindCustom(fields, k) == Some(CustomField(k, ""))
    ensures Count(Outcomes(isGoogleForm, [c], profile, fields)) == 1
    ensures WriteLog(Outcomes(isGoogleForm, [c], profile, fields)) == []
  {
    var outs := Outcomes(isGoogleForm, [c], profile, fields);
    assert outs[0] == Filled(k, "");
    assert outs[..0] == [];
  }

  /** A key with an empty (or no) profile value and no custom field of that name is skipped. */
  lemma UnresolvedKeySkipped(k: string, profile: map<string, string>, fields: seq<CustomField>)
    requires k !in profile || profile[k] == ""
    requires forall i :: 0 <= i < |fields| ==> fields[i].name != k
    ensures Resolve(k, profile, fields) == Skipped
  {
  }

  /** A truthy profile value is used even when a custom field of the same name exists. */
  lemma ProfileValueWins(k: string, profile: map<string, string>, fields: seq<CustomField>)
    requires k in profile && profile[k] != ""
    ensures Resolve(k, profile, fields) == Filled(k, profile[k])
  {
  }

  /** Of several custom fields with the matched name, the first supplies the value. */
  lemma FirstCustomFieldWins(k: string, profile: map<string, string>, fields: seq<CustomField>, i: int)
    requires k !in profile || profile[k] == ""
    requires IsFirstNamed(fields, k, i)
    ensures Resolve(k, profile, fields) == Filled(k, fields[i].value)
  {
    var f := FindCustom(fields, k).value;
    var j :| IsFirstNamed(fields, k, j) && fields[j] == f;
    assert !(i < j) && !(j < i);
  }

  /**
   * On a generic page, a label whose text normalises to nothing (an empty or purely
   * punctuation label) makes the control the full-name field, whatever its other hints.
   */
  lemma BlankLabelIsFullName(c: Control, fields: seq<CustomField>)
    requires c.labelText.Some? && Normalize(c.labelText.value) == ""
    ensures FieldKey(false, c, Table(fields)) == Some("fullName")
  {
    BlankTextMatchesFullName(c.labelText.value, fields);
    var sources := GenericSources(c);
    assert sources[0] == c.labelText.value;
    FirstFoundHead(sources, Table(fields));
  }

  /** A source whose match is found ends the cascade at once. */
  lemma FirstFoundHead(sources: seq<string>, m: Mappings)
    requires sources != [] && Found(MatchField(sources[0], m))
    ensures FirstFound(sources, m) == MatchField(sources[0], m)
  {
    assert Results(sources, m)[0] == MatchField(sources[0], m);
  }

  /**
   * The two dialects agree on a non-empty text offered once as a Google Forms heading and
   * once as a generic label.
   */
  lemma DialectsAgreeOnNonEmptyText(t: string, m: Mappings)
    requires t != ""
    ensures FieldKey(true, Control(None, "", "", "", "", Some(t)), m) ==
            FieldKey(false, Control(Some(t), "", "", "", "", None), m)
  {
    var c := Control(Some(t), "", "", "", "", None);
    assert GenericSources(c) == [t];
    assert Results([t], m)[1..] == [];
  }

  /**
   * They differ on the empty text: an empty Google Forms question is skipped, while an
   * empty generic label is matched and taken for the full name.
   */
  lemma DialectsDifferOnEmptyText(fields: seq<CustomField>)
    ensures FieldKey(true, Control(None, "", "", "", "", Some("")), Table(fields)) == None
    ensures FieldKey(false, Control(Some(""), "", "", "", "", None), Table(fields)) == Some("fullName")
  {
    var c := Control(Some(""), "", "", "", "", None);
    NormalizeWithoutWordChars("");
    BlankLabelIsFullName(c, fields);
  }
}
