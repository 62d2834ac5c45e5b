/**
 * The field-mapping table of the fill engine and the matcher that searches it.
 * A table is modelled as the sequence of its properties in insertion order, which
 * is the order in which the matcher walks them.
 */
module Mapping {
  import opened Options
  import opened Text
  import opened Profile

  /** One property of the table: a field key and its alias phrases, in order. */
  datatype Entry = Entry(key: string, aliases: seq<string>)

  type Mappings = seq<Entry>

  function Keys(m: Mappings): (ks: seq<string>)
    ensures |ks| == |m|
    ensures forall i :: 0 <= i < |m| ==> ks[i] == m[i].key
  {
    seq(|m|, i requires 0 <= i < |m| => m[i].key)
  }

  /** An object has each property once. */
  predicate UniqueKeys(m: Mappings) {
    forall i, j :: 0 <= i < j < |m| ==> m[i].key != m[j].key
  }

  function Names(fields: seq<CustomField>): (ns: seq<string>)
    ensures |ns| == |fields|
    ensures forall i :: 0 <= i < |fields| ==> ns[i] == fields[i].name
  {
    seq(|fields|, i requires 0 <= i < |fields| => fields[i].name)
  }

  /** The ten keys of the built-in table, in declaration order. */
  const StandardKeys: seq<string> :=
    ["fullName", "email", "phone", "university", "department", "cgpa", "graduationYear", "address", "linkedIn", "github"]

  /** The alias lists of the built-in table, one per key. */
  function FullNameAliases(): seq<string> {
    ["full name", "name", "your name", "full_name", "fullname", "applicant name", "candidate name"]
  }

  function EmailAliases(): seq<string> {
    ["email", "e-mail", "email address", "e mail", "mail", "your email"]
  }

  function PhoneAliases(): seq<string> {
    ["phone", "telephone", "mobile", "phone number", "contact", "contact number", "mobile number", "cell"]
  }

  function UniversityAliases(): seq<string> {
    ["university", "college", "institution", "school", "university name", "alma mater", "educational institution"]
  }

  function DepartmentAliases(): seq<string> {
    ["department", "major", "field of study", "program", "degree", "subject", "specialization", "dept", "discipline"]
  }

  function CgpaAliases(): seq<string> {
    ["cgpa", "gpa", "grade", "marks", "score", "cumulative gpa", "academic score"]
  }

  function GraduationYearAliases(): seq<string> {
    ["graduation", "year", "graduation year", "passing year", "completion year", "grad year", "year of graduation"]
  }

  function AddressAliases(): seq<string> {
    ["address", "location", "residence", "home address", "full address", "street address", "residential address"]
  }

  function LinkedInAliases(): seq<string> {
    ["linkedin", "linked in", "linkedin profile", "linkedin url"]
  }

  function GithubAliases(): seq<string> {
    ["github", "git hub", "github profile", "github url"]
  }

  /** The built-in table. */
  function StandardMappings(): (m: Mappings)
    ensures Keys(m) == StandardKeys
  {
    [ Entry("fullName", FullNameAliases()),
      Entry("email", EmailAliases()),
      Entry("phone", PhoneAliases()),
      Entry("university", UniversityAliases()),
      Entry("department", DepartmentAliases()),
      Entry("cgpa", CgpaAliases()),
      Entry("graduationYear", GraduationYearAliases()),
      Entry("address", AddressAliases()),
      Entry("linkedIn", LinkedInAliases()),
      Entry("github", GithubAliases()) ]
  }

  /** The alias list of each built-in key. */
  lemma StandardAliases()
    ensures var m := StandardMappings();
      m[0].aliases == FullNameAliases() && m[1].aliases == EmailAliases() && m[2].aliases == PhoneAliases() &&
      m[3].aliases == UniversityAliases() && m[4].aliases == DepartmentAliases() && m[5].aliases == CgpaAliases() &&
      m[6].aliases == GraduationYearAliases() && m[7].aliases == AddressAliases() &&
      m[8].aliases == LinkedInAliases() && m[9].aliases == GithubAliases()
  {
  }

  /** Every entry of a table has at least one alias. */
  predicate HasAliases(m: Mappings) {
    forall i :: 0 <= i < |m| ==> m[i].aliases != []
  }

  lemma StandardMappingsWellFormed()
    ensures UniqueKeys(StandardMappings())
    ensures HasAliases(StandardMappings())
    ensures StandardMappings()[0] == Entry("fullName", StandardMappings()[0].aliases)
    ensures StandardMappings()[0].aliases[0] == "full name"
  {
    var m := StandardMappings();
    assert Keys(m) == StandardKeys;
    forall i, j | 0 <= i < j < |m|
      ensures m[i].key != m[j].key
    {
      assert Keys(m)[i] == StandardKeys[i] && Keys(m)[j] == StandardKeys[j];
    }
  }

  /**
   * Property assignment `m[key] = aliases`: an existing property keeps its position and
   * takes the new value; a new one is added after all others.
   */
  function Assign(m: Mappings, key: string, aliases: seq<string>): (r: Mappings)
    requires UniqueKeys(m)
    ensures key in Keys(m) ==> Keys(r) == Keys(m)
    ensures key !in Keys(m) ==> Keys(r) == Keys(m) + [key]
    ensures UniqueKeys(r)
    ensures forall i :: 0 <= i < |r| ==> if r[i].key == key then r[i].aliases == aliases else i < |m| && r[i] == m[i]
  {
    if key in Keys(m) then
      var r := seq(|m|, i requires 0 <= i < |m| => if m[i].key == key then Entry(key, aliases) else m[i]);
      assert Keys(r) == Keys(m);
      r
    else
      var r := m + [Entry(key, aliases)];
      assert Keys(r) == Keys(m) + [key];
      r
  }

  /**
   * The names that are new to `present`, each at its first occurrence in `names`, in the
   * order of those occurrences.
   */
  function NewNames(present: seq<string>, names: seq<string>): seq<string> {
    if names == [] then []
    else
      var n := |names| - 1;
      var prev := NewNames(present, names[..n]);
      if names[n] in present || names[n] in names[..n] then prev else prev + [names[n]]
  }

  /** The new names are exactly the names not present, and none is listed twice. */
  lemma {:induction false} NewNamesMembers(present: seq<string>, names: seq<string>)
    ensures forall x :: x in NewNames(present, names) <==> x !in present && x in names
    ensures forall i, j :: 0 <= i < j < |NewNames(present, names)| ==> NewNames(present, names)[i] != NewNames(present, names)[j]
    decreases |names|
  {
    if names != [] {
      var n := |names| - 1;
      NewNamesMembers(present, names[..n]);
      assert names == names[..n] + [names[n]];
    }
  }

  /** One more name is kept exactly when it is new to `present` and to the earlier names. */
  lemma NewNamesSnoc(present: seq<string>, names: seq<string>, x: string)
    ensures NewNames(present, names + [x]) ==
            NewNames(present, names) + if x in present || x in names then [] else [x]
  {
    assert (names + [x])[..|names|] == names;
  }

  /**
   * The table after the custom fields are added in order: each field name becomes a key
   * whose only alias is the lower-cased name.
   */
  function Merge(m: Mappings, fields: seq<CustomField>): (r: Mappings)
    requires UniqueKeys(m)
    ensures UniqueKeys(r)
    ensures Keys(r) == Keys(m) + NewNames(Keys(m), Names(fields))
    ensures forall i :: 0 <= i < |r| ==>
      if r[i].key in Names(fields) then r[i].aliases == [ToLower(r[i].key)] else i < |m| && r[i] == m[i]
  {
    if fields == [] then m
    else
      var n := |fields| - 1;
      var before := Merge(m, fields[..n]);
      var f := fields[n];
      var r := Assign(before, f.name, [ToLower(f.name)]);
      assert Names(fields) == Names(fields[..n]) + [f.name];
      MergeExtendKeys(Keys(m), Names(fields[..n]), Keys(before), f.name, Keys(r));
      MergeExtendAliases(m, Names(fields[..n]), before, f.name, r);
      r
  }

  /** The key order of Merge carries over one more assignment: `before` and `after` are the
      key lists before and after assigning `name`, `present` the keys Merge started from. */
  lemma MergeExtendKeys(present: seq<string>, names: seq<string>, before: seq<string>, name: string, after: seq<string>)
    requires before == present + NewNames(present, names)
    requires name in before ==> after == before
    requires name !in before ==> after == before + [name]
    ensures after == present + NewNames(present, names + [name])
  {
    NewNamesSnoc(present, names, name);
    NewNamesMembers(present, names);
    assert name in before <==> name in present || name in names;
  }

  /** The aliases of Merge carry over one more assignment. */
  lemma MergeExtendAliases(m: Mappings, names: seq<string>, before: Mappings, name: string, r: Mappings)
    requires UniqueKeys(before)
    requires forall i :: 0 <= i < |before| ==>
      if before[i].key in names then before[i].aliases == [ToLower(before[i].key)] else i < |m| && before[i] == m[i]
    requires r == Assign(before, name, [ToLower(name)])
    ensures forall i :: 0 <= i < |r| ==>
      if r[i].key in names + [name] then r[i].aliases == [ToLower(r[i].key)] else i < |m| && r[i] == m[i]
  {
    forall i | 0 <= i < |r|
      ensures if r[i].key in names + [name] then r[i].aliases == [ToLower(r[i].key)] else i < |m| && r[i] == m[i]
    {
      if r[i].key != name {
        assert i < |before| && r[i] == before[i];
      }
    }
  }

  /**
   * The table the fill engine searches: the ten built-in keys stay first and in order,
   * every custom name is a key whose only alias is the lower-cased name, every other
   * built-in entry is unchanged, and no key appears twice.
   */
  function Table(fields: seq<CustomField>): (m: Mappings)
    ensures UniqueKeys(m)
    ensures |StandardKeys| <= |m| && forall i :: 0 <= i < |StandardKeys| ==> m[i].key == StandardKeys[i]
    ensures forall k :: k in Keys(m) <==> k in StandardKeys || k in Names(fields)
    ensures Keys(m) == StandardKeys + NewNames(StandardKeys, Names(fields))
    ensures forall i :: 0 <= i < |m| ==>
      if m[i].key in Names(fields) then m[i].aliases == [ToLower(m[i].key)] else i < |StandardKeys| && m[i] == StandardMappings()[i]
    ensures HasAliases(m)
  {
    StandardMappingsWellFormed();
    var std := StandardMappings();
    assert Keys(std) == StandardKeys;
    var r := Merge(std, fields);
    NewNamesMembers(StandardKeys, Names(fields));
    assert forall i :: 0 <= i < |StandardKeys| ==> r[i].key == std[i].key == StandardKeys[i];
    r
  }

  /** Merging one more custom field is one more assignment. */
  lemma MergeStep(m: Mappings, fields: seq<CustomField>, i: nat)
    requires UniqueKeys(m) && i < |fields|
    ensures Merge(m, fields[..i + 1]) == Assign(Merge(m, fields[..i]), fields[i].name, [ToLower(fields[i].name)])
  {
    assert fields[..i + 1][..i] == fields[..i];
  }

  /** The building step of the fill engine: the built-in table, then each custom field in turn. */
  method BuildMappings(customFields: seq<CustomField>) returns (m: Mappings)
    ensures m == Table(customFields)
  {
    StandardMappingsWellFormed();
    m := StandardMappings();
    for i := 0 to |customFields|
      invariant m == Merge(StandardMappings(), customFields[..i])
    {
      MergeStep(StandardMappings(), customFields, i);
      var field := customFields[i];
      m := Assign(m, field.name, [ToLower(field.name)]);
    }
    assert customFields[..|customFields|] == customFields;
  }

  /** The test of one alias against the normalised text: either contains the other. */
  predicate AliasMatches(normalized: string, alias: string) {
    Contains(normalized, alias) || Contains(alias, normalized)
  }

  /** The inner loop of the matcher over one key's aliases. */
  function MatchesSomeAlias(normalized: string, aliases: seq<string>): (b: bool)
    ensures b <==> exists j :: 0 <= j < |aliases| && AliasMatches(normalized, aliases[j])
  {
    if aliases == [] then false
    else AliasMatches(normalized, aliases[0]) || MatchesSomeAlias(normalized, aliases[1..])
  }

  /** Entry i matches and no earlier entry does. */
  ghost predicate IsFirstMatch(normalized: string, m: Mappings, i: int) {
    0 <= i < |m| && MatchesSomeAlias(normalized, m[i].aliases) &&
    forall j :: 0 <= j < i ==> !MatchesSomeAlias(normalized, m[j].aliases)
  }

  /** The outer loop of the matcher: the key of the first entry with a matching alias. */
  function FirstMatch(normalized: string, m: Mappings): (r: Option<string>)
    ensures r.None? <==> forall i :: 0 <= i < |m| ==> !MatchesSomeAlias(normalized, m[i].aliases)
  {
    if m == [] then None
    else if MatchesSomeAlias(normalized, m[0].aliases) then Some(m[0].key)
    else FirstMatch(normalized, m[1..])
  }

  /** A key found is the key of the first matching entry, and conversely. */
  lemma {:induction false} FirstMatchIsFirst(normalized: string, m: Mappings, k: string)
    ensures FirstMatch(normalized, m) == Some(k) <==> exists i :: IsFirstMatch(normalized, m, i) && m[i].key == k
  {
    if m != [] {
      if MatchesSomeAlias(normalized, m[0].aliases) {
        assert IsFirstMatch(normalized, m, 0);
        forall i | IsFirstMatch(normalized, m, i)
          ensures i == 0
        {
        }
      } else {
        FirstMatchIsFirst(normalized, m[1..], k);
        if i :| IsFirstMatch(normalized, m[1..], i) && m[1..][i].key == k {
          assert IsFirstMatch(normalized, m, i + 1);
        }
        if i :| IsFirstMatch(normalized, m, i) && m[i].key == k {
          assert IsFirstMatch(normalized, m[1..], i - 1);
        }
      }
    }
  }

  /** matchField: the key the text is recognised as, or None. */
  function MatchField(text: string, m: Mappings): (r: Option<string>)
  {
    FirstMatch(Normalize(text), m)
  }

  /**
   * A text is recognised as key k exactly when, after normalisation, the entry for k has a
   * matching alias and no earlier entry has one; it is recognised as nothing exactly when
   * no entry has one.
   */
  lemma MatchFieldIsFirst(text: string, m: Mappings, k: string)
    ensures MatchField(text, m) == Some(k) <==> exists i :: IsFirstMatch(Normalize(text), m, i) && m[i].key == k
    ensures MatchField(text, m).None? <==> forall i :: 0 <= i < |m| ==> !MatchesSomeAlias(Normalize(text), m[i].aliases)
  {
    FirstMatchIsFirst(Normalize(text), m, k);
  }

  /** An entry that matches stops the search: the key found is its own or an earlier one. */
  lemma {:induction false} MatchNoLaterThan(normalized: string, m: Mappings, i: int)
    requires 0 <= i < |m| && MatchesSomeAlias(normalized, m[i].aliases)
    ensures exists j :: 0 <= j <= i && FirstMatch(normalized, m) == Some(m[j].key)
  {
    if !MatchesSomeAlias(normalized, m[0].aliases) {
      MatchNoLaterThan(normalized, m[1..], i - 1);
      var j :| 0 <= j <= i - 1 && FirstMatch(normalized, m[1..]) == Some(m[1..][j].key);
      assert FirstMatch(normalized, m) == Some(m[j + 1].key);
    } else {
      assert FirstMatch(normalized, m) == Some(m[0].key);
    }
  }

  /** Only the entries up to the first match decide the result. */
  lemma SamePrefixSameMatch(normalized: string, m: Mappings, m2: Mappings, i: int)
    requires IsFirstMatch(normalized, m, i)
    requires i < |m2| && forall j :: 0 <= j <= i ==> m2[j] == m[j]
    ensures FirstMatch(normalized, m2) == Some(m[i].key)
  {
    assert IsFirstMatch(normalized, m2, i);
    FirstMatchIsFirst(normalized, m2, m[i].key);
  }

  /** Every text contains the empty text. */
  lemma ContainsEmpty(s: string)
    ensures Contains(s, "")
  {
    assert s[..0] == "";
  }

  /**
   * A text that normalises to nothing, such as a label of punctuation only, is taken
   * for the full name: the empty text is contained in every alias, and the first key
   * of every table built by the engine is fullName.
   */
  lemma BlankTextMatchesFullName(text: string, fields: seq<CustomField>)
    requires Normalize(text) == ""
    ensures MatchField(text, Table(fields)) == Some("fullName")
  {
    var m := Table(fields);
    assert m[0].key == "fullName";
    ContainsEmpty(m[0].aliases[0]);
    assert AliasMatches("", m[0].aliases[0]);
  }

  /** The same for any text without a letter, digit or underscore. */
  lemma PunctuationMatchesFullName(text: string, fields: seq<CustomField>)
    requires NoWordChars(text)
    ensures MatchField(text, Table(fields)) == Some("fullName")
  {
    NormalizeWithoutWordChars(text);
    BlankTextMatchesFullName(text, fields);
  }

  /**
   * Any text whose normal form is part of "full name" (such as "Name", "Full" or "l n")
   * is taken for the full name, unless a custom field replaced that entry.
   */
  lemma PartOfFullNameMatchesFullName(text: string, fields: seq<CustomField>)
    requires Contains("full name", Normalize(text))
    requires "fullName" !in Names(fields)
    ensures MatchField(text, Table(fields)) == Some("fullName")
  {
    StandardMappingsWellFormed();
    var m := Table(fields);
    assert m[0].key == "fullName";
    assert m[0] == StandardMappings()[0];
    assert AliasMatches(Normalize(text), m[0].aliases[0]);
  }

  /**
   * An alias holding anything but small letters, digits and spaces (such as "e-mail",
   * "full_name", or the lower-cased name of a custom field "Zip-Code") is never found
   * inside a normalised text; it matches only texts whose normal form it contains.
   */
  lemma PunctuatedAliasMatchesOneWay(text: string, alias: string)
    requires !LowerAlnumOrSpace(alias)
    ensures AliasMatches(Normalize(text), alias) <==> Contains(alias, Normalize(text))
  {
    NormalizedNeverContainsPunctuated(text, alias);
  }
}
