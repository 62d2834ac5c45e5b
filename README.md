# Form auto-filler: a verified model of the filling engine

The extension keeps one applicant profile and a list of custom fields. When the user asks
it to, it injects `fillFormFields` into the current page. That function:

- builds a table from profile keys to aliases: ten built-in keys, each with its own list,
  then the custom fields in saved order. A custom name that is already a key replaces
  that entry's aliases in place; any other name is appended as a new key, so a name saved
  twice gives one entry;
- normalises a text taken from each text control (lower case, separators collapsed to a
  space, punctuation deleted, trimmed);
- finds the first key with an alias that contains the normalised text or is contained in it;
- fills the control with the profile's value for that key, or else with the custom
  field's value;
- reports how many controls it counted as filled.

The popup saves the custom fields. It keeps only rows whose name and value are both present
and non-empty.

The model has six modules:

- `Options` (`options.dfy`): the option type.
- `Text` (`text.dfy`): `normalizeText` as the four steps of the source, plus `includes`
  as `Contains`. The module proves the shape of the normaliser's output, its examples, its
  fixed points, and that it is not idempotent.
- `Profile` (`profile.dfy`): custom fields. Saving them is a method with a loop, proved
  against the function `Collected`.
- `Mapping` (`mapping.dfy`): the alias table and the matcher. `BuildMappings` is the loop
  that merges custom fields into the table. It is proved against the function `Table`.
  `Table` is proved to hold the built-in keys first, then each new custom name once, in the
  order of its first saved occurrence (`NewNames`). It is also proved that a custom name
  replaces the aliases of an existing key in place. `FirstMatch` is the
  double loop of `matchField`, written as two recursions. It comes with a first-match lemma
  in both directions.
- `Fill` (`fill.dfy`): where the label text comes from, how values are resolved, and the
  fill loop.
  - `GenericFieldType` is the cascade of `if`s over the label, placeholder, name, id and
    aria-label. It is proved equal to "the first source whose match is truthy".
  - `GoogleFieldType` is the Google Forms path.
  - `FillFormFields` is the loop over the controls. It is proved against `Outcomes`,
    `Count` and `WriteLog`. Its bounds and the meaning of the write log are proved as lemmas.
- `Scenarios` (`scenarios.dfy`): worked cases computed through the whole engine:
  - "Year Built" and the standard table;
  - a page with three placeholders.

Facts about the code that a reader might not expect:

- The normaliser is not idempotent: "a ! b" normalises to "a  b"
  (the `!` is deleted after the spaces were collapsed), and that normalises to "a b"
  (`Text.NormalizeIsNotIdempotent`). It is idempotent on texts without punctuation
  (`Text.NormalizeWithoutPunctuation`).
- "Year Built" matches `graduationYear`, because "year built" contains the alias "year"
  (`Scenarios.YearBuiltMatchesGraduationYear`).
- A label whose text normalises to the empty text matches `fullName`, because every alias
  contains the empty text. This includes labels made only of punctuation, such as "---".
  The Google Forms path never matches an empty question text. An empty heading with an
  empty aria-label is therefore skipped there (`Fill.DialectsDifferOnEmptyText`).
- A custom field whose name holds punctuation (for example "Zip-Code") gets the alias
  "zip-code". That alias can never lie inside a normalised text, so only the other
  direction of the test can match (`Mapping.PunctuatedAliasMatchesOneWay`).

Characters are Dafny `char`s. Lower-casing acts on `A`-`Z`. `\s` is the ASCII space and the
characters 9 to 13. `\w` is the ASCII letters, the digits and `_`.

## Model

| member | source | states |
|---|---|---|
| Text.ToLower | popup.js:152 | lower-cases character by character: same length, no capital letter left, each character lowered on its own |
| Text.Trim | popup.js:155 | the result neither starts nor ends with white space; a text already trimmed is unchanged; an all-space text becomes empty |
| Text.TrimStartIsSuffix | popup.js:155 | trimming the front leaves a suffix of the text |
| Text.TrimEndIsPrefix | popup.js:155 | trimming the back leaves a prefix of the text |
| Text.TrimRemovesOuterSpace | popup.js:155 | the trimmed text stands at some position of the text with only white space before and after it; with its own ends not white space, it is the text without its outer white space |
| Text.Normalize | popup.js:151-156 | the normalised text consists of small letters, digits and spaces only, and neither starts nor ends with a space |
| Text.NormalizeIgnoresCase | popup.js:152 | two texts that agree after lower-casing normalise to the same text |
| Text.NormalizeOfLower | popup.js:152 | lower-casing a text first does not change its normalised form |
| Text.CollapseShape | popup.js:153 | after collapsing, the only separator is the space, never twice in a row; the result starts with a space exactly when the text starts with a separator; no new capital letters, punctuation or word characters appear |
| Text.CollapseRun | popup.js:153 | a maximal run of separators of any length becomes exactly one space, and the text on either side is collapsed on its own |
| Text.CollapseBeforeSeparator | popup.js:153 | collapsing a text that reaches a separator is collapsing what comes before, one space, and collapsing what follows the separators |
| Text.StripNonWordShape | popup.js:154 | after deleting, only word characters and white space are left, and no capital letter or separator other than the space is introduced |
| Text.StripNonWordKeeps | popup.js:154 | a text of word characters and white space is left unchanged |
| Text.StripNonWordAppend | popup.js:154 | deleting works character by character: it distributes over concatenation |
| Text.StripNonWordDeletes | popup.js:154 | a character that is neither a word character nor white space is removed, not replaced: the text around it is joined |
| Text.CollapseKeepsContent | popup.js:153 | collapsing separators keeps every other character, in order |
| Text.NormalizeWithoutWordChars | popup.js:151-156 | a text with no letter, digit or underscore normalises to the empty text |
| Text.NormalizeTwoWords | popup.js:151-156 | two alphanumeric words joined by any one separator normalise to the two words lower-cased with one space between |
| Text.NormalizeExamples | popup.js:151-156 | "Full_Name", "full name" and "Full-Name:" all normalise to "full name" |
| Text.NormalizeIgnoresTrailingPunctuation | popup.js:154 | appending one punctuation character (neither a word character nor a separator) does not change the normalised text |
| Text.CanonicalIsFixedPoint | popup.js:151-156 | a text of small letters and digits in words separated by single spaces, with no leading or trailing space, normalises to itself |
| Text.NormalizeWithoutPunctuation | popup.js:151-156 | on a text without punctuation the result is canonical, so normalising twice equals normalising once |
| Text.NormalizeIsNotIdempotent | popup.js:153-154 | "a ! b" normalises to "a  b", and normalising again gives "a b", a different text |
| Text.ContainsIsOccurrence | popup.js:163 | `includes` holds exactly when the text stands at some position of the other |
| Text.ContainsOccurs | popup.js:163 | when `includes` holds, the sought text stands at some position of the other |
| Text.OccursContains | popup.js:163 | when the sought text stands at some position, `includes` holds |
| Text.ContainsLength | popup.js:163 | a text includes nothing longer than itself |
| Text.ContainsSkipsPrefix | popup.js:163 | an occurrence cannot start inside a prefix lacking the first character sought |
| Text.ContainsKeepsChars | popup.js:163 | every character of a contained text occurs in the containing text |
| Text.NormalizedNeverContainsPunctuated | popup.js:151-163 | no normalised text contains a phrase holding a character other than a small letter, digit or space |
| Profile.Collected | popup.js:54-63 | keeps at most one field per row, and every kept field has a non-empty name and value |
| Profile.CollectCustomFields | popup.js:54-63 | the loop over the rows returns exactly the complete rows' fields in row order, all with non-empty name and value |
| Profile.CollectedAppend | popup.js:54-63 | collecting two runs of rows is collecting each and concatenating, so row order is kept |
| Profile.CollectedMembers | popup.js:57-61 | a field is saved if and only if some row has both inputs present and non-empty with that name and value |
| Mapping.StandardMappings | popup.js:131-142 | the built-in table has exactly the ten keys fullName, email, phone, university, department, cgpa, graduationYear, address, linkedIn, github in that order |
| Mapping.StandardMappingsWellFormed | popup.js:131-142 | built-in keys are distinct, every alias list is non-empty, and the first entry is fullName with first alias "full name" |
| Mapping.Assign | popup.js:147 | assigning an existing key replaces its aliases in place and keeps the key order; a new key is appended at the end; keys stay distinct and nothing else changes |
| Mapping.NewNamesMembers | popup.js:146-147 | the names added as new keys are exactly the saved names that are not already keys, and none is added twice |
| Mapping.NewNamesSnoc | popup.js:146-147 | one more saved name adds a key exactly when it is neither an existing key nor an earlier saved name, and then at the end |
| Mapping.Merge | popup.js:145-149 | after merging, the keys are the old keys in their order followed by the new custom names, each once, in the order of first saving; every custom name carries the alias list [its lower-cased name]; every other entry is unchanged at its position |
| Mapping.Table | popup.js:131-149 | the table has distinct keys: the ten built-in keys in order, then each custom name that is not a built-in key, once, in the order of first saving; it holds exactly the built-in keys and custom names; each custom name has the alias list [lowercase name], overriding in place a built-in key of the same name; each other built-in entry is kept as it is |
| Mapping.BuildMappings | popup.js:131-149 | the loop over the custom fields yields exactly the table above |
| Mapping.MatchesSomeAlias | popup.js:162-166 | the inner loop succeeds if and only if some alias contains the normalised text or lies inside it |
| Mapping.FirstMatch | popup.js:161-168 | the outer loop returns null if and only if no entry has a matching alias |
| Mapping.FirstMatchIsFirst | popup.js:158-169 | the match is key k if and only if some entry with key k matches and no earlier entry does |
| Mapping.MatchFieldIsFirst | popup.js:158-169 | matchField returns key k if and only if, after normalising the text, the entry for k is the first with a matching alias; it returns null if and only if no entry has one |
| Mapping.MatchNoLaterThan | popup.js:161-166 | if entry i matches, the result is the key of entry i or of an earlier entry |
| Mapping.SamePrefixSameMatch | popup.js:161-166 | the match depends only on the entries up to the first matching one |
| Mapping.BlankTextMatchesFullName | popup.js:158-169 | a text that normalises to the empty text matches fullName whatever the custom fields |
| Mapping.PunctuationMatchesFullName | popup.js:151-169 | a text with no word character, such as "---", matches fullName |
| Mapping.PartOfFullNameMatchesFullName | popup.js:132-163 | a text whose normalised form lies inside "full name" matches fullName, unless a custom field is itself named fullName |
| Mapping.PunctuatedAliasMatchesOneWay | popup.js:147-163 | an alias holding punctuation matches only by containing the normalised text, never by lying inside it |
| Fill.FirstTruthy | popup.js:251-268 | the value kept is non-empty, and none is kept if and only if no result is truthy |
| Fill.FirstTruthyIsFirst | popup.js:251-268 | the value kept is k if and only if k is the first truthy result |
| Fill.FirstTruthyAppend | popup.js:251-268 | consulting more sources changes nothing once a truthy result is found |
| Fill.FirstFoundStep | popup.js:250-268 | one more guarded step of the cascade keeps a truthy result, and otherwise takes the new source's match when it is truthy |
| Fill.FirstFoundHead | popup.js:244-248 | a truthy match of the first source is the cascade's result |
| Fill.GenericFieldType | popup.js:242-268 | the cascade over label, placeholder, name, id and aria-label yields a truthy key if and only if some consulted source matches truthily, and then the first one's key |
| Fill.GoogleFieldType | popup.js:202-219 | the question text is the heading's text, or the aria-label when that is empty; an empty question is not matched, any other is matched |
| Fill.QuestionText | popup.js:202-216 | a non-empty heading text is the question text; otherwise (no heading, or an empty one) the aria-label is; so the question text is empty exactly when both are |
| Fill.FieldKey | popup.js:200-271 | a key chosen for a control is never empty |
| Fill.FindCustom | popup.js:277 | `find` (here and at line 227) finds nothing if and only if no custom field has the name; otherwise returns the first field with that name |
| Fill.Resolve | popup.js:272-283 | a control is filled exactly when the key has a truthy profile value or some custom field has that name; a truthy profile value is the value used, otherwise the value of the first custom field with that name |
| Fill.OutcomesAppend | popup.js:241-285 | the outcomes of two runs of controls are the outcomes of each run concatenated, so each control is judged on its own |
| Fill.FillInput | popup.js:171-172 | filling keeps the earlier writes and adds exactly one write, of the value to the control, when the value is non-empty, and nothing when it is empty |
| Fill.FillControl | popup.js:271-284 | the loop body, on either path (lines 221-233 for Google Forms), counts the control exactly when it was resolved, and writes to it exactly when the resolved value is non-empty, as `fillInput` returns early on an empty value |
| Fill.FillFormFields | popup.js:189-289 | the returned count and writes are those of the outcomes; the count is at most the number of controls; there are no more writes than counted controls; every write goes to an existing control with a non-empty value |
| Fill.CountBounded | popup.js:189-289 | the count never exceeds the number of controls, and the writes never exceed the count |
| Fill.WriteLogMembers | popup.js:171-172 | a write happens if and only if its control was filled with that non-empty value |
| Fill.WriteLogOrdered | popup.js:241-285 | writes happen in document order, at most one per control |
| Fill.CountEqualsWrites | popup.js:171-172 | when no resolved value is empty, every counted control was written |
| Fill.SavedFieldsCountOnlyWrites | popup.js:271-284 | with custom fields saved by the popup, every counted control was actually written |
| Fill.EmptyCustomValueCountsWithoutWrite | popup.js:276-281 | a custom field with an empty value is counted as filled but writes nothing |
| Fill.UnresolvedKeySkipped | popup.js:272-283 | a key with no truthy profile value and no custom field of that name is not counted |
| Fill.ProfileValueWins | popup.js:272-275 | a truthy profile value is used, whatever the custom fields |
| Fill.FirstCustomFieldWins | popup.js:276-281 | without a truthy profile value, the first custom field with the key's name supplies the value |
| Fill.BlankLabelIsFullName | popup.js:245-248 | on the generic path, a label whose text normalises to empty makes the control a fullName control |
| Fill.DialectsAgreeOnNonEmptyText | popup.js:205-248 | a non-empty heading on the Google path and the same text as a label on the generic path give the same key |
| Fill.DialectsDifferOnEmptyText | popup.js:214-248 | an empty heading (with no aria-label) is skipped on the Google path, while an empty label is a fullName control on the generic path |
| Scenarios.YearBuiltMatchesGraduationYear | popup.js:132-169 | "Year Built" matches graduationYear when no custom field overrides one of the first seven keys |
| Scenarios.FullNameMatch | popup.js:132-169 | "Full Name" matches fullName in the standard table |
| Scenarios.EmailAddressMatch | popup.js:132-169 | "Email Address" matches email, after fullName's aliases all miss |
| Scenarios.FavoriteColorMatch | popup.js:132-169 | "Favorite Color" matches no key of the standard table |
| Scenarios.CustomKeysInSavedOrder | popup.js:145-148 | custom fields saved as "skill" then "skills" become the keys after the built-in ones, in that order |
| Scenarios.OverrideAndRepeatAddOneKey | popup.js:145-148 | custom fields named "email", "skill", "skill" add the single key "skill" after the built-in ones |
| Scenarios.OverrideKeepsPlace | popup.js:147 | a first custom field named "email" replaces the built-in email entry at its place with the alias list ["email"] |
| Scenarios.OverriddenEntry | popup.js:147 | a built-in key that is also a custom name stays at its place with the alias list [its lowercase name] |
| Scenarios.ThreePlaceholderOutcomes | popup.js:241-285 | on a page with placeholders "Full Name", "Email Address" and "Favorite Color", and a profile holding only a name and an e-mail, the first two controls are filled with those values and the third is skipped |
| Scenarios.ThreePlaceholderPage | popup.js:189-289 | that page gives a count of 2 and exactly the two writes, to controls 0 and 1 |

## Left out

- Storage (`chrome.storage.local`), tab queries, script injection, the popup's buttons, the
  status messages, and the settings form other than the custom-field rows. These are
  browser I/O. The stored data is a parameter: a map from key to text, plus the custom fields.
- Finding controls in the page (`querySelectorAll`, `closest`, `label[for=…]`, attribute
  reads). These are DOM queries. Each control is a record of the texts the engine reads: the
  label's text if there is a label, placeholder, name, id, aria-label, and the Google
  question heading's text if there is one.
  - The label lookup by id and the Google question container/heading selectors are not
    modelled. The control carries their result directly.
  - The label selector at popup.js:245 is built from the raw id. An id holding `"` or a
    line break makes `querySelector` throw, which abandons the rest of the
    pass. The model reads the label (or its absence) and carries on.
- Whether the page is a Google Form (`location.hostname` / `pathname`). This is a parameter.
- The event dispatch and the native value setter in `fillInput`. These are DOM effects.
  - Filling a control is recorded as a write of its value.
  - The setter's failure on a textarea is not modelled. Nor is the fact that such a failure
    aborts the rest of the loop.
  - The model lets every control be filled independently.
- `console.log`, which is output only.
- Unicode. Lower-casing, `\s` and `\w` are modelled on ASCII. Non-ASCII letters are
  treated as punctuation and deleted, as `\w` does. Unicode white space and special
  lower-casing rules are not modelled.
- The ordering `Object.entries` gives to integer-like keys. Those keys come before all
  others in JavaScript. The model keeps insertion order for every key.
- Profile values that are not strings, for example a `data[fieldType]` that is the
  `customFields` array itself, and keys inherited from the object prototype. The profile is
  a map of strings.
- Custom fields missing from storage behave like an empty list. The model has only the list.
- A custom field named `__proto__` sets the object's prototype at popup.js:147 instead of
  adding an own property, so `Object.entries` never yields it and it matches nothing. The
  model's table appends an entry for it like any other new name.
- Fill.FieldKey: its contract states only that a chosen key is non-empty. The two paths
  that define it are specified by Fill.GenericFieldType and Fill.GoogleFieldType.
