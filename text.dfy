/**
 * Text handling of the fill engine: the normaliser `normalizeText` of popup.js
 * and the substring test `String.prototype.includes` that the matcher uses.
 *
 * Characters follow JavaScript's rules restricted to ASCII: `toLowerCase` maps
 * A-Z to a-z, `\w` is [A-Za-z0-9_] and `\s` is space, tab, line feed, vertical
 * tab, form feed and carriage return.
 */
module Text {

  /** An ASCII capital letter, the only characters `toLowerCase` changes. */
  predicate IsUpper(c: char) { 'A' <= c <= 'Z' }

  /** The characters a normalised text is made of, besides the space. */
  predicate IsLowerAlnum(c: char) { 'a' <= c <= 'z' || '0' <= c <= '9' }

  /** The regular-expression class `\w`. */
  predicate IsWordChar(c: char) { IsUpper(c) || IsLowerAlnum(c) || c == '_' }

  /** The regular-expression class `\s`, and what `trim` removes. */
  predicate IsSpace(c: char) { c == ' ' || 9 <= c as int <= 13 }

  /** The regular-expression class `[_\-\s]`. */
  predicate IsSeparator(c: char) { c == '_' || c == '-' || IsSpace(c) }

  function LowerChar(c: char): (d: char)
    ensures !IsUpper(d)
    ensures IsUpper(c) ==> d as int == c as int + 32
    ensures !IsUpper(c) ==> d == c
  {
    if IsUpper(c) then (c as int + 32) as char else c
  }

  /** `toLowerCase`: every capital letter becomes its small letter, nothing else changes. */
  function ToLower(s: string): (r: string)
    ensures |r| == |s|
    ensures forall i :: 0 <= i < |r| ==> !IsUpper(r[i])
    ensures forall i :: 0 <= i < |r| ==> r[i] == LowerChar(s[i])
  {
    seq(|s|, i requires 0 <= i < |s| => LowerChar(s[i]))
  }

  /** Every character of s is a small letter, a digit or a space. */
  predicate LowerAlnumOrSpace(s: string) {
    forall i :: 0 <= i < |s| ==> IsLowerAlnum(s[i]) || s[i] == ' '
  }

  /** No character of s is a capital letter. */
  predicate NoUpper(s: string) {
    forall i :: 0 <= i < |s| ==> !IsUpper(s[i])
  }

  /** Every separator of s is a plain space. */
  predicate OnlySpaceSeparators(s: string) {
    forall i :: 0 <= i < |s| ==> IsSeparator(s[i]) ==> s[i] == ' '
  }

  /** s holds nothing that the deletion step of the normaliser removes. */
  predicate Unpunctuated(s: string) {
    forall i :: 0 <= i < |s| ==> IsWordChar(s[i]) || IsSeparator(s[i])
  }

  /** s has no word character at all: only separators other than `_`, and punctuation. */
  predicate NoWordChars(s: string) {
    forall i :: 0 <= i < |s| ==> !IsWordChar(s[i])
  }

  /** s never has two spaces in a row. */
  predicate NoDoubleSpace(s: string) {
    forall i :: 0 <= i < |s| - 1 ==> s[i] == ' ' ==> s[i + 1] != ' '
  }

  /** s neither starts nor ends with a space. */
  predicate Trimmed(s: string) {
    s == [] || (s[0] != ' ' && s[|s| - 1] != ' ')
  }

  /** Small letters and digits in words separated by single spaces. */
  predicate IsCanonical(s: string) {
    LowerAlnumOrSpace(s) && NoDoubleSpace(s) && Trimmed(s)
  }

  /** The separators at the front of s, dropped. */
  function DropSeparators(s: string): (r: string)
    ensures |r| <= |s|
    ensures r == [] || !IsSeparator(r[0])
    ensures NoUpper(s) ==> NoUpper(r)
    ensures Unpunctuated(s) ==> Unpunctuated(r)
    ensures NoWordChars(s) ==> NoWordChars(r)
  {
    if s != [] && IsSeparator(s[0]) then DropSeparators(s[1..]) else s
  }

  /** The characters of s that are not separators, in order. */
  function NonSeparators(s: string): (r: string)
    ensures forall i :: 0 <= i < |r| ==> !IsSeparator(r[i])
  {
    if s == [] then []
    else if IsSeparator(s[0]) then NonSeparators(s[1..])
    else [s[0]] + NonSeparators(s[1..])
  }

  /**
   * `replace(/[_\-\s]+/g, ' ')`: each maximal run of separators becomes one space.
   */
  function Collapse(s: string): string
    decreases |s|
  {
    if s == [] then []
    else if IsSeparator(s[0]) then [' '] + Collapse(DropSeparators(s[1..]))
    else [s[0]] + Collapse(s[1..])
  }

  /** `replace(/[^\w\s]/g, '')`: keeps word characters and white space, deletes the rest. */
  function StripNonWord(s: string): string
  {
    if s == [] then []
    else if IsWordChar(s[0]) || IsSpace(s[0]) then [s[0]] + StripNonWord(s[1..])
    else StripNonWord(s[1..])
  }

  /** `trimStart`: the white space at the front of s, dropped. */
  function TrimStart(s: string): (r: string)
    ensures |r| <= |s|
    ensures r == [] || !IsSpace(r[0])
    ensures forall i :: 0 <= i < |s| - |r| ==> IsSpace(s[i])
    ensures LowerAlnumOrSpace(s) ==> LowerAlnumOrSpace(r)
    ensures NoDoubleSpace(s) ==> NoDoubleSpace(r)
    ensures (forall i :: 0 <= i < |s| ==> IsSpace(s[i])) ==> r == []
  {
    if s != [] && IsSpace(s[0]) then TrimStart(s[1..]) else s
  }

  /** `trimEnd`: the white space at the back of s, dropped. */
  function TrimEnd(s: string): (r: string)
    ensures |r| <= |s|
    ensures r != [] ==> r[0] == s[0]
    ensures r == [] || !IsSpace(r[|r| - 1])
    ensures forall i :: |r| <= i < |s| ==> IsSpace(s[i])
    ensures LowerAlnumOrSpace(s) ==> LowerAlnumOrSpace(r)
    ensures NoDoubleSpace(s) ==> NoDoubleSpace(r)
  {
    if s != [] && IsSpace(s[|s| - 1]) then TrimEnd(s[..|s| - 1]) else s
  }

  /**
   * r stands in s at position i, and everything of s before and after it is white
   * space.
   */
  ghost predicate SpaceAround(s: string, r: string, i: int) {
    0 <= i && i + |r| <= |s| && r == s[i..i + |r|] &&
    (forall k :: 0 <= k < i ==> IsSpace(s[k])) &&
    (forall k :: i + |r| <= k < |s| ==> IsSpace(s[k]))
  }

  /**
   * `trim`: s without the white space at either end. As the result is a slice of s,
   * the shape of its characters and the absence of double spaces carry over.
   */
  function Trim(s: string): (r: string)
    ensures |r| <= |s|
    ensures r == [] || (!IsSpace(r[0]) && !IsSpace(r[|r| - 1]))
    ensures (s == [] || (!IsSpace(s[0]) && !IsSpace(s[|s| - 1]))) ==> r == s
    ensures LowerAlnumOrSpace(s) ==> LowerAlnumOrSpace(r)
    ensures NoDoubleSpace(s) ==> NoDoubleSpace(r)
    ensures (forall i :: 0 <= i < |s| ==> IsSpace(s[i])) ==> r == []
  {
    TrimEnd(TrimStart(s))
  }

  /** `trimStart` removes a prefix and nothing else. */
  lemma {:induction false} TrimStartIsSuffix(s: string)
    ensures TrimStart(s) == s[|s| - |TrimStart(s)|..]
    decreases |s|
  {
    if s != [] && IsSpace(s[0]) {
      TrimStartIsSuffix(s[1..]);
    }
  }

  /** `trimEnd` removes a suffix and nothing else. */
  lemma {:induction false} TrimEndIsPrefix(s: string)
    ensures TrimEnd(s) == s[..|TrimEnd(s)|]
    decreases |s|
  {
    if s != [] && IsSpace(s[|s| - 1]) {
      TrimEndIsPrefix(s[..|s| - 1]);
    }
  }

  /**
   * `trim` keeps a slice of s and removes only white space around it; with the ends of
   * the result not white space, this determines the result.
   */
  lemma TrimRemovesOuterSpace(s: string)
    ensures exists i :: SpaceAround(s, Trim(s), i)
  {
    var t := TrimStart(s);
    TrimStartIsSuffix(s);
    TrimEndIsPrefix(t);
    assert SpaceAround(s, Trim(s), |s| - |t|);
  }

  /**
   * After collapsing, the only separator left is the space, never two in a row;
   * the result starts with a space exactly when s starts with a separator, and the
   * character classes of s that matter later carry over.
   */
  lemma {:induction false} CollapseShape(s: string)
    ensures OnlySpaceSeparators(Collapse(s)) && NoDoubleSpace(Collapse(s))
    ensures (Collapse(s) != [] && Collapse(s)[0] == ' ') <==> (s != [] && IsSeparator(s[0]))
    ensures NoUpper(s) ==> NoUpper(Collapse(s))
    ensures Unpunctuated(s) ==> Unpunctuated(Collapse(s))
    ensures NoWordChars(s) ==> NoWordChars(Collapse(s))
    decreases |s|
  {
    if s != [] {
      var r := Collapse(s);
      if IsSeparator(s[0]) {
        var t := DropSeparators(s[1..]);
        CollapseShape(t);
        assert r == [' '] + Collapse(t);
      } else {
        CollapseShape(s[1..]);
        assert r == [s[0]] + Collapse(s[1..]);
      }
    }
  }

  /**
   * Dropping the separators at the front of x + y, where x ends in something else, stops
   * inside x, and what is left of x still ends with x's last character.
   */
  lemma {:induction false} DropSeparatorsPrefix(x: string, y: string)
    requires x != [] && !IsSeparator(x[|x| - 1])
    ensures DropSeparators(x + y) == DropSeparators(x) + y
    ensures DropSeparators(x) != [] && DropSeparators(x)[|DropSeparators(x)| - 1] == x[|x| - 1]
    decreases |x|
  {
    assert (x + y)[0] == x[0];
    if IsSeparator(x[0]) {
      assert (x + y)[1..] == x[1..] + y;
      DropSeparatorsPrefix(x[1..], y);
    }
  }

  /** A run made only of separators is dropped whole when what follows is not one. */
  lemma {:induction false} DropSeparatorsRun(run: string, b: string)
    requires forall i :: 0 <= i < |run| ==> IsSeparator(run[i])
    requires b == [] || !IsSeparator(b[0])
    ensures DropSeparators(run + b) == b
    decreases |run|
  {
    if run == [] {
      assert run + b == b;
    } else {
      assert (run + b)[0] == run[0];
      assert (run + b)[1..] == run[1..] + b;
      DropSeparatorsRun(run[1..], b);
    }
  }

  /**
   * A maximal run of separators, of any length, becomes exactly one space, and the
   * text on either side is collapsed on its own.
   */
  lemma {:induction false} CollapseRun(a: string, run: string, b: string)
    requires run != [] && forall i :: 0 <= i < |run| ==> IsSeparator(run[i])
    requires a == [] || !IsSeparator(a[|a| - 1])
    requires b == [] || !IsSeparator(b[0])
    ensures Collapse(a + run + b) == Collapse(a) + [' '] + Collapse(b)
  {
    var rest := run + b;
    assert IsSeparator(rest[0]) by {
      assert rest[0] == run[0];
    }
    assert DropSeparators(rest[1..]) == b by {
      assert rest[1..] == run[1..] + b;
      DropSeparatorsRun(run[1..], b);
    }
    CollapseBeforeSeparator(a, rest);
    assert a + run + b == a + rest;
  }

  /**
   * Collapsing a + rest, where a does not end in a separator and rest starts with one, is
   * collapsing a, one space, and collapsing what follows rest's leading separators.
   */
  lemma {:induction false} CollapseBeforeSeparator(a: string, rest: string)
    requires a == [] || !IsSeparator(a[|a| - 1])
    requires rest != [] && IsSeparator(rest[0])
    ensures Collapse(a + rest) == Collapse(a) + [' '] + Collapse(DropSeparators(rest[1..]))
    decreases |a|, 1
  {
    if a == [] {
      assert a + rest == [rest[0]] + rest[1..];
      CollapseHead(rest[0], rest[1..]);
    } else if IsSeparator(a[0]) {
      CollapseAfterSeparator(a, rest);
    } else {
      CollapseAfterOther(a, rest);
    }
  }

  /** CollapseBeforeSeparator when a starts with a separator. */
  lemma {:induction false} CollapseAfterSeparator(a: string, rest: string)
    requires a != [] && IsSeparator(a[0]) && !IsSeparator(a[|a| - 1])
    requires rest != [] && IsSeparator(rest[0])
    ensures Collapse(a + rest) == Collapse(a) + [' '] + Collapse(DropSeparators(rest[1..]))
    decreases |a|, 0
  {
    var c, x := a[0], a[1..];
    DropSeparatorsPrefix(x, rest);
    var d := DropSeparators(x);
    SplitHead(a, rest);
    assert Collapse(a + rest) == [' '] + Collapse(d + rest) by {
      CollapseHead(c, x + rest);
    }
    assert Collapse(a) == [' '] + Collapse(d) by {
      CollapseHead(c, x);
    }
    CollapseBeforeSeparator(d, rest);
    ConsAssoc(' ', Collapse(d), Collapse(DropSeparators(rest[1..])));
  }

  /** CollapseBeforeSeparator when a starts with something other than a separator. */
  lemma {:induction false} CollapseAfterOther(a: string, rest: string)
    requires a != [] && !IsSeparator(a[0]) && !IsSeparator(a[|a| - 1])
    requires rest != [] && IsSeparator(rest[0])
    ensures Collapse(a + rest) == Collapse(a) + [' '] + Collapse(DropSeparators(rest[1..]))
    decreases |a|, 0
  {
    var c, x := a[0], a[1..];
    SplitHead(a, rest);
    assert Collapse(a + rest) == [c] + Collapse(x + rest) by {
      CollapseHead(c, x + rest);
    }
    assert Collapse(a) == [c] + Collapse(x) by {
      CollapseHead(c, x);
    }
    CollapseBeforeSeparator(x, rest);
    ConsAssoc(c, Collapse(x), Collapse(DropSeparators(rest[1..])));
  }

  /** A non-empty text is its first character followed by the rest, also inside a concatenation. */
  lemma SplitHead(a: string, rest: string)
    requires a != []
    ensures a == [a[0]] + a[1..] && a + rest == [a[0]] + (a[1..] + rest)
  {
  }

  /** Regrouping a concatenation around one space. */
  lemma ConsAssoc(c: char, p: string, t: string)
    ensures [c] + (p + [' '] + t) == ([c] + p) + [' '] + t
  {
  }

  /** Collapsing takes the text's first character on its own. */
  lemma {:induction false} CollapseHead(c: char, t: string)
    ensures Collapse([c] + t) == if IsSeparator(c) then [' '] + Collapse(DropSeparators(t)) else [c] + Collapse(t)
  {
    assert ([c] + t)[0] == c;
    assert ([c] + t)[1..] == t;
  }

  /**
   * Deleting leaves only word characters and white space, and adds neither capital
   * letters nor separators other than the space.
   */
  lemma {:induction false} StripNonWordShape(s: string)
    ensures forall i :: 0 <= i < |StripNonWord(s)| ==> IsWordChar(StripNonWord(s)[i]) || IsSpace(StripNonWord(s)[i])
    ensures NoUpper(s) ==> NoUpper(StripNonWord(s))
    ensures OnlySpaceSeparators(s) ==> OnlySpaceSeparators(StripNonWord(s))
    ensures NoWordChars(s) ==> NoWordChars(StripNonWord(s))
  {
    if s != [] {
      StripNonWordShape(s[1..]);
    }
  }

  /** Deleting leaves alone a text with nothing to delete. */
  lemma {:induction false} StripNonWordKeeps(s: string)
    requires forall i :: 0 <= i < |s| ==> IsWordChar(s[i]) || IsSpace(s[i])
    ensures StripNonWord(s) == s
  {
    if s != [] {
      StripNonWordKeeps(s[1..]);
    }
  }

  /** Deleting works character by character, so it distributes over concatenation. */
  lemma {:induction false} StripNonWordAppend(a: string, b: string)
    ensures StripNonWord(a + b) == StripNonWord(a) + StripNonWord(b)
  {
    if a == [] {
      assert a + b == b;
    } else {
      assert (a + b)[1..] == a[1..] + b;
      StripNonWordAppend(a[1..], b);
    }
  }

  /** A character that is neither a word character nor white space is deleted, not replaced. */
  lemma StripNonWordDeletes(a: string, p: char, b: string)
    requires !IsWordChar(p) && !IsSpace(p)
    ensures StripNonWord(a + [p] + b) == StripNonWord(a) + StripNonWord(b)
  {
    StripNonWordAppend(a + [p], b);
    StripNonWordAppend(a, [p]);
    assert StripNonWord([p]) == [];
    assert StripNonWord(a) + [] == StripNonWord(a);
  }

  /**
   * normalizeText: lower-case, collapse separator runs into one space, delete what
   * is neither a word character nor white space, trim. The result is made of small
   * letters, digits and spaces and does not start or end with a space; it may hold
   * two spaces in a row when punctuation stood between two separators.
   */
  function Normalize(text: string): (r: string)
    ensures LowerAlnumOrSpace(r)
    ensures Trimmed(r)
  {
    var lower := ToLower(text);
    CollapseShape(lower);
    StripNonWordShape(Collapse(lower));
    Trim(StripNonWord(Collapse(lower)))
  }

  /** A text with no letter, digit or underscore normalises to the empty text. */
  lemma NormalizeWithoutWordChars(text: string)
    requires NoWordChars(text)
    ensures Normalize(text) == ""
  {
    var lower := ToLower(text);
    assert NoWordChars(lower);
    CollapseShape(lower);
    var kept := StripNonWord(Collapse(lower));
    StripNonWordShape(Collapse(lower));
    assert forall i :: 0 <= i < |kept| ==> IsSpace(kept[i]);
  }

  /** `s.includes(sub)`, searched position by position from the front. */
  predicate Contains(s: string, sub: string)
    decreases |s|
  {
    (|sub| <= |s| && s[..|sub|] == sub) || (s != [] && Contains(s[1..], sub))
  }

  /** sub stands in s starting at position i. */
  ghost predicate OccursAt(s: string, sub: string, i: int) {
    0 <= i && i + |sub| <= |s| && s[i..i + |sub|] == sub
  }

  // ---------------------------------------------------------------------------
  // Properties of the normaliser

  /** Letters and digits of either case: what a word of a label is made of. */
  predicate Alphanumeric(s: string) {
    forall i :: 0 <= i < |s| ==> IsUpper(s[i]) || IsLowerAlnum(s[i])
  }

  /** Lower-casing works character by character, so it distributes over concatenation. */
  lemma ToLowerAppend(a: string, b: string)
    ensures ToLower(a + b) == ToLower(a) + ToLower(b)
  {
  }

  /**
   * Two words joined by one separator normalise to the two words in small letters
   * with one space between them.
   */
  lemma NormalizeTwoWords(a: string, sep: char, b: string)
    requires a != [] && b != [] && Alphanumeric(a) && Alphanumeric(b)
    requires IsSeparator(sep)
    ensures Normalize(a + [sep] + b) == ToLower(a) + " " + ToLower(b)
  {
    var s := a + [sep] + b;
    var lower := ToLower(a) + [sep] + ToLower(b);
    var spaced := ToLower(a) + " " + ToLower(b);
    assert ToLower(s) == lower by {
      ToLowerAppend(a + [sep], b);
      ToLowerAppend(a, [sep]);
    }
    assert Collapse(lower) == spaced by {
      CollapseIsolatedSeparators(lower);
      assert SeparatorsToSpaces(lower) == spaced;
    }
    assert StripNonWord(spaced) == spaced by {
      StripNonWordKeeps(spaced);
    }
    assert Trim(spaced) == spaced;
  }

  /** Appending a character that is neither a separator nor a word character changes nothing. */
  lemma {:induction false} DropSeparatorsAppend(s: string, c: char)
    requires !IsSeparator(c)
    ensures DropSeparators(s + [c]) == DropSeparators(s) + [c]
  {
    if s != [] {
      assert (s + [c])[0] == s[0];
      assert (s + [c])[1..] == s[1..] + [c];
      if IsSeparator(s[0]) {
        DropSeparatorsAppend(s[1..], c);
      }
    } else {
      assert s + [c] == [c];
    }
  }

  lemma {:induction false} CollapseAppend(s: string, c: char)
    requires !IsSeparator(c)
    ensures Collapse(s + [c]) == Collapse(s) + [c]
    decreases |s|
  {
    if s == [] {
      assert s + [c] == [c];
    } else {
      assert (s + [c])[0] == s[0];
      assert (s + [c])[1..] == s[1..] + [c];
      if IsSeparator(s[0]) {
        DropSeparatorsAppend(s[1..], c);
        CollapseAppend(DropSeparators(s[1..]), c);
      } else {
        CollapseAppend(s[1..], c);
      }
    }
  }

  /** Punctuation at the end of a label, such as the colon of "Email:", does not matter. */
  lemma NormalizeIgnoresTrailingPunctuation(s: string, p: char)
    requires !IsWordChar(p) && !IsSeparator(p)
    ensures Normalize(s + [p]) == Normalize(s)
  {
    ToLowerAppend(s, [p]);
    assert ToLower([p]) == [p];
    CollapseAppend(ToLower(s), p);
    StripNonWordAppend(Collapse(ToLower(s)), [p]);
    assert StripNonWord([p]) == [];
    assert StripNonWord(Collapse(ToLower(s))) + [] == StripNonWord(Collapse(ToLower(s)));
  }

  // The worked examples below take the text as a parameter equal to a literal:
  // that keeps the verifier from unfolding the normaliser on the literal itself.

  lemma LowerFullName()
    ensures ToLower("Full") == "full" && ToLower("Name") == "name"
    ensures ToLower("full") == "full" && ToLower("name") == "name"
  {
  }

  lemma UnderscoreExample(s: string)
    requires s == "Full_Name"
    ensures Normalize(s) == "full name"
  {
    var a, b := "Full", "Name";
    assert s == a + ['_'] + b;
    FullUnderscoreName(a, b);
  }

  lemma FullUnderscoreName(a: string, b: string)
    requires a == "Full" && b == "Name"
    ensures Normalize(a + ['_'] + b) == "full name"
  {
    assert Alphanumeric(a) && Alphanumeric(b);
    NormalizeTwoWords(a, '_', b);
    LowerFullName();
  }

  lemma SpaceExample(s: string)
    requires s == "full name"
    ensures Normalize(s) == "full name"
  {
    assert s == "full" + [' '] + "name";
    NormalizeTwoWords("full", ' ', "name");
    LowerFullName();
  }

  lemma HyphenColonExample(s: string)
    requires s == "Full-Name:"
    ensures Normalize(s) == "full name"
  {
    var t := s[..9];
    assert Normalize(t) == "full name" by {
      assert t == "Full" + ['-'] + "Name";
      NormalizeTwoWords("Full", '-', "Name");
      LowerFullName();
    }
    assert s == t + [':'];
    NormalizeIgnoresTrailingPunctuation(t, ':');
  }

  /** Texts that differ only in the case of their letters normalise alike. */
  lemma NormalizeIgnoresCase(s: string, t: string)
    requires ToLower(s) == ToLower(t)
    ensures Normalize(s) == Normalize(t)
  {
  }

  /** Lower-casing a text first does not change its normal form. */
  lemma NormalizeOfLower(s: string)
    ensures Normalize(ToLower(s)) == Normalize(s)
  {
    assert ToLower(ToLower(s)) == ToLower(s);
    NormalizeIgnoresCase(ToLower(s), s);
  }

  /** "Full_Name", "full name" and "Full-Name:" all normalise to "full name". */
  lemma NormalizeExamples()
    ensures Normalize("Full_Name") == "full name"
    ensures Normalize("full name") == "full name"
    ensures Normalize("Full-Name:") == "full name"
  {
    UnderscoreExample("Full_Name");
    SpaceExample("full name");
    HyphenColonExample("Full-Name:");
  }

  lemma PunctuationBetweenSpacesExample(s: string)
    requires s == "a ! b"
    ensures Normalize(s) == "a  b"
  {
    assert ToLower(s) == s;
    assert Collapse(s) == s by {
      CollapseIsolatedSeparators(s);
      assert SeparatorsToSpaces(s) == s;
    }
    assert StripNonWord(s) == "a  b" by {
      assert s == "a " + "!" + " b";
      StripNonWordAppend("a " + "!", " b");
      StripNonWordAppend("a ", "!");
      StripNonWordKeeps("a ");
      StripNonWordKeeps(" b");
      assert StripNonWord("!") == "";
    }
    assert Trim("a  b") == "a  b";
  }

  lemma DoubleSpaceExample(s: string)
    requires s == "a  b"
    ensures Normalize(s) == "a b"
  {
    assert ToLower(s) == s;
    assert Collapse(s) == "a b" by {
      assert s[1..] == "  b" && s[1..][1..] == " b" && " b"[1..] == "b";
      assert DropSeparators(" b") == "b";
      assert Collapse("b") == "b";
    }
    assert StripNonWord("a b") == "a b";
    assert Trim("a b") == "a b";
  }

  /**
   * Normalising is not idempotent: the punctuation deleted after the collapse step
   * can leave two spaces in a row, which a second pass collapses.
   */
  lemma NormalizeIsNotIdempotent()
    ensures Normalize("a ! b") == "a  b"
    ensures Normalize(Normalize("a ! b")) == "a b"
    ensures Normalize(Normalize("a ! b")) != Normalize("a ! b")
  {
    PunctuationBetweenSpacesExample("a ! b");
    DoubleSpaceExample("a  b");
  }

  /** Each separator of s replaced by a space. */
  function SeparatorsToSpaces(s: string): (r: string)
    ensures |r| == |s|
    ensures forall i :: 0 <= i < |s| ==> r[i] == if IsSeparator(s[i]) then ' ' else s[i]
  {
    seq(|s|, i requires 0 <= i < |s| => if IsSeparator(s[i]) then ' ' else s[i])
  }

  /** Where no two separators stand side by side, collapsing replaces each one by a space. */
  lemma {:induction false} CollapseIsolatedSeparators(s: string)
    requires forall i :: 0 <= i < |s| - 1 ==> IsSeparator(s[i]) ==> !IsSeparator(s[i + 1])
    ensures Collapse(s) == SeparatorsToSpaces(s)
  {
    if s != [] {
      if IsSeparator(s[0]) {
        assert DropSeparators(s[1..]) == s[1..];
      }
      CollapseIsolatedSeparators(s[1..]);
      assert SeparatorsToSpaces(s) == SeparatorsToSpaces(s[..1]) + SeparatorsToSpaces(s[1..]);
    }
  }

  /** Normalising is the identity on the texts it considers canonical. */
  lemma CanonicalIsFixedPoint(s: string)
    requires IsCanonical(s)
    ensures Normalize(s) == s
  {
    assert ToLower(s) == s;
    assert Collapse(s) == s by {
      CollapseIsolatedSeparators(s);
      assert SeparatorsToSpaces(s) == s;
    }
    assert StripNonWord(s) == s by {
      StripNonWordKeeps(s);
    }
    assert Trim(s) == s;
  }

  /**
   * A text made only of word characters and separators normalises to a canonical
   * text, so on such texts normalising twice is the same as once.
   */
  lemma NormalizeWithoutPunctuation(s: string)
    requires Unpunctuated(s)
    ensures IsCanonical(Normalize(s))
    ensures Normalize(Normalize(s)) == Normalize(s)
  {
    var lower := ToLower(s);
    assert Unpunctuated(lower);
    var collapsed := Collapse(lower);
    CollapseShape(lower);
    assert LowerAlnumOrSpace(collapsed);
    StripNonWordKeeps(collapsed);
    CanonicalIsFixedPoint(Normalize(s));
  }

  /** The separators dropped from the front of a text are not part of its content. */
  lemma {:induction false} DropSeparatorsKeepsContent(s: string)
    ensures NonSeparators(DropSeparators(s)) == NonSeparators(s)
  {
    if s != [] && IsSeparator(s[0]) {
      DropSeparatorsKeepsContent(s[1..]);
    }
  }

  /** Collapsing changes only the separators: the other characters stay, in order. */
  lemma {:induction false} CollapseKeepsContent(s: string)
    ensures NonSeparators(Collapse(s)) == NonSeparators(s)
    decreases |s|
  {
    if s != [] {
      var r := Collapse(s);
      if IsSeparator(s[0]) {
        var t := DropSeparators(s[1..]);
        assert r == [' '] + Collapse(t);
        assert r[1..] == Collapse(t);
        CollapseKeepsContent(t);
        DropSeparatorsKeepsContent(s[1..]);
      } else {
        assert r == [s[0]] + Collapse(s[1..]);
        assert r[1..] == Collapse(s[1..]);
        CollapseKeepsContent(s[1..]);
      }
    }
  }

  // ---------------------------------------------------------------------------
  // Properties of the substring test

  /** A successful search names a position at which sub stands in s. */
  lemma {:induction false} ContainsOccurs(s: string, sub: string) returns (i: int)
    requires Contains(s, sub)
    ensures OccursAt(s, sub, i)
    decreases |s|
  {
    if |sub| <= |s| && s[..|sub|] == sub {
      i := 0;
    } else {
      var j := ContainsOccurs(s[1..], sub);
      assert s[j + 1..j + 1 + |sub|] == s[1..][j..j + |sub|];
      i := j + 1;
    }
  }

  /** The search finds every position at which sub stands in s. */
  lemma {:induction false} OccursContains(s: string, sub: string, i: int)
    requires OccursAt(s, sub, i)
    ensures Contains(s, sub)
    decreases i
  {
    if i > 0 {
      assert s[1..][i - 1..i - 1 + |sub|] == s[i..i + |sub|];
      OccursContains(s[1..], sub, i - 1);
    }
  }

  /** Contains finds exactly the positions at which sub stands in s. */
  lemma ContainsIsOccurrence(s: string, sub: string)
    ensures Contains(s, sub) <==> exists i :: OccursAt(s, sub, i)
  {
    if Contains(s, sub) {
      var i := ContainsOccurs(s, sub);
    }
    if i :| OccursAt(s, sub, i) {
      OccursContains(s, sub, i);
    }
  }

  /** Every character of a contained text is a character of the containing one. */
  lemma ContainsKeepsChars(s: string, sub: string)
    requires Contains(s, sub)
    ensures forall k :: 0 <= k < |sub| ==> sub[k] in s
  {
    ContainsIsOccurrence(s, sub);
    var i :| OccursAt(s, sub, i);
    forall k | 0 <= k < |sub| ensures sub[k] in s {
      assert sub[k] == s[i + k];
    }
  }

  /**
   * A normalised text never contains a phrase with a character other than a small
   * letter, a digit or a space: "e-mail" and "full_name" can only match the other way.
   */
  lemma NormalizedNeverContainsPunctuated(text: string, phrase: string)
    requires !LowerAlnumOrSpace(phrase)
    ensures !Contains(Normalize(text), phrase)
  {
    var n := Normalize(text);
    if Contains(n, phrase) {
      ContainsKeepsChars(n, phrase);
    }
  }

  /** An occurrence cannot start inside a prefix that lacks the first character sought. */
  lemma {:induction false} ContainsSkipsPrefix(a: string, b: string, sub: string)
    requires sub != [] && sub[0] !in a
    ensures Contains(a + b, sub) ==> Contains(b, sub)
  {
    if a == [] {
      assert a + b == b;
    } else {
      assert (a + b)[0] == a[0];
      assert (a + b)[1..] == a[1..] + b;
      ContainsSkipsPrefix(a[1..], b, sub);
    }
  }

  /** A text contains nothing longer than itself. */
  lemma {:induction false} ContainsLength(s: string, sub: string)
    ensures Contains(s, sub) ==> |sub| <= |s|
    decreases |s|
  {
    if s != [] {
      ContainsLength(s[1..], sub);
    }
  }
}
