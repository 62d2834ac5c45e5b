/**
 * Worked cases of the matcher and the fill engine over the built-in table: the label
 * "Year Built" is recognised as the graduation year, and a generic page with the
 * placeholders "Full Name", "Email Address" and "Favorite Color" gets two fills; custom
 * keys are appended in first-occurrence order, and a custom field named like a built-in
 * key or like an earlier field adds no key.
 */
module Scenarios {
  import opened Options
  import opened Text
  import opened Profile
  import opened Mapping
  import opened Fill

  /** A text lacking one of the characters of sub does not contain sub. */
  lemma LacksChar(s: string, sub: string, i: int)
    requires 0 <= i < |sub| && sub[i] !in s
    ensures !Contains(s, sub)
  {
    if Contains(s, sub) {
      ContainsKeepsChars(s, sub);
    }
  }

  /** A character of each text that the other one lacks rules out containment both ways. */
  lemma Unrelated(n: string, v: string, i: int, k: int)
    requires 0 <= i < |v| && v[i] !in n
    requires 0 <= k < |n| && n[k] !in v
    ensures !AliasMatches(n, v)
  {
    LacksChar(n, v, i);
    LacksChar(v, n, k);
  }

  /** A shorter alias with a character the text lacks is unrelated to it. */
  lemma UnrelatedShorter(n: string, v: string, i: int)
    requires |v| < |n|
    requires 0 <= i < |v| && v[i] !in n
    ensures !AliasMatches(n, v)
  {
    LacksChar(n, v, i);
    ContainsLength(v, n);
  }

  /** A longer alias lacking a character of the text is unrelated to it. */
  lemma UnrelatedLonger(n: string, v: string, k: int)
    requires |n| < |v|
    requires 0 <= k < |n| && n[k] !in v
    ensures !AliasMatches(n, v)
  {
    ContainsLength(n, v);
    LacksChar(v, n, k);
  }

  /** "cell" is made of letters of "favorite color" but does not occur in it. */
  lemma NotContainsCell(n: string, v: string)
    requires n == "favorite color" && v == "cell"
    ensures !AliasMatches(n, v)
  {
    var front, back := n[..9], n[9..];
    assert front == "favorite " && back == "color";
    assert n == front + back;
    ContainsSkipsPrefix(front, back, v);
    LacksChar(back, v, 1);
    ContainsLength(v, n);
  }

  lemma YearBuiltMissesFullNameFrom0(n: string)
    requires n == "year built"
    ensures forall j :: 0 <= j < 3 ==> !AliasMatches(n, FullNameAliases()[j])
  {
    var a := FullNameAliases();
    forall j | 0 <= j < 3
      ensures !AliasMatches(n, a[j])
    {
      if j == 0 {
        UnrelatedShorter(n, a[j], 0);
      } else if j == 1 {
        UnrelatedShorter(n, a[j], 0);
      } else {
        UnrelatedShorter(n, a[j], 1);
      }
    }
  }

  lemma YearBuiltMissesFullNameFrom3(n: string)
    requires n == "year built"
    ensures forall j :: 3 <= j < 6 ==> !AliasMatches(n, FullNameAliases()[j])
  {
    var a := FullNameAliases();
    forall j | 3 <= j < 6
      ensures !AliasMatches(n, a[j])
    {
      if j == 3 {
        UnrelatedShorter(n, a[j], 0);
      } else if j == 4 {
        UnrelatedShorter(n, a[j], 0);
      } else {
        UnrelatedLonger(n, a[j], 0);
      }
    }
  }

  lemma YearBuiltMissesFullNameFrom6(n: string)
    requires n == "year built"
    ensures forall j :: 6 <= j < 7 ==> !AliasMatches(n, FullNameAliases()[j])
  {
    var a := FullNameAliases();
    forall j | 6 <= j < 7
      ensures !AliasMatches(n, a[j])
    {
      UnrelatedLonger(n, a[j], 0);
    }
  }

  /** No alias of fullName is related to "year built". */
  lemma YearBuiltMissesFullName(n: string)
    requires n == "year built"
    ensures !MatchesSomeAlias(n, FullNameAliases())
  {
    YearBuiltMissesFullNameFrom0(n);
    YearBuiltMissesFullNameFrom3(n);
    YearBuiltMissesFullNameFrom6(n);
  }

  lemma YearBuiltMissesEmailFrom0(n: string)
    requires n == "year built"
    ensures forall j :: 0 <= j < 3 ==> !AliasMatches(n, EmailAliases()[j])
  {
    var a := EmailAliases();
    forall j | 0 <= j < 3
      ensures !AliasMatches(n, a[j])
    {
      if j == 0 {
        UnrelatedShorter(n, a[j], 1);
      } else if j == 1 {
        UnrelatedShorter(n, a[j], 1);
      } else {
        UnrelatedLonger(n, a[j], 0);
      }
    }
  }

  lemma YearBuiltMissesEmailFrom3(n: string)
    requires n == "year built"
    ensures forall j :: 3 <= j < 6 ==> !AliasMatches(n, EmailAliases()[j])
  {
    var a := EmailAliases();
    forall j | 3 <= j < 6
      ensures !AliasMatches(n, a[j])
    {
      if j == 3 {
        UnrelatedShorter(n, a[j], 2);
      } else if j == 4 {
        UnrelatedShorter(n, a[j], 0);
      } else {
        Unrelated(n, a[j], 1, 5);
      }
    }
  }

  /** No alias of email is related to "year built". */
  lemma YearBuiltMissesEmail(n: string)
    requires n == "year built"
    ensures !MatchesSomeAlias(n, EmailAliases())
  {
    YearBuiltMissesEmailFrom0(n);
    YearBuiltMissesEmailFrom3(n);
  }

  lemma YearBuiltMissesPhoneFrom0(n: string)
    requires n == "year built"
    ensures forall j :: 0 <= j < 3 ==> !AliasMatches(n, PhoneAliases()[j])
  {
    var a := PhoneAliases();
    forall j | 0 <= j < 3
      ensures !AliasMatches(n, a[j])
    {
      if j == 0 {
        UnrelatedShorter(n, a[j], 0);
      } else if j == 1 {
        UnrelatedShorter(n, a[j], 4);
      } else {
        UnrelatedShorter(n, a[j], 0);
      }
    }
  }

  lemma YearBuiltMissesPhoneFrom3(n: string)
    requires n == "year built"
    ensures forall j :: 3 <= j < 6 ==> !AliasMatches(n, PhoneAliases()[j])
  {
    var a := PhoneAliases();
    forall j | 3 <= j < 6
      ensures !AliasMatches(n, a[j])
    {
      if j == 3 {
        UnrelatedLonger(n, a[j], 0);
      } else if j == 4 {
        UnrelatedShorter(n, a[j], 0);
      } else {
        UnrelatedLonger(n, a[j], 0);
      }
    }
  }

  lemma YearBuiltMissesPhoneFrom6(n: string)
    requires n == "year built"
    ensures forall j :: 6 <= j < 8 ==> !AliasMatches(n, PhoneAliases()[j])
  {
    var a := PhoneAliases();
    forall j | 6 <= j < 8
      ensures !AliasMatches(n, a[j])
    {
      if j == 6 {
        UnrelatedLonger(n, a[j], 0);
      } else {
        UnrelatedShorter(n, a[j], 0);
      }
    }
  }

  /** No alias of phone is related to "year built". */
  lemma YearBuiltMissesPhone(n: string)
    requires n == "year built"
    ensures !MatchesSomeAlias(n, PhoneAliases())
  {
    YearBuiltMissesPhoneFrom0(n);
    YearBuiltMissesPhoneFrom3(n);
    YearBuiltMissesPhoneFrom6(n);
  }

  lemma YearBuiltMissesUniversityFrom0(n: string)
    requires n == "year built"
    ensures forall j :: 0 <= j < 3 ==> !AliasMatches(n, UniversityAliases()[j])
  {
    var a := UniversityAliases();
    forall j | 0 <= j < 3
      ensures !AliasMatches(n, a[j])
    {
      if j == 0 {
        Unrelated(n, a[j], 1, 2);
      } else if j == 1 {
        UnrelatedShorter(n, a[j], 0);
      } else {
        UnrelatedLonger(n, a[j], 0);
      }
    }
  }

  lemma YearBuiltMissesUniversityFrom3(n: string)
    requires n == "year built"
    ensures forall j :: 3 <= j < 6 ==> !AliasMatches(n, UniversityAliases()[j])
  {
    var a := UniversityAliases();
    forall j | 3 <= j < 6
      ensures !AliasMatches(n, a[j])
    {
      if j == 3 {
        UnrelatedShorter(n, a[j], 0);
      } else if j == 4 {
        UnrelatedLonger(n, a[j], 5);
      } else {
        Unrelated(n, a[j], 2, 0);
      }
    }
  }

  lemma YearBuiltMissesUniversityFrom6(n: string)
    requires n == "year built"
    ensures forall j :: 6 <= j < 7 ==> !AliasMatches(n, UniversityAliases()[j])
  {
    var a := UniversityAliases();
    forall j | 6 <= j < 7
      ensures !AliasMatches(n, a[j])
    {
      UnrelatedLonger(n, a[j], 0);
    }
  }

  /** No alias of university is related to "year built". */
  lemma YearBuiltMissesUniversity(n: string)
    requires n == "year built"
    ensures !MatchesSomeAlias(n, UniversityAliases())
  {
    YearBuiltMissesUniversityFrom0(n);
    YearBuiltMissesUniversityFrom3(n);
    YearBuiltMissesUniversityFrom6(n);
  }

  lemma YearBuiltMissesDepartmentFrom0(n: string)
    requires n == "year built"
    ensures forall j :: 0 <= j < 3 ==> !AliasMatches(n, DepartmentAliases()[j])
  {
    var a := DepartmentAliases();
    forall j | 0 <= j < 3
      ensures !AliasMatches(n, a[j])
    {
      if j == 0 {
        Unrelated(n, a[j], 0, 0);
      } else if j == 1 {
        UnrelatedShorter(n, a[j], 0);
      } else {
        UnrelatedLonger(n, a[j], 2);
      }
    }
  }

  lemma YearBuiltMissesDepartmentFrom3(n: string)
    requires n == "year built"
    ensures forall j :: 3 <= j < 6 ==> !AliasMatches(n, DepartmentAliases()[j])
  {
    var a := DepartmentAliases();
    forall j | 3 <= j < 6
      ensures !AliasMatches(n, a[j])
    {
      if j == 3 {
        UnrelatedShorter(n, a[j], 0);
      } else if j == 4 {
        UnrelatedShorter(n, a[j], 0);
      } else {
        UnrelatedShorter(n, a[j], 0);
      }
    }
  }

  lemma YearBuiltMissesDepartmentFrom6(n: string)
    requires n == "year built"
    ensures forall j :: 6 <= j < 9 ==> !AliasMatches(n, DepartmentAliases()[j])
  {
    var a := DepartmentAliases();
    forall j | 6 <= j < 9
      ensures !AliasMatches(n, a[j])
    {
      if j == 6 {
        UnrelatedLonger(n, a[j], 0);
      } else if j == 7 {
        UnrelatedShorter(n, a[j], 0);
      } else {
        Unrelated(n, a[j], 0, 0);
      }
    }
  }

  /** No alias of department is related to "year built". */
  lemma YearBuiltMissesDepartment(n: string)
    requires n == "year built"
    ensures !MatchesSomeAlias(n, DepartmentAliases())
  {
    YearBuiltMissesDepartmentFrom0(n);
    YearBuiltMissesDepartmentFrom3(n);
    YearBuiltMissesDepartmentFrom6(n);
  }

  lemma YearBuiltMissesCgpaFrom0(n: string)
    requires n == "year built"
    ensures forall j :: 0 <= j < 3 ==> !AliasMatches(n, CgpaAliases()[j])
  {
    var a := CgpaAliases();
    forall j | 0 <= j < 3
      ensures !AliasMatches(n, a[j])
    {
      if j == 0 {
        UnrelatedShorter(n, a[j], 0);
      } else if j == 1 {
        UnrelatedShorter(n, a[j], 0);
      } else {
        UnrelatedShorter(n, a[j], 0);
      }
    }
  }

  lemma YearBuiltMissesCgpaFrom3(n: string)
    requires n == "year built"
    ensures forall j :: 3 <= j < 6 ==> !AliasMatches(n, CgpaAliases()[j])
  {
    var a := CgpaAliases();
    forall j | 3 <= j < 6
      ensures !AliasMatches(n, a[j])
    {
      if j == 3 {
        UnrelatedShorter(n, a[j], 0);
      } else if j == 4 {
        UnrelatedShorter(n, a[j], 0);
      } else {
        UnrelatedLonger(n, a[j], 0);
      }
    }
  }

  lemma YearBuiltMissesCgpaFrom6(n: string)
    requires n == "year built"
    ensures forall j :: 6 <= j < 7 ==> !AliasMatches(n, CgpaAliases()[j])
  {
    var a := CgpaAliases();
    forall j | 6 <= j < 7
      ensures !AliasMatches(n, a[j])
    {
      UnrelatedLonger(n, a[j], 0);
    }
  }

  /** No alias of cgpa is related to "year built". */
  lemma YearBuiltMissesCgpa(n: string)
    requires n == "year built"
    ensures !MatchesSomeAlias(n, CgpaAliases())
  {
    YearBuiltMissesCgpaFrom0(n);
    YearBuiltMissesCgpaFrom3(n);
    YearBuiltMissesCgpaFrom6(n);
  }

  lemma EmailAddressMissesFullNameFrom0(n: string)
    requires n == "email address"
    ensures forall j :: 0 <= j < 3 ==> !AliasMatches(n, FullNameAliases()[j])
  {
    var a := FullNameAliases();
    forall j | 0 <= j < 3
      ensures !AliasMatches(n, a[j])
    {
      if j == 0 {
        UnrelatedShorter(n, a[j], 0);
      } else if j == 1 {
        UnrelatedShorter(n, a[j], 0);
      } else {
        UnrelatedShorter(n, a[j], 0);
      }
    }
  }

  lemma EmailAddressMissesFullNameFrom3(n: string)
    requires n == "email address"
    ensures forall j :: 3 <= j < 6 ==> !AliasMatches(n, FullNameAliases()[j])
  {
    var a := FullNameAliases();
    forall j | 3 <= j < 6
      ensures !AliasMatches(n, a[j])
    {
      if j == 3 {
        UnrelatedShorter(n, a[j], 0);
      } else if j == 4 {
        UnrelatedShorter(n, a[j], 0);
      } else {
        UnrelatedLonger(n, a[j], 7);
      }
    }
  }

  lemma EmailAddressMissesFullNameFrom6(n: string)
    requires n == "email address"
    ensures forall j :: 6 <= j < 7 ==> !AliasMatches(n, FullNameAliases()[j])
  {
    var a := FullNameAliases();
    forall j | 6 <= j < 7
      ensures !AliasMatches(n, a[j])
    {
      UnrelatedLonger(n, a[j], 4);
    }
  }

  /** No alias of fullName is related to "email address". */
  lemma EmailAddressMissesFullName(n: string)
    requires n == "email address"
    ensures !MatchesSomeAlias(n, FullNameAliases())
  {
    EmailAddressMissesFullNameFrom0(n);
    EmailAddressMissesFullNameFrom3(n);
    EmailAddressMissesFullNameFrom6(n);
  }

  lemma FavoriteColorMissesFullNameFrom0(n: string)
    requires n == "favorite color"
    ensures forall j :: 0 <= j < 3 ==> !AliasMatches(n, FullNameAliases()[j])
  {
    var a := FullNameAliases();
    forall j | 0 <= j < 3
      ensures !AliasMatches(n, a[j])
    {
      if j == 0 {
        UnrelatedShorter(n, a[j], 1);
      } else if j == 1 {
        UnrelatedShorter(n, a[j], 0);
      } else {
        UnrelatedShorter(n, a[j], 0);
      }
    }
  }

  lemma FavoriteColorMissesFullNameFrom3(n: string)
    requires n == "favorite color"
    ensures forall j :: 3 <= j < 6 ==> !AliasMatches(n, FullNameAliases()[j])
  {
    var a := FullNameAliases();
    forall j | 3 <= j < 6
      ensures !AliasMatches(n, a[j])
    {
      if j == 3 {
        UnrelatedShorter(n, a[j], 1);
      } else if j == 4 {
        UnrelatedShorter(n, a[j], 1);
      } else {
        Unrelated(n, a[j], 1, 0);
      }
    }
  }

  lemma FavoriteColorMissesFullNameFrom6(n: string)
    requires n == "favorite color"
    ensures forall j :: 6 <= j < 7 ==> !AliasMatches(n, FullNameAliases()[j])
  {
    var a := FullNameAliases();
    forall j | 6 <= j < 7
      ensures !AliasMatches(n, a[j])
    {
      Unrelated(n, a[j], 2, 0);
    }
  }

  /** No alias of fullName is related to "favorite color". */
  lemma FavoriteColorMissesFullName(n: string)
    requires n == "favorite color"
    ensures !MatchesSomeAlias(n, FullNameAliases())
  {
    FavoriteColorMissesFullNameFrom0(n);
    FavoriteColorMissesFullNameFrom3(n);
    FavoriteColorMissesFullNameFrom6(n);
  }

  lemma FavoriteColorMissesEmailFrom0(n: string)
    requires n == "favorite color"
    ensures forall j :: 0 <= j < 3 ==> !AliasMatches(n, EmailAliases()[j])
  {
    var a := EmailAliases();
    forall j | 0 <= j < 3
      ensures !AliasMatches(n, a[j])
    {
      if j == 0 {
        UnrelatedShorter(n, a[j], 1);
      } else if j == 1 {
        UnrelatedShorter(n, a[j], 1);
      } else {
        UnrelatedShorter(n, a[j], 1);
      }
    }
  }

  lemma FavoriteColorMissesEmailFrom3(n: string)
    requires n == "favorite color"
    ensures forall j :: 3 <= j < 6 ==> !AliasMatches(n, EmailAliases()[j])
  {
    var a := EmailAliases();
    forall j | 3 <= j < 6
      ensures !AliasMatches(n, a[j])
    {
      if j == 3 {
        UnrelatedShorter(n, a[j], 2);
      } else if j == 4 {
        UnrelatedShorter(n, a[j], 0);
      } else {
        UnrelatedShorter(n, a[j], 0);
      }
    }
  }

  /** No alias of email is related to "favorite color". */
  lemma FavoriteColorMissesEmail(n: string)
    requires n == "favorite color"
    ensures !MatchesSomeAlias(n, EmailAliases())
  {
    FavoriteColorMissesEmailFrom0(n);
    FavoriteColorMissesEmailFrom3(n);
  }

  lemma FavoriteColorMissesPhoneFrom0(n: string)
    requires n == "favorite color"
    ensures forall j :: 0 <= j < 3 ==> !AliasMatches(n, PhoneAliases()[j])
  {
    var a := PhoneAliases();
    forall j | 0 <= j < 3
      ensures !AliasMatches(n, a[j])
    {
      if j == 0 {
        UnrelatedShorter(n, a[j], 0);
      } else if j == 1 {
        UnrelatedShorter(n, a[j], 4);
      } else {
        UnrelatedShorter(n, a[j], 0);
      }
    }
  }

  lemma FavoriteColorMissesPhoneFrom3(n: string)
    requires n == "favorite color"
    ensures forall j :: 3 <= j < 6 ==> !AliasMatches(n, PhoneAliases()[j])
  {
    var a := PhoneAliases();
    forall j | 3 <= j < 6
      ensures !AliasMatches(n, a[j])
    {
      if j == 3 {
        UnrelatedShorter(n, a[j], 0);
      } else if j == 4 {
        UnrelatedShorter(n, a[j], 2);
      } else {
        Unrelated(n, a[j], 2, 0);
      }
    }
  }

  lemma FavoriteColorMissesPhoneFrom6(n: string)
    requires n == "favorite color"
    ensures forall j :: 6 <= j < 8 ==> !AliasMatches(n, PhoneAliases()[j])
  {
    var a := PhoneAliases();
    forall j | 6 <= j < 8
      ensures !AliasMatches(n, a[j])
    {
      if j == 6 {
        UnrelatedShorter(n, a[j], 0);
      } else {
        NotContainsCell(n, a[j]);
      }
    }
  }

  /** No alias of phone is related to "favorite color". */
  lemma FavoriteColorMissesPhone(n: string)
    requires n == "favorite color"
    ensures !MatchesSomeAlias(n, PhoneAliases())
  {
    FavoriteColorMissesPhoneFrom0(n);
    FavoriteColorMissesPhoneFrom3(n);
    FavoriteColorMissesPhoneFrom6(n);
  }

  lemma FavoriteColorMissesUniversityFrom0(n: string)
    requires n == "favorite color"
    ensures forall j :: 0 <= j < 3 ==> !AliasMatches(n, UniversityAliases()[j])
  {
    var a := UniversityAliases();
    forall j | 0 <= j < 3
      ensures !AliasMatches(n, a[j])
    {
      if j == 0 {
        UnrelatedShorter(n, a[j], 0);
      } else if j == 1 {
        UnrelatedShorter(n, a[j], 5);
      } else {
        UnrelatedShorter(n, a[j], 1);
      }
    }
  }

  lemma FavoriteColorMissesUniversityFrom3(n: string)
    requires n == "favorite color"
    ensures forall j :: 3 <= j < 6 ==> !AliasMatches(n, UniversityAliases()[j])
  {
    var a := UniversityAliases();
    forall j | 3 <= j < 6
      ensures !AliasMatches(n, a[j])
    {
      if j == 3 {
        UnrelatedShorter(n, a[j], 0);
      } else if j == 4 {
        UnrelatedLonger(n, a[j], 0);
      } else {
        UnrelatedShorter(n, a[j], 2);
      }
    }
  }

  lemma FavoriteColorMissesUniversityFrom6(n: string)
    requires n == "favorite color"
    ensures forall j :: 6 <= j < 7 ==> !AliasMatches(n, UniversityAliases()[j])
  {
    var a := UniversityAliases();
    forall j | 6 <= j < 7
      ensures !AliasMatches(n, a[j])
    {
      UnrelatedLonger(n, a[j], 0);
    }
  }

  /** No alias of university is related to "favorite color". */
  lemma FavoriteColorMissesUniversity(n: string)
    requires n == "favorite color"
    ensures !MatchesSomeAlias(n, UniversityAliases())
  {
    FavoriteColorMissesUniversityFrom0(n);
    FavoriteColorMissesUniversityFrom3(n);
    FavoriteColorMissesUniversityFrom6(n);
  }

  lemma FavoriteColorMissesDepartmentFrom0(n: string)
    requires n == "favorite color"
    ensures forall j :: 0 <= j < 3 ==> !AliasMatches(n, DepartmentAliases()[j])
  {
    var a := DepartmentAliases();
    forall j | 0 <= j < 3
      ensures !AliasMatches(n, a[j])
    {
      if j == 0 {
        UnrelatedShorter(n, a[j], 0);
      } else if j == 1 {
        UnrelatedShorter(n, a[j], 0);
      } else {
        Unrelated(n, a[j], 4, 1);
      }
    }
  }

  lemma FavoriteColorMissesDepartmentFrom3(n: string)
    requires n == "favorite color"
    ensures forall j :: 3 <= j < 6 ==> !AliasMatches(n, DepartmentAliases()[j])
  {
    var a := DepartmentAliases();
    forall j | 3 <= j < 6
      ensures !AliasMatches(n, a[j])
    {
      if j == 3 {
        UnrelatedShorter(n, a[j], 0);
      } else if j == 4 {
        UnrelatedShorter(n, a[j], 0);
      } else {
        UnrelatedShorter(n, a[j], 0);
      }
    }
  }

  lemma FavoriteColorMissesDepartmentFrom6(n: string)
    requires n == "favorite color"
    ensures forall j :: 6 <= j < 9 ==> !AliasMatches(n, DepartmentAliases()[j])
  {
    var a := DepartmentAliases();
    forall j | 6 <= j < 9
      ensures !AliasMatches(n, a[j])
    {
      if j == 6 {
        Unrelated(n, a[j], 0, 0);
      } else if j == 7 {
        UnrelatedShorter(n, a[j], 0);
      } else {
        UnrelatedShorter(n, a[j], 0);
      }
    }
  }

  /** No alias of department is related to "favorite color". */
  lemma FavoriteColorMissesDepartment(n: string)
    requires n == "favorite color"
    ensures !MatchesSomeAlias(n, DepartmentAliases())
  {
    FavoriteColorMissesDepartmentFrom0(n);
    FavoriteColorMissesDepartmentFrom3(n);
    FavoriteColorMissesDepartmentFrom6(n);
  }

  lemma FavoriteColorMissesCgpaFrom0(n: string)
    requires n == "favorite color"
    ensures forall j :: 0 <= j < 3 ==> !AliasMatches(n, CgpaAliases()[j])
  {
    var a := CgpaAliases();
    forall j | 0 <= j < 3
      ensures !AliasMatches(n, a[j])
    {
      if j == 0 {
        UnrelatedShorter(n, a[j], 1);
      } else if j == 1 {
        UnrelatedShorter(n, a[j], 0);
      } else {
        UnrelatedShorter(n, a[j], 0);
      }
    }
  }

  lemma FavoriteColorMissesCgpaFrom3(n: string)
    requires n == "favorite color"
    ensures forall j :: 3 <= j < 6 ==> !AliasMatches(n, CgpaAliases()[j])
  {
    var a := CgpaAliases();
    forall j | 3 <= j < 6
      ensures !AliasMatches(n, a[j])
    {
      if j == 3 {
        UnrelatedShorter(n, a[j], 0);
      } else if j == 4 {
        UnrelatedShorter(n, a[j], 0);
      } else {
        Unrelated(n, a[j], 1, 0);
      }
    }
  }

  lemma FavoriteColorMissesCgpaFrom6(n: string)
    requires n == "favorite color"
    ensures forall j :: 6 <= j < 7 ==> !AliasMatches(n, CgpaAliases()[j])
  {
    var a := CgpaAliases();
    forall j | 6 <= j < 7
      ensures !AliasMatches(n, a[j])
    {
      Unrelated(n, a[j], 3, 0);
    }
  }

  /** No alias of cgpa is related to "favorite color". */
  lemma FavoriteColorMissesCgpa(n: string)
    requires n == "favorite color"
    ensures !MatchesSomeAlias(n, CgpaAliases())
  {
    FavoriteColorMissesCgpaFrom0(n);
    FavoriteColorMissesCgpaFrom3(n);
    FavoriteColorMissesCgpaFrom6(n);
  }

  lemma FavoriteColorMissesGraduationYearFrom0(n: string)
    requires n == "favorite color"
    ensures forall j :: 0 <= j < 3 ==> !AliasMatches(n, GraduationYearAliases()[j])
  {
    var a := GraduationYearAliases();
    forall j | 0 <= j < 3
      ensures !AliasMatches(n, a[j])
    {
      if j == 0 {
        UnrelatedShorter(n, a[j], 0);
      } else if j == 1 {
        UnrelatedShorter(n, a[j], 0);
      } else {
        UnrelatedLonger(n, a[j], 0);
      }
    }
  }

  lemma FavoriteColorMissesGraduationYearFrom3(n: string)
    requires n == "favorite color"
    ensures forall j :: 3 <= j < 6 ==> !AliasMatches(n, GraduationYearAliases()[j])
  {
    var a := GraduationYearAliases();
    forall j | 3 <= j < 6
      ensures !AliasMatches(n, a[j])
    {
      if j == 3 {
        UnrelatedShorter(n, a[j], 0);
      } else if j == 4 {
        UnrelatedLonger(n, a[j], 0);
      } else {
        UnrelatedShorter(n, a[j], 0);
      }
    }
  }

  lemma FavoriteColorMissesGraduationYearFrom6(n: string)
    requires n == "favorite color"
    ensures forall j :: 6 <= j < 7 ==> !AliasMatches(n, GraduationYearAliases()[j])
  {
    var a := GraduationYearAliases();
    forall j | 6 <= j < 7
      ensures !AliasMatches(n, a[j])
    {
      UnrelatedLonger(n, a[j], 2);
    }
  }

  /** No alias of graduationYear is related to "favorite color". */
  lemma FavoriteColorMissesGraduationYear(n: string)
    requires n == "favorite color"
    ensures !MatchesSomeAlias(n, GraduationYearAliases())
  {
    FavoriteColorMissesGraduationYearFrom0(n);
    FavoriteColorMissesGraduationYearFrom3(n);
    FavoriteColorMissesGraduationYearFrom6(n);
  }

  lemma FavoriteColorMissesAddressFrom0(n: string)
    requires n == "favorite color"
    ensures forall j :: 0 <= j < 3 ==> !AliasMatches(n, AddressAliases()[j])
  {
    var a := AddressAliases();
    forall j | 0 <= j < 3
      ensures !AliasMatches(n, a[j])
    {
      if j == 0 {
        UnrelatedShorter(n, a[j], 1);
      } else if j == 1 {
        UnrelatedShorter(n, a[j], 7);
      } else {
        UnrelatedShorter(n, a[j], 2);
      }
    }
  }

  lemma FavoriteColorMissesAddressFrom3(n: string)
    requires n == "favorite color"
    ensures forall j :: 3 <= j < 6 ==> !AliasMatches(n, AddressAliases()[j])
  {
    var a := AddressAliases();
    forall j | 3 <= j < 6
      ensures !AliasMatches(n, a[j])
    {
      if j == 3 {
        UnrelatedShorter(n, a[j], 0);
      } else if j == 4 {
        UnrelatedShorter(n, a[j], 1);
      } else {
        Unrelated(n, a[j], 0, 0);
      }
    }
  }

  lemma FavoriteColorMissesAddressFrom6(n: string)
    requires n == "favorite color"
    ensures forall j :: 6 <= j < 7 ==> !AliasMatches(n, AddressAliases()[j])
  {
    var a := AddressAliases();
    forall j | 6 <= j < 7
      ensures !AliasMatches(n, a[j])
    {
      UnrelatedLonger(n, a[j], 0);
    }
  }

  /** No alias of address is related to "favorite color". */
  lemma FavoriteColorMissesAddress(n: string)
    requires n == "favorite color"
    ensures !MatchesSomeAlias(n, AddressAliases())
  {
    FavoriteColorMissesAddressFrom0(n);
    FavoriteColorMissesAddressFrom3(n);
    FavoriteColorMissesAddressFrom6(n);
  }

  lemma FavoriteColorMissesLinkedInFrom0(n: string)
    requires n == "favorite color"
    ensures forall j :: 0 <= j < 3 ==> !AliasMatches(n, LinkedInAliases()[j])
  {
    var a := LinkedInAliases();
    forall j | 0 <= j < 3
      ensures !AliasMatches(n, a[j])
    {
      if j == 0 {
        UnrelatedShorter(n, a[j], 2);
      } else if j == 1 {
        UnrelatedShorter(n, a[j], 2);
      } else {
        UnrelatedLonger(n, a[j], 1);
      }
    }
  }

  lemma FavoriteColorMissesLinkedInFrom3(n: string)
    requires n == "favorite color"
    ensures forall j :: 3 <= j < 4 ==> !AliasMatches(n, LinkedInAliases()[j])
  {
    var a := LinkedInAliases();
    forall j | 3 <= j < 4
      ensures !AliasMatches(n, a[j])
    {
      UnrelatedShorter(n, a[j], 2);
    }
  }

  /** No alias of linkedIn is related to "favorite color". */
  lemma FavoriteColorMissesLinkedIn(n: string)
    requires n == "favorite color"
    ensures !MatchesSomeAlias(n, LinkedInAliases())
  {
    FavoriteColorMissesLinkedInFrom0(n);
    FavoriteColorMissesLinkedInFrom3(n);
  }

  lemma FavoriteColorMissesGithubFrom0(n: string)
    requires n == "favorite color"
    ensures forall j :: 0 <= j < 3 ==> !AliasMatches(n, GithubAliases()[j])
  {
    var a := GithubAliases();
    forall j | 0 <= j < 3
      ensures !AliasMatches(n, a[j])
    {
      if j == 0 {
        UnrelatedShorter(n, a[j], 0);
      } else if j == 1 {
        UnrelatedShorter(n, a[j], 0);
      } else {
        Unrelated(n, a[j], 0, 1);
      }
    }
  }

  lemma FavoriteColorMissesGithubFrom3(n: string)
    requires n == "favorite color"
    ensures forall j :: 3 <= j < 4 ==> !AliasMatches(n, GithubAliases()[j])
  {
    var a := GithubAliases();
    forall j | 3 <= j < 4
      ensures !AliasMatches(n, a[j])
    {
      UnrelatedShorter(n, a[j], 0);
    }
  }

  /** No alias of github is related to "favorite color". */
  lemma FavoriteColorMissesGithub(n: string)
    requires n == "favorite color"
    ensures !MatchesSomeAlias(n, GithubAliases())
  {
    FavoriteColorMissesGithubFrom0(n);
    FavoriteColorMissesGithubFrom3(n);
  }

  // ---------------------------------------------------------------------------
  // Normal forms of the labels used below

  lemma WordYear(w: string)
    requires w == "Year"
    ensures w != [] && Alphanumeric(w) && ToLower(w) == "year"
  {
  }

  lemma WordBuilt(w: string)
    requires w == "Built"
    ensures w != [] && Alphanumeric(w) && ToLower(w) == "built"
  {
  }

  lemma WordFull(w: string)
    requires w == "Full"
    ensures w != [] && Alphanumeric(w) && ToLower(w) == "full"
  {
  }

  lemma WordName(w: string)
    requires w == "Name"
    ensures w != [] && Alphanumeric(w) && ToLower(w) == "name"
  {
  }

  lemma WordEmail(w: string)
    requires w == "Email"
    ensures w != [] && Alphanumeric(w) && ToLower(w) == "email"
  {
  }

  lemma WordAddress(w: string)
    requires w == "Address"
    ensures w != [] && Alphanumeric(w) && ToLower(w) == "address"
  {
  }

  lemma WordFavorite(w: string)
    requires w == "Favorite"
    ensures w != [] && Alphanumeric(w) && ToLower(w) == "favorite"
  {
  }

  lemma WordColor(w: string)
    requires w == "Color"
    ensures w != [] && Alphanumeric(w) && ToLower(w) == "color"
  {
  }

  lemma NormalizeYearBuilt(t: string)
    requires t == "Year Built"
    ensures Normalize(t) == "year built"
  {
    var a, b := t[..4], t[5..];
    assert t == a + [' '] + b;
    assert Normalize(t) == ToLower(a) + " " + ToLower(b) by {
      WordYear(a);
      WordBuilt(b);
      NormalizeTwoWords(a, ' ', b);
    }
    WordYear(a);
    WordBuilt(b);
  }

  lemma NormalizeFullName(t: string)
    requires t == "Full Name"
    ensures Normalize(t) == "full name"
  {
    var a, b := t[..4], t[5..];
    assert t == a + [' '] + b;
    assert Normalize(t) == ToLower(a) + " " + ToLower(b) by {
      WordFull(a);
      WordName(b);
      NormalizeTwoWords(a, ' ', b);
    }
    WordFull(a);
    WordName(b);
  }

  lemma NormalizeEmailAddress(t: string)
    requires t == "Email Address"
    ensures Normalize(t) == "email address"
  {
    var a, b := t[..5], t[6..];
    assert t == a + [' '] + b;
    assert Normalize(t) == ToLower(a) + " " + ToLower(b) by {
      WordEmail(a);
      WordAddress(b);
      NormalizeTwoWords(a, ' ', b);
    }
    WordEmail(a);
    WordAddress(b);
  }

  lemma NormalizeFavoriteColor(t: string)
    requires t == "Favorite Color"
    ensures Normalize(t) == "favorite color"
  {
    var a, b := t[..8], t[9..];
    assert t == a + [' '] + b;
    assert Normalize(t) == ToLower(a) + " " + ToLower(b) by {
      WordFavorite(a);
      WordColor(b);
      NormalizeTwoWords(a, ' ', b);
    }
    WordFavorite(a);
    WordColor(b);
  }

  // ---------------------------------------------------------------------------
  // "Year Built"

  /** The alias "year" occurs in "year built". */
  lemma YearBuiltHasYear(n: string)
    requires n == "year built"
    ensures MatchesSomeAlias(n, GraduationYearAliases())
  {
    var a := GraduationYearAliases();
    assert n[..|a[1]|] == a[1];
    assert AliasMatches(n, a[1]);
  }

  /** In a table that starts with the built-in entries, graduationYear is the first key related to "year built". */
  lemma YearBuiltFirstInStandard(n: string, m: Mappings)
    requires n == "year built"
    requires |m| >= 7 && m[0].aliases == FullNameAliases() && m[1].aliases == EmailAliases() &&
      m[2].aliases == PhoneAliases() && m[3].aliases == UniversityAliases() &&
      m[4].aliases == DepartmentAliases() && m[5].aliases == CgpaAliases() &&
      m[6].aliases == GraduationYearAliases()
    ensures IsFirstMatch(n, m, 6)
  {
    forall j | 0 <= j < 6
      ensures !MatchesSomeAlias(n, m[j].aliases)
    {
      if j == 0 {
        YearBuiltMissesFullName(n);
      } else if j == 1 {
        YearBuiltMissesEmail(n);
      } else if j == 2 {
        YearBuiltMissesPhone(n);
      } else if j == 3 {
        YearBuiltMissesUniversity(n);
      } else if j == 4 {
        YearBuiltMissesDepartment(n);
      } else {
        YearBuiltMissesCgpa(n);
      }
    }
    YearBuiltHasYear(n);
  }

  /**
   * "Year Built" is recognised as the graduation year: no alias of the six keys before
   * it is related to "year built", and the alias "year" occurs in it. Custom fields do
   * not change this unless one of them replaces one of those seven keys.
   */
  lemma YearBuiltMatchesGraduationYear(t: string, fields: seq<CustomField>)
    requires t == "Year Built"
    requires forall i :: 0 <= i < 7 ==> StandardKeys[i] !in Names(fields)
    ensures MatchField(t, Table(fields)) == Some("graduationYear")
  {
    var n := Normalize(t);
    NormalizeYearBuilt(t);
    var m := Table(fields);
    var std := StandardMappings();
    forall i | 0 <= i <= 6
      ensures m[i] == std[i]
    {
      assert m[i].key == StandardKeys[i];
    }
    StandardAliases();
    YearBuiltFirstInStandard(n, std);
    SamePrefixSameMatch(n, std, m, 6);
  }

  // ---------------------------------------------------------------------------
  // A generic page with three placeholders

  /** A control whose only hint is its placeholder. */
  function Placeholder(p: string): Control {
    Control(None, p, "", "", "", None)
  }

  /** The table the engine searches when there are no custom fields. */
  lemma NoCustomFieldsTable()
    ensures var m := Table([]);
      |m| == 10 && m[0].key == "fullName" && m[1].key == "email" &&
      m[0].aliases == FullNameAliases() && m[1].aliases == EmailAliases() && m[2].aliases == PhoneAliases() &&
      m[3].aliases == UniversityAliases() && m[4].aliases == DepartmentAliases() && m[5].aliases == CgpaAliases() &&
      m[6].aliases == GraduationYearAliases() && m[7].aliases == AddressAliases() &&
      m[8].aliases == LinkedInAliases() && m[9].aliases == GithubAliases()
  {
    assert Table([]) == StandardMappings();
    StandardAliases();
  }

  /** A text that starts with one of the aliases matches the list. */
  lemma PrefixHit(n: string, a: seq<string>, j: int)
    requires 0 <= j < |a| && |a[j]| <= |n| && n[..|a[j]|] == a[j]
    ensures MatchesSomeAlias(n, a)
  {
    assert AliasMatches(n, a[j]);
  }

  lemma FullNameFirst(n: string, m: Mappings)
    requires n == "full name" && |m| >= 1 && m[0].aliases == FullNameAliases()
    ensures IsFirstMatch(n, m, 0)
  {
    assert MatchesSomeAlias(n, m[0].aliases) by {
      var a := FullNameAliases();
      assert a[0] == "full name";
      PrefixHit(n, a, 0);
    }
  }

  lemma EmailAddressFirst(n: string, m: Mappings)
    requires n == "email address" && |m| >= 2 && m[0].aliases == FullNameAliases() && m[1].aliases == EmailAliases()
    ensures IsFirstMatch(n, m, 1)
  {
    assert !MatchesSomeAlias(n, m[0].aliases) by {
      EmailAddressMissesFullName(n);
    }
    assert MatchesSomeAlias(n, m[1].aliases) by {
      var a := EmailAliases();
      assert a[0] == "email";
      assert n[..5] == "email";
      PrefixHit(n, a, 0);
    }
  }

  lemma FavoriteColorNotInFirstFive(n: string, m: Mappings)
    requires n == "favorite color"
    requires |m| >= 5 && m[0].aliases == FullNameAliases() && m[1].aliases == EmailAliases() &&
      m[2].aliases == PhoneAliases() && m[3].aliases == UniversityAliases() &&
      m[4].aliases == DepartmentAliases()
    ensures forall j :: 0 <= j < 5 ==> !MatchesSomeAlias(n, m[j].aliases)
  {
    forall j | 0 <= j < 5
      ensures !MatchesSomeAlias(n, m[j].aliases)
    {
      if j == 0 {
        FavoriteColorMissesFullName(n);
      } else if j == 1 {
        FavoriteColorMissesEmail(n);
      } else if j == 2 {
        FavoriteColorMissesPhone(n);
      } else if j == 3 {
        FavoriteColorMissesUniversity(n);
      } else {
        FavoriteColorMissesDepartment(n);
      }
    }
  }

  lemma FavoriteColorNotInLastFive(n: string, m: Mappings)
    requires n == "favorite color"
    requires |m| >= 10 && m[5].aliases == CgpaAliases() && m[6].aliases == GraduationYearAliases() &&
      m[7].aliases == AddressAliases() && m[8].aliases == LinkedInAliases() && m[9].aliases == GithubAliases()
    ensures forall j :: 5 <= j < 10 ==> !MatchesSomeAlias(n, m[j].aliases)
  {
    forall j | 5 <= j < 10
      ensures !MatchesSomeAlias(n, m[j].aliases)
    {
      if j == 5 {
        FavoriteColorMissesCgpa(n);
      } else if j == 6 {
        FavoriteColorMissesGraduationYear(n);
      } else if j == 7 {
        FavoriteColorMissesAddress(n);
      } else if j == 8 {
        FavoriteColorMissesLinkedIn(n);
      } else {
        FavoriteColorMissesGithub(n);
      }
    }
  }

  /** A control with only a placeholder is recognised by the placeholder alone. */
  lemma PlaceholderKey(p: string, m: Mappings)
    requires p != ""
    ensures FieldKey(false, Placeholder(p), m) == if Found(MatchField(p, m)) then MatchField(p, m) else None
  {
    assert GenericSources(Placeholder(p)) == [p];
    assert Results([p], m) == [MatchField(p, m)];
    assert Results([p], m)[1..] == [];
  }

  /** A recognised placeholder with a truthy profile value is filled with that value. */
  lemma PlaceholderFilled(p: string, m: Mappings, profile: map<string, string>, k: string)
    requires p != "" && MatchField(p, m) == Some(k) && k != ""
    requires k in profile && profile[k] != ""
    ensures OutcomeOf(false, Placeholder(p), m, profile, []) == Filled(k, profile[k])
  {
    PlaceholderKey(p, m);
  }

  /** An unrecognised placeholder is skipped. */
  lemma PlaceholderSkipped(p: string, m: Mappings, profile: map<string, string>)
    requires p != "" && MatchField(p, m) == None
    ensures OutcomeOf(false, Placeholder(p), m, profile, []) == Skipped
  {
    PlaceholderKey(p, m);
  }

  lemma FullNameMatch(t: string, m: Mappings)
    requires t == "Full Name" && |m| >= 1 && m[0].key == "fullName" && m[0].aliases == FullNameAliases()
    ensures MatchField(t, m) == Some("fullName")
  {
    NormalizeFullName(t);
    FullNameFirst(Normalize(t), m);
    FirstMatchIsFirst(Normalize(t), m, "fullName");
  }

  lemma EmailAddressMatch(t: string, m: Mappings)
    requires t == "Email Address" && |m| >= 2 && m[1].key == "email"
    requires m[0].aliases == FullNameAliases() && m[1].aliases == EmailAliases()
    ensures MatchField(t, m) == Some("email")
  {
    NormalizeEmailAddress(t);
    EmailAddressFirst(Normalize(t), m);
    FirstMatchIsFirst(Normalize(t), m, "email");
  }

  lemma FavoriteColorMatch(t: string, m: Mappings)
    requires t == "Favorite Color" && |m| == 10
    requires m[0].aliases == FullNameAliases() && m[1].aliases == EmailAliases() && m[2].aliases == PhoneAliases() &&
      m[3].aliases == UniversityAliases() && m[4].aliases == DepartmentAliases() && m[5].aliases == CgpaAliases() &&
      m[6].aliases == GraduationYearAliases() && m[7].aliases == AddressAliases() &&
      m[8].aliases == LinkedInAliases() && m[9].aliases == GithubAliases()
    ensures MatchField(t, m) == None
  {
    NormalizeFavoriteColor(t);
    FavoriteColorNotInFirstFive(Normalize(t), m);
    FavoriteColorNotInLastFive(Normalize(t), m);
  }

  /** The three outcomes of the page, with no custom fields. */
  lemma ThreePlaceholderOutcomes(inputs: seq<Control>, profile: map<string, string>)
    requires profile == map["fullName" := "Jane Doe", "email" := "jane@x.com"]
    requires inputs == [Placeholder("Full Name"), Placeholder("Email Address"), Placeholder("Favorite Color")]
    ensures var outs := Outcomes(false, inputs, profile, []);
      |outs| == 3 && outs[0] == Filled("fullName", "Jane Doe") && outs[1] == Filled("email", "jane@x.com") &&
      outs[2] == Skipped
  {
    var m := Table([]);
    NoCustomFieldsTable();
    assert OutcomeOf(false, inputs[0], m, profile, []) == Filled("fullName", "Jane Doe") by {
      FullNameMatch("Full Name", m);
      PlaceholderFilled("Full Name", m, profile, "fullName");
    }
    assert OutcomeOf(false, inputs[1], m, profile, []) == Filled("email", "jane@x.com") by {
      EmailAddressMatch("Email Address", m);
      PlaceholderFilled("Email Address", m, profile, "email");
    }
    assert OutcomeOf(false, inputs[2], m, profile, []) == Skipped by {
      FavoriteColorMatch("Favorite Color", m);
      PlaceholderSkipped("Favorite Color", m, profile);
    }
  }

  /**
   * The page with placeholders "Full Name", "Email Address" and "Favorite Color" and the
   * profile with only a full name and an e-mail address: the first two controls are
   * filled with those values and the third is left alone, for a count of 2.
   */
  lemma ThreePlaceholderPage(inputs: seq<Control>, profile: map<string, string>)
    requires profile == map["fullName" := "Jane Doe", "email" := "jane@x.com"]
    requires inputs == [Placeholder("Full Name"), Placeholder("Email Address"), Placeholder("Favorite Color")]
    ensures Count(Outcomes(false, inputs, profile, [])) == 2
    ensures WriteLog(Outcomes(false, inputs, profile, [])) == [Write(0, "Jane Doe"), Write(1, "jane@x.com")]
  {
    ThreePlaceholderOutcomes(inputs, profile);
    PageCount(Outcomes(false, inputs, profile, []));
  }

  lemma PageCount(outs: seq<Outcome>)
    requires |outs| == 3 && outs[0] == Filled("fullName", "Jane Doe") && outs[1] == Filled("email", "jane@x.com")
    requires outs[2] == Skipped
    ensures Count(outs) == 2
    ensures WriteLog(outs) == [Write(0, "Jane Doe"), Write(1, "jane@x.com")]
  {
    CountWriteLogStep(outs, 0);
    CountWriteLogStep(outs, 1);
    CountWriteLogStep(outs, 2);
    assert outs[..0] == [];
    assert outs[..3] == outs;
  }

  /** Custom keys follow the built-in ones in the order the fields were saved. */
  lemma CustomKeysInSavedOrder(fields: seq<CustomField>)
    requires Names(fields) == ["skill", "skills"]
    ensures Keys(Table(fields)) == StandardKeys + ["skill", "skills"]
  {
    var skill, skills := "skill", "skills";
    var ns := Names(fields);
    assert ns == [skill] + [skills];
    assert skill !in StandardKeys && skills !in StandardKeys && skills != skill;
    assert NewNames(StandardKeys, ns) == [skill, skills] by {
      NewNamesSnoc(StandardKeys, [], skill);
      assert [] + [skill] == [skill];
      NewNamesSnoc(StandardKeys, [skill], skills);
    }
    assert Keys(Table(fields)) == StandardKeys + NewNames(StandardKeys, ns);
  }

  /** A field named like a built-in key adds no key, and a repeated name adds its key once. */
  lemma OverrideAndRepeatAddOneKey(fields: seq<CustomField>)
    requires Names(fields) == ["email", "skill", "skill"]
    ensures Keys(Table(fields)) == StandardKeys + ["skill"]
  {
    var email, skill := "email", "skill";
    var ns := Names(fields);
    assert ns == [email] + [skill] + [skill];
    assert email in StandardKeys && skill !in StandardKeys;
    assert NewNames(StandardKeys, ns) == [skill] by {
      NewNamesSnoc(StandardKeys, [], email);
      assert [] + [email] == [email];
      NewNamesSnoc(StandardKeys, [email], skill);
      assert [email] + [skill] == [email, skill];
      NewNamesSnoc(StandardKeys, [email, skill], skill);
    }
  }

  /** A field named "email" replaces the built-in email entry in place with its own alias. */
  lemma OverrideKeepsPlace(fields: seq<CustomField>)
    requires |fields| > 0 && fields[0].name == "email"
    ensures Table(fields)[1] == Entry("email", ["email"])
  {
    var email := "email";
    assert email in Names(fields) by {
      assert Names(fields)[0] == email;
    }
    assert StandardKeys[1] == email;
    OverriddenEntry(fields, 1, email);
    LowerEmail(email);
  }

  /** A built-in key that is also a custom name keeps its place with the custom alias. */
  lemma OverriddenEntry(fields: seq<CustomField>, i: int, k: string)
    requires 0 <= i < |StandardKeys| && StandardKeys[i] == k && k in Names(fields)
    ensures Table(fields)[i] == Entry(k, [ToLower(k)])
  {
  }

  lemma LowerEmail(w: string)
    requires w == "email"
    ensures ToLower(w) == w
  {
  }
}
