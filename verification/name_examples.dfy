/**
  The name cleanup on the two shapes of given name that matter: a one-word
  given name followed by the surname after one space, and after two.
 */
module NameExamples {
  import opened Cars
  import opened Names

  /** A non-empty word without spaces. */
  predicate Word(s: string) {
    |s| > 0 && forall k :: 0 <= k < |s| ==> s[k] != ' '
  }

  /** A given name followed by one space and the surname is deleted down to the given name. */
  lemma {:induction false} RemoveSurnameAfterOneSpace(given: string, surname: string)
    requires Word(given) && |surname| > 0
    ensures RemoveAll(given + " " + surname, " " + surname) == given
  {
    var pat := " " + surname;
    RemoveAllAtStart([], pat);
    assert pat + [] == pat;
    RemoveAllKeepsPrefix(given, pat, pat);
    assert given + " " + surname == given + pat;
    assert given + [] == given;
  }

  /** With two spaces before the surname, the first space is left behind. */
  lemma {:induction false} RemoveSurnameAfterTwoSpaces(given: string, surname: string)
    requires Word(given) && |surname| > 0 && surname[0] != ' '
    ensures RemoveAll(given + "  " + surname, " " + surname) == given + " "
  {
    var pat := " " + surname;
    var s := " " + pat;
    assert s[..|pat|] != pat by {
      assert s[1] == ' ' && pat[1] == surname[0];
    }
    RemoveAllNoMatchAtStart(s, pat);
    assert s[1..] == pat + [];
    RemoveAllAtStart([], pat);
    RemoveAllKeepsPrefix(given, s, pat);
    assert given + "  " + surname == given + s;
  }

  /** "Jane Doe" with surname "Doe" becomes "Jane": a one-word given name loses the surname. */
  lemma {:induction false} GivenNameLosesSurname(car: Car, given: string)
    requires Word(given) && Trimmed(car.surname) && |car.surname| > 0
    requires car.name == given + " " + car.surname
    ensures FormatName(car).name == given
    ensures FormatName(car).surname == car.surname
  {
    var name := car.name;
    assert name[0] == given[0] && name[|name| - 1] == car.surname[|car.surname| - 1];
    FormatNameOfTrimmed(car);
    StripTrimmed(car.surname);
    RemoveSurnameAfterOneSpace(given, car.surname);
  }

  /**
    Trimming happens before the surname is deleted, so a double space before
    the surname leaves a trailing space: "Jane  Doe" becomes "Jane ".
   */
  lemma {:induction false} GivenNameCanEndInSpace(car: Car, given: string)
    requires Word(given) && Trimmed(car.surname) && |car.surname| > 0
    requires car.name == given + "  " + car.surname
    ensures FormatName(car).name == given + " "
  {
    var name := car.name;
    assert name[0] == given[0] && name[|name| - 1] == car.surname[|car.surname| - 1];
    FormatNameOfTrimmed(car);
    RemoveSurnameAfterTwoSpaces(given, car.surname);
  }
}
