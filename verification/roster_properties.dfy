/**
 Properties that relate several calls of the roster operations: what a
 successful add makes of the next duplicate check, why an edit that
 resubmits the selected row is refused, and which roster invariants the
 operations keep.
 */
module RosterProperties {
  import opened JavaInt
  import opened JavaStr
  import opened Modelos
  import opened Validation
  import opened Roster

  /** Text that `Integer.parseInt` accepts has no padding: its first
      character is a sign or a digit and its last a digit. */
  lemma ParsedTextIsTrimmed(s: string)
    requires ParseInt(s).Some?
    ensures IsTrimmed(s) && Trim(s) == s
  {
    var digits := if s[0] == '-' || s[0] == '+' then s[1..] else s;
    assert s[|s| - 1] == digits[|digits| - 1];
    TrimIdempotent(s);
  }

  /** A form that validation accepts and whose raw age text parses: that
      text is unpadded, so its value is the one validation found in 1..100. */
  lemma ParsedValidAgeInRange(f: Form)
    requires ValidForm(f) && ParseInt(f.edad).Some?
    ensures 1 <= ParseInt(f.edad).value <= 100
  {
    ParsedTextIsTrimmed(f.edad);
  }

  /** Whatever `Add` stores has an age in 1..100. */
  lemma AddStoresAgeInRange(roster: seq<Persona>, f: Form)
    requires Add(roster, f).outcome == Done
    ensures IsTrimmed(f.edad)
    ensures 1 <= Add(roster, f).roster[|roster|].edad <= 100
  {
    ParsedTextIsTrimmed(f.edad);
    ParsedValidAgeInRange(f);
  }

  /** Every row has an age the form accepts. */
  ghost predicate AgesInRange(roster: seq<Persona>) {
    forall i :: 0 <= i < |roster| ==> 1 <= roster[i].edad <= 100
  }

  /** Overwriting one row with a row whose age is in range keeps every age in range. */
  lemma AgesInRangeAfterWrite(roster: seq<Persona>, r: seq<Persona>, index: nat)
    requires AgesInRange(roster) && |r| == |roster| && index < |r|
    requires forall i :: 0 <= i < |r| && i != index ==> r[i] == roster[i]
    requires 1 <= r[index].edad <= 100
    ensures AgesInRange(r)
  {
  }

  /** Appending a row whose age is in range keeps every age in range. */
  lemma AgesInRangeAfterAppend(roster: seq<Persona>, r: seq<Persona>)
    requires AgesInRange(roster) && |r| == |roster| + 1 && r[..|roster|] == roster
    requires 1 <= r[|roster|].edad <= 100
    ensures AgesInRange(r)
  {
    assert forall i :: 0 <= i < |roster| ==> r[i] == r[..|roster|][i];
  }

  /** `Add` never stores an age outside 1..100. */
  lemma AddKeepsAgesInRange(roster: seq<Persona>, f: Form)
    requires AgesInRange(roster)
    ensures AgesInRange(Add(roster, f).roster)
  {
    var a := Add(roster, f);
    if a.outcome == Done {
      AddStoresAgeInRange(roster, f);
      AgesInRangeAfterAppend(roster, a.roster);
    }
  }

  /** `Remove` keeps only ages that were already there. */
  lemma RemoveKeepsAgesInRange(roster: seq<Persona>, index: int)
    requires AgesInRange(roster)
    ensures AgesInRange(Remove(roster, index).roster)
  {
  }

  /** `Update` never stores an age outside 1..100: on success the age text
      parsed, so it was unpadded and validation checked its range; when the
      parse throws the row keeps its old age. */
  lemma UpdateKeepsAgesInRange(roster: seq<Persona>, index: int, f: Form)
    requires AgesInRange(roster)
    ensures AgesInRange(Update(roster, index, f).roster)
  {
    var u := Update(roster, index, f);
    if u.outcome == Done {
      ParsedValidAgeInRange(f);
      AgesInRangeAfterWrite(roster, u.roster, index);
    } else if u.outcome == NumberFormatException && u.roster != roster {
      AgesInRangeAfterWrite(roster, u.roster, index);
    }
  }

  /** A successful add makes the next duplicate check find the new row for
      any form whose trimmed names equal the stored ones ignoring case and
      whose age text is the same: adding that form is then refused, and it
      throws nothing. */
  lemma AddThenRepeated(roster: seq<Persona>, f: Form, g: Form)
    requires Add(roster, f).outcome == Done
    requires EqualsIgnoreCase(f.nombre, Trim(g.nombre)) && EqualsIgnoreCase(f.apellidos, Trim(g.apellidos))
    requires g.edad == f.edad
    ensures IsRepeated(Add(roster, f).roster, g) == Returned(true)
    ensures ValidForm(g) ==> Add(Add(roster, f).roster, g) == Step(Add(roster, f).roster, Repeated)
  {
    var r := Add(roster, f).roster;
    assert NamesMatch(r[|roster|], g);
    assert HasNameMatch(r, g) && HasDuplicate(r, g);
  }

  /** The same form, when its names carry no padding, is a duplicate of the
      row it just added. */
  lemma AddSameFormTwice(roster: seq<Persona>, f: Form)
    requires Add(roster, f).outcome == Done
    requires IsTrimmed(f.nombre) && IsTrimmed(f.apellidos)
    ensures Add(Add(roster, f).roster, f) == Step(Add(roster, f).roster, Repeated)
  {
    TrimIdempotent(f.nombre);
    TrimIdempotent(f.apellidos);
    EqualsIgnoreCaseIsEquivalence(f.nombre, f.nombre, f.nombre);
    EqualsIgnoreCaseIsEquivalence(f.apellidos, f.apellidos, f.apellidos);
    AddThenRepeated(roster, f, f);
  }

  /** Appending a row whose names do not match the form adds no duplicate. */
  lemma NoDuplicateAfterAppend(roster: seq<Persona>, p: Persona, f: Form)
    requires !HasDuplicate(roster, f) && !NamesMatch(p, f)
    ensures !HasDuplicate(roster + [p], f)
  {
    var r := roster + [p];
    forall i | 0 <= i < |r| ensures !(NamesMatch(r[i], f) && ParseInt(f.edad) == Some(r[i].edad)) {
      if i < |roster| {
        assert r[i] == roster[i];
      }
    }
  }

  /** The stored name is compared untrimmed: when the name has padding, the
      row an add stores never matches the same form again, and adding that
      form a second time succeeds. */
  lemma PaddedNameAddedTwice(roster: seq<Persona>, f: Form)
    requires Add(roster, f).outcome == Done
    requires !IsTrimmed(f.nombre)
    ensures Add(Add(roster, f).roster, f).outcome == Done
    ensures |Add(Add(roster, f).roster, f).roster| == |roster| + 2
  {
    var r := Add(roster, f).roster;
    var p := r[|roster|];
    TrimIdempotent(f.nombre);
    assert !NamesMatch(p, f);
    assert r == roster + [p];
    NoDuplicateAfterAppend(roster, p, f);
  }

  /** Selecting a row fills the form with its name, surnames and
      `String.valueOf` of its age. Submitting that as an edit is always
      refused as a duplicate of the row itself, when its strings are unpadded. */
  lemma OwnValuesRejected(roster: seq<Persona>, index: int)
    requires 0 <= index < |roster|
    requires IsTrimmed(roster[index].nombre) && IsTrimmed(roster[index].apellidos)
    ensures var p := roster[index];
      Update(roster, index, Form(p.nombre, p.apellidos, IntToString(p.edad))) == Step(roster, Repeated)
  {
    var p := roster[index];
    var f := Form(p.nombre, p.apellidos, IntToString(p.edad));
    ParseIntOfToString(p.edad);
    TrimIdempotent(p.nombre);
    TrimIdempotent(p.apellidos);
    EqualsIgnoreCaseIsEquivalence(p.nombre, p.nombre, p.nombre);
    EqualsIgnoreCaseIsEquivalence(p.apellidos, p.apellidos, p.apellidos);
    assert NamesMatch(roster[index], f);
    assert HasDuplicate(roster, f);
  }

  /** Row `q` would make `Add` refuse the raw values of row `p` as a duplicate. */
  predicate Blocks(q: Persona, p: Persona) {
    && EqualsIgnoreCase(q.nombre, Trim(p.nombre))
    && EqualsIgnoreCase(q.apellidos, Trim(p.apellidos))
    && q.edad == p.edad
  }

  /** The uniqueness the duplicate check does keep: no row would have blocked
      adding any row after it. */
  ghost predicate NoRowBlocksALater(roster: seq<Persona>) {
    forall i, j :: 0 <= i < j < |roster| ==> !Blocks(roster[i], roster[j])
  }

  /** `Add` keeps `NoRowBlocksALater`. */
  lemma AddKeepsNoBlocking(roster: seq<Persona>, f: Form)
    requires NoRowBlocksALater(roster)
    ensures NoRowBlocksALater(Add(roster, f).roster)
  {
    var s := Add(roster, f);
    if s.outcome == Done {
      var r := s.roster;
      forall i, j | 0 <= i < j < |r| ensures !Blocks(r[i], r[j]) {
        if j == |roster| {
          assert r[i] == roster[i];
        } else {
          assert r[i] == roster[i] && r[j] == roster[j];
        }
      }
    }
  }

  /** `Remove` keeps `NoRowBlocksALater`. */
  lemma RemoveKeepsNoBlocking(roster: seq<Persona>, index: int)
    requires NoRowBlocksALater(roster)
    ensures NoRowBlocksALater(Remove(roster, index).roster)
  {
    var r := Remove(roster, index).roster;
    if 0 <= index < |roster| {
      forall i, j | 0 <= i < j < |r| ensures !Blocks(r[i], r[j]) {
        var i' := if i < index then i else i + 1;
        var j' := if j < index then j else j + 1;
        assert r[i] == roster[i'] && r[j] == roster[j'];
      }
    }
  }

  /** When every stored name and surname is unpadded, `NoRowBlocksALater`
      is full uniqueness: no two rows have case-insensitively equal names and
      surnames and equal ages. */
  lemma UnpaddedRosterHasNoDuplicates(roster: seq<Persona>)
    requires NoRowBlocksALater(roster)
    requires forall i :: 0 <= i < |roster| ==> IsTrimmed(roster[i].nombre) && IsTrimmed(roster[i].apellidos)
    ensures forall i, j :: 0 <= i < |roster| && 0 <= j < |roster| && i != j ==> !Blocks(roster[i], roster[j])
  {
    forall i, j | 0 <= i < |roster| && 0 <= j < |roster| && i != j
      ensures !Blocks(roster[i], roster[j])
    {
      var p, q := roster[i], roster[j];
      TrimIdempotent(p.nombre);
      TrimIdempotent(p.apellidos);
      TrimIdempotent(q.nombre);
      TrimIdempotent(q.apellidos);
      EqualsIgnoreCaseIsEquivalence(p.nombre, q.nombre, p.nombre);
      EqualsIgnoreCaseIsEquivalence(p.apellidos, q.apellidos, p.apellidos);
      if j < i {
        assert !Blocks(q, p);
      }
    }
  }

  /** The Ana/Lopez texts of the examples below: their trims, and which
      fit the name pattern. */
  lemma NameTexts()
    ensures Trim("Ana") == "Ana" && Trim("Ana ") == "Ana" && Trim("Lopez") == "Lopez"
    ensures Trim("ana") == "ana" && Trim("lopez") == "lopez"
    ensures MatchesNamePattern("Lopez") && MatchesNamePattern("ana") && MatchesNamePattern("lopez")
  {
    TrimIdempotent("Ana");
    TrimIdempotent("Lopez");
    TrimIdempotent("ana");
    TrimIdempotent("lopez");
    TrimReturnsMiddle([], "Ana", " ");
    assert [] + "Ana" + " " == "Ana ";
  }

  /** The rows and the form of the example below, compared. */
  lemma EditExampleComparisons()
    ensures !NamesMatch(Persona("Bob", "Diaz", 30), Form("Ana", "Lopez", "30"))
    ensures !NamesMatch(Persona("Ana ", "Lopez", 30), Form("Ana", "Lopez", "30"))
    ensures !Blocks(Persona("Bob", "Diaz", 30), Persona("Ana ", "Lopez", 30))
    ensures Blocks(Persona("Ana", "Lopez", 30), Persona("Ana ", "Lopez", 30))
    ensures ValidForm(Form("Ana", "Lopez", "30"))
  {
    ExampleAges();
    TrimIdempotent("30");
    NameTexts();
    ExamplePatterns();
    assert !CharEqualsIgnoreCase("Bob"[0], "Ana"[0]);
    EqualsIgnoreCaseIsEquivalence("Ana", "Ana", "Ana");
    EqualsIgnoreCaseIsEquivalence("Lopez", "Lopez", "Lopez");
  }

  /** Neither row of the example below is a duplicate of its form. */
  lemma EditExampleNoDuplicate()
    ensures !HasDuplicate([Persona("Bob", "Diaz", 30), Persona("Ana ", "Lopez", 30)], Form("Ana", "Lopez", "30"))
  {
    var roster := [Persona("Bob", "Diaz", 30), Persona("Ana ", "Lopez", 30)];
    EditExampleComparisons();
    assert roster[0] == Persona("Bob", "Diaz", 30) && roster[1] == Persona("Ana ", "Lopez", 30);
  }

  /** The edit of the example below succeeds: neither stored row matches the
      form's names. */
  lemma EditExampleSucceeds()
    ensures var roster := [Persona("Bob", "Diaz", 30), Persona("Ana ", "Lopez", 30)];
      Update(roster, 0, Form("Ana", "Lopez", "30")) == Step([Persona("Ana", "Lopez", 30), roster[1]], Done)
  {
    var roster := [Persona("Bob", "Diaz", 30), Persona("Ana ", "Lopez", 30)];
    var f := Form("Ana", "Lopez", "30");
    ExampleAges();
    EditExampleComparisons();
    EditExampleNoDuplicate();
    var r := Update(roster, 0, f).roster;
    assert r == [Persona("Ana", "Lopez", 30), roster[1]];
  }

  /** `Update` does not keep `NoRowBlocksALater`: the duplicate check compares
      the stored names untrimmed, so an edit can write above a padded row the
      very values that row, trimmed, holds. */
  lemma UpdateCanBreakNoBlocking()
    ensures var roster := [Persona("Bob", "Diaz", 30), Persona("Ana ", "Lopez", 30)];
      var s := Update(roster, 0, Form("Ana", "Lopez", "30"));
      && NoRowBlocksALater(roster)
      && s.outcome == Done
      && !NoRowBlocksALater(s.roster)
  {
    var roster := [Persona("Bob", "Diaz", 30), Persona("Ana ", "Lopez", 30)];
    EditExampleSucceeds();
    EditExampleComparisons();
    var r := [Persona("Ana", "Lopez", 30), roster[1]];
    assert Blocks(r[0], r[1]);
  }

  /** Both forms of the example below pass validation. */
  lemma AnaLopezValid()
    ensures ValidForm(Form("Ana", "Lopez", "30")) && ValidForm(Form("ana", "lopez", "30"))
  {
    ExampleAges();
    TrimIdempotent("30");
    NameTexts();
    ExamplePatterns();
  }

  /** Adding ("Ana", "Lopez", "30") to the empty roster succeeds. */
  lemma AnaLopezAddedOnce()
    ensures Add([], Form("Ana", "Lopez", "30")) == Step([Persona("Ana", "Lopez", 30)], Done)
  {
    ExampleAges();
    TrimIdempotent("30");
    NameTexts();
    AnaLopezValid();
    assert !HasDuplicate([], Form("Ana", "Lopez", "30"));
    assert Add([], Form("Ana", "Lopez", "30")).roster == [] + [Persona("Ana", "Lopez", 30)];
  }

  /** The two spellings of the example below are equal ignoring case. */
  lemma AnaLopezIgnoringCase()
    ensures EqualsIgnoreCase("Ana", "ana") && EqualsIgnoreCase("Lopez", "lopez")
  {
  }

  /** Adding ("Ana", "Lopez", "30") to the empty roster succeeds, and adding
      ("ana", "lopez", "30") after it is refused as a duplicate. */
  lemma AnaLopezAddedTwice()
    ensures Add([], Form("Ana", "Lopez", "30")) == Step([Persona("Ana", "Lopez", 30)], Done)
    ensures Add([Persona("Ana", "Lopez", 30)], Form("ana", "lopez", "30")) == Step([Persona("Ana", "Lopez", 30)], Repeated)
  {
    ExampleAges();
    TrimIdempotent("30");
    NameTexts();
    AnaLopezIgnoringCase();
    AnaLopezValid();
    AnaLopezAddedOnce();
    AddThenRepeated([], Form("Ana", "Lopez", "30"), Form("ana", "lopez", "30"));
  }
}
