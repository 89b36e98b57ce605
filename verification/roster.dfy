/**
 The list logic of `HelloController`: the duplicate check
 (`esPersonaRepetida` / `esIgualPersona`) and the three buttons
 `agregarPersona`, `eliminarPersona` and `modificarPersona`, as functions
 from the roster and the form to the new roster and the outcome shown.
 The table's item list is the same sequence as `listaPersonas`: both are
 changed together.
 */
module Roster {
  import opened JavaInt
  import opened JavaStr
  import opened Modelos
  import opened Validation

  /** The value of Java code that may throw `NumberFormatException`. */
  datatype Checked<+T> = Returned(value: T) | NumberFormatThrown

  /** How a button press ends. */
  datatype Outcome =
    | Done                            // the "...correctamente." alert
    | Rejected(errors: seq<Problem>)  // the validation messages are shown
    | Repeated                        // the duplicate message is shown
    | NoSelection                     // no table row is selected
    | IndexOutOfBounds                // the list access past the end throws
    | NumberFormatException           // `Integer.parseInt` throws out of the handler

  datatype Step = Step(roster: seq<Persona>, outcome: Outcome)

  /** The first two conjuncts of `esIgualPersona`: the stored name and
      surnames, untrimmed, equal the trimmed input ignoring case. */
  predicate NamesMatch(p: Persona, f: Form) {
    EqualsIgnoreCase(p.nombre, Trim(f.nombre)) && EqualsIgnoreCase(p.apellidos, Trim(f.apellidos))
  }

  /** `esIgualPersona`: the age is parsed from the untrimmed text, and only
      once the names match, since `&&` short-circuits. */
  function SameAsForm(p: Persona, f: Form): (r: Checked<bool>)
    ensures r.NumberFormatThrown? <==> NamesMatch(p, f) && ParseInt(f.edad).None?
    ensures r.Returned? ==> (r.value <==> NamesMatch(p, f) && ParseInt(f.edad) == Some(p.edad))
  {
    if !NamesMatch(p, f) then Returned(false)
    else match ParseInt(f.edad)
      case None => NumberFormatThrown
      case Some(edad) => Returned(p.edad == edad)
  }

  /** Some row's names match the form. */
  ghost predicate HasNameMatch(roster: seq<Persona>, f: Form) {
    exists i :: 0 <= i < |roster| && NamesMatch(roster[i], f)
  }

  /** Some row is a duplicate of the form: its names match and its age is the
      value of the untrimmed age text. */
  ghost predicate HasDuplicate(roster: seq<Persona>, f: Form) {
    exists i :: 0 <= i < |roster| && NamesMatch(roster[i], f) && ParseInt(f.edad) == Some(roster[i].edad)
  }

  /** `esPersonaRepetida`: scans the rows in order and stops at the first
      duplicate or the first exception. It throws exactly when some row's
      names match and the untrimmed age text does not parse. */
  function IsRepeated(roster: seq<Persona>, f: Form): (r: Checked<bool>)
    ensures r.NumberFormatThrown? <==> HasNameMatch(roster, f) && ParseInt(f.edad).None?
    ensures r.Returned? ==> (r.value <==> HasDuplicate(roster, f))
  {
    if |roster| == 0 then Returned(false)
    else
      var rest := IsRepeated(roster[1..], f);
      assert HasNameMatch(roster, f) <==> NamesMatch(roster[0], f) || HasNameMatch(roster[1..], f) by {
        if HasNameMatch(roster[1..], f) {
          var i :| 0 <= i < |roster[1..]| && NamesMatch(roster[1..][i], f);
          assert roster[i + 1] == roster[1..][i];
        }
        if HasNameMatch(roster, f) && !NamesMatch(roster[0], f) {
          var i :| 0 <= i < |roster| && NamesMatch(roster[i], f);
          assert roster[1..][i - 1] == roster[i];
        }
      }
      assert HasDuplicate(roster, f) <==> SameAsForm(roster[0], f) == Returned(true) || HasDuplicate(roster[1..], f) by {
        if HasDuplicate(roster[1..], f) {
          var i :| 0 <= i < |roster[1..]| && NamesMatch(roster[1..][i], f) && ParseInt(f.edad) == Some(roster[1..][i].edad);
          assert roster[i + 1] == roster[1..][i];
        }
        if HasDuplicate(roster, f) && SameAsForm(roster[0], f) != Returned(true) {
          var i :| 0 <= i < |roster| && NamesMatch(roster[i], f) && ParseInt(f.edad) == Some(roster[i].edad);
          assert roster[1..][i - 1] == roster[i];
        }
      }
      match SameAsForm(roster[0], f)
      case NumberFormatThrown => NumberFormatThrown
      case Returned(true) => Returned(true)
      case Returned(false) => rest
  }

  /** `agregarPersona`, with `crearPersona`: validate, then check for a
      duplicate, then append a `Persona` of the raw name and surnames and the
      age parsed from the raw age text. */
  function Add(roster: seq<Persona>, f: Form): (s: Step)
    ensures !ValidForm(f) ==> s == Step(roster, Rejected(Validate(f)))
    ensures ValidForm(f) ==> (s.outcome == NumberFormatException <==> ParseInt(f.edad).None?)
    ensures ValidForm(f) ==> (s.outcome == Repeated <==> HasDuplicate(roster, f))
    ensures s.outcome == Done <==> ValidForm(f) && ParseInt(f.edad).Some? && !HasDuplicate(roster, f)
    ensures s.outcome == Done ==>
      && |s.roster| == |roster| + 1
      && s.roster[..|roster|] == roster
      && s.roster[|roster|] == Persona(f.nombre, f.apellidos, ParseInt(f.edad).value)
    ensures s.outcome != Done ==> s.roster == roster
  {
    var errs := Validate(f);
    if errs != [] then Step(roster, Rejected(errs))
    else match IsRepeated(roster, f)
      case NumberFormatThrown => Step(roster, NumberFormatException)
      case Returned(true) => Step(roster, Repeated)
      case Returned(false) =>
        match ParseInt(f.edad)
        case None => Step(roster, NumberFormatException)
        case Some(edad) => Step(roster + [Persona(f.nombre, f.apellidos, edad)], Done)
  }

  /** `eliminarPersona`: a negative selected index means no row is selected;
      otherwise exactly the selected row is deleted and the others keep
      their order. */
  function Remove(roster: seq<Persona>, index: int): (s: Step)
    ensures index < 0 ==> s == Step(roster, NoSelection)
    ensures index >= |roster| ==> s == Step(roster, IndexOutOfBounds)
    ensures 0 <= index < |roster| ==>
      && s.outcome == Done
      && |s.roster| == |roster| - 1
      && (forall i :: 0 <= i < index ==> s.roster[i] == roster[i])
      && (forall i :: index <= i < |s.roster| ==> s.roster[i] == roster[i + 1])
      && multiset(s.roster) + multiset{roster[index]} == multiset(roster)
  {
    if index < 0 then Step(roster, NoSelection)
    else if index >= |roster| then Step(roster, IndexOutOfBounds)
    else
      assert roster == roster[..index] + [roster[index]] + roster[index + 1..];
      Step(roster[..index] + roster[index + 1..], Done)
  }

  /** Lines 128-131 of `modificarPersona`: the selected row gets the raw
      name, then the raw surnames, then the age parsed from the raw age text.
      When that parse throws, the first two writes have already happened. */
  function WriteRow(roster: seq<Persona>, index: nat, f: Form): (s: Step)
    requires index < |roster|
    ensures s.outcome == Done <==> ParseInt(f.edad).Some?
    ensures s.outcome == Done || s.outcome == NumberFormatException
    ensures |s.roster| == |roster|
    ensures forall i :: 0 <= i < |roster| && i != index ==> s.roster[i] == roster[i]
    ensures s.roster[index].nombre == f.nombre && s.roster[index].apellidos == f.apellidos
    ensures s.roster[index].edad == if s.outcome == Done then ParseInt(f.edad).value else roster[index].edad
  {
    var renamed := roster[index].(nombre := f.nombre, apellidos := f.apellidos);
    match ParseInt(f.edad)
    case None => Step(roster[index := renamed], NumberFormatException)
    case Some(edad) => Step(roster[index := renamed.(edad := edad)], Done)
  }

  /** `modificarPersona`: a negative index is rejected first; then the
      duplicate check runs, against every row including the selected one;
      then validation. On success the selected row becomes the raw name and
      surnames and the age parsed from the raw age text. If that parse
      throws, `setNombre` and `setApellidos` have already run, so the row
      keeps the new name and surnames with its old age. */
  function Update(roster: seq<Persona>, index: int, f: Form): (s: Step)
    ensures index < 0 ==> s == Step(roster, NoSelection)
    ensures s.outcome == NoSelection <==> index < 0
    ensures 0 <= index ==> (s.outcome == Repeated <==> HasDuplicate(roster, f))
    ensures 0 <= index && HasNameMatch(roster, f) && ParseInt(f.edad).None? ==>
      s == Step(roster, NumberFormatException)
    ensures s.outcome.Rejected? <==>
      0 <= index && !HasDuplicate(roster, f) && !(HasNameMatch(roster, f) && ParseInt(f.edad).None?) && !ValidForm(f)
    ensures s.outcome.Rejected? ==> s.outcome.errors == Validate(f)
    ensures s.outcome == Done <==>
      0 <= index < |roster| && ValidForm(f) && ParseInt(f.edad).Some? && !HasDuplicate(roster, f)
    ensures s.outcome == Done ==>
      && |s.roster| == |roster|
      && s.roster[index] == Persona(f.nombre, f.apellidos, ParseInt(f.edad).value)
      && (forall i :: 0 <= i < |roster| && i != index ==> s.roster[i] == roster[i])
    ensures s.outcome == NumberFormatException && s.roster != roster ==>
      && 0 <= index < |roster|
      && |s.roster| == |roster|
      && s.roster[index] == Persona(f.nombre, f.apellidos, roster[index].edad)
      && (forall i :: 0 <= i < |roster| && i != index ==> s.roster[i] == roster[i])
    ensures 0 <= index && IsRepeated(roster, f) == Returned(false) && ValidForm(f) ==>
      && (index >= |roster| ==> s == Step(roster, IndexOutOfBounds))
      && (index < |roster| && ParseInt(f.edad).None? ==>
            s == Step(roster[index := Persona(f.nombre, f.apellidos, roster[index].edad)], NumberFormatException))
    ensures s.outcome == IndexOutOfBounds <==>
      |roster| <= index && !HasDuplicate(roster, f) && !(HasNameMatch(roster, f) && ParseInt(f.edad).None?) && ValidForm(f)
    ensures s.outcome != Done && s.outcome != NumberFormatException ==> s.roster == roster
  {
    if index < 0 then Step(roster, NoSelection)
    else match IsRepeated(roster, f)
      case NumberFormatThrown => Step(roster, NumberFormatException)
      case Returned(true) => Step(roster, Repeated)
      case Returned(false) =>
        var errs := Validate(f);
        if errs != [] then Step(roster, Rejected(errs))
        else if index >= |roster| then Step(roster, IndexOutOfBounds)
        else WriteRow(roster, index, f)
  }
}
