# GestionarPersonas: the form logic of `HelloController`

GestionarPersonasV2 is a JavaFX form that keeps an in-memory list of
`Persona` records (name, surnames, age). The only real logic sits in
`HelloController`. It validates the three text fields (`errores`) and
checks for duplicates (`esPersonaRepetida` / `esIgualPersona`). It then
adds, deletes or edits a row (`agregarPersona` with `crearPersona`,
`eliminarPersona`, `modificarPersona`). This project models that logic
and the `Persona` value class as pure Dafny functions over the three raw
field texts and a `seq<Persona>`, and proves what they do.

Modules:

- `JavaInt` (`java_int.dfy`): the 32-bit `int`, wrap-around, and
  `Integer.parseInt` in radix 10. `ParseInt` is the reference definition
  and `ParseIntLoop` is the JDK accumulation loop, proved equal to it.
  The module also has `String.valueOf(int)`.
- `JavaStr` (`java_str.dfy`): `String.trim`, `String.equalsIgnoreCase`
  and `String.hashCode`.
- `Modelos` (`persona.dfy`): `Persona`, its `equals` and its `hashCode`.
- `Validation` (`validation.dfy`): `errores`. It is modelled as a list of
  `Problem`s in field order (`Validate`) and as the message text
  (`Errores`, with the literal Spanish messages).
- `Roster` (`roster.dfy`): the duplicate check and the three buttons.
  Each button is a function from the roster and the form to a `Step`:
  the new roster and the `Outcome` the user sees.
- `RosterProperties` (`roster_properties.dfy`): properties relating
  several calls.

Behaviour of the code worth knowing before reading the model:

- **Names are compared untrimmed.** `esIgualPersona` (lines 195-199)
  compares the stored name and surnames, untrimmed, against the trimmed
  input. It also parses the untrimmed age text. A row stored with
  padding therefore never matches again, and the same padded form can
  be added twice (`PaddedNameAddedTwice`).
- **Uniqueness of rows is kept only in a weaker form.** Two rows with
  equal values can both end up in the list. What the duplicate check
  does keep is `NoRowBlocksALater`: no row would have refused any later
  row's values.
  - `Add` and `Remove` preserve it.
  - `Update` does not (`UpdateCanBreakNoBlocking`).
  - Over unpadded names it is full uniqueness
    (`UnpaddedRosterHasNoDuplicates`).
- **Three places throw.** Each is modelled as an explicit outcome, not
  as a precondition:
  - `Integer.parseInt` on the untrimmed age (lines 131, 152 and 198)
    throws `NumberFormatException` for an age such as `" 30"`, although
    validation, which trims, accepted it.
  - In the duplicate check the parse runs only once a row's names match,
    because `&&` short-circuits (lines 196-198). The check therefore
    throws exactly when some row's names match and the raw age does not
    parse.
  - A selected index at or past the end makes `List.remove` (line 96) or
    `List.get` (line 128) throw `IndexOutOfBoundsException`. Only a
    negative index gives the "select a person" message (lines 101
    and 138).
- **`Persona` has no setters.** `Persona.java` declares none, yet
  `modificarPersona` calls `setNombre`, `setApellidos` and `setEdad`
  (lines 129-131). The model takes each setter to assign its field, so a
  successful edit replaces the selected element with the raw name, the
  raw surnames and the parsed age. When the parse at line 131 throws,
  the first two setters have already run. The row then holds the new
  name and surnames with its old age, and the model keeps that partial
  write.

## Model

| member | source | states |
|---|---|---|
| JavaInt.Wrap | src/main/java/es/juliogtrenard/gestionarpersonas/modelos/Persona.java:83 | the `int` arithmetic of the hash wraps: the result is the one `int` congruent to the exact value modulo 2^32, and a value already in range is unchanged |
| JavaInt.ParseIntLoop | src/main/java/es/juliogtrenard/gestionarpersonas/controladores/HelloController.java:254-259 | the JDK `Integer.parseInt` loop accepts exactly an optional sign followed by at least one ASCII digit whose value fits in an `int`, and returns that value; every other text is a `NumberFormatException` (`None`) |
| JavaInt.ParseIntOfToString | src/main/java/es/juliogtrenard/gestionarpersonas/controladores/HelloController.java:277 | parsing `String.valueOf(age)`, the text the selection listener writes into the age field, gives back the age, for every `int` |
| JavaStr.Trim | src/main/java/es/juliogtrenard/gestionarpersonas/controladores/HelloController.java:238-240 | `trim` never lengthens a text and its result neither starts nor ends with a character at or below U+0020 |
| JavaStr.TrimReturnsMiddle | src/main/java/es/juliogtrenard/gestionarpersonas/controladores/HelloController.java:238-240 | for any blank prefix, trimmed middle and blank suffix, `trim` returns the middle |
| JavaStr.TrimIdempotent | src/main/java/es/juliogtrenard/gestionarpersonas/controladores/HelloController.java:238-240 | trimming twice is trimming once; `trim` is the identity exactly on unpadded text and strictly shortens padded text |
| JavaStr.EqualsIgnoreCaseIsEquivalence | src/main/java/es/juliogtrenard/gestionarpersonas/controladores/HelloController.java:196-197 | `equalsIgnoreCase` holds iff the lengths agree and the case-folded characters agree position by position; it is reflexive, symmetric and transitive |
| Modelos.GettersReturnConstructorArguments | src/main/java/es/juliogtrenard/gestionarpersonas/modelos/Persona.java:29-60 | each getter returns the matching constructor argument, and a `Persona` is rebuilt from its getters |
| Modelos.EqualsIsValueEquality | src/main/java/es/juliogtrenard/gestionarpersonas/modelos/Persona.java:69-74 | `equals` holds iff the two persons have the same name, surnames and age; it is reflexive, symmetric and transitive |
| Modelos.EqualsIsCaseSensitive | src/main/java/es/juliogtrenard/gestionarpersonas/modelos/Persona.java:73 | `equals` tells "Ana" from "ana", which `equalsIgnoreCase` equates |
| Modelos.EqualsImpliesEqualHash | src/main/java/es/juliogtrenard/gestionarpersonas/modelos/Persona.java:69-84 | persons that are `equals` have the same `hashCode` |
| Validation.TextProblems | src/main/java/es/juliogtrenard/gestionarpersonas/controladores/HelloController.java:242-252 | a trimmed name or surname yields at most one message: "missing" iff it is empty, "invalid" iff it is non-empty with a character outside the class, none iff it matches the pattern |
| Validation.AgeProblems | src/main/java/es/juliogtrenard/gestionarpersonas/controladores/HelloController.java:254-263 | the trimmed age yields the numeric-age message iff it does not parse, the range message iff it parses outside 1..100, and nothing iff it parses into 1..100 |
| Validation.CheckTrimmed | src/main/java/es/juliogtrenard/gestionarpersonas/controladores/HelloController.java:242-265 | on trimmed texts the messages are those of the three checks, in field order, with the age message last; none iff all three checks pass |
| Validation.Validate | src/main/java/es/juliogtrenard/gestionarpersonas/controladores/HelloController.java:235-266 | `errores` reports no problem iff the trimmed name and surnames match the pattern and the trimmed age parses into 1..100; each message appears iff its condition holds; messages come in field order, at most one per field, with an age message last |
| Validation.Render | src/main/java/es/juliogtrenard/gestionarpersonas/controladores/HelloController.java:236-265 | the accumulated message text is empty iff there are no messages, and otherwise ends in a line break |
| Validation.RenderAppend | src/main/java/es/juliogtrenard/gestionarpersonas/controladores/HelloController.java:242-263 | the text of a joined message list is the text of the first part followed by that of the rest, as with `+=` |
| Validation.Errores | src/main/java/es/juliogtrenard/gestionarpersonas/controladores/HelloController.java:235-266 | the returned string is empty iff the form is valid, and otherwise ends in a line break |
| Validation.NonNumericAgeEndsErrors | src/main/java/es/juliogtrenard/gestionarpersonas/controladores/HelloController.java:255-259 | when the trimmed age does not parse, the last message is the numeric-age one and the range message is absent |
| Validation.OutOfRangeAgeAppendsOneMessage | src/main/java/es/juliogtrenard/gestionarpersonas/controladores/HelloController.java:261-263 | an age parsing outside 1..100 gives the name and surname messages of an in-range age followed by exactly the range message |
| Validation.MissingNameExample | src/main/java/es/juliogtrenard/gestionarpersonas/controladores/HelloController.java:242-243 | ("", "Smith", "30") gives only the missing-name message |
| Validation.MissingNameText | src/main/java/es/juliogtrenard/gestionarpersonas/controladores/HelloController.java:242-243 | for ("", "Smith", "30") `errores` returns exactly "Debes introducir tu nombre.\n" |
| Validation.DigitInNameExample | src/main/java/es/juliogtrenard/gestionarpersonas/controladores/HelloController.java:244-245 | ("John1", "Smith", "30") gives only the invalid-name message |
| Validation.NonNumericAgeExample | src/main/java/es/juliogtrenard/gestionarpersonas/controladores/HelloController.java:255-258 | ("John", "Smith", "abc") gives exactly the numeric-age message, with no range message |
| Validation.AgeTooHighExample | src/main/java/es/juliogtrenard/gestionarpersonas/controladores/HelloController.java:261-262 | ("John", "Smith", "150") gives exactly the range message |
| Validation.PaddedNameExample | src/main/java/es/juliogtrenard/gestionarpersonas/controladores/HelloController.java:238-244 | the padded name " Ana " passes validation, since it is trimmed first |
| Roster.SameAsForm | src/main/java/es/juliogtrenard/gestionarpersonas/controladores/HelloController.java:195-199 | comparing one row throws iff its stored names match the trimmed input ignoring case and the raw age text does not parse; otherwise it is true iff the names match and the stored age equals the parsed raw age |
| Roster.IsRepeated | src/main/java/es/juliogtrenard/gestionarpersonas/controladores/HelloController.java:179-199 | the scan throws iff some row's names match the trimmed input and the raw age text does not parse; otherwise it is true iff some row's names match ignoring case and its age equals the parsed raw age |
| Roster.Add | src/main/java/es/juliogtrenard/gestionarpersonas/controladores/HelloController.java:67-83 | an invalid form is rejected with its messages; a valid one throws iff the raw age does not parse, is refused iff it duplicates a row, and otherwise appends `Persona(raw name, raw surnames, parsed age)` with every earlier row untouched; only success changes the list |
| Roster.Remove | src/main/java/es/juliogtrenard/gestionarpersonas/controladores/HelloController.java:92-106 | a negative index changes nothing (no selection); an index past the end throws and changes nothing; a valid index deletes exactly that row, keeping the others in order, so the multiset loses exactly that element |
| Roster.WriteRow | src/main/java/es/juliogtrenard/gestionarpersonas/controladores/HelloController.java:128-131 | the selected row gets the raw name and surnames, and the parsed age when the raw age parses or else its old age; no other row changes |
| Roster.Update | src/main/java/es/juliogtrenard/gestionarpersonas/controladores/HelloController.java:114-143 | the "select a person" outcome happens iff the index is negative, and then nothing changes; a duplicate (the selected row included) is refused; a name match with an unparseable age throws before validation; then validation rejects; an index at or past the end throws `IndexOutOfBoundsException`, exactly when no earlier step stopped the edit; on success the length is unchanged and only the selected row becomes the raw input with the parsed age; when the final parse throws, the selected row holds the new name and surnames with its old age; every other outcome leaves the list unchanged |
| RosterProperties.ParsedTextIsTrimmed | src/main/java/es/juliogtrenard/gestionarpersonas/controladores/HelloController.java:152 | text `parseInt` accepts carries no padding, so trimming it changes nothing |
| RosterProperties.AddStoresAgeInRange | src/main/java/es/juliogtrenard/gestionarpersonas/controladores/HelloController.java:149-155 | the row `crearPersona` appends has an unpadded age text and an age in 1..100 |
| RosterProperties.AddKeepsAgesInRange | src/main/java/es/juliogtrenard/gestionarpersonas/controladores/HelloController.java:67-83 | if every age is in 1..100 before an add, every age is in 1..100 after it |
| RosterProperties.RemoveKeepsAgesInRange | src/main/java/es/juliogtrenard/gestionarpersonas/controladores/HelloController.java:92-106 | deleting never introduces an age outside 1..100 |
| RosterProperties.UpdateKeepsAgesInRange | src/main/java/es/juliogtrenard/gestionarpersonas/controladores/HelloController.java:114-143 | an edit, including one cut short by the age parse, never introduces an age outside 1..100 |
| RosterProperties.AddThenRepeated | src/main/java/es/juliogtrenard/gestionarpersonas/controladores/HelloController.java:179-199 | after a successful add, any form whose trimmed names equal the stored ones ignoring case, with the same age text, is found as a duplicate without an exception, and adding it (when valid) is refused |
| RosterProperties.AddSameFormTwice | src/main/java/es/juliogtrenard/gestionarpersonas/controladores/HelloController.java:75-79 | adding the same form again right after it succeeded is refused as a duplicate when its names are unpadded |
| RosterProperties.PaddedNameAddedTwice | src/main/java/es/juliogtrenard/gestionarpersonas/controladores/HelloController.java:196-197 | when the name is padded, the stored row never matches the same form, so adding it a second time succeeds and the list grows by two |
| RosterProperties.OwnValuesRejected | src/main/java/es/juliogtrenard/gestionarpersonas/controladores/HelloController.java:117-119 | submitting an edit with the selected row's own name, surnames and `String.valueOf` of its age (unpadded) is always refused as a duplicate and changes nothing |
| RosterProperties.AddKeepsNoBlocking | src/main/java/es/juliogtrenard/gestionarpersonas/controladores/HelloController.java:75-79 | if no row would refuse any later row's values, the same holds after an add |
| RosterProperties.RemoveKeepsNoBlocking | src/main/java/es/juliogtrenard/gestionarpersonas/controladores/HelloController.java:95-97 | deleting a row keeps the property that no row would refuse a later row's values |
| RosterProperties.UnpaddedRosterHasNoDuplicates | src/main/java/es/juliogtrenard/gestionarpersonas/controladores/HelloController.java:195-199 | when every stored name and surname is unpadded, that property means no two rows are duplicates of each other in either order |
| RosterProperties.UpdateCanBreakNoBlocking | src/main/java/es/juliogtrenard/gestionarpersonas/controladores/HelloController.java:117-131 | with rows ("Bob", "Diaz", 30) and ("Ana ", "Lopez", 30), editing row 0 to ("Ana", "Lopez", "30") succeeds and leaves a row that would refuse the later one |
| RosterProperties.AnaLopezAddedTwice | src/main/java/es/juliogtrenard/gestionarpersonas/controladores/HelloController.java:67-83 | adding ("Ana", "Lopez", "30") to the empty list succeeds, and adding ("ana", "lopez", "30") after it is refused as a duplicate |

## Left out

- The window and the UI are not part of this model: `HelloApplication.java`, `module-info.java`, the alert dialogs (`mostrarAlertaErrores`, `mostrarAlertaValido`), `tvTabla.refresh`, `clearSelection` and `limpiarCampos`. An alert is represented by the `Outcome` it would show.
- `initialize` is modelled only as the starting roster being the empty sequence.
- The selection listener `mostrarCampos` is left out as UI wiring. Only the `String.valueOf` it writes into the age field is modelled, because editing a row's own values depends on it.
- The table's item list `tvTabla.getItems()` is collapsed into the one roster sequence, since the code changes it together with `listaPersonas`.
- What JavaFX does with an exception that escapes a handler is left out. The model stops at the `NumberFormatException` or `IndexOutOfBounds` outcome, with the list as it stands at that point.
- Case mapping covers only the ASCII letters and the Latin-1 letters U+00C0-U+00FE (except U+00D7, U+00DF and U+00F7), whose other case is also in Latin-1. Every other character, `ÿ` and `µ` included, is treated as caseless; Java folds case over all of Unicode.
- `Integer.parseInt` accepts only ASCII digits here. Java also accepts other Unicode decimal digits.
- Characters are Unicode scalar values, not UTF-16 code units. A character above U+FFFF counts as one character in `trim`, `equalsIgnoreCase` and `String.hashCode`, where Java sees two code units.
- `Persona.equals` against `null` or an object of another class (returns false) is not modelled, since `Equals` compares two persons. The identity shortcut gives the same answer as the field comparison.
- Modelos.EqualsImpliesEqualHash: states only that equal persons hash equally, the one promise `hashCode` makes; hash values themselves are left uncharacterised.
