/**
 The form's input check, `errores` in `HelloController`: the three text
 fields are trimmed, the name and the surnames are each checked for being
 present and for admitted characters, and the age must parse as an `int`
 between 1 and 100. The messages accumulate in the order name, surnames, age.
 */
module Validation {
  import opened JavaInt
  import opened JavaStr

  /** The raw contents of the three text fields: name, surnames, age. */
  datatype Form = Form(nombre: string, apellidos: string, edad: string)

  /** One message `errores` can produce. */
  datatype Problem =
    | NameMissing
    | NameInvalid
    | SurnameMissing
    | SurnameInvalid
    | AgeNotNumeric
    | AgeOutOfRange

  /** The field a message is about: 0 for the name, 1 for the surnames, 2 for the age. */
  function FieldOf(p: Problem): nat {
    match p
    case NameMissing | NameInvalid => 0
    case SurnameMissing | SurnameInvalid => 1
    case AgeNotNumeric | AgeOutOfRange => 2
  }

  /** The message text `errores` appends for each problem. */
  function Message(p: Problem): (m: string)
    ensures |m| > 0 && m[|m| - 1] == '\n'
  {
    match p
    case NameMissing => "Debes introducir tu nombre.\n"
    case NameInvalid => "El nombre no puede contener n\U{FA}meros.\n"
    case SurnameMissing => "Debes introducir al menos un apellido.\n"
    case SurnameInvalid => "Los apellidos no pueden contener n\U{FA}meros.\n"
    case AgeNotNumeric => "El campo 'Edad' debe ser num\U{E9}rico.\n"
    case AgeOutOfRange => "Introduce una edad v\U{E1}lida (1-100).\n"
  }

  /** Java's default `\s` class: space, tab, line feed, vertical tab, form feed, carriage return. */
  predicate IsRegexSpace(c: char) {
    c == ' ' || c == '\t' || c == '\n' || c == '\U{0B}' || c == '\U{0C}' || c == '\r'
  }

  /** The character class `[A-Za-záéíóúÁÉÍÓÚÑñ\s]`. */
  predicate IsNameChar(c: char) {
    || 'A' <= c <= 'Z' || 'a' <= c <= 'z'
    || c == '\U{E1}' || c == '\U{E9}' || c == '\U{ED}' || c == '\U{F3}' || c == '\U{FA}'
    || c == '\U{C1}' || c == '\U{C9}' || c == '\U{CD}' || c == '\U{D3}' || c == '\U{DA}'
    || c == '\U{D1}' || c == '\U{F1}'
    || IsRegexSpace(c)
  }

  /** `s.matches("^[...]+$")`: at least one character, every one in the class. */
  predicate MatchesNamePattern(s: string) {
    |s| > 0 && forall k :: 0 <= k < |s| ==> IsNameChar(s[k])
  }

  /** What a valid form is: trimmed name and surnames that are non-empty and
      use only admitted characters, and a trimmed age that parses to 1..100. */
  predicate ValidForm(f: Form) {
    && MatchesNamePattern(Trim(f.nombre))
    && MatchesNamePattern(Trim(f.apellidos))
    && ParseInt(Trim(f.edad)).Some?
    && 1 <= ParseInt(Trim(f.edad)).value <= 100
  }

  /** The check of one trimmed text field: empty, else wrong characters. */
  function TextProblems(text: string, missing: Problem, invalid: Problem): (r: seq<Problem>)
    requires missing != invalid
    ensures |r| <= 1
    ensures r == [] <==> MatchesNamePattern(text)
    ensures missing in r <==> |text| == 0
    ensures invalid in r <==> |text| != 0 && !MatchesNamePattern(text)
    ensures forall p :: p in r ==> p == missing || p == invalid
  {
    if |text| == 0 then [missing]
    else if !MatchesNamePattern(text) then [invalid]
    else []
  }

  /** The age part of `errores`: a failed parse of the trimmed age gives the
      numeric-age message (and `errores` returns at once, skipping the range
      check); a parsed value outside 1..100 gives the range message. */
  function AgeProblems(text: string): (r: seq<Problem>)
    ensures |r| <= 1
    ensures r == [] <==> ParseInt(text).Some? && 1 <= ParseInt(text).value <= 100
    ensures AgeNotNumeric in r <==> ParseInt(text).None?
    ensures AgeOutOfRange in r <==> ParseInt(text).Some? && !(1 <= ParseInt(text).value <= 100)
    ensures forall p :: p in r ==> FieldOf(p) == 2
  {
    match ParseInt(text)
    case None => [AgeNotNumeric]
    case Some(edad) => if edad < 1 || edad > 100 then [AgeOutOfRange] else []
  }

  /** Joining at most one message per field, in field order, keeps the
      messages in field order and loses none. */
  lemma JoinInFieldOrder(name: seq<Problem>, surname: seq<Problem>, age: seq<Problem>)
    requires |name| <= 1 && |surname| <= 1 && |age| <= 1
    requires forall p :: p in name ==> FieldOf(p) == 0
    requires forall p :: p in surname ==> FieldOf(p) == 1
    requires forall p :: p in age ==> FieldOf(p) == 2
    ensures var errs := name + surname + age;
      && (errs == [] <==> name == [] && surname == [] && age == [])
      && (forall p :: p in errs <==> p in name || p in surname || p in age)
      && (forall i, j :: 0 <= i < j < |errs| ==> FieldOf(errs[i]) < FieldOf(errs[j]))
      && (age != [] ==> errs[|errs| - 1] == age[0])
  {
    var errs := name + surname + age;
    forall i, j | 0 <= i < j < |errs| ensures FieldOf(errs[i]) < FieldOf(errs[j]) {
      if i < |name| {
        assert errs[i] == name[i];
      } else {
        assert errs[i] == surname[0] && errs[j] == age[0];
      }
    }
  }

  /** The checks of `errores` on the three texts once trimmed. */
  function CheckTrimmed(nombre: string, apellidos: string, edad: string): (errs: seq<Problem>)
    ensures errs == [] <==>
      && MatchesNamePattern(nombre) && MatchesNamePattern(apellidos)
      && ParseInt(edad).Some? && 1 <= ParseInt(edad).value <= 100
    ensures forall i, j :: 0 <= i < j < |errs| ==> FieldOf(errs[i]) < FieldOf(errs[j])
    ensures NameMissing in errs <==> nombre == []
    ensures NameInvalid in errs <==> nombre != [] && !MatchesNamePattern(nombre)
    ensures SurnameMissing in errs <==> apellidos == []
    ensures SurnameInvalid in errs <==> apellidos != [] && !MatchesNamePattern(apellidos)
    ensures AgeNotNumeric in errs <==> ParseInt(edad).None?
    ensures AgeOutOfRange in errs <==> ParseInt(edad).Some? && !(1 <= ParseInt(edad).value <= 100)
    ensures AgeNotNumeric in errs || AgeOutOfRange in errs ==> FieldOf(errs[|errs| - 1]) == 2
  {
    var name := TextProblems(nombre, NameMissing, NameInvalid);
    var surname := TextProblems(apellidos, SurnameMissing, SurnameInvalid);
    var age := AgeProblems(edad);
    JoinInFieldOrder(name, surname, age);
    name + surname + age
  }

  /** `errores`, as the list of its messages. */
  function Validate(f: Form): (errs: seq<Problem>)
    ensures errs == [] <==> ValidForm(f)
    ensures forall i, j :: 0 <= i < j < |errs| ==> FieldOf(errs[i]) < FieldOf(errs[j])
    ensures NameMissing in errs <==> Trim(f.nombre) == []
    ensures NameInvalid in errs <==> Trim(f.nombre) != [] && !MatchesNamePattern(Trim(f.nombre))
    ensures SurnameMissing in errs <==> Trim(f.apellidos) == []
    ensures SurnameInvalid in errs <==> Trim(f.apellidos) != [] && !MatchesNamePattern(Trim(f.apellidos))
    ensures AgeNotNumeric in errs <==> ParseInt(Trim(f.edad)).None?
    ensures AgeOutOfRange in errs <==> ParseInt(Trim(f.edad)).Some? && !(1 <= ParseInt(Trim(f.edad)).value <= 100)
    ensures AgeNotNumeric in errs || AgeOutOfRange in errs ==> FieldOf(errs[|errs| - 1]) == 2
  {
    CheckTrimmed(Trim(f.nombre), Trim(f.apellidos), Trim(f.edad))
  }

  /** The messages joined into the one string the alert shows. */
  function Render(errs: seq<Problem>): (text: string)
    ensures text == [] <==> errs == []
    ensures text != [] ==> text[|text| - 1] == '\n'
  {
    if errs == [] then []
    else
      var m := Message(errs[|errs| - 1]);
      var text := Render(errs[..|errs| - 1]) + m;
      assert text[|text| - 1] == m[|m| - 1];
      text
  }

  /** Appending one message appends its text. */
  lemma RenderSnoc(errs: seq<Problem>, p: Problem)
    ensures Render(errs + [p]) == Render(errs) + Message(p)
  {
    var e := errs + [p];
    assert e != [] && e[..|e| - 1] == errs && e[|e| - 1] == p;
  }

  /** Rendering distributes over concatenation: the text of a message list
      is the text of its first part followed by that of the rest, which is
      how `errores` builds its result with `+=`. */
  lemma {:induction false} RenderAppend(a: seq<Problem>, b: seq<Problem>)
    ensures Render(a + b) == Render(a) + Render(b)
    decreases |b|
  {
    if b == [] {
      assert a + b == a;
    } else {
      var init, last := b[..|b| - 1], b[|b| - 1];
      assert b == init + [last];
      assert a + b == (a + init) + [last];
      RenderSnoc(a + init, last);
      RenderSnoc(init, last);
      RenderAppend(a, init);
      ConcatAssoc(Render(a), Render(init), Message(last));
    }
  }

  /** String concatenation is associative. */
  lemma ConcatAssoc(x: string, y: string, z: string)
    ensures (x + y) + z == x + (y + z)
  {
  }

  /** `errores` as a string: empty exactly when the form is valid, and
      otherwise every message ends in a line break. */
  function Errores(f: Form): (text: string)
    ensures text == [] <==> ValidForm(f)
    ensures text != [] ==> text[|text| - 1] == '\n'
  {
    Render(Validate(f))
  }

  /** An age that does not parse: the numeric-age message is the last one and
      the range message is absent. */
  lemma NonNumericAgeEndsErrors(f: Form)
    requires ParseInt(Trim(f.edad)).None?
    ensures Validate(f)[|Validate(f)| - 1] == AgeNotNumeric
    ensures AgeOutOfRange !in Validate(f)
  {
  }

  /** An age that parses outside 1..100: exactly the range message follows the
      name and surname messages, which are those of a valid age. */
  lemma OutOfRangeAgeAppendsOneMessage(f: Form, good: string)
    requires ParseInt(Trim(f.edad)).Some?
    requires !(1 <= ParseInt(Trim(f.edad)).value <= 100)
    requires ParseInt(Trim(good)).Some? && 1 <= ParseInt(Trim(good)).value <= 100
    ensures Validate(f) == Validate(f.(edad := good)) + [AgeOutOfRange]
  {
  }

  /** The age texts of the examples below. */
  lemma ExampleAges()
    ensures ParseInt("30") == Some(30)
    ensures ParseInt("150") == Some(150)
    ensures ParseInt("abc") == None
  {
    assert "30"[..1] == "3" && "3"[..0] == "";
    assert DigitsValue("3") == 3;
    assert DigitsValue("30") == 30;
    assert "150"[..2] == "15" && "15"[..1] == "1" && "1"[..0] == "";
    assert DigitsValue("1") == 1;
    assert DigitsValue("15") == 15;
    assert DigitsValue("150") == 150;
    assert !IsDigit("abc"[0]);
  }

  /** The trimmed texts of the examples below. */
  lemma ExampleTrims()
    ensures Trim("") == "" && Trim("Smith") == "Smith" && Trim("John") == "John"
    ensures Trim("John1") == "John1" && Trim(" Ana ") == "Ana"
    ensures Trim("30") == "30" && Trim("abc") == "abc" && Trim("150") == "150"
  {
    TrimIdempotent("");
    TrimIdempotent("Smith");
    TrimIdempotent("John");
    TrimIdempotent("John1");
    TrimIdempotent("30");
    TrimIdempotent("abc");
    TrimIdempotent("150");
    TrimReturnsMiddle(" ", "Ana", " ");
    assert " " + "Ana" + " " == " Ana ";
  }

  /** Which names of the examples below fit the name pattern. */
  lemma ExamplePatterns()
    ensures MatchesNamePattern("Smith") && MatchesNamePattern("John") && MatchesNamePattern("Ana")
    ensures !MatchesNamePattern("John1")
  {
    assert !IsNameChar("John1"[4]);
  }

  /** A missing name is reported alone. */
  lemma MissingNameExample()
    ensures Validate(Form("", "Smith", "30")) == [NameMissing]
  {
    ExampleAges();
    ExampleTrims();
    ExamplePatterns();
  }

  /** The text shown for a missing name is exactly that one message. */
  lemma MissingNameText()
    ensures Errores(Form("", "Smith", "30")) == "Debes introducir tu nombre.\n"
  {
    MissingNameExample();
    RenderSnoc([], NameMissing);
    assert [] + [NameMissing] == [NameMissing];
  }

  /** A digit in the name is reported alone. */
  lemma DigitInNameExample()
    ensures Validate(Form("John1", "Smith", "30")) == [NameInvalid]
  {
    ExampleAges();
    ExampleTrims();
    ExamplePatterns();
  }

  /** A non-numeric age gives exactly the numeric-age message. */
  lemma NonNumericAgeExample()
    ensures Validate(Form("John", "Smith", "abc")) == [AgeNotNumeric]
  {
    ExampleAges();
    ExampleTrims();
    ExamplePatterns();
  }

  /** An age of 150 gives the range message. */
  lemma AgeTooHighExample()
    ensures Validate(Form("John", "Smith", "150")) == [AgeOutOfRange]
  {
    ExampleAges();
    ExampleTrims();
    ExamplePatterns();
  }

  /** Padding around a valid name is trimmed away before the check. */
  lemma PaddedNameExample()
    ensures Validate(Form(" Ana ", "Smith", "30")) == []
  {
    ExampleAges();
    ExampleTrims();
    ExamplePatterns();
  }
}
