/**
 The `Persona` model class: a name, the surnames and an age, compared and
 hashed field by field.
 */
module Modelos {
  import opened JavaInt
  import opened JavaStr

  /** A person as the table stores it. The constructor stores its three
      arguments and the getters `getNombre`, `getApellidos` and `getEdad` are
      the datatype's destructors. The class declares no setters. */
  datatype Persona = Persona(nombre: string, apellidos: string, edad: Int32)

  /** Each getter returns the corresponding constructor argument, and a
      `Persona` is rebuilt from its getters. */
  lemma GettersReturnConstructorArguments(nombre: string, apellidos: string, edad: Int32, p: Persona)
    ensures Persona(nombre, apellidos, edad).nombre == nombre
    ensures Persona(nombre, apellidos, edad).apellidos == apellidos
    ensures Persona(nombre, apellidos, edad).edad == edad
    ensures Persona(p.nombre, p.apellidos, p.edad) == p
  {
  }

  /** `Persona.equals` on two persons: the ages are equal and both strings are
      equal exactly, case included. */
  predicate Equals(p: Persona, q: Persona) {
    p.edad == q.edad && p.nombre == q.nombre && p.apellidos == q.apellidos
  }

  /** `equals` is value equality, and so an equivalence relation. */
  lemma EqualsIsValueEquality(p: Persona, q: Persona, r: Persona)
    ensures Equals(p, q) <==> p == q
    ensures Equals(p, p)
    ensures Equals(p, q) ==> Equals(q, p)
    ensures Equals(p, q) && Equals(q, r) ==> Equals(p, r)
  {
  }

  /** `equals` does not ignore case, unlike the controller's duplicate test. */
  lemma EqualsIsCaseSensitive()
    ensures !Equals(Persona("Ana", "L\U{F3}pez", 30), Persona("ana", "L\U{F3}pez", 30))
    ensures EqualsIgnoreCase("Ana", "ana")
  {
    assert "Ana"[0] != "ana"[0];
  }

  /** `Objects.hash(nombre, apellidos, edad)`: `h = 31 * h + field hash` from
      `h = 1`, in wrapping 32-bit arithmetic; an `int` hashes to itself. */
  function HashCode(p: Persona): Int32 {
    var h1 := Wrap(31 * 1 + StringHash(p.nombre));
    var h2 := Wrap(31 * h1 + StringHash(p.apellidos));
    Wrap(31 * h2 + p.edad)
  }

  /** Equal persons have equal hash codes. */
  lemma EqualsImpliesEqualHash(p: Persona, q: Persona)
    ensures Equals(p, q) ==> HashCode(p) == HashCode(q)
  {
  }
}
