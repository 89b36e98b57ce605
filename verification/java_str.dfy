/**
 The three `java.lang.String` operations the form uses: `trim`,
 `equalsIgnoreCase` and `hashCode`. Characters are Dafny `char`s; case
 mapping is concrete for ASCII letters and the Latin-1 letters (which include
 every accented letter the name pattern admits) and the identity elsewhere.
 */
module JavaStr {
  import opened JavaInt

  /** `String.trim` drops every character at or below U+0020 from both ends. */
  predicate IsBlank(c: char) {
    c <= ' '
  }

  /** A string `trim` leaves as it is: empty, or starting and ending with a non-blank. */
  predicate IsTrimmed(s: string) {
    s == [] || (!IsBlank(s[0]) && !IsBlank(s[|s| - 1]))
  }

  /** The first loop of `trim`: advance `st` past blanks. */
  function SkipLeading(s: string, st: nat): (r: nat)
    requires st <= |s|
    ensures st <= r <= |s|
    ensures forall k :: st <= k < r ==> IsBlank(s[k])
    ensures r < |s| ==> !IsBlank(s[r])
    decreases |s| - st
  {
    if st < |s| && IsBlank(s[st]) then SkipLeading(s, st + 1) else st
  }

  /** The second loop of `trim`: pull `len` back over blanks, never below `st`. */
  function SkipTrailing(s: string, st: nat, len: nat): (r: nat)
    requires st <= len <= |s|
    ensures st <= r <= len
    ensures forall k :: r <= k < len ==> IsBlank(s[k])
    ensures st < r ==> !IsBlank(s[r - 1])
    decreases len
  {
    if st < len && IsBlank(s[len - 1]) then SkipTrailing(s, st, len - 1) else len
  }

  /** `String.trim`. */
  function Trim(s: string): (r: string)
    ensures |r| <= |s|
    ensures IsTrimmed(r)
  {
    var st := SkipLeading(s, 0);
    s[st..SkipTrailing(s, st, |s|)]
  }

  /** `trim` is determined by what it keeps: splitting a string into a blank
      prefix, a trimmed middle and a blank suffix, `trim` returns the middle. */
  lemma TrimReturnsMiddle(p: string, t: string, q: string)
    requires forall k :: 0 <= k < |p| ==> IsBlank(p[k])
    requires forall k :: 0 <= k < |q| ==> IsBlank(q[k])
    requires IsTrimmed(t)
    ensures Trim(p + t + q) == t
  {
    var s := p + t + q;
    var st := SkipLeading(s, 0);
    var len := SkipTrailing(s, st, |s|);
    if t == [] {
      assert forall k :: 0 <= k < |s| ==> IsBlank(s[k]) by {
        forall k | 0 <= k < |s| ensures IsBlank(s[k]) {
          if k < |p| { assert s[k] == p[k]; } else { assert s[k] == q[k - |p|]; }
        }
      }
      assert st == |s|;
    } else {
      assert s[|p|] == t[0];
      assert st == |p|;
      var e := |p| + |t|;
      assert s[e - 1] == t[|t| - 1];
      assert len == e;
      assert s[st..len] == t;
    }
  }

  /** Trimming a second time changes nothing, `trim` is the identity
      exactly on trimmed strings, and otherwise it shortens the string. */
  lemma TrimIdempotent(s: string)
    ensures Trim(Trim(s)) == Trim(s)
    ensures Trim(s) == s <==> IsTrimmed(s)
    ensures !IsTrimmed(s) ==> |Trim(s)| < |s|
  {
    TrimReturnsMiddle([], Trim(s), []);
    assert [] + Trim(s) + [] == Trim(s);
    if IsTrimmed(s) {
      TrimReturnsMiddle([], s, []);
      assert [] + s + [] == s;
    } else {
      var st := SkipLeading(s, 0);
      var len := SkipTrailing(s, st, |s|);
      assert Trim(s) == s[st..len];
    }
  }

  /** `Character.toUpperCase` on the modelled alphabet. */
  function ToUpper(c: char): char {
    if 'a' <= c <= 'z' || ('\U{E0}' <= c <= '\U{FE}' && c != '\U{F7}') then (c as int - 32) as char
    else c
  }

  /** `Character.toLowerCase` on the modelled alphabet. */
  function ToLower(c: char): char {
    if 'A' <= c <= 'Z' || ('\U{C0}' <= c <= '\U{DE}' && c != '\U{D7}') then (c as int + 32) as char
    else c
  }

  /** The per-character test of `String.regionMatches` with `ignoreCase`:
      equal, or equal upper cases, or equal lower cases of the upper cases. */
  predicate CharEqualsIgnoreCase(a: char, b: char) {
    a == b || ToUpper(a) == ToUpper(b) || ToLower(ToUpper(a)) == ToLower(ToUpper(b))
  }

  /** `String.equalsIgnoreCase`: same length, and equal character by character ignoring case. */
  predicate EqualsIgnoreCase(s: string, t: string) {
    |s| == |t| && forall k :: 0 <= k < |s| ==> CharEqualsIgnoreCase(s[k], t[k])
  }

  /** The canonical representative `CharEqualsIgnoreCase` compares. */
  function Fold(c: char): char {
    ToLower(ToUpper(c))
  }

  /** Ignoring case is an equivalence relation on strings: it is comparison
      of folded characters. */
  lemma EqualsIgnoreCaseIsEquivalence(s: string, t: string, u: string)
    ensures EqualsIgnoreCase(s, t) <==> |s| == |t| && forall k :: 0 <= k < |s| ==> Fold(s[k]) == Fold(t[k])
    ensures EqualsIgnoreCase(s, s)
    ensures EqualsIgnoreCase(s, t) ==> EqualsIgnoreCase(t, s)
    ensures EqualsIgnoreCase(s, t) && EqualsIgnoreCase(t, u) ==> EqualsIgnoreCase(s, u)
  {
    if EqualsIgnoreCase(s, t) && EqualsIgnoreCase(t, u) {
      assert forall k :: 0 <= k < |s| ==> Fold(s[k]) == Fold(t[k]) == Fold(u[k]);
    }
  }

  /** `String.hashCode`: `h = 31 * h + c` over the characters, in wrapping
      32-bit arithmetic. */
  function StringHash(s: string): Int32 {
    if |s| == 0 then 0 else Wrap(31 * StringHash(s[..|s| - 1]) + s[|s| - 1] as int)
  }
}
