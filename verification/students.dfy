/**
 * The student record (`Student` folded into `UniversityStudent`), its two
 * constructors, identity by name (`equals` / `hashCode`) and the `addFriend`
 * guard.
 *
 * The `roommate` field is not part of the record: the matching engine keeps
 * roommates in its own index arena (see module Roommates).
 */
module Students {
  import opened Wrappers
  import opened JavaInt

  /** The `gpa` double, kept as the text it was given as; floating point is not modelled. */
  datatype Gpa = Gpa(text: string)

  /**
   * A student profile. `major` and each internship entry may be `null` in
   * Java; the two lists themselves are never `null` once constructed.
   */
  datatype Student = Student(
    name: string,
    age: int32,
    gender: string,
    year: int32,
    major: Option<string>,
    gpa: Gpa,
    prefs: seq<string>,
    internships: seq<Option<string>>)

  /**
   * What a `Student`/`Object` reference can be when handed to
   * `calculateConnectionStrength` or `equals`: `null`, a `UniversityStudent`,
   * or an object of some other class.
   */
  datatype Ref = Null | University(student: Student) | OtherKind

  /**
   * The full constructor: `null` lists become empty lists, non-null lists
   * are copied element for element.
   */
  function Create(name: string, age: int32, gender: string, year: int32,
                  major: Option<string>, gpa: Gpa,
                  prefs: Option<seq<string>>,
                  internships: Option<seq<Option<string>>>): (s: Student)
    ensures s.name == name && s.age == age && s.gender == gender && s.year == year
    ensures s.major == major && s.gpa == gpa
    ensures prefs.None? ==> s.prefs == []
    ensures prefs.Some? ==> s.prefs == prefs.value
    ensures internships.None? ==> s.internships == []
    ensures internships.Some? ==> s.internships == internships.value
  {
    Student(name, age, gender, year, major, gpa, prefs.GetOr([]), internships.GetOr([]))
  }

  /** The name-only constructor: age 0, empty gender and major, no preferences or internships. */
  function NameOnly(name: string): (s: Student)
    ensures s.name == name && s.age == 0 && s.year == 0
    ensures s.major == Some([]) && s.gender == []
    ensures s.prefs == [] && s.internships == []
  {
    Create(name, 0, "", 0, Some(""), Gpa("0.0"), Some([]), Some([]))
  }

  /** `equals`: only another `UniversityStudent` with the same name is equal. */
  predicate Equals(a: Student, o: Ref) {
    o.University? && o.student.name == a.name
  }

  /** `equals` restricted to students is an equivalence relation. */
  lemma EqualsIsEquivalence(a: Student, b: Student, c: Student)
    ensures Equals(a, University(a))
    ensures Equals(a, University(b)) ==> Equals(b, University(a))
    ensures Equals(a, University(b)) && Equals(b, University(c)) ==> Equals(a, University(c))
    ensures !Equals(a, Null) && !Equals(a, OtherKind)
  {
  }

  /** `String.hashCode`: h = 31 * h + c over the characters, in 32-bit arithmetic. */
  function StringHash(s: string): int32
  {
    if s == [] then 0 else Wrap(31 * StringHash(s[..|s| - 1]) + s[|s| - 1] as int)
  }

  /** The textbook value of `String.hashCode` before wrap-around: sum of s[i] * 31^(n-1-i). */
  function Polynomial(s: string): int
  {
    if s == [] then 0 else 31 * Polynomial(s[..|s| - 1]) + s[|s| - 1] as int
  }

  /** Multiples of 2^32 are closed under the operations the hash uses. */
  lemma MultipleClosure(a: int, b: int)
    requires a % 0x1_0000_0000 == 0 && b % 0x1_0000_0000 == 0
    ensures (31 * a - b) % 0x1_0000_0000 == 0
  {
    var ka, kb := a / 0x1_0000_0000, b / 0x1_0000_0000;
    assert a == ka * 0x1_0000_0000;
    assert b == kb * 0x1_0000_0000;
    assert 31 * a - b == (31 * ka - kb) * 0x1_0000_0000;
  }

  /** The 32-bit string hash agrees with the polynomial hash modulo 2^32. */
  lemma {:induction false} StringHashIsPolynomial(s: string)
    ensures (StringHash(s) - Polynomial(s)) % 0x1_0000_0000 == 0
  {
    if s != [] {
      var t := s[..|s| - 1];
      var c := s[|s| - 1] as int;
      StringHashIsPolynomial(t);
      var x := 31 * StringHash(t) + c;
      assert StringHash(s) == Wrap(x);
      assert Polynomial(s) == 31 * Polynomial(t) + c;
      MultipleClosure(StringHash(t) - Polynomial(t), x - StringHash(s));
      assert StringHash(s) - Polynomial(s)
          == 31 * (StringHash(t) - Polynomial(t)) - (x - StringHash(s));
    }
  }

  /** `hashCode` is `Objects.hash(name)`, that is 31 + name.hashCode() in 32-bit arithmetic. */
  function HashCode(a: Student): (h: int32)
    ensures (h - (31 + Polynomial(a.name))) % 0x1_0000_0000 == 0
  {
    StringHashIsPolynomial(a.name);
    var h := Wrap(31 + StringHash(a.name));
    assert h - (31 + Polynomial(a.name))
        == (h - (31 + StringHash(a.name))) + (StringHash(a.name) - Polynomial(a.name));
    h
  }

  /** `equals` and `hashCode` agree: equal students have equal hash codes. */
  lemma HashRespectsEquals(a: Student, b: Student)
    requires Equals(a, University(b))
    ensures HashCode(a) == HashCode(b)
  {
  }

  /** Names are pairwise distinct, so name equality coincides with position in the list. */
  predicate DistinctNames(pop: seq<Student>) {
    forall i, j :: 0 <= i < j < |pop| ==> pop[i].name != pop[j].name
  }

  /**
   * `addFriend` on the friend set of student `me` of population `pop`: a
   * `null` argument or the student itself is ignored, otherwise the friend
   * is inserted into a set keyed by name equality.
   */
  function AddFriend(pop: seq<Student>, friends: set<string>, me: nat, s: Option<nat>): (r: set<string>)
    requires me < |pop|
    requires s.Some? ==> s.value < |pop|
    ensures s.None? || s.value == me ==> r == friends
    ensures friends <= r
    ensures forall n :: n in r - friends ==> s.Some? && s.value != me && n == pop[s.value].name
    ensures s.Some? && s.value != me ==> pop[s.value].name in r
  {
    if s.None? || s.value == me then friends else friends + {pop[s.value].name}
  }

  /** Adding the same friend twice is the same as adding it once. */
  lemma AddFriendIdempotent(pop: seq<Student>, friends: set<string>, me: nat, s: Option<nat>)
    requires me < |pop|
    requires s.Some? ==> s.value < |pop|
    ensures AddFriend(pop, AddFriend(pop, friends, me, s), me, s) == AddFriend(pop, friends, me, s)
  {
  }
}
