/**
 * The literal populations of the repository's demonstration test driver
 * (src/Main.java, test cases 1 to 3) and what the model computes on them.
 */
module Scenarios {
  import opened Wrappers
  import opened Students
  import opened Scoring
  import opened Graphs
  import opened Roommates
  import Text

  function Alice(): Student {
    Create("Alice", 20, "Female", 2, Some("Computer Science"), Gpa("3.5"),
           Some(["Bob", "Charlie", "Frank"]), Some([Some("Google")]))
  }
  function Bob(): Student {
    Create("Bob", 21, "Male", 3, Some("Computer Science"), Gpa("3.7"),
           Some(["Alice", "Charlie", "Frank"]), Some([Some("Google"), Some("Microsoft")]))
  }
  function Charlie(): Student {
    Create("Charlie", 20, "Male", 2, Some("Mathematics"), Gpa("3.2"),
           Some(["Alice", "Bob", "Frank"]), Some([Some("None")]))
  }
  function Frank(): Student {
    Create("Frank", 23, "Male", 3, Some("Chemistry"), Gpa("3.1"),
           Some(["Alice", "Bob", "Charlie"]), Some([]))
  }
  function Dana(): Student {
    Create("Dana", 22, "Female", 4, Some("Biology"), Gpa("3.8"),
           Some(["Evan"]), Some([Some("Pfizer")]))
  }
  function Evan(): Student {
    Create("Evan", 22, "Male", 4, Some("Biology"), Gpa("3.6"),
           Some(["Dana"]), Some([Some("Moderna"), Some("Pfizer")]))
  }

  /** Test case 1: a group of four with full mutual preferences, and a pair. */
  function TestCase1(): seq<Student> {
    [Alice(), Bob(), Charlie(), Frank(), Dana(), Evan()]
  }

  function Greg(): Student {
    Create("Greg", 24, "Male", 4, Some("Economics"), Gpa("3.4"),
           Some(["Helen", "Ivy"]), Some([Some("InternshipA")]))
  }
  function Helen(): Student {
    Create("Helen", 24, "Female", 4, Some("Economics"), Gpa("3.5"),
           Some(["Greg", "Ivy"]), Some([Some("InternshipB")]))
  }
  function Ivy(): Student {
    Create("Ivy", 25, "Female", 4, Some("Economics"), Gpa("3.8"),
           Some(["Helen", "Greg"]), Some([Some("DummyCompany")]))
  }

  /** Test case 2: three students with mutual preferences. */
  function TestCase2(): seq<Student> {
    [Greg(), Helen(), Ivy()]
  }

  function Jack(): Student {
    Create("Jack", 19, "Male", 1, Some("History"), Gpa("3.0"),
           Some(["Kim"]), Some([Some("MuseumIntern")]))
  }
  function Kim(): Student {
    Create("Kim", 19, "Female", 1, Some("History"), Gpa("3.2"),
           Some(["Jack"]), Some([Some("MuseumIntern")]))
  }
  function Leo(): Student {
    Create("Leo", 20, "Male", 1, Some("History"), Gpa("3.5"),
           Some([]), Some([Some("None")]))
  }

  /** Test case 3: a mutual pair and a student without preferences. */
  function TestCase3(): seq<Student> {
    [Jack(), Kim(), Leo()]
  }

  /** Two students who name each other, and a third with an empty list. */
  predicate PairAndLoner(pop: seq<Student>) {
    && |pop| == 3 && DistinctNames(pop)
    && pop[0].prefs == [pop[1].name] && pop[1].prefs == [pop[0].name] && pop[2].prefs == []
  }

  lemma PairAndLonerQueue(pop: seq<Student>)
    requires PairAndLoner(pop)
    ensures Proposers(pop, 3) == [0, 1]
  {
    assert Proposers(pop, 1) == [0];
    assert Proposers(pop, 2) == [0, 1];
  }

  lemma PairAndLonerStart(pop: seq<Student>)
    requires PairAndLoner(pop)
    ensures Init(pop) == State([None, None, None], [0, 0, 0], [0, 1])
  {
    PairAndLonerQueue(pop);
  }

  lemma PairAndLonerStep0(pop: seq<Student>)
    requires PairAndLoner(pop)
    requires Inv(pop, State([None, None, None], [0, 0, 0], [0, 1]))
    ensures Step(pop, State([None, None, None], [0, 0, 0], [0, 1]))
         == State([Some(1), Some(0), None], [1, 0, 0], [1])
  {
    LookupDistinct(pop, 1);
  }

  lemma PairAndLonerStep1(pop: seq<Student>)
    requires PairAndLoner(pop)
    requires Inv(pop, State([Some(1), Some(0), None], [1, 0, 0], [1]))
    ensures Step(pop, State([Some(1), Some(0), None], [1, 0, 0], [1]))
         == State([Some(1), Some(0), None], [1, 1, 0], [])
  {
    LookupDistinct(pop, 0);
  }

  lemma PairAndLonerProposals(pop: seq<Student>)
    requires PairAndLoner(pop)
    ensures Propose(pop, Init(pop)).roommate == [Some(1), Some(0), None]
  {
    var s0 := State([None, None, None], [0, 0, 0], [0, 1]);
    var s1 := State([Some(1), Some(0), None], [1, 0, 0], [1]);
    var s2 := State([Some(1), Some(0), None], [1, 1, 0], []);
    PairAndLonerStart(pop);
    PairAndLonerStep0(pop);
    assert Propose(pop, s0) == Propose(pop, s1);
    PairAndLonerStep1(pop);
    assert Propose(pop, s1) == s2;
  }

  /**
   * Two students who name each other, and a third with an empty list: the
   * pair rooms together and the third stays unpaired.
   */
  lemma MutualPairAndLoner(pop: seq<Student>)
    requires PairAndLoner(pop)
    ensures AssignRoommates(Some(pop)) == Some([Some(1), Some(0), None])
  {
    PairAndLonerProposals(pop);
    SweepOfReciprocal([Some(1), Some(0), None]);
  }

  /** Test case 3: Jack and Kim room together, Leo stays unpaired. */
  lemma TestCase3Matching()
    ensures AssignRoommates(Some(TestCase3())) == Some([Some(1), Some(0), None])
    ensures Unpaired(TestCase3(), [Some(1), Some(0), None], 3) == 0
  {
    var pop := TestCase3();
    assert pop[0].name == "Jack" && pop[1].name == "Kim" && pop[2].name == "Leo";
    assert pop[0].prefs == ["Kim"] && pop[1].prefs == ["Jack"] && pop[2].prefs == [];
    assert PairAndLoner(pop);
    MutualPairAndLoner(pop);
  }

  /** A student known only by a name and a preference list. */
  function Plain(name: string, prefs: seq<string>): Student {
    Create(name, 20, "Female", 1, None, Gpa("3.0"), Some(prefs), None)
  }

  /** Only the first of two students names the other; the second names nobody. */
  predicate OneSided(pop: seq<Student>) {
    |pop| == 2 && pop[0].name != pop[1].name && pop[0].prefs == [pop[1].name] && pop[1].prefs == []
  }

  lemma OneSidedQueue(pop: seq<Student>)
    requires OneSided(pop)
    ensures Proposers(pop, 2) == [0]
  {
    assert Proposers(pop, 1) == [0];
  }

  lemma OneSidedStart(pop: seq<Student>)
    requires OneSided(pop)
    ensures Init(pop) == State([None, None], [0, 0], [0])
  {
    OneSidedQueue(pop);
  }

  lemma OneSidedStep(pop: seq<Student>)
    requires OneSided(pop)
    requires Inv(pop, State([None, None], [0, 0], [0]))
    ensures Step(pop, State([None, None], [0, 0], [0])) == State([Some(1), Some(0)], [1, 0], [])
  {
    LookupDistinct(pop, 1);
  }

  /**
   * When only the first of two students names the other, the second never
   * proposes but is still taken as the first one's roommate.
   */
  lemma OneSidedPair(pop: seq<Student>)
    requires OneSided(pop)
    ensures AssignRoommates(Some(pop)) == Some([Some(1), Some(0)])
  {
    var s1 := State([Some(1), Some(0)], [1, 0], []);
    OneSidedStart(pop);
    OneSidedStep(pop);
    assert Propose(pop, Init(pop)) == s1;
    SweepOfReciprocal(s1.roommate);
  }

  /**
   * A student with an empty preference list never proposes, but is still
   * taken as a roommate when somebody proposes to them.
   */
  lemma EmptyPreferencesCanBePaired()
    ensures AssignRoommates(Some([Plain("Ana", ["Ben"]), Plain("Ben", [])]))
         == Some([Some(1), Some(0)])
  {
    var pop := [Plain("Ana", ["Ben"]), Plain("Ben", [])];
    assert OneSided(pop);
    OneSidedPair(pop);
  }

  lemma LoneStart(pop: seq<Student>)
    requires |pop| == 1 && pop[0].prefs == [pop[0].name]
    ensures Init(pop) == State([None], [0], [0])
  {
    assert Proposers(pop, 1) == [0];
  }

  lemma LoneStep(pop: seq<Student>)
    requires |pop| == 1 && pop[0].prefs == [pop[0].name]
    requires Inv(pop, State([None], [0], [0]))
    ensures Step(pop, State([None], [0], [0])) == State([Some(0)], [1], [])
  {
    LookupDistinct(pop, 0);
  }

  /** A lone student whose list names only themself ends up as their own roommate. */
  lemma LoneSelfChooser(pop: seq<Student>)
    requires |pop| == 1 && pop[0].prefs == [pop[0].name]
    ensures AssignRoommates(Some(pop)) == Some([Some(0)])
  {
    var s1 := State([Some(0)], [1], []);
    LoneStart(pop);
    LoneStep(pop);
    assert Propose(pop, Init(pop)) == s1;
    SweepOfReciprocal(s1.roommate);
  }

  lemma SelfPairing()
    ensures AssignRoommates(Some([Plain("Ana", ["Ana"])])) == Some([Some(0)])
  {
    LoneSelfChooser([Plain("Ana", ["Ana"])]);
  }

  /**
   * The preference bonus looks a name up case-sensitively, unlike the
   * internship and major comparisons: "ben" does not earn it for "Ben".
   */
  lemma PreferenceIsCaseSensitive()
    ensures Score(Plain("Ana", ["ben"]), University(Plain("Ben", []))) == 1
    ensures Score(Plain("Ana", ["Ben"]), University(Plain("Ben", []))) == 5
  {
    assert "Ben" != "ben";
  }

  /**
   * Empty internship entries are not "None" and so match each other; the
   * literal "NONE" never matches, not even itself.
   */
  lemma InternshipMarkers()
    ensures SharedCount([Some("")], [Some("")]) == 1
    ensures SharedCount([Some("NONE")], [Some("NONE"), Some("none")]) == 0
    ensures SharedCount([None], [None]) == 0
  {
    var ys := [Some("NONE"), Some("none")];
    assert !Counts(Some("NONE"));
    assert ys[..1] == [Some("NONE")] && ys[..1][..0] == [];
    assert RowMatches(Some("NONE"), ys) == 0;
    assert [Some("NONE")][..0] == [];
  }

  /**
   * An internship that appears once in a two-entry list, next to an entry
   * that differs from it even ignoring case, makes exactly one sharing pair.
   */
  lemma OneSharedInternship(c: string, d: string)
    requires Counts(Some(c)) && !Text.EqualsIgnoreCase(c, d)
    ensures SharedCount([Some(c)], [Some(c), Some(d)]) == 1
    ensures SharedCount([Some(c)], [Some(d), Some(c)]) == 1
  {
    Text.EqualsIgnoreCaseIsEquivalence(c, d, c);
    assert Shared(Some(c), Some(c)) && !Shared(Some(c), Some(d));
    var ys, zs := [Some(c), Some(d)], [Some(d), Some(c)];
    assert ys[..1] == [Some(c)] && ys[..1][..0] == [];
    assert zs[..1] == [Some(d)] && zs[..1][..0] == [];
    assert RowMatches(Some(c), ys[..1]) == 1;
    assert RowMatches(Some(c), ys) == 1;
    assert RowMatches(Some(c), zs) == 1;
    assert [Some(c)][..0] == [];
  }

  /** Scores and edge weights among the students of test case 1. */
  lemma TestCase1Weights()
    ensures Score(Alice(), University(Bob())) == 9 && Weight(Alice(), Bob()) == 9
    ensures Score(Dana(), University(Evan())) == 10 && Weight(Dana(), Evan()) == 10
    ensures Score(Alice(), University(Charlie())) == 5 && Weight(Alice(), Charlie()) == 5
  {
    assert !Text.EqualsIgnoreCase("Google", "None") && !Text.EqualsIgnoreCase("Google", "Microsoft");
    OneSharedInternship("Google", "Microsoft");
    SharedCountSymmetric([Some("Google")], [Some("Google"), Some("Microsoft")]);
    assert !Text.EqualsIgnoreCase("Pfizer", "None") && !Text.EqualsIgnoreCase("Pfizer", "Moderna");
    OneSharedInternship("Pfizer", "Moderna");
    SharedCountSymmetric([Some("Pfizer")], [Some("Moderna"), Some("Pfizer")]);
    assert Text.EqualsIgnoreCase("Computer Science", "Computer Science");
    assert Text.EqualsIgnoreCase("Biology", "Biology");
  }

  /**
   * Jack's adjacency list in test case 3: Kim with weight 10 (preference,
   * shared internship, major and age) and Leo with weight 2 (major only).
   */
  lemma TestCase3JackRow()
    ensures FullRow(TestCase3(), 0) == [Edge(Kim(), 10), Edge(Leo(), 2)]
  {
    JackKimWeight();
    JackLeoWeight();
    FirstRowOfThree(TestCase3());
  }

  lemma JackKimWeight()
    ensures Weight(Jack(), Kim()) == 10
  {
  }

  lemma JackLeoWeight()
    ensures Weight(Jack(), Leo()) == 2
  {
  }

  /** In a population of three, the first node's list holds the other two, in order. */
  lemma FirstRowOfThree(p: seq<Student>)
    requires |p| == 3
    ensures FullRow(p, 0) == [Edge(p[1], Weight(p[0], p[1])), Edge(p[2], Weight(p[0], p[2]))]
  {
    assert Span(p, 0, 1) == [];
    assert Span(p, 0, 2) == [Edge(p[1], Weight(p[0], p[1]))];
  }

  /**
   * The test driver's count of students who have preferences but end up
   * without a roommate ("unpairedCount"), over the positions before `k`.
   */
  function Unpaired(pop: seq<Student>, rm: seq<Option<nat>>, k: nat): nat
    requires k <= |pop| == |rm|
  {
    if k == 0 then 0
    else Unpaired(pop, rm, k - 1) + (if |pop[k - 1].prefs| > 0 && rm[k - 1].None? then 1 else 0)
  }

  /** The names and preference lists of test case 2, position by position. */
  predicate Case2Shape(pop: seq<Student>) {
    && |pop| == 3
    && pop[0].name == "Greg" && pop[0].prefs == ["Helen", "Ivy"]
    && pop[1].name == "Helen" && pop[1].prefs == ["Greg", "Ivy"]
    && pop[2].name == "Ivy" && pop[2].prefs == ["Helen", "Greg"]
  }

  lemma Case2Facts()
    ensures Case2Shape(TestCase2())
  {
  }

  lemma Case2Distinct(pop: seq<Student>)
    requires Case2Shape(pop)
    ensures DistinctNames(pop)
  {
  }

  lemma Case2Lookup0(pop: seq<Student>)
    requires Case2Shape(pop)
    ensures Lookup(pop, "Greg") == Some(0)
  {
    Case2Distinct(pop);
    LookupDistinct(pop, 0);
  }

  /** How Greg ranks the students on their list. */
  lemma Case2Ranks0(pop: seq<Student>)
    requires Case2Shape(pop)
    ensures IndexOfPreference(pop[0].prefs, pop[1].name) == 0
    ensures IndexOfPreference(pop[0].prefs, pop[2].name) == 1
  {
    assert !Text.EqualsIgnoreCase("Helen", "Ivy");
    assert IndexFrom(["Helen", "Ivy"], "Ivy", 0) == IndexFrom(["Helen", "Ivy"], "Ivy", 1);
  }

  lemma Case2Lookup1(pop: seq<Student>)
    requires Case2Shape(pop)
    ensures Lookup(pop, "Helen") == Some(1)
  {
    Case2Distinct(pop);
    LookupDistinct(pop, 1);
  }

  /** How Helen ranks the students on their list. */
  lemma Case2Ranks1(pop: seq<Student>)
    requires Case2Shape(pop)
    ensures IndexOfPreference(pop[1].prefs, pop[0].name) == 0
    ensures IndexOfPreference(pop[1].prefs, pop[2].name) == 1
  {
    assert !Text.EqualsIgnoreCase("Greg", "Ivy");
    assert IndexFrom(["Greg", "Ivy"], "Ivy", 0) == IndexFrom(["Greg", "Ivy"], "Ivy", 1);
  }

  lemma Case2Lookup2(pop: seq<Student>)
    requires Case2Shape(pop)
    ensures Lookup(pop, "Ivy") == Some(2)
  {
    Case2Distinct(pop);
    LookupDistinct(pop, 2);
  }

  /** How Ivy ranks the students on their list. */
  lemma Case2Ranks2(pop: seq<Student>)
    requires Case2Shape(pop)
    ensures IndexOfPreference(pop[2].prefs, pop[1].name) == 0
    ensures IndexOfPreference(pop[2].prefs, pop[0].name) == 1
  {
    assert !Text.EqualsIgnoreCase("Helen", "Greg");
    assert IndexFrom(["Helen", "Greg"], "Greg", 0) == IndexFrom(["Helen", "Greg"], "Greg", 1);
  }

  lemma Case2Queue(pop: seq<Student>)
    requires Case2Shape(pop)
    ensures Proposers(pop, 3) == [0, 1, 2]
  {
    ProposersAll(pop, 3);
  }

  lemma Case2Start(pop: seq<Student>)
    requires Case2Shape(pop)
    ensures Init(pop) == State([None, None, None], [0, 0, 0], [0, 1, 2])
  {
    Case2Queue(pop);
    assert Init(pop).roommate == [None, None, None];
    assert Init(pop).next == [0, 0, 0];
  }

  lemma Case2Step0(pop: seq<Student>)
    requires Case2Shape(pop)
    requires Inv(pop, State([None, None, None], [0, 0, 0], [0, 1, 2]))
    ensures Step(pop, State([None, None, None], [0, 0, 0], [0, 1, 2]))
         == State([Some(1), Some(0), None], [1, 0, 0], [1, 2])
  {
    Case2Lookup1(pop);
  }

  lemma Case2Step1(pop: seq<Student>)
    requires Case2Shape(pop)
    requires Inv(pop, State([Some(1), Some(0), None], [1, 0, 0], [1, 2]))
    ensures Step(pop, State([Some(1), Some(0), None], [1, 0, 0], [1, 2]))
         == State([Some(1), Some(0), None], [1, 1, 0], [2, 1])
  {
    Case2Lookup0(pop);
    Case2Ranks0(pop);
  }

  lemma Case2Step2(pop: seq<Student>)
    requires Case2Shape(pop)
    requires Inv(pop, State([Some(1), Some(0), None], [1, 1, 0], [2, 1]))
    ensures Step(pop, State([Some(1), Some(0), None], [1, 1, 0], [2, 1]))
         == State([Some(1), Some(0), None], [1, 1, 1], [1, 2])
  {
    Case2Lookup1(pop);
    Case2Ranks1(pop);
  }

  lemma Case2Step3(pop: seq<Student>)
    requires Case2Shape(pop)
    requires Inv(pop, State([Some(1), Some(0), None], [1, 1, 1], [1, 2]))
    ensures Step(pop, State([Some(1), Some(0), None], [1, 1, 1], [1, 2]))
         == State([Some(1), Some(2), Some(1)], [1, 2, 1], [2])
  {
    Case2Lookup2(pop);
  }

  lemma Case2Step4(pop: seq<Student>)
    requires Case2Shape(pop)
    requires Inv(pop, State([Some(1), Some(2), Some(1)], [1, 2, 1], [2]))
    ensures Step(pop, State([Some(1), Some(2), Some(1)], [1, 2, 1], [2]))
         == State([Some(1), Some(2), Some(1)], [1, 2, 2], [])
  {
    Case2Lookup0(pop);
    Case2Ranks0(pop);
  }

  lemma Case2Proposals(pop: seq<Student>)
    requires Case2Shape(pop)
    ensures Propose(pop, Init(pop)).roommate == State([Some(1), Some(2), Some(1)], [1, 2, 2], []).roommate
  {
    Case2Start(pop);
    Case2Step0(pop);
    assert Propose(pop, State([None, None, None], [0, 0, 0], [0, 1, 2])) == Propose(pop, State([Some(1), Some(0), None], [1, 0, 0], [1, 2]));
    Case2Step1(pop);
    assert Propose(pop, State([Some(1), Some(0), None], [1, 0, 0], [1, 2])) == Propose(pop, State([Some(1), Some(0), None], [1, 1, 0], [2, 1]));
    Case2Step2(pop);
    assert Propose(pop, State([Some(1), Some(0), None], [1, 1, 0], [2, 1])) == Propose(pop, State([Some(1), Some(0), None], [1, 1, 1], [1, 2]));
    Case2Step3(pop);
    assert Propose(pop, State([Some(1), Some(0), None], [1, 1, 1], [1, 2])) == Propose(pop, State([Some(1), Some(2), Some(1)], [1, 2, 1], [2]));
    Case2Step4(pop);
    assert Propose(pop, State([Some(1), Some(2), Some(1)], [1, 2, 1], [2])) == Propose(pop, State([Some(1), Some(2), Some(1)], [1, 2, 2], []));
  }

  /** The names and preference lists of test case 1, position by position. */
  predicate Case1Shape(pop: seq<Student>) {
    && |pop| == 6
    && pop[0].name == "Alice" && pop[0].prefs == ["Bob", "Charlie", "Frank"]
    && pop[1].name == "Bob" && pop[1].prefs == ["Alice", "Charlie", "Frank"]
    && pop[2].name == "Charlie" && pop[2].prefs == ["Alice", "Bob", "Frank"]
    && pop[3].name == "Frank" && pop[3].prefs == ["Alice", "Bob", "Charlie"]
    && pop[4].name == "Dana" && pop[4].prefs == ["Evan"]
    && pop[5].name == "Evan" && pop[5].prefs == ["Dana"]
  }

  lemma Case1Facts()
    ensures Case1Shape(TestCase1())
  {
  }

  lemma Case1Distinct(pop: seq<Student>)
    requires Case1Shape(pop)
    ensures DistinctNames(pop)
  {
  }

  lemma Case1Lookup0(pop: seq<Student>)
    requires Case1Shape(pop)
    ensures Lookup(pop, "Alice") == Some(0)
  {
    Case1Distinct(pop);
    LookupDistinct(pop, 0);
  }

  /** How Alice ranks the students on their list. */
  lemma Case1Ranks0(pop: seq<Student>)
    requires Case1Shape(pop)
    ensures IndexOfPreference(pop[0].prefs, pop[1].name) == 0
    ensures IndexOfPreference(pop[0].prefs, pop[2].name) == 1
    ensures IndexOfPreference(pop[0].prefs, pop[3].name) == 2
  {
    assert !Text.EqualsIgnoreCase("Bob", "Charlie");
    assert IndexFrom(["Bob", "Charlie", "Frank"], "Charlie", 0) == IndexFrom(["Bob", "Charlie", "Frank"], "Charlie", 1);
    assert !Text.EqualsIgnoreCase("Bob", "Frank");
    assert !Text.EqualsIgnoreCase("Charlie", "Frank");
    assert IndexFrom(["Bob", "Charlie", "Frank"], "Frank", 0) == IndexFrom(["Bob", "Charlie", "Frank"], "Frank", 1);
    assert IndexFrom(["Bob", "Charlie", "Frank"], "Frank", 1) == IndexFrom(["Bob", "Charlie", "Frank"], "Frank", 2);
  }

  lemma Case1Lookup1(pop: seq<Student>)
    requires Case1Shape(pop)
    ensures Lookup(pop, "Bob") == Some(1)
  {
    Case1Distinct(pop);
    LookupDistinct(pop, 1);
  }

  /** How Bob ranks the students on their list. */
  lemma Case1Ranks1(pop: seq<Student>)
    requires Case1Shape(pop)
    ensures IndexOfPreference(pop[1].prefs, pop[0].name) == 0
    ensures IndexOfPreference(pop[1].prefs, pop[2].name) == 1
    ensures IndexOfPreference(pop[1].prefs, pop[3].name) == 2
  {
    assert !Text.EqualsIgnoreCase("Alice", "Charlie");
    assert IndexFrom(["Alice", "Charlie", "Frank"], "Charlie", 0) == IndexFrom(["Alice", "Charlie", "Frank"], "Charlie", 1);
    assert Text.Fold("Alice")[0] != Text.Fold("Frank")[0];
    assert !Text.EqualsIgnoreCase("Alice", "Frank");
    assert !Text.EqualsIgnoreCase("Charlie", "Frank");
    assert IndexFrom(["Alice", "Charlie", "Frank"], "Frank", 0) == IndexFrom(["Alice", "Charlie", "Frank"], "Frank", 1);
    assert IndexFrom(["Alice", "Charlie", "Frank"], "Frank", 1) == IndexFrom(["Alice", "Charlie", "Frank"], "Frank", 2);
  }

  lemma Case1Lookup2(pop: seq<Student>)
    requires Case1Shape(pop)
    ensures Lookup(pop, "Charlie") == Some(2)
  {
    Case1Distinct(pop);
    LookupDistinct(pop, 2);
  }

  /** How Charlie ranks the students on their list. */
  lemma Case1Ranks2(pop: seq<Student>)
    requires Case1Shape(pop)
    ensures IndexOfPreference(pop[2].prefs, pop[0].name) == 0
    ensures IndexOfPreference(pop[2].prefs, pop[1].name) == 1
    ensures IndexOfPreference(pop[2].prefs, pop[3].name) == 2
  {
    assert !Text.EqualsIgnoreCase("Alice", "Bob");
    assert IndexFrom(["Alice", "Bob", "Frank"], "Bob", 0) == IndexFrom(["Alice", "Bob", "Frank"], "Bob", 1);
    assert Text.Fold("Alice")[0] != Text.Fold("Frank")[0];
    assert !Text.EqualsIgnoreCase("Alice", "Frank");
    assert !Text.EqualsIgnoreCase("Bob", "Frank");
    assert IndexFrom(["Alice", "Bob", "Frank"], "Frank", 0) == IndexFrom(["Alice", "Bob", "Frank"], "Frank", 1);
    assert IndexFrom(["Alice", "Bob", "Frank"], "Frank", 1) == IndexFrom(["Alice", "Bob", "Frank"], "Frank", 2);
  }

  lemma Case1Lookup3(pop: seq<Student>)
    requires Case1Shape(pop)
    ensures Lookup(pop, "Frank") == Some(3)
  {
    Case1Distinct(pop);
    LookupDistinct(pop, 3);
  }

  /** How Frank ranks the students on their list. */
  lemma Case1Ranks3(pop: seq<Student>)
    requires Case1Shape(pop)
    ensures IndexOfPreference(pop[3].prefs, pop[0].name) == 0
    ensures IndexOfPreference(pop[3].prefs, pop[1].name) == 1
    ensures IndexOfPreference(pop[3].prefs, pop[2].name) == 2
  {
    assert !Text.EqualsIgnoreCase("Alice", "Bob");
    assert IndexFrom(["Alice", "Bob", "Charlie"], "Bob", 0) == IndexFrom(["Alice", "Bob", "Charlie"], "Bob", 1);
    assert !Text.EqualsIgnoreCase("Alice", "Charlie");
    assert !Text.EqualsIgnoreCase("Bob", "Charlie");
    assert IndexFrom(["Alice", "Bob", "Charlie"], "Charlie", 0) == IndexFrom(["Alice", "Bob", "Charlie"], "Charlie", 1);
    assert IndexFrom(["Alice", "Bob", "Charlie"], "Charlie", 1) == IndexFrom(["Alice", "Bob", "Charlie"], "Charlie", 2);
  }

  lemma Case1Lookup4(pop: seq<Student>)
    requires Case1Shape(pop)
    ensures Lookup(pop, "Dana") == Some(4)
  {
    Case1Distinct(pop);
    LookupDistinct(pop, 4);
  }

  /** How Dana ranks the students on their list. */
  lemma Case1Ranks4(pop: seq<Student>)
    requires Case1Shape(pop)
    ensures IndexOfPreference(pop[4].prefs, pop[5].name) == 0
  {
  }

  lemma Case1Lookup5(pop: seq<Student>)
    requires Case1Shape(pop)
    ensures Lookup(pop, "Evan") == Some(5)
  {
    Case1Distinct(pop);
    LookupDistinct(pop, 5);
  }

  /** How Evan ranks the students on their list. */
  lemma Case1Ranks5(pop: seq<Student>)
    requires Case1Shape(pop)
    ensures IndexOfPreference(pop[5].prefs, pop[4].name) == 0
  {
  }

  lemma Case1Queue(pop: seq<Student>)
    requires Case1Shape(pop)
    ensures Proposers(pop, 6) == [0, 1, 2, 3, 4, 5]
  {
    ProposersAll(pop, 6);
  }

  lemma Case1Start(pop: seq<Student>)
    requires Case1Shape(pop)
    ensures Init(pop) == State([None, None, None, None, None, None], [0, 0, 0, 0, 0, 0], [0, 1, 2, 3, 4, 5])
  {
    Case1Queue(pop);
    assert Init(pop).roommate == [None, None, None, None, None, None];
    assert Init(pop).next == [0, 0, 0, 0, 0, 0];
  }

  lemma Case1Step0(pop: seq<Student>)
    requires Case1Shape(pop)
    requires Inv(pop, State([None, None, None, None, None, None], [0, 0, 0, 0, 0, 0], [0, 1, 2, 3, 4, 5]))
    ensures Step(pop, State([None, None, None, None, None, None], [0, 0, 0, 0, 0, 0], [0, 1, 2, 3, 4, 5]))
         == State([Some(1), Some(0), None, None, None, None], [1, 0, 0, 0, 0, 0], [1, 2, 3, 4, 5])
  {
    Case1Lookup1(pop);
  }

  lemma Case1Step1(pop: seq<Student>)
    requires Case1Shape(pop)
    requires Inv(pop, State([Some(1), Some(0), None, None, None, None], [1, 0, 0, 0, 0, 0], [1, 2, 3, 4, 5]))
    ensures Step(pop, State([Some(1), Some(0), None, None, None, None], [1, 0, 0, 0, 0, 0], [1, 2, 3, 4, 5]))
         == State([Some(1), Some(0), None, None, None, None], [1, 1, 0, 0, 0, 0], [2, 3, 4, 5, 1])
  {
    Case1Lookup0(pop);
    Case1Ranks0(pop);
  }

  lemma Case1Step2(pop: seq<Student>)
    requires Case1Shape(pop)
    requires Inv(pop, State([Some(1), Some(0), None, None, None, None], [1, 1, 0, 0, 0, 0], [2, 3, 4, 5, 1]))
    ensures Step(pop, State([Some(1), Some(0), None, None, None, None], [1, 1, 0, 0, 0, 0], [2, 3, 4, 5, 1]))
         == State([Some(1), Some(0), None, None, None, None], [1, 1, 1, 0, 0, 0], [3, 4, 5, 1, 2])
  {
    Case1Lookup0(pop);
    Case1Ranks0(pop);
  }

  lemma Case1Step3(pop: seq<Student>)
    requires Case1Shape(pop)
    requires Inv(pop, State([Some(1), Some(0), None, None, None, None], [1, 1, 1, 0, 0, 0], [3, 4, 5, 1, 2]))
    ensures Step(pop, State([Some(1), Some(0), None, None, None, None], [1, 1, 1, 0, 0, 0], [3, 4, 5, 1, 2]))
         == State([Some(1), Some(0), None, None, None, None], [1, 1, 1, 1, 0, 0], [4, 5, 1, 2, 3])
  {
    Case1Lookup0(pop);
    Case1Ranks0(pop);
  }

  lemma Case1Step4(pop: seq<Student>)
    requires Case1Shape(pop)
    requires Inv(pop, State([Some(1), Some(0), None, None, None, None], [1, 1, 1, 1, 0, 0], [4, 5, 1, 2, 3]))
    ensures Step(pop, State([Some(1), Some(0), None, None, None, None], [1, 1, 1, 1, 0, 0], [4, 5, 1, 2, 3]))
         == State([Some(1), Some(0), None, None, Some(5), Some(4)], [1, 1, 1, 1, 1, 0], [5, 1, 2, 3])
  {
    Case1Lookup5(pop);
  }

  lemma Case1Step5(pop: seq<Student>)
    requires Case1Shape(pop)
    requires Inv(pop, State([Some(1), Some(0), None, None, Some(5), Some(4)], [1, 1, 1, 1, 1, 0], [5, 1, 2, 3]))
    ensures Step(pop, State([Some(1), Some(0), None, None, Some(5), Some(4)], [1, 1, 1, 1, 1, 0], [5, 1, 2, 3]))
         == State([Some(1), Some(0), None, None, Some(5), Some(4)], [1, 1, 1, 1, 1, 1], [1, 2, 3])
  {
    Case1Lookup4(pop);
    Case1Ranks4(pop);
  }

  lemma Case1Step6(pop: seq<Student>)
    requires Case1Shape(pop)
    requires Inv(pop, State([Some(1), Some(0), None, None, Some(5), Some(4)], [1, 1, 1, 1, 1, 1], [1, 2, 3]))
    ensures Step(pop, State([Some(1), Some(0), None, None, Some(5), Some(4)], [1, 1, 1, 1, 1, 1], [1, 2, 3]))
         == State([Some(1), Some(2), Some(1), None, Some(5), Some(4)], [1, 2, 1, 1, 1, 1], [2, 3])
  {
    Case1Lookup2(pop);
  }

  lemma Case1Step7(pop: seq<Student>)
    requires Case1Shape(pop)
    requires Inv(pop, State([Some(1), Some(2), Some(1), None, Some(5), Some(4)], [1, 2, 1, 1, 1, 1], [2, 3]))
    ensures Step(pop, State([Some(1), Some(2), Some(1), None, Some(5), Some(4)], [1, 2, 1, 1, 1, 1], [2, 3]))
         == State([Some(1), Some(2), Some(1), None, Some(5), Some(4)], [1, 2, 2, 1, 1, 1], [3, 2])
  {
    Case1Lookup1(pop);
    Case1Ranks1(pop);
  }

  lemma Case1Step8(pop: seq<Student>)
    requires Case1Shape(pop)
    requires Inv(pop, State([Some(1), Some(2), Some(1), None, Some(5), Some(4)], [1, 2, 2, 1, 1, 1], [3, 2]))
    ensures Step(pop, State([Some(1), Some(2), Some(1), None, Some(5), Some(4)], [1, 2, 2, 1, 1, 1], [3, 2]))
         == State([Some(1), Some(2), Some(1), None, Some(5), Some(4)], [1, 2, 2, 2, 1, 1], [2, 3])
  {
    Case1Lookup1(pop);
    Case1Ranks1(pop);
  }

  lemma Case1Step9(pop: seq<Student>)
    requires Case1Shape(pop)
    requires Inv(pop, State([Some(1), Some(2), Some(1), None, Some(5), Some(4)], [1, 2, 2, 2, 1, 1], [2, 3]))
    ensures Step(pop, State([Some(1), Some(2), Some(1), None, Some(5), Some(4)], [1, 2, 2, 2, 1, 1], [2, 3]))
         == State([Some(1), Some(2), Some(3), Some(2), Some(5), Some(4)], [1, 2, 3, 2, 1, 1], [3])
  {
    Case1Lookup3(pop);
  }

  lemma Case1Step10(pop: seq<Student>)
    requires Case1Shape(pop)
    requires Inv(pop, State([Some(1), Some(2), Some(3), Some(2), Some(5), Some(4)], [1, 2, 3, 2, 1, 1], [3]))
    ensures Step(pop, State([Some(1), Some(2), Some(3), Some(2), Some(5), Some(4)], [1, 2, 3, 2, 1, 1], [3]))
         == State([Some(1), Some(2), Some(3), Some(2), Some(5), Some(4)], [1, 2, 3, 3, 1, 1], [])
  {
    Case1Lookup2(pop);
    Case1Ranks2(pop);
  }

  lemma Case1Proposals(pop: seq<Student>)
    requires Case1Shape(pop)
    ensures Propose(pop, Init(pop)).roommate == State([Some(1), Some(2), Some(3), Some(2), Some(5), Some(4)], [1, 2, 3, 3, 1, 1], []).roommate
  {
    Case1Start(pop);
    Case1Step0(pop);
    assert Propose(pop, State([None, None, None, None, None, None], [0, 0, 0, 0, 0, 0], [0, 1, 2, 3, 4, 5])) == Propose(pop, State([Some(1), Some(0), None, None, None, None], [1, 0, 0, 0, 0, 0], [1, 2, 3, 4, 5]));
    Case1Step1(pop);
    assert Propose(pop, State([Some(1), Some(0), None, None, None, None], [1, 0, 0, 0, 0, 0], [1, 2, 3, 4, 5])) == Propose(pop, State([Some(1), Some(0), None, None, None, None], [1, 1, 0, 0, 0, 0], [2, 3, 4, 5, 1]));
    Case1Step2(pop);
    assert Propose(pop, State([Some(1), Some(0), None, None, None, None], [1, 1, 0, 0, 0, 0], [2, 3, 4, 5, 1])) == Propose(pop, State([Some(1), Some(0), None, None, None, None], [1, 1, 1, 0, 0, 0], [3, 4, 5, 1, 2]));
    Case1Step3(pop);
    assert Propose(pop, State([Some(1), Some(0), None, None, None, None], [1, 1, 1, 0, 0, 0], [3, 4, 5, 1, 2])) == Propose(pop, State([Some(1), Some(0), None, None, None, None], [1, 1, 1, 1, 0, 0], [4, 5, 1, 2, 3]));
    Case1Step4(pop);
    assert Propose(pop, State([Some(1), Some(0), None, None, None, None], [1, 1, 1, 1, 0, 0], [4, 5, 1, 2, 3])) == Propose(pop, State([Some(1), Some(0), None, None, Some(5), Some(4)], [1, 1, 1, 1, 1, 0], [5, 1, 2, 3]));
    Case1Step5(pop);
    assert Propose(pop, State([Some(1), Some(0), None, None, Some(5), Some(4)], [1, 1, 1, 1, 1, 0], [5, 1, 2, 3])) == Propose(pop, State([Some(1), Some(0), None, None, Some(5), Some(4)], [1, 1, 1, 1, 1, 1], [1, 2, 3]));
    Case1Step6(pop);
    assert Propose(pop, State([Some(1), Some(0), None, None, Some(5), Some(4)], [1, 1, 1, 1, 1, 1], [1, 2, 3])) == Propose(pop, State([Some(1), Some(2), Some(1), None, Some(5), Some(4)], [1, 2, 1, 1, 1, 1], [2, 3]));
    Case1Step7(pop);
    assert Propose(pop, State([Some(1), Some(2), Some(1), None, Some(5), Some(4)], [1, 2, 1, 1, 1, 1], [2, 3])) == Propose(pop, State([Some(1), Some(2), Some(1), None, Some(5), Some(4)], [1, 2, 2, 1, 1, 1], [3, 2]));
    Case1Step8(pop);
    assert Propose(pop, State([Some(1), Some(2), Some(1), None, Some(5), Some(4)], [1, 2, 2, 1, 1, 1], [3, 2])) == Propose(pop, State([Some(1), Some(2), Some(1), None, Some(5), Some(4)], [1, 2, 2, 2, 1, 1], [2, 3]));
    Case1Step9(pop);
    assert Propose(pop, State([Some(1), Some(2), Some(1), None, Some(5), Some(4)], [1, 2, 2, 2, 1, 1], [2, 3])) == Propose(pop, State([Some(1), Some(2), Some(3), Some(2), Some(5), Some(4)], [1, 2, 3, 2, 1, 1], [3]));
    Case1Step10(pop);
    assert Propose(pop, State([Some(1), Some(2), Some(3), Some(2), Some(5), Some(4)], [1, 2, 3, 2, 1, 1], [3])) == Propose(pop, State([Some(1), Some(2), Some(3), Some(2), Some(5), Some(4)], [1, 2, 3, 3, 1, 1], []));
  }

  lemma Case2Sweep()
    ensures Sweep([Some(1), Some(2), Some(1)]) == [None, Some(2), Some(1)]
  {
    var rm := [Some(1), Some(2), Some(1)];
    var r := Sweep(rm);
    assert r[0] == Repair(rm, 0) == None;
    assert r[1] == Repair(rm, 1) == Some(2);
    assert r[2] == Repair(rm, 2) == Some(1);
  }

  /** Test case 2: Helen and Ivy room together, Greg stays unpaired. */
  lemma TestCase2Matching()
    ensures AssignRoommates(Some(TestCase2())) == Some([None, Some(2), Some(1)])
  {
    Case2Facts();
    Case2Distinct(TestCase2());
    Case2Proposals(TestCase2());
    Case2Sweep();
  }

  lemma Case2Unpaired()
    ensures Unpaired(TestCase2(), [None, Some(2), Some(1)], 3) == 1
  {
    Case2Facts();
  }

  lemma Case1Sweep()
    ensures Sweep([Some(1), Some(2), Some(3), Some(2), Some(5), Some(4)])
         == [None, None, Some(3), Some(2), Some(5), Some(4)]
  {
    var rm := [Some(1), Some(2), Some(3), Some(2), Some(5), Some(4)];
    var r := Sweep(rm);
    assert r[0] == Repair(rm, 0) == None;
    assert r[1] == Repair(rm, 1) == None;
    assert r[2] == Repair(rm, 2) == Some(3);
    assert r[3] == Repair(rm, 3) == Some(2);
    assert r[4] == Repair(rm, 4) == Some(5);
    assert r[5] == Repair(rm, 5) == Some(4);
  }

  lemma Case1Unpaired()
    ensures Unpaired(TestCase1(), [None, None, Some(3), Some(2), Some(5), Some(4)], 6) == 2
  {
    var pop := TestCase1();
    var rm := [None, None, Some(3), Some(2), Some(5), Some(4)];
    Case1Facts();
    assert Unpaired(pop, rm, 2) == 2;
    assert Unpaired(pop, rm, 4) == 2;
  }

  /**
   * Test case 1 before the sweep: Alice -> Bob, Bob -> Charlie,
   * Charlie <-> Frank and Dana <-> Evan.
   */
  lemma TestCase1Proposals()
    ensures Propose(TestCase1(), Init(TestCase1())).roommate
         == [Some(1), Some(2), Some(3), Some(2), Some(5), Some(4)]
  {
    Case1Facts();
    Case1Proposals(TestCase1());
  }

  /**
   * Test case 1 after the sweep: Alice and Bob are cleared, so two students
   * with preferences end up unpaired (see Case1Unpaired).
   */
  lemma TestCase1Matching()
    ensures AssignRoommates(Some(TestCase1()))
         == Some([None, None, Some(3), Some(2), Some(5), Some(4)])
  {
    TestCase1Proposals();
    Case1Facts();
    Case1Distinct(TestCase1());
    Case1Sweep();
  }

  lemma Case1CorrectedStep0(pop: seq<Student>)
    requires Case1Shape(pop)
    requires Inv(pop, State([None, None, None, None, None, None], [0, 0, 0, 0, 0, 0], [0, 1, 2, 3, 4, 5]))
    ensures StepCorrected(pop, State([None, None, None, None, None, None], [0, 0, 0, 0, 0, 0], [0, 1, 2, 3, 4, 5]))
         == State([Some(1), Some(0), None, None, None, None], [1, 0, 0, 0, 0, 0], [1, 2, 3, 4, 5])
  {
    Case1Lookup1(pop);
  }

  lemma Case1CorrectedStep1(pop: seq<Student>)
    requires Case1Shape(pop)
    requires Inv(pop, State([Some(1), Some(0), None, None, None, None], [1, 0, 0, 0, 0, 0], [1, 2, 3, 4, 5]))
    ensures StepCorrected(pop, State([Some(1), Some(0), None, None, None, None], [1, 0, 0, 0, 0, 0], [1, 2, 3, 4, 5]))
         == State([Some(1), Some(0), None, None, None, None], [1, 0, 0, 0, 0, 0], [2, 3, 4, 5])
  {
  }

  lemma Case1CorrectedStep2(pop: seq<Student>)
    requires Case1Shape(pop)
    requires Inv(pop, State([Some(1), Some(0), None, None, None, None], [1, 0, 0, 0, 0, 0], [2, 3, 4, 5]))
    ensures StepCorrected(pop, State([Some(1), Some(0), None, None, None, None], [1, 0, 0, 0, 0, 0], [2, 3, 4, 5]))
         == State([Some(1), Some(0), None, None, None, None], [1, 0, 1, 0, 0, 0], [3, 4, 5, 2])
  {
    Case1Lookup0(pop);
    Case1Ranks0(pop);
  }

  lemma Case1CorrectedStep3(pop: seq<Student>)
    requires Case1Shape(pop)
    requires Inv(pop, State([Some(1), Some(0), None, None, None, None], [1, 0, 1, 0, 0, 0], [3, 4, 5, 2]))
    ensures StepCorrected(pop, State([Some(1), Some(0), None, None, None, None], [1, 0, 1, 0, 0, 0], [3, 4, 5, 2]))
         == State([Some(1), Some(0), None, None, None, None], [1, 0, 1, 1, 0, 0], [4, 5, 2, 3])
  {
    Case1Lookup0(pop);
    Case1Ranks0(pop);
  }

  lemma Case1CorrectedStep4(pop: seq<Student>)
    requires Case1Shape(pop)
    requires Inv(pop, State([Some(1), Some(0), None, None, None, None], [1, 0, 1, 1, 0, 0], [4, 5, 2, 3]))
    ensures StepCorrected(pop, State([Some(1), Some(0), None, None, None, None], [1, 0, 1, 1, 0, 0], [4, 5, 2, 3]))
         == State([Some(1), Some(0), None, None, Some(5), Some(4)], [1, 0, 1, 1, 1, 0], [5, 2, 3])
  {
    Case1Lookup5(pop);
  }

  lemma Case1CorrectedStep5(pop: seq<Student>)
    requires Case1Shape(pop)
    requires Inv(pop, State([Some(1), Some(0), None, None, Some(5), Some(4)], [1, 0, 1, 1, 1, 0], [5, 2, 3]))
    ensures StepCorrected(pop, State([Some(1), Some(0), None, None, Some(5), Some(4)], [1, 0, 1, 1, 1, 0], [5, 2, 3]))
         == State([Some(1), Some(0), None, None, Some(5), Some(4)], [1, 0, 1, 1, 1, 0], [2, 3])
  {
  }

  lemma Case1CorrectedStep6(pop: seq<Student>)
    requires Case1Shape(pop)
    requires Inv(pop, State([Some(1), Some(0), None, None, Some(5), Some(4)], [1, 0, 1, 1, 1, 0], [2, 3]))
    ensures StepCorrected(pop, State([Some(1), Some(0), None, None, Some(5), Some(4)], [1, 0, 1, 1, 1, 0], [2, 3]))
         == State([Some(1), Some(0), None, None, Some(5), Some(4)], [1, 0, 2, 1, 1, 0], [3, 2])
  {
    Case1Lookup1(pop);
    Case1Ranks1(pop);
  }

  lemma Case1CorrectedStep7(pop: seq<Student>)
    requires Case1Shape(pop)
    requires Inv(pop, State([Some(1), Some(0), None, None, Some(5), Some(4)], [1, 0, 2, 1, 1, 0], [3, 2]))
    ensures StepCorrected(pop, State([Some(1), Some(0), None, None, Some(5), Some(4)], [1, 0, 2, 1, 1, 0], [3, 2]))
         == State([Some(1), Some(0), None, None, Some(5), Some(4)], [1, 0, 2, 2, 1, 0], [2, 3])
  {
    Case1Lookup1(pop);
    Case1Ranks1(pop);
  }

  lemma Case1CorrectedStep8(pop: seq<Student>)
    requires Case1Shape(pop)
    requires Inv(pop, State([Some(1), Some(0), None, None, Some(5), Some(4)], [1, 0, 2, 2, 1, 0], [2, 3]))
    ensures StepCorrected(pop, State([Some(1), Some(0), None, None, Some(5), Some(4)], [1, 0, 2, 2, 1, 0], [2, 3]))
         == State([Some(1), Some(0), Some(3), Some(2), Some(5), Some(4)], [1, 0, 3, 2, 1, 0], [3])
  {
    Case1Lookup3(pop);
  }

  lemma Case1CorrectedStep9(pop: seq<Student>)
    requires Case1Shape(pop)
    requires Inv(pop, State([Some(1), Some(0), Some(3), Some(2), Some(5), Some(4)], [1, 0, 3, 2, 1, 0], [3]))
    ensures StepCorrected(pop, State([Some(1), Some(0), Some(3), Some(2), Some(5), Some(4)], [1, 0, 3, 2, 1, 0], [3]))
         == State([Some(1), Some(0), Some(3), Some(2), Some(5), Some(4)], [1, 0, 3, 2, 1, 0], [])
  {
  }

  lemma Case1CorrectedProposals(pop: seq<Student>)
    requires Case1Shape(pop)
    ensures ProposeCorrected(pop, Init(pop)).roommate == State([Some(1), Some(0), Some(3), Some(2), Some(5), Some(4)], [1, 0, 3, 2, 1, 0], []).roommate
  {
    Case1Start(pop);
    Case1CorrectedStep0(pop);
    assert ProposeCorrected(pop, State([None, None, None, None, None, None], [0, 0, 0, 0, 0, 0], [0, 1, 2, 3, 4, 5])) == ProposeCorrected(pop, State([Some(1), Some(0), None, None, None, None], [1, 0, 0, 0, 0, 0], [1, 2, 3, 4, 5]));
    Case1CorrectedStep1(pop);
    assert ProposeCorrected(pop, State([Some(1), Some(0), None, None, None, None], [1, 0, 0, 0, 0, 0], [1, 2, 3, 4, 5])) == ProposeCorrected(pop, State([Some(1), Some(0), None, None, None, None], [1, 0, 0, 0, 0, 0], [2, 3, 4, 5]));
    Case1CorrectedStep2(pop);
    assert ProposeCorrected(pop, State([Some(1), Some(0), None, None, None, None], [1, 0, 0, 0, 0, 0], [2, 3, 4, 5])) == ProposeCorrected(pop, State([Some(1), Some(0), None, None, None, None], [1, 0, 1, 0, 0, 0], [3, 4, 5, 2]));
    Case1CorrectedStep3(pop);
    assert ProposeCorrected(pop, State([Some(1), Some(0), None, None, None, None], [1, 0, 1, 0, 0, 0], [3, 4, 5, 2])) == ProposeCorrected(pop, State([Some(1), Some(0), None, None, None, None], [1, 0, 1, 1, 0, 0], [4, 5, 2, 3]));
    Case1CorrectedStep4(pop);
    assert ProposeCorrected(pop, State([Some(1), Some(0), None, None, None, None], [1, 0, 1, 1, 0, 0], [4, 5, 2, 3])) == ProposeCorrected(pop, State([Some(1), Some(0), None, None, Some(5), Some(4)], [1, 0, 1, 1, 1, 0], [5, 2, 3]));
    Case1CorrectedStep5(pop);
    assert ProposeCorrected(pop, State([Some(1), Some(0), None, None, Some(5), Some(4)], [1, 0, 1, 1, 1, 0], [5, 2, 3])) == ProposeCorrected(pop, State([Some(1), Some(0), None, None, Some(5), Some(4)], [1, 0, 1, 1, 1, 0], [2, 3]));
    Case1CorrectedStep6(pop);
    assert ProposeCorrected(pop, State([Some(1), Some(0), None, None, Some(5), Some(4)], [1, 0, 1, 1, 1, 0], [2, 3])) == ProposeCorrected(pop, State([Some(1), Some(0), None, None, Some(5), Some(4)], [1, 0, 2, 1, 1, 0], [3, 2]));
    Case1CorrectedStep7(pop);
    assert ProposeCorrected(pop, State([Some(1), Some(0), None, None, Some(5), Some(4)], [1, 0, 2, 1, 1, 0], [3, 2])) == ProposeCorrected(pop, State([Some(1), Some(0), None, None, Some(5), Some(4)], [1, 0, 2, 2, 1, 0], [2, 3]));
    Case1CorrectedStep8(pop);
    assert ProposeCorrected(pop, State([Some(1), Some(0), None, None, Some(5), Some(4)], [1, 0, 2, 2, 1, 0], [2, 3])) == ProposeCorrected(pop, State([Some(1), Some(0), Some(3), Some(2), Some(5), Some(4)], [1, 0, 3, 2, 1, 0], [3]));
    Case1CorrectedStep9(pop);
    assert ProposeCorrected(pop, State([Some(1), Some(0), Some(3), Some(2), Some(5), Some(4)], [1, 0, 3, 2, 1, 0], [3])) == ProposeCorrected(pop, State([Some(1), Some(0), Some(3), Some(2), Some(5), Some(4)], [1, 0, 3, 2, 1, 0], []));
  }

  lemma Case2CorrectedStep0(pop: seq<Student>)
    requires Case2Shape(pop)
    requires Inv(pop, State([None, None, None], [0, 0, 0], [0, 1, 2]))
    ensures StepCorrected(pop, State([None, None, None], [0, 0, 0], [0, 1, 2]))
         == State([Some(1), Some(0), None], [1, 0, 0], [1, 2])
  {
    Case2Lookup1(pop);
  }

  lemma Case2CorrectedStep1(pop: seq<Student>)
    requires Case2Shape(pop)
    requires Inv(pop, State([Some(1), Some(0), None], [1, 0, 0], [1, 2]))
    ensures StepCorrected(pop, State([Some(1), Some(0), None], [1, 0, 0], [1, 2]))
         == State([Some(1), Some(0), None], [1, 0, 0], [2])
  {
  }

  lemma Case2CorrectedStep2(pop: seq<Student>)
    requires Case2Shape(pop)
    requires Inv(pop, State([Some(1), Some(0), None], [1, 0, 0], [2]))
    ensures StepCorrected(pop, State([Some(1), Some(0), None], [1, 0, 0], [2]))
         == State([Some(1), Some(0), None], [1, 0, 1], [2])
  {
    Case2Lookup1(pop);
    Case2Ranks1(pop);
  }

  lemma Case2CorrectedStep3(pop: seq<Student>)
    requires Case2Shape(pop)
    requires Inv(pop, State([Some(1), Some(0), None], [1, 0, 1], [2]))
    ensures StepCorrected(pop, State([Some(1), Some(0), None], [1, 0, 1], [2]))
         == State([Some(1), Some(0), None], [1, 0, 2], [])
  {
    Case2Lookup0(pop);
    Case2Ranks0(pop);
  }

  lemma Case2CorrectedProposals(pop: seq<Student>)
    requires Case2Shape(pop)
    ensures ProposeCorrected(pop, Init(pop)).roommate == State([Some(1), Some(0), None], [1, 0, 2], []).roommate
  {
    Case2Start(pop);
    Case2CorrectedStep0(pop);
    assert ProposeCorrected(pop, State([None, None, None], [0, 0, 0], [0, 1, 2])) == ProposeCorrected(pop, State([Some(1), Some(0), None], [1, 0, 0], [1, 2]));
    Case2CorrectedStep1(pop);
    assert ProposeCorrected(pop, State([Some(1), Some(0), None], [1, 0, 0], [1, 2])) == ProposeCorrected(pop, State([Some(1), Some(0), None], [1, 0, 0], [2]));
    Case2CorrectedStep2(pop);
    assert ProposeCorrected(pop, State([Some(1), Some(0), None], [1, 0, 0], [2])) == ProposeCorrected(pop, State([Some(1), Some(0), None], [1, 0, 1], [2]));
    Case2CorrectedStep3(pop);
    assert ProposeCorrected(pop, State([Some(1), Some(0), None], [1, 0, 1], [2])) == ProposeCorrected(pop, State([Some(1), Some(0), None], [1, 0, 2], []));
  }

  /**
   * Test case 1 with the corrected iteration: Alice <-> Bob,
   * Charlie <-> Frank and Dana <-> Evan; nobody with preferences is left
   * without a roommate.
   */
  lemma TestCase1Corrected()
    ensures AssignRoommatesCorrected(Some(TestCase1()))
         == Some([Some(1), Some(0), Some(3), Some(2), Some(5), Some(4)])
  {
    Case1Facts();
    Case1Distinct(TestCase1());
    Case1CorrectedProposals(TestCase1());
  }

  lemma Case1CorrectedUnpaired()
    ensures Unpaired(TestCase1(), [Some(1), Some(0), Some(3), Some(2), Some(5), Some(4)], 6) == 0
  {
    var pop := TestCase1();
    var rm := [Some(1), Some(0), Some(3), Some(2), Some(5), Some(4)];
    Case1Facts();
    assert Unpaired(pop, rm, 2) == 0;
    assert Unpaired(pop, rm, 4) == 0;
  }

  /** Test case 2 with the corrected iteration: Greg and Helen room together, Ivy stays unpaired. */
  lemma TestCase2Corrected()
    ensures AssignRoommatesCorrected(Some(TestCase2()))
         == Some([Some(1), Some(0), None])
  {
    Case2Facts();
    Case2Distinct(TestCase2());
    Case2CorrectedProposals(TestCase2());
  }

  lemma Case2CorrectedUnpaired()
    ensures Unpaired(TestCase2(), [Some(1), Some(0), None], 3) == 1
  {
    Case2Facts();
  }
}
