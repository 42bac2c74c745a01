# LonghornNetwork core, modelled in Dafny

LonghornNetwork is a small Java student-network demo. This project models its
four sequential pieces of logic and proves properties about them:

- **Connection scorer.** `UniversityStudent.calculateConnectionStrength` gives
  one student an additive score towards another:
  - +4 when the other's name is in this student's roommate preferences;
  - +3 per matching internship pair;
  - +2 for the same major;
  - +1 for the same positive age.

  The record's two constructors, `equals`/`hashCode` (identity by name) and the
  `addFriend` guard are modelled too.
- **Social graph.** The `StudentGraph` constructor builds an insertion-ordered
  adjacency map. Every unordered pair of students gets an edge in both
  directions, with weight `max(score(a,b), score(b,a))`. `addEdge`,
  `getNeighbors` and `getAllNodes` are modelled too.
- **Roommate matching.** `GaleShapley.assignRoommates` is a queue-driven
  deferred-acceptance loop over preference lists, with `indexOfPreference`
  giving ranks. A final sweep then clears every assignment that is not
  reciprocated.
- **Record-line parsing.** `DataParser.parseStudents` is modelled as a pure
  function from the file's lines to its records. `parseListField` and
  `parseInteger` are modelled as well.

## Modules

| Module | What it holds |
|---|---|
| `Wrappers` | `Option`, used for Java `null`. |
| `JavaInt` | 32-bit `int`, `Integer.MAX_VALUE`, two's-complement wrap-around. |
| `Text` | The `String` operations the code uses: ASCII `equalsIgnoreCase`/`toLowerCase`, `trim` (drops chars ≤ U+0020), `split` on one character (empty pieces kept), `String.join`, `startsWith`, `contains`. |
| `Students` | The record, constructors, `equals`, `hashCode`, `addFriend`. |
| `Scoring` | `calculateConnectionStrength`. |
| `Graphs` | `StudentGraph`. |
| `Roommates` | `GaleShapley`. |
| `Parser` | `DataParser`. |
| `Scenarios` | The three literal populations of `src/Main.java`, and what the model computes on them. |

## Modelling choices

- **Roommate matching.** It runs over an index arena, as three sequences:
  - `roommate: seq<Option<nat>>`;
  - `nextIndex: seq<nat>`;
  - the `ArrayDeque` as `seq<nat>`, polled at the head.

  Java object identity becomes position equality. `byName` and `nextIndex` are
  keyed by name-based `equals`, so `AssignRoommates` requires distinct names.
  Termination uses the lexicographic measure (preferences not yet proposed to,
  queue length).
- **Graph.** It is an association list keyed by name, which is how `equals` and
  `hashCode` make the `LinkedHashMap` behave. Symmetry and non-negative weights
  are proved for every population. The exact shape of each list is proved under
  distinct names.
- **Friend set.** `addFriend`'s `HashSet` is a `set<string>` of names, because
  set membership follows name equality. The `s == this` test becomes position
  equality.
- **Nullable values.** `major` and internship entries may be `null`, so they
  are `Option<string>`. Preference entries and names are never `null` in this
  model.

## Model

| member | source | states |
|---|---|---|
| Text.Trim | src/DataParser.java:52 | The trimmed text neither starts nor ends with a character up to U+0020, and is no longer than the input. |
| Text.TrimShape | src/DataParser.java:52 | `trim` removes only a prefix and a suffix made of characters up to U+0020. |
| Text.TrimOfTrimmed | src/DataParser.java:106 | A text that does not start or end with white space passes `trim` unchanged. |
| Text.TrimIdempotent | src/DataParser.java:113 | Trimming twice is trimming once. |
| Text.Split | src/DataParser.java:66 | `split` keeping empty pieces returns at least one piece, and no piece holds the separator. |
| Text.JoinOfSplit | src/DataParser.java:66 | Splitting loses nothing: joining the pieces with the separator gives the original line. |
| Text.SplitJoin | src/DataParser.java:109 | Joining separator-free parts and splitting again gives the parts back. |
| Text.SplitAppend | src/DataParser.java:66 | Splitting `a + sep + b` gives the pieces of `a` followed by the pieces of `b`. |
| Text.EqualsIgnoreCaseIsEquivalence | src/UniversityStudent.java:105-119 | Case-insensitive equality is reflexive, symmetric and transitive, and relates only strings of equal length. |
| Text.Contains | src/DataParser.java:56-58 | `contains` holds exactly when the substring occurs at some index. |
| Students.Create | src/UniversityStudent.java:40-64 | The constructor keeps every scalar field. It turns a `null` preference or internship list into an empty list and copies a non-null list element by element. |
| Students.NameOnly | src/UniversityStudent.java:72-74 | The name-only constructor gives age 0, year 0, empty gender and major, and no preferences or internships. |
| Students.EqualsIsEquivalence | src/UniversityStudent.java:217-223 | `equals` (`Students.Equals`: same class and same name) is an equivalence on students, and never holds for `null` or an object of another class. |
| Students.StringHashIsPolynomial | src/UniversityStudent.java:231-233 | The 32-bit `String.hashCode` agrees with the polynomial sum of c·31^k modulo 2^32. |
| Students.HashCode | src/UniversityStudent.java:231-233 | `Objects.hash(name)` is 31 plus the polynomial hash of the name, modulo 2^32. |
| Students.HashRespectsEquals | src/UniversityStudent.java:217-233 | Equal students have equal hash codes. |
| Students.AddFriend | src/UniversityStudent.java:163-166 | A `null` argument or the student itself leaves the set unchanged. Otherwise exactly the friend's name is added and nothing is removed. |
| Students.AddFriendIdempotent | src/UniversityStudent.java:163-166 | Adding the same friend twice is adding it once. |
| Scoring.Score | src/UniversityStudent.java:91-128 | The score is never negative, and is 0 towards `null` or any object that is not a `UniversityStudent`. |
| Scoring.ScoreIsSumOfRules | src/UniversityStudent.java:95-127 | The score is the sum of four terms: 4 iff the other's name is exactly in the preferences; 3 times the number of sharing index pairs; 2 iff both majors are present, this one is non-empty and they are equal ignoring case; 1 iff both ages are positive and equal. |
| Scoring.SharedCountIsPairCount | src/UniversityStudent.java:103-113 | The nested internship loops count exactly the index pairs whose entries share, duplicates included. |
| Scoring.SharedCountSymmetric | src/UniversityStudent.java:103-113 | The internship count is the same whichever student is asked. |
| Scoring.NoneNeverShares | src/UniversityStudent.java:105-107 | An entry that is `null` or "None" in any case never contributes: taking it out of either student's list leaves the count unchanged. |
| Scoring.ScoreAsymmetryIsPreferenceOnly | src/UniversityStudent.java:95-127 | Once each side's preference bonus is subtracted, score(a,b) equals score(b,a). |
| Scoring.ScoreMonotoneInInternships | src/UniversityStudent.java:103-113 | Giving the other student one more internship raises the score by 3 per matching entry on this side, so it never lowers it. |
| Scoring.NameOnlyScores | src/UniversityStudent.java:91-128 | A name-only student scores 0 towards anyone, and earns only the preference bonus from others. |
| Graphs.Neighbors | src/StudentGraph.java:123-125 | `getNeighbors` returns the list stored under the student's name, or the empty list when the student is not a node. |
| Graphs.Put | src/StudentGraph.java:79 | `put` replaces the list of an existing key, keeping key order, or else appends a new key. Every other list is unchanged. |
| Graphs.AddEdge | src/StudentGraph.java:112-114 | `addEdge(a,b,w)` appends exactly one edge `(b,w)` to a's list, creating the node if needed. Every other list is unchanged, and no reverse edge is added. |
| Graphs.Weight | src/StudentGraph.java:91-95 | The weight is non-negative, at least each directional score, and equal to one of them: their maximum. |
| Graphs.WeightSymmetric | src/StudentGraph.java:91-95 | The pair weight does not depend on the order of the pair. |
| Graphs.AddPairKeepsSymmetric | src/StudentGraph.java:97-99 | Adding two opposite edges with one weight keeps every edge matched by a reverse edge of the same weight. |
| Graphs.AddEdgeKeepsNonNegative | src/StudentGraph.java:95-99 | Adding an edge of non-negative weight keeps every weight non-negative. |
| Graphs.FullRowShape | src/StudentGraph.java:86-101 | Under distinct names, node k's list has exactly n−1 edges. There is one to each other position, in population order, with the pair weight (zero kept), and no self-loop. |
| Graphs.AddNodes | src/StudentGraph.java:77-80 | The first loop creates one empty list per student, in list order. |
| Graphs.InnerStep | src/StudentGraph.java:87-100 | One inner iteration adds pair (i,j) in both directions and advances every list as the loop's progress describes. |
| Graphs.AddRow | src/StudentGraph.java:87-100 | One outer iteration completes row i of the pair loop. |
| Graphs.Build | src/StudentGraph.java:73-102 | A `null` population gives no nodes. Every graph built is symmetric with non-negative weights. Under distinct names the nodes are the population in order, and each node's list is its full row. |
| Graphs.FinishedRows | src/StudentGraph.java:123-134 | After the last row, under distinct names, `getAllNodes` (`Graphs.AllNodes`, the keys in insertion order) is the population, and `getNeighbors` of each student is its full row. |
| Roommates.IndexOfPreference | src/GaleShapley.java:139-148 | The result is the first position whose entry equals the name ignoring case, or `Integer.MAX_VALUE` when no entry does. |
| Roommates.Lookup | src/GaleShapley.java:43-46 | The `byName` lookup finds a student with exactly that name (the last one, since later `put`s win), or reports that nobody has it. |
| Roommates.LookupDistinct | src/GaleShapley.java:43-46 | Under distinct names, looking up a student's name finds that student. |
| Roommates.Init | src/GaleShapley.java:54-62 | Every roommate starts cleared and every index at 0. Exactly the students with a non-empty list are queued, in list order. |
| Roommates.Step | src/GaleShapley.java:65-119 | One iteration keeps every index within 0..|prefs| and never lowers one. It strictly decreases (proposals left, queue length) lexicographically. |
| Roommates.StepEffect | src/GaleShapley.java:88-118 | Only the proposer's index moves, by at most one. The proposer's reference stays or points at its current choice. Any other student keeps its reference, loses it, or takes the proposer in place of no partner or of a partner it ranks strictly worse. |
| Roommates.StepDropsExhausted | src/GaleShapley.java:69-72 | A proposer with no options left leaves the queue, and nothing else changes. |
| Roommates.StepSkipsUnknown | src/GaleShapley.java:78-86 | An unknown candidate name changes no reference and consumes one preference. The proposer is re-queued iff it has preferences left. |
| Roommates.StepKeepsUnlessBetter | src/GaleShapley.java:94-117 | A taken candidate who ranks the proposer no better than their partner, for example because the proposer is not ranked, keeps the partner. |
| Roommates.Propose | src/GaleShapley.java:64-119 | The loop terminates with an empty queue, and no index ever decreases. |
| Roommates.Sweep | src/GaleShapley.java:121-127 | Afterwards every assignment is reciprocated. The sweep only clears references, every mutual pair survives it, and the result is the same as repairing each position against the original assignment. |
| Roommates.SweepOfReciprocal | src/GaleShapley.java:121-127 | A reciprocal assignment passes the sweep unchanged. |
| Roommates.AssignRoommates | src/GaleShapley.java:39-128 | A `null` list changes nothing. Otherwise every position gets a roommate in range or none, and every assignment is reciprocated. |
| Roommates.StepKeepsReciprocal | src/GaleShapley.java:88-105 | An iteration that polls a proposer without a roommate keeps a reciprocal assignment reciprocal. |
| Roommates.StepCorrected | src/GaleShapley.java:65-119 | The corrected iteration keeps the loop's bounds and measure, and keeps reciprocity (see Findings). |
| Roommates.ProposeCorrected | src/GaleShapley.java:64-119 | The corrected loop terminates, and keeps every assignment reciprocal throughout. |
| Roommates.AssignRoommatesCorrected | src/GaleShapley.java:39-128 | With the corrected iteration, the result is reciprocal already before the sweep, so the sweep clears nothing. |
| Parser.ParseListField | src/DataParser.java:105-119 | A `null` or blank field gives no tokens. Every token is non-empty, trimmed and free of ';', and uses only characters of the field. |
| Parser.NonBlankIsFilter | src/DataParser.java:112-117 | The token loop keeps exactly the non-empty strings, in order. A non-empty entry lands at its rank among the non-empty entries before it, and the result has exactly as many entries as there are non-empty ones. |
| Parser.ListFieldPieces | src/DataParser.java:105-119 | For a non-blank field, the tokens are the ';'-separated pieces of the trimmed field, each trimmed, with blank ones dropped, in order. Piece i, when not blank, is token number "non-blank pieces before i", and there are no other tokens. |
| Parser.ListFieldOfJoin | src/DataParser.java:105-119 | Joining tokens with ';' and parsing the result gives the tokens back. |
| Parser.ListFieldIdempotent | src/DataParser.java:105-119 | `parseListField(join(";", parseListField(x))) == parseListField(x)`. |
| Parser.ParseInt | src/DataParser.java:130 | `Integer.parseInt` succeeds only on an optional '-' or '+' followed by at least one digit. |
| Parser.ParseIntOfSignedDigits | src/DataParser.java:130 | Conversely, an optional sign followed by digits is read as its signed decimal value, and rejected exactly when that value does not fit in 32 bits. |
| Parser.ParseInteger | src/DataParser.java:128-134 | A non-zero result means the trimmed field was a valid 32-bit decimal integer. |
| Parser.ParseIntegerOfFormat | src/DataParser.java:128-134 | Every 32-bit integer's decimal text reads back as that integer, with or without white space around it. |
| Parser.ParseIntegerOverflow | src/DataParser.java:128-134 | A value outside 32 bits reads as 0, like malformed text. |
| Parser.ParseIntegerRejects | src/DataParser.java:128-134 | A non-digit after the first position of the trimmed field makes it read as 0. |
| Parser.Pad | src/DataParser.java:68-74 | A line with fewer than eight fields is padded with empty fields; the existing fields are kept. |
| Parser.ParseRecord | src/DataParser.java:66-89 | Each record's name and major are trimmed and comma-free. Every preference and internship is a clean token. |
| Parser.SameFields | src/DataParser.java:66-89 | A record depends only on the first eight padded fields of its line. |
| Parser.TrailingCommaIsEmptyField | src/DataParser.java:66-74 | A missing field reads exactly like an empty one. |
| Parser.ExtraFieldsIgnored | src/DataParser.java:66-85 | Fields after the eighth are ignored. |
| Parser.RecordRoundTrip | src/DataParser.java:66-89 | A record written in the documented line format is read back unchanged. |
| Parser.ParseLines | src/DataParser.java:44-96 | The lines yield at most one record each. |
| Parser.ParseLinesIsRecords | src/DataParser.java:51-92 | The loop (`Parser.ParseLinesFrom`, with its blank-or-comment test `Parser.Ignored` and header test `Parser.IsHeader`) gives one record per trimmed line that is neither blank nor a comment, in order. A first such line whose lower-case form contains "name" and "age" is skipped as a header. |
| Parser.IgnoredLinesDoNotMatter | src/DataParser.java:52-53 | Inserting a blank or comment line anywhere changes no record. |
| Scenarios.TestCase1Weights | src/Main.java:42-67 | In test case 1 the Alice–Bob weight is 9, Dana–Evan is 10 and Alice–Charlie is 5. |
| Scenarios.TestCase3JackRow | src/Main.java:98-109 | Jack's list in test case 3 is Kim with weight 10, then Leo with weight 2. |
| Scenarios.PreferenceIsCaseSensitive | src/UniversityStudent.java:98-100 | The +4 needs the exact name: "ben" does not earn it for "Ben". |
| Scenarios.InternshipMarkers | src/UniversityStudent.java:105-109 | Empty internship entries match each other. "NONE" never matches, not even itself, and `null` never matches. |
| Scenarios.TestCase1Proposals | src/Main.java:38-70 | Test case 1 before the sweep: Alice→Bob, Bob→Charlie, Charlie↔Frank, Dana↔Evan. |
| Scenarios.TestCase1Matching | src/Main.java:38-70 | After the sweep Alice and Bob are unpaired; Charlie↔Frank and Dana↔Evan remain. |
| Scenarios.Case1Unpaired | src/Main.java:153-167 | Two students with preferences end up unpaired in test case 1, which is more than the driver allows. |
| Scenarios.TestCase1Corrected | src/Main.java:38-70 | With the corrected iteration: Alice↔Bob, Charlie↔Frank, Dana↔Evan. |
| Scenarios.Case1CorrectedUnpaired | src/Main.java:153-167 | With the corrected iteration nobody in test case 1 is left unpaired. |
| Scenarios.TestCase2Matching | src/Main.java:74-91 | Test case 2: Helen↔Ivy, Greg unpaired. |
| Scenarios.Case2Unpaired | src/Main.java:153-167 | Exactly one student with preferences is unpaired in test case 2, which the driver accepts. |
| Scenarios.TestCase2Corrected | src/Main.java:74-91 | With the corrected iteration: Greg↔Helen, Ivy unpaired. |
| Scenarios.TestCase3Matching | src/Main.java:95-112 | Test case 3: Jack↔Kim, and Leo, who has no preferences, unpaired. Nobody with preferences is unpaired. |
| Scenarios.MutualPairAndLoner | src/GaleShapley.java:55-127 | Any two students who name each other first, plus a third with an empty list: the pair rooms together and the third stays unpaired. |
| Scenarios.OneSidedPair | src/GaleShapley.java:88-93 | A student who names nobody is still taken as the roommate of the one who names them. |
| Scenarios.EmptyPreferencesCanBePaired | src/GaleShapley.java:15 | Against the class comment, a student with an empty list can end up paired. |
| Scenarios.LoneSelfChooser | src/GaleShapley.java:75-93 | A lone student whose list names only themself ends up as their own roommate. |

## Left out

- **File I/O.** `parseStudents` reads a file with `BufferedReader`. The model takes the file's lines as a sequence and has no `IOException` path.
- **gpa.** `parseDouble` and `gpa` are floating point. `gpa` is kept as opaque text, so a record's gpa is the trimmed field.
- **Case folding.** `equalsIgnoreCase` and `toLowerCase` fold only ASCII letters. Java's Unicode case mapping is not modelled.
- **Unicode digits.** `Integer.parseInt` also accepts non-ASCII Unicode digits. The model accepts only '0'–'9'.
- **Null names and preference entries.** These cannot come from the parser and are not modelled. `null` majors and internship entries are.
- **Other parts of the repository.** Concurrency is not modelled: `ChatThread`, `FriendRequestThread`, the synchronised friend set and the chat history (`addChatMessage`, `getChatHistory`). `ReferralPathFinder` is not part of this model.
- **Output.** `toString` and `displayGraph` only format text, and are not modelled.
- **Roommate reference.** `getRoommate`/`setRoommate` are plain field accesses. They appear as updates of the matching arena, not as members.
- **Test driver.** `src/Main.java` is used only for its literal populations and the unpaired count. The threading test and the scoring printout are left out.
- **Comment vs code.** The class comment at src/GaleShapley.java:15 says students with empty preference lists remain unpaired. The code pairs them when someone proposes to them, and the model follows the code (Scenarios.EmptyPreferencesCanBePaired).
- Students.StringHashIsPolynomial: strings are sequences of Unicode scalar values, not UTF-16 code units. For a name with a character above U+FFFF, Java's `String.hashCode` folds two surrogate units where the model folds one value, so the hashes differ. Students.HashCode inherits this.
- Scoring.Score: the sum is an unbounded integer, without 32-bit wrap-around. Wrap-around would need more than 700 million matching internship pairs.
- Roommates.AssignRoommates: requires distinct names. With duplicate names Java's `nextIndex` map would share one index between equal students; that sharing is not modelled.
- Graphs.Build: exact row contents are stated only under distinct names. With duplicates, lists of equal students merge under one key; symmetry and non-negative weights are still proved for that case.
- Roommates.AssignRoommates: proves reciprocity, not stability or "at most one unpaired". Neither holds in general (see Findings).

## Findings

| source | as written | input that shows it | evidently intended | confidence | as-written member | corrected member |
|---|---|---|---|---|---|---|
| src/GaleShapley.java:65-119 | A student who is accepted as somebody's candidate while still waiting in the queue is later polled and proposes again. When that proposal succeeds, the student overwrites its own roommate without releasing its earlier partner, who still points at it. The final sweep then clears such half-pairs. | Test case 1 of src/Main.java:38-70. Before the sweep: Alice→Bob, Bob→Charlie, Charlie↔Frank. After it, Alice and Bob are both unpaired: two unpaired students, where the check at src/Main.java:165 allows at most one. | A polled proposer that already has a roommate leaves the queue instead of proposing. Every pairing is then reciprocal before the sweep, and test case 1 pairs Alice↔Bob, Charlie↔Frank and Dana↔Evan. | not executed | Scenarios.TestCase1Matching | Roommates.AssignRoommatesCorrected |
