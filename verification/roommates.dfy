/**
 * `GaleShapley.assignRoommates`: queue-driven deferred acceptance over the
 * students' roommate preference lists, followed by a sweep that clears
 * every assignment that is not reciprocated.
 *
 * Students live in an index arena (their position in the list); the
 * `roommate` references become `seq<Option<nat>>`, the `nextIndex` map a
 * `seq<nat>` and the `ArrayDeque` a `seq<nat>` whose head is polled first.
 */
module Roommates {
  import opened Wrappers
  import opened JavaInt
  import opened Students
  import Text

  /** `indexOfPreference`'s answer for a name that is not in the list. */
  const NotRanked: int := MaxInt

  /**
   * `indexOfPreference(student, name)`: the first position of the list whose
   * entry equals `name` ignoring case, or `Integer.MAX_VALUE`.
   */
  function IndexOfPreference(prefs: seq<string>, name: string): (r: int)
    ensures (0 <= r < |prefs| && Text.EqualsIgnoreCase(prefs[r], name)
              && forall i :: 0 <= i < r ==> !Text.EqualsIgnoreCase(prefs[i], name))
         || (r == NotRanked && forall i :: 0 <= i < |prefs| ==> !Text.EqualsIgnoreCase(prefs[i], name))
  {
    IndexFrom(prefs, name, 0)
  }

  /** The search loop of `indexOfPreference`, from position `i` on. */
  function IndexFrom(prefs: seq<string>, name: string, i: nat): (r: int)
    requires i <= |prefs|
    requires forall k :: 0 <= k < i ==> !Text.EqualsIgnoreCase(prefs[k], name)
    ensures (i <= r < |prefs| && Text.EqualsIgnoreCase(prefs[r], name)
              && forall k :: 0 <= k < r ==> !Text.EqualsIgnoreCase(prefs[k], name))
         || (r == NotRanked && forall k :: 0 <= k < |prefs| ==> !Text.EqualsIgnoreCase(prefs[k], name))
    decreases |prefs| - i
  {
    if i == |prefs| then NotRanked
    else if Text.EqualsIgnoreCase(prefs[i], name) then i
    else IndexFrom(prefs, name, i + 1)
  }

  /**
   * `byName.get(name)`: the map is filled with `put` in list order, so the
   * last student carrying exactly (case-sensitively) that name wins.
   */
  function Lookup(pop: seq<Student>, name: string): (r: Option<nat>)
    ensures r.Some? ==> r.value < |pop| && pop[r.value].name == name
                        && forall k :: r.value < k < |pop| ==> pop[k].name != name
    ensures r.None? ==> forall k :: 0 <= k < |pop| ==> pop[k].name != name
  {
    LookupBefore(pop, name, |pop|)
  }

  /** The last position before `k` whose student is called `name`. */
  function LookupBefore(pop: seq<Student>, name: string, k: nat): (r: Option<nat>)
    requires k <= |pop|
    ensures r.Some? ==> r.value < k && pop[r.value].name == name
                        && forall j :: r.value < j < k ==> pop[j].name != name
    ensures r.None? ==> forall j :: 0 <= j < k ==> pop[j].name != name
  {
    if k == 0 then None
    else if pop[k - 1].name == name then Some(k - 1)
    else LookupBefore(pop, name, k - 1)
  }

  /** With distinct names, looking up a student's name finds that student. */
  lemma LookupDistinct(pop: seq<Student>, k: nat)
    requires DistinctNames(pop) && k < |pop|
    ensures Lookup(pop, pop[k].name) == Some(k)
  {
  }

  /** The mutable state of the algorithm: roommate references, `nextIndex`, the free queue. */
  datatype State = State(roommate: seq<Option<nat>>, next: seq<nat>, queue: seq<nat>)

  /** Every reference is a position of the population; a roommate value too. */
  predicate InRange(rm: seq<Option<nat>>, n: nat) {
    forall s :: 0 <= s < |rm| && rm[s].Some? ==> rm[s].value < n
  }

  /** The well-formedness the loop keeps: sizes, ranges and 0 <= nextIndex <= |prefs|. */
  predicate Inv(pop: seq<Student>, st: State) {
    && |st.roommate| == |pop| && |st.next| == |pop|
    && InRange(st.roommate, |pop|)
    && (forall s :: 0 <= s < |pop| ==> st.next[s] <= |pop[s].prefs|)
    && (forall q :: 0 <= q < |st.queue| ==> st.queue[q] < |pop|)
  }

  /** Preferences not yet proposed to, summed over the students before position `k`. */
  function RemainingUpTo(pop: seq<Student>, next: seq<nat>, k: nat): nat
    requires k <= |pop| && |next| == |pop|
    requires forall s :: 0 <= s < |pop| ==> next[s] <= |pop[s].prefs|
  {
    if k == 0 then 0 else RemainingUpTo(pop, next, k - 1) + (|pop[k - 1].prefs| - next[k - 1])
  }

  /** The first component of the termination measure: proposals left to anyone. */
  function Remaining(pop: seq<Student>, next: seq<nat>): nat
    requires |next| == |pop|
    requires forall s :: 0 <= s < |pop| ==> next[s] <= |pop[s].prefs|
  {
    RemainingUpTo(pop, next, |pop|)
  }

  lemma {:induction false} RemainingAdvance(pop: seq<Student>, next: seq<nat>, p: nat, k: nat)
    requires k <= |pop| && |next| == |pop| && p < |pop|
    requires forall s :: 0 <= s < |pop| ==> next[s] <= |pop[s].prefs|
    requires next[p] < |pop[p].prefs|
    ensures RemainingUpTo(pop, next[p := next[p] + 1], k)
         == RemainingUpTo(pop, next, k) - (if p < k then 1 else 0)
  {
    if k > 0 {
      RemainingAdvance(pop, next, p, k - 1);
    }
  }

  /** The initial state: every roommate cleared, every index 0, proposers queued in list order. */
  function Init(pop: seq<Student>): (st: State)
    ensures Inv(pop, st)
    ensures forall s :: 0 <= s < |pop| ==> st.roommate[s].None? && st.next[s] == 0
    ensures forall s :: 0 <= s < |pop| ==> (s in st.queue <==> |pop[s].prefs| > 0)
    ensures forall a, b :: 0 <= a < b < |st.queue| ==> st.queue[a] < st.queue[b]
  {
    var q := Proposers(pop, |pop|);
    assert forall i :: 0 <= i < |q| ==> q[i] in q;
    State(seq(|pop|, _ => None), seq(|pop|, _ => 0), q)
  }

  /** Positions before `k` whose preference list is non-empty, in increasing order. */
  function Proposers(pop: seq<Student>, k: nat): (q: seq<nat>)
    requires k <= |pop|
    ensures forall s :: s in q ==> s < k && |pop[s].prefs| > 0
    ensures forall s :: 0 <= s < k && |pop[s].prefs| > 0 ==> s in q
    ensures forall a, b :: 0 <= a < b < |q| ==> q[a] < q[b]
  {
    if k == 0 then []
    else if |pop[k - 1].prefs| > 0 then
      var q := Proposers(pop, k - 1);
      assert forall i :: 0 <= i < |q| ==> q[i] in q;
      q + [k - 1]
    else Proposers(pop, k - 1)
  }

  /** When everyone before `k` has preferences, everyone before `k` is queued, in order. */
  lemma {:induction false} ProposersAll(pop: seq<Student>, k: nat)
    requires k <= |pop|
    requires forall s :: 0 <= s < k ==> |pop[s].prefs| > 0
    ensures |Proposers(pop, k)| == k
    ensures forall i :: 0 <= i < k ==> Proposers(pop, k)[i] == i
  {
    if k > 0 {
      ProposersAll(pop, k - 1);
    }
  }

  /**
   * One iteration of the `while (!free.isEmpty())` loop: poll a proposer,
   * drop it if its list is exhausted, else propose to its next candidate.
   */
  function Step(pop: seq<Student>, st: State): (r: State)
    requires Inv(pop, st) && |st.queue| > 0
    ensures Inv(pop, r)
    ensures forall s :: 0 <= s < |pop| ==> st.next[s] <= r.next[s]
    ensures Remaining(pop, r.next) < Remaining(pop, st.next)
         || (r.next == st.next && |r.queue| < |st.queue|)
  {
    var p := st.queue[0];
    var rest := st.queue[1..];
    var prefs := pop[p].prefs;
    if st.next[p] >= |prefs| then
      st.(queue := rest)
    else
      var candidateName := prefs[st.next[p]];
      var next := st.next[p := st.next[p] + 1];
      RemainingAdvance(pop, st.next, p, |pop|);
      var retry := if next[p] < |prefs| then rest + [p] else rest;
      match Lookup(pop, candidateName)
      case None => State(st.roommate, next, retry)
      case Some(c) =>
        match st.roommate[c]
        case None =>
          State(st.roommate[p := Some(c)][c := Some(p)], next, rest)
        case Some(current) =>
          if IndexOfPreference(pop[c].prefs, pop[p].name)
             < IndexOfPreference(pop[c].prefs, pop[current].name)
          then
            State(st.roommate[current := None][p := Some(c)][c := Some(p)], next,
                  if next[current] < |pop[current].prefs| then rest + [current] else rest)
          else
            State(st.roommate, next, retry)
  }

  /**
   * What one iteration may change. Only the proposer's index moves, by at
   * most one; the proposer's reference either stays or points at the student
   * its current choice names; any other student keeps its reference, loses
   * it (a partner left for someone better), or takes the proposer instead of
   * no partner or of a partner it ranks strictly worse.
   */
  lemma StepEffect(pop: seq<Student>, st: State)
    requires Inv(pop, st) && |st.queue| > 0
    ensures var p, r := st.queue[0], Step(pop, st);
      && (forall s :: 0 <= s < |pop| && s != p ==> r.next[s] == st.next[s])
      && r.next[p] <= st.next[p] + 1
      && (r.roommate[p] == st.roommate[p]
          || (st.next[p] < |pop[p].prefs| && r.roommate[p] == Lookup(pop, pop[p].prefs[st.next[p]])))
      && (forall s :: 0 <= s < |pop| && s != p ==>
            || r.roommate[s] == st.roommate[s]
            || r.roommate[s].None?
            || (r.roommate[s] == Some(p)
                && (st.roommate[s].None?
                    || IndexOfPreference(pop[s].prefs, pop[p].name)
                       < IndexOfPreference(pop[s].prefs, pop[st.roommate[s].value].name))))
  {
    var p, r := st.queue[0], Step(pop, st);
    var prefs := pop[p].prefs;
    if st.next[p] < |prefs| {
      var candidateName := prefs[st.next[p]];
      match Lookup(pop, candidateName)
      case None =>
      case Some(c) =>
        match st.roommate[c]
        case None =>
          assert r.roommate == st.roommate[p := Some(c)][c := Some(p)];
        case Some(current) =>
          if IndexOfPreference(pop[c].prefs, pop[p].name)
             < IndexOfPreference(pop[c].prefs, pop[current].name) {
            assert r.roommate == st.roommate[current := None][p := Some(c)][c := Some(p)];
          }
    }
  }

  /** A proposer whose list is exhausted leaves the queue and changes nothing else. */
  lemma StepDropsExhausted(pop: seq<Student>, st: State)
    requires Inv(pop, st) && |st.queue| > 0
    requires st.next[st.queue[0]] >= |pop[st.queue[0]].prefs|
    ensures Step(pop, st) == st.(queue := st.queue[1..])
  {
  }

  /**
   * A candidate name no student carries (the lookup is exact) costs the
   * proposer that preference and nothing else: no reference changes, and
   * the proposer goes back to the end of the queue iff it has preferences left.
   */
  lemma StepSkipsUnknown(pop: seq<Student>, st: State)
    requires Inv(pop, st) && |st.queue| > 0
    requires st.next[st.queue[0]] < |pop[st.queue[0]].prefs|
    requires Lookup(pop, pop[st.queue[0]].prefs[st.next[st.queue[0]]]).None?
    ensures var p, r := st.queue[0], Step(pop, st);
      && r.roommate == st.roommate
      && r.next == st.next[p := st.next[p] + 1]
      && r.queue == st.queue[1..] + (if st.next[p] + 1 < |pop[p].prefs| then [p] else [])
  {
  }

  /**
   * A taken candidate keeps their partner unless they rank the proposer
   * strictly better: a proposer they do not rank at all, or rank no better,
   * is turned away. In particular a candidate with an empty list never
   * drops a partner.
   */
  lemma StepKeepsUnlessBetter(pop: seq<Student>, st: State, c: nat)
    requires Inv(pop, st) && |st.queue| > 0
    requires var p := st.queue[0];
      && st.next[p] < |pop[p].prefs|
      && Lookup(pop, pop[p].prefs[st.next[p]]) == Some(c)
      && st.roommate[c].Some?
    requires var p := st.queue[0];
      IndexOfPreference(pop[c].prefs, pop[p].name)
        >= IndexOfPreference(pop[c].prefs, pop[st.roommate[c].value].name)
    ensures Step(pop, st).roommate == st.roommate
  {
  }

  /** A candidate with an empty preference list ranks nobody, so it never trades a partner. */
  lemma EmptyListRanksNobody(prefs: seq<string>, a: string, b: string)
    requires prefs == []
    ensures IndexOfPreference(prefs, a) >= IndexOfPreference(prefs, b)
  {
  }

  /** The proposal loop, run until the queue is empty. */
  function Propose(pop: seq<Student>, st: State): (r: State)
    requires Inv(pop, st)
    ensures Inv(pop, r) && r.queue == []
    ensures forall s :: 0 <= s < |pop| ==> st.next[s] <= r.next[s]
    decreases Remaining(pop, st.next), |st.queue|
  {
    if st.queue == [] then st else Propose(pop, Step(pop, st))
  }

  /** Every assignment is reciprocated: roommate(s) = none, or roommate(roommate(s)) = s. */
  predicate Reciprocal(rm: seq<Option<nat>>)
    requires InRange(rm, |rm|)
  {
    forall s :: 0 <= s < |rm| && rm[s].Some? ==> rm[rm[s].value] == Some(s)
  }

  /** The repaired value of position `s`: kept if reciprocated, cleared otherwise. */
  function Repair(rm: seq<Option<nat>>, s: nat): Option<nat>
    requires s < |rm| && InRange(rm, |rm|)
  {
    match rm[s]
    case Some(t) => if rm[t] == Some(s) then rm[s] else None
    case None => None
  }

  /** The final consistency loop, from position `i` on (earlier positions are already repaired). */
  function SweepFrom(rm: seq<Option<nat>>, i: nat): (r: seq<Option<nat>>)
    requires i <= |rm| && InRange(rm, |rm|)
    requires forall s :: 0 <= s < i && rm[s].Some? ==> rm[rm[s].value] == Some(s)
    ensures |r| == |rm| && InRange(r, |r|)
    ensures Reciprocal(r)
    ensures forall s :: 0 <= s < |rm| ==> r[s] == rm[s] || r[s].None?
    ensures forall s :: 0 <= s < i ==> r[s] == rm[s]
    ensures forall s :: 0 <= s < |rm| && rm[s].Some? && rm[rm[s].value] == Some(s) ==> r[s] == rm[s]
    decreases |rm| - i
  {
    if i == |rm| then rm
    else SweepFrom(rm[i := Repair(rm, i)], i + 1)
  }

  /**
   * The sweep: afterwards every assignment is reciprocated; it only clears
   * references, never creates one, and every mutual pair survives it.
   * Although the loop repairs positions one after another, the outcome is
   * the same as repairing every position against the original assignment.
   */
  function Sweep(rm: seq<Option<nat>>): (r: seq<Option<nat>>)
    requires InRange(rm, |rm|)
    ensures |r| == |rm| && InRange(r, |r|)
    ensures Reciprocal(r)
    ensures forall s :: 0 <= s < |rm| ==> r[s] == rm[s] || r[s].None?
    ensures forall s :: 0 <= s < |rm| && rm[s].Some? && rm[rm[s].value] == Some(s) ==> r[s] == rm[s]
    ensures forall s :: 0 <= s < |rm| ==> r[s] == Repair(rm, s)
  {
    SweepFrom(rm, 0)
  }

  /**
   * `assignRoommates`: `null` leaves everything as it was (None); otherwise
   * the roommate of every position after matching.
   */
  function AssignRoommates(students: Option<seq<Student>>): (r: Option<seq<Option<nat>>>)
    requires students.Some? ==> DistinctNames(students.value)
    ensures students.None? <==> r.None?
    ensures r.Some? ==> |r.value| == |students.value| && InRange(r.value, |r.value|)
    ensures r.Some? ==> Reciprocal(r.value)
  {
    match students
    case None => None
    case Some(pop) => Some(Sweep(Propose(pop, Init(pop)).roommate))
  }

  /** A reciprocal assignment passes the sweep unchanged. */
  lemma SweepOfReciprocal(rm: seq<Option<nat>>)
    requires InRange(rm, |rm|) && Reciprocal(rm)
    ensures Sweep(rm) == rm
  {
    var r := Sweep(rm);
    forall s | 0 <= s < |rm|
      ensures r[s] == rm[s]
    {
      assert r[s] == Repair(rm, s);
    }
  }

  /**
   * An iteration that polls a proposer without a roommate keeps a
   * reciprocal assignment reciprocal.
   */
  lemma StepKeepsReciprocal(pop: seq<Student>, st: State)
    requires Inv(pop, st) && |st.queue| > 0
    requires st.roommate[st.queue[0]].None?
    ensures Reciprocal(st.roommate) ==> Reciprocal(Step(pop, st).roommate)
  {
    var p, rm, r := st.queue[0], st.roommate, Step(pop, st);
    var prefs := pop[p].prefs;
    if Reciprocal(rm) && st.next[p] < |prefs| {
      match Lookup(pop, prefs[st.next[p]])
      case None =>
      case Some(c) =>
        match rm[c]
        case None =>
          var rm' := rm[p := Some(c)][c := Some(p)];
          assert r.roommate == rm';
          forall s | 0 <= s < |rm'| && rm'[s].Some?
            ensures rm'[rm'[s].value] == Some(s)
          {
            if s != p && s != c {
              var t := rm[s].value;
              assert rm[t] == Some(s);
            }
          }
        case Some(current) =>
          if IndexOfPreference(pop[c].prefs, pop[p].name)
             < IndexOfPreference(pop[c].prefs, pop[current].name) {
            assert rm[current] == Some(c);
            var rm' := rm[current := None][p := Some(c)][c := Some(p)];
            assert r.roommate == rm';
            forall s | 0 <= s < |rm'| && rm'[s].Some?
              ensures rm'[rm'[s].value] == Some(s)
            {
              if s != p && s != c {
                var t := rm[s].value;
                assert rm[t] == Some(s);
              }
            }
          }
    }
  }

  /**
   * The corrected iteration: a polled proposer that already has a roommate
   * (it was accepted as somebody's candidate while it waited in the queue)
   * leaves the queue instead of proposing again and abandoning that
   * roommate. Otherwise it is the iteration as written.
   */
  function StepCorrected(pop: seq<Student>, st: State): (r: State)
    requires Inv(pop, st) && |st.queue| > 0
    ensures Inv(pop, r)
    ensures forall s :: 0 <= s < |pop| ==> st.next[s] <= r.next[s]
    ensures Remaining(pop, r.next) < Remaining(pop, st.next)
         || (r.next == st.next && |r.queue| < |st.queue|)
    ensures Reciprocal(st.roommate) ==> Reciprocal(r.roommate)
  {
    if st.roommate[st.queue[0]].Some? then
      st.(queue := st.queue[1..])
    else
      StepKeepsReciprocal(pop, st);
      Step(pop, st)
  }

  /** The corrected proposal loop; it keeps every assignment reciprocal. */
  function ProposeCorrected(pop: seq<Student>, st: State): (r: State)
    requires Inv(pop, st)
    ensures Inv(pop, r) && r.queue == []
    ensures Reciprocal(st.roommate) ==> Reciprocal(r.roommate)
    decreases Remaining(pop, st.next), |st.queue|
  {
    if st.queue == [] then st else ProposeCorrected(pop, StepCorrected(pop, st))
  }

  /**
   * `assignRoommates` with the corrected iteration. Every assignment the
   * proposal loop makes is already reciprocal, so the final sweep clears
   * nothing.
   */
  function AssignRoommatesCorrected(students: Option<seq<Student>>): (r: Option<seq<Option<nat>>>)
    requires students.Some? ==> DistinctNames(students.value)
    ensures students.None? <==> r.None?
    ensures r.Some? ==> |r.value| == |students.value| && InRange(r.value, |r.value|)
    ensures r.Some? ==> Reciprocal(r.value)
    ensures r.Some? ==> r.value == ProposeCorrected(students.value, Init(students.value)).roommate
  {
    match students
    case None => None
    case Some(pop) =>
      var rm := ProposeCorrected(pop, Init(pop)).roommate;
      SweepOfReciprocal(rm);
      Some(Sweep(rm))
  }
}
