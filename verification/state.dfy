/** `BasicState`: a lifecycle that only moves forward around the cycle
    idle -> starting -> running -> stopping -> idle. A state is a string, as
    in the source; the transition table is the five-entry sequence whose
    last entry repeats the first. */
module State {
  import opened Outcomes

  type State = string

  const Idle: State := "idle"
  const Starting: State := "starting"
  const Running: State := "running"
  const Stopping: State := "stopping"

  /** The table `To` walks: each entry is followed by its successor. */
  const Table: seq<State> := [Idle, Starting, Running, Stopping, Idle]

  datatype BasicState = BasicState(state: State)

  function NewBasicState(): (s: BasicState)
    ensures s.state == Idle && InCycle(s)
  {
    BasicState(Idle)
  }

  /** `Current`: reading the state changes nothing. */
  function Current(s: BasicState): State {
    s.state
  }

  predicate InCycle(s: BasicState) {
    s.state in {Idle, Starting, Running, Stopping}
  }

  /** The successor of each state of the cycle, written out case by case;
      a string outside the cycle has none. */
  function Successor(st: State): Option<State> {
    if st == Idle then Some(Starting)
    else if st == Starting then Some(Running)
    else if st == Running then Some(Stopping)
    else if st == Stopping then Some(Idle)
    else None
  }

  /** The loop of `To` from index `i`: the first entry equal to the current
      state decides by comparing its successor entry with `next`; when no
      entry matches, the loop ends and the transition is taken. The index
      `i + 1` stays in the table because the last entry equals the first. */
  function Scan(current: State, next: State, i: nat): (ok: bool)
    requires i <= |Table|
    requires forall j :: 0 <= j < i ==> Table[j] != current
    decreases |Table| - i
  {
    if i == |Table| then true
    else if Table[i] != current then Scan(current, next, i + 1)
    else if i + 1 == |Table| then
      LastIsFirst();
      assert false;
      false
    else Table[i + 1] == next
  }

  lemma LastIsFirst()
    ensures Table[|Table| - 1] == Table[0]
  {
  }

  /** `To`: the transition succeeds when `next` follows the current state in
      the cycle (or, unreachably, when the current state is not in the
      table) and then becomes the state; a refused transition changes
      nothing. */
  function To(s: BasicState, next: State): (r: (BasicState, bool))
    ensures r.1 <==> Successor(s.state).None? || Successor(s.state) == Some(next)
    ensures r.0 == if r.1 then BasicState(next) else s
  {
    ScanDecides(s.state, next);
    var ok := Scan(s.state, next, 0);
    (if ok then BasicState(next) else s, ok)
  }

  lemma ScanDecides(current: State, next: State)
    ensures Scan(current, next, 0) <==> Successor(current).None? || Successor(current) == Some(next)
  {
    if current == Idle {
      assert Table[0] == current;
    } else if current == Starting {
      ScanStep(current, next, 0);
      assert Table[1] == current;
    } else if current == Running {
      ScanStep(current, next, 0);
      ScanStep(current, next, 1);
      assert Table[2] == current;
    } else if current == Stopping {
      ScanStep(current, next, 0);
      ScanStep(current, next, 1);
      ScanStep(current, next, 2);
      assert Table[3] == current;
    } else {
      ScanStep(current, next, 0);
      ScanStep(current, next, 1);
      ScanStep(current, next, 2);
      ScanStep(current, next, 3);
      ScanStep(current, next, 4);
    }
  }

  /** An entry that does not match moves the scan on. */
  lemma ScanStep(current: State, next: State, i: nat)
    requires i < |Table| && Table[i] != current
    requires forall j :: 0 <= j < i ==> Table[j] != current
    ensures Scan(current, next, i) == Scan(current, next, i + 1)
  {
  }

  /** The state never leaves the cycle. */
  lemma StaysInCycle(s: BasicState, next: State)
    requires InCycle(s)
    ensures InCycle(To(s, next).0)
  {
  }

  /** No state moves to itself. */
  lemma NoSelfTransition(s: BasicState)
    requires InCycle(s)
    ensures To(s, s.state) == (s, false)
  {
  }

  /** Four transitions in cycle order lead from a new state back to idle. */
  lemma FullCycle()
    ensures var s0 := NewBasicState();
      var (s1, ok1) := To(s0, Starting);
      var (s2, ok2) := To(s1, Running);
      var (s3, ok3) := To(s2, Stopping);
      var (s4, ok4) := To(s3, Idle);
      ok1 && ok2 && ok3 && ok4 && s4 == s0
  {
  }
}
