/**
  The typed-text cycler of the portfolio page: a timer-driven state machine that
  types a role string one character at a time, pauses, deletes it one character
  at a time, pauses, and moves on to the next role.

  One call of the page's `tick` closure is modelled by `Step`, a pure function
  from the three mutable variables (role index, character index, deleting flag)
  to the next values of those variables, the text written into the element and
  the delay after which the next tick is scheduled.
 */
module TypedText {

  /** Delay between two typed characters, in milliseconds. */
  const TypeSpeed: nat := 80
  /** Delay between two deleted characters. */
  const DeleteSpeed: nat := 40
  /** Pause once a role is fully shown. */
  const PauseEnd: nat := 2000
  /** Pause once a role is fully erased, before the next role starts. */
  const PauseStart: nat := 500
  /** Delay before the very first tick after page load. */
  const StartDelay: nat := 1000

  /** The roles the page cycles through, in order. */
  const Roles: seq<string> := [
    "Full Stack Web Developer",
    "Mobile Developer",
    "UI / UX Designer",
    "Backend Engineer"
  ]

  /** The cycler's mutable variables. */
  datatype State = State(roleIndex: nat, charIndex: int, deleting: bool)

  /** What one tick produces: the next state, the text shown, the next delay. */
  datatype Tick = Tick(next: State, text: string, delay: nat)

  /** The state the cycler starts from: first role, nothing typed, typing. */
  const Initial: State := State(0, 0, false)

  /** A role list the cycler can run on: at least one role, and no empty role. */
  predicate WellFormedRoles(roles: seq<string>) {
    |roles| > 0 && forall i :: 0 <= i < |roles| ==> |roles[i]| > 0
  }

  /** The role index designates a role. */
  predicate ValidIndex(roles: seq<string>, s: State) {
    s.roleIndex < |roles|
  }

  /**
    The invariant the cycler keeps between ticks: while typing, some but not all
    of the current role may be shown; while deleting, at least one character is
    still shown.
   */
  predicate Inv(roles: seq<string>, s: State) {
    && ValidIndex(roles, s)
    && (if s.deleting
        then 1 <= s.charIndex <= |roles[s.roleIndex]|
        else 0 <= s.charIndex < |roles[s.roleIndex]|)
  }

  /**
    JavaScript's `s.slice(0, end)`: a negative `end` counts from the back of the
    string, and an `end` past the last character is clamped to the length.
   */
  function SliceTo(s: string, end: int): (r: string)
    ensures |r| <= |s| && r == s[..|r|]
    ensures 0 <= end <= |s| ==> |r| == end
    ensures end >= |s| ==> r == s
    ensures end < 0 ==> |r| == (if |s| + end < 0 then 0 else |s| + end)
  {
    if end < 0 then (if |s| + end < 0 then [] else s[..|s| + end])
    else if end > |s| then s
    else s[..end]
  }

  /**
    One tick. Typing shows one more character and flips to deleting when the
    whole role is shown; deleting shows one character less and, once nothing is
    shown, flips back to typing on the next role (wrapping around the list).
   */
  function Step(roles: seq<string>, s: State): (t: Tick)
    requires ValidIndex(roles, s)
    ensures ValidIndex(roles, t.next)
    ensures |t.text| <= |roles[s.roleIndex]| && t.text == roles[s.roleIndex][..|t.text|]
    ensures t.next.charIndex == if s.deleting then s.charIndex - 1 else s.charIndex + 1
    ensures t.next.roleIndex != s.roleIndex ==> s.deleting && !t.next.deleting
  {
    var role := roles[s.roleIndex];
    if !s.deleting then
      var text := SliceTo(role, s.charIndex + 1);
      var c := s.charIndex + 1;
      if c == |role| then Tick(State(s.roleIndex, c, true), text, PauseEnd)
      else Tick(State(s.roleIndex, c, false), text, TypeSpeed)
    else
      var text := SliceTo(role, s.charIndex - 1);
      var c := s.charIndex - 1;
      if c == 0 then Tick(State((s.roleIndex + 1) % |roles|, c, false), text, PauseStart)
      else Tick(State(s.roleIndex, c, true), text, DeleteSpeed)
  }

  /** The state reached after `k` ticks from `s`. */
  function Run(roles: seq<string>, s: State, k: nat): (s': State)
    requires ValidIndex(roles, s)
    ensures ValidIndex(roles, s')
    decreases k
  {
    if k == 0 then s else Run(roles, Step(roles, s).next, k - 1)
  }

  /** The total time, in milliseconds, that `k` ticks from `s` schedule. */
  function Elapsed(roles: seq<string>, s: State, k: nat): (ms: nat)
    requires ValidIndex(roles, s)
    ensures DeleteSpeed * k <= ms <= PauseEnd * k
    decreases k
  {
    if k == 0 then 0 else Step(roles, s).delay + Elapsed(roles, Step(roles, s).next, k - 1)
  }

  /** The four roles on the page satisfy the cycler's requirement. */
  lemma PageRolesWellFormed()
    ensures WellFormedRoles(Roles)
  {
  }

  /** The cycler starts in a state satisfying the invariant. */
  lemma InitialInv(roles: seq<string>)
    requires WellFormedRoles(roles)
    ensures Inv(roles, Initial)
  {
  }

  /**
    With no empty role, a tick keeps the invariant, and the character index stays
    between 0 and the length of the current role.
   */
  lemma StepPreservesInv(roles: seq<string>, s: State)
    requires WellFormedRoles(roles) && Inv(roles, s)
    ensures Inv(roles, Step(roles, s).next)
    ensures 0 <= Step(roles, s).next.charIndex <= |roles[Step(roles, s).next.roleIndex]|
  {
  }

  /** The invariant holds after any number of ticks. */
  lemma {:induction false} RunPreservesInv(roles: seq<string>, s: State, k: nat)
    requires WellFormedRoles(roles) && Inv(roles, s)
    ensures Inv(roles, Run(roles, s, k))
    decreases k
  {
    if k > 0 {
      StepPreservesInv(roles, s);
      RunPreservesInv(roles, Step(roles, s).next, k - 1);
    }
  }

  /** Every state the page reaches from load satisfies the invariant. */
  lemma ReachableInv(roles: seq<string>, k: nat)
    requires WellFormedRoles(roles)
    ensures Inv(roles, Run(roles, Initial, k))
    ensures 0 <= Run(roles, Initial, k).charIndex <= |roles[Run(roles, Initial, k).roleIndex]|
  {
    RunPreservesInv(roles, Initial, k);
  }

  /**
    The text a tick shows is exactly the first `charIndex` characters of the role
    the tick started on, `charIndex` being the index after the tick.
   */
  lemma StepShowsPrefix(roles: seq<string>, s: State)
    requires Inv(roles, s)
    ensures Step(roles, s).text == roles[s.roleIndex][..Step(roles, s).next.charIndex]
  {
  }

  /**
    The mode flips exactly at the two boundaries: typing turns into deleting
    precisely when the tick shows the whole role, and deleting turns into typing
    precisely when the tick shows nothing.
   */
  lemma StepFlipsAtBoundaries(roles: seq<string>, s: State)
    requires Inv(roles, s)
    ensures var t := Step(roles, s);
      !s.deleting ==> (t.next.deleting <==> t.text == roles[s.roleIndex])
    ensures var t := Step(roles, s);
      s.deleting ==> (!t.next.deleting <==> t.text == [])
    ensures var t := Step(roles, s);
      !s.deleting ==> (t.next.deleting <==> t.next.charIndex == |roles[s.roleIndex]|)
    ensures var t := Step(roles, s);
      s.deleting ==> (!t.next.deleting <==> t.next.charIndex == 0)
  {
  }

  /**
    Which role and which delay follow a tick: typing keeps the role and waits
    the typing speed, or the end pause when it has just flipped; deleting keeps
    the role and waits the deleting speed, or moves to the next role modulo the
    list length and waits the start pause when it has just flipped.
   */
  lemma StepRoleAndDelay(roles: seq<string>, s: State)
    requires Inv(roles, s)
    ensures var t := Step(roles, s);
      !s.deleting ==>
        && t.next.roleIndex == s.roleIndex
        && t.delay == (if t.next.deleting then PauseEnd else TypeSpeed)
    ensures var t := Step(roles, s);
      s.deleting ==>
        && t.next.roleIndex == (if t.next.deleting then s.roleIndex else (s.roleIndex + 1) % |roles|)
        && t.delay == (if t.next.deleting then DeleteSpeed else PauseStart)
  {
  }

  /**
    With an empty role the equality test that ends typing is never met: the
    character index overshoots and the cycler stays in typing mode for ever,
    showing nothing.
   */
  lemma {:induction false} EmptyRoleTypesForever(roles: seq<string>, r: nat, c: nat, k: nat)
    requires r < |roles| && roles[r] == []
    ensures Run(roles, State(r, c, false), k) == State(r, c + k, false)
    decreases k
  {
    if k > 0 {
      assert Step(roles, State(r, c, false)).next == State(r, c + 1, false);
      EmptyRoleTypesForever(roles, r, c + 1, k - 1);
    }
  }
}
