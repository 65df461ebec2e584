/**
  Multi-tick behaviour of the typed-text cycler: the typing and deleting phases,
  one full type-pause-delete-pause cycle per role, its duration, and the order in
  which the roles are visited.
 */
module TypedTextCycle {
  import opened TypedText

  /** Running `a` ticks and then `b` more is running `a + b` ticks. */
  lemma {:induction false} RunAdd(roles: seq<string>, s: State, a: nat, b: nat)
    requires ValidIndex(roles, s)
    ensures Run(roles, s, a + b) == Run(roles, Run(roles, s, a), b)
    ensures Elapsed(roles, s, a + b) == Elapsed(roles, s, a) + Elapsed(roles, Run(roles, s, a), b)
    decreases a
  {
    if a > 0 {
      RunAdd(roles, Step(roles, s).next, a - 1, b);
    }
  }

  /** Short of the end of the role, every tick types one character, 80 ms apart. */
  lemma {:induction false} TypingPhase(roles: seq<string>, r: nat, c: nat, k: nat)
    requires r < |roles| && c + k < |roles[r]|
    ensures Run(roles, State(r, c, false), k) == State(r, c + k, false)
    ensures Elapsed(roles, State(r, c, false), k) == TypeSpeed * k
    decreases k
  {
    if k > 0 {
      assert Step(roles, State(r, c, false)) == Tick(State(r, c + 1, false), roles[r][..c + 1], TypeSpeed);
      TypingPhase(roles, r, c + 1, k - 1);
    }
  }

  /** Short of erasing the role, every tick deletes one character, 40 ms apart. */
  lemma {:induction false} DeletingPhase(roles: seq<string>, r: nat, c: nat, k: nat)
    requires r < |roles| && c <= |roles[r]| && k < c
    ensures Run(roles, State(r, c, true), k) == State(r, c - k, true)
    ensures Elapsed(roles, State(r, c, true), k) == DeleteSpeed * k
    decreases k
  {
    if k > 0 {
      assert Step(roles, State(r, c, true)) == Tick(State(r, c - 1, true), roles[r][..c - 1], DeleteSpeed);
      DeletingPhase(roles, r, c - 1, k - 1);
    }
  }

  /**
    Where the cycler stands `k` ticks after starting to type role `r`, for `k`
    up to twice the role's length.
   */
  function CyclePoint(roles: seq<string>, r: nat, k: nat): (s: State)
    requires r < |roles|
  {
    var len := |roles[r]|;
    if k < len then State(r, k, false)
    else if k < 2 * len then State(r, 2 * len - k, true)
    else State((r + 1) % |roles|, 0, false)
  }

  /** The states one cycle of role `r` passes through. */
  lemma Trajectory(roles: seq<string>, r: nat, k: nat)
    requires WellFormedRoles(roles) && r < |roles| && k <= 2 * |roles[r]|
    ensures Run(roles, State(r, 0, false), k) == CyclePoint(roles, r, k)
  {
    var len := |roles[r]|;
    var s0 := State(r, 0, false);
    if k < len {
      TypingPhase(roles, r, 0, k);
    } else if k == len {
      RunAdd(roles, s0, len - 1, 1);
      TypingPhase(roles, r, 0, len - 1);
      assert Step(roles, State(r, len - 1, false)).next == State(r, len, true);
    } else if k < 2 * len {
      RunAdd(roles, s0, len, k - len);
      Trajectory(roles, r, len);
      DeletingPhase(roles, r, len, k - len);
    } else {
      RunAdd(roles, s0, 2 * len - 1, 1);
      Trajectory(roles, r, 2 * len - 1);
      assert Step(roles, State(r, 1, true)).next == State((r + 1) % |roles|, 0, false);
    }
  }

  /**
    From the start of role `r`, exactly `2 * |roles[r]|` ticks lead to the start
    of the next role (modulo the list length): no earlier tick leaves role `r`
    or comes back to a start-of-role state.
   */
  lemma RoleCycle(roles: seq<string>, r: nat)
    requires WellFormedRoles(roles) && r < |roles|
    ensures Run(roles, State(r, 0, false), 2 * |roles[r]|) == State((r + 1) % |roles|, 0, false)
    ensures forall k :: 0 < k < 2 * |roles[r]| ==>
      && Run(roles, State(r, 0, false), k).roleIndex == r
      && Run(roles, State(r, 0, false), k) != State((r + 1) % |roles|, 0, false)
  {
    Trajectory(roles, r, 2 * |roles[r]|);
    forall k | 0 < k < 2 * |roles[r]|
      ensures Run(roles, State(r, 0, false), k).roleIndex == r
      ensures Run(roles, State(r, 0, false), k) != State((r + 1) % |roles|, 0, false)
    {
      Trajectory(roles, r, k);
    }
  }

  /**
    One cycle of a role of length `len` takes `len - 1` typing delays, the end
    pause, `len - 1` deleting delays and the start pause.
   */
  lemma CycleDuration(roles: seq<string>, r: nat)
    requires WellFormedRoles(roles) && r < |roles|
    ensures Elapsed(roles, State(r, 0, false), 2 * |roles[r]|)
         == (|roles[r]| - 1) * (TypeSpeed + DeleteSpeed) + PauseEnd + PauseStart
  {
    var len := |roles[r]|;
    var s0 := State(r, 0, false);
    RunAdd(roles, s0, len - 1, len + 1);
    TypingPhase(roles, r, 0, len - 1);
    var s1 := State(r, len - 1, false);
    RunAdd(roles, s1, 1, len);
    assert Step(roles, s1).next == State(r, len, true);
    var s2 := State(r, len, true);
    RunAdd(roles, s2, len - 1, 1);
    DeletingPhase(roles, r, len, len - 1);
    assert Step(roles, State(r, 1, true)).delay == PauseStart;
  }

  /** The number of ticks that `m` whole cycles take, starting at role `from`. */
  function CycleTicks(roles: seq<string>, from: nat, m: nat): (ticks: nat)
    requires from < |roles|
  {
    if m == 0 then 0 else CycleTicks(roles, from, m - 1) + 2 * |roles[(from + m - 1) % |roles|]|
  }

  lemma MulAtLeast(d: int, n: int)
    requires d >= 1 && n > 0
    ensures d * n >= n
  {
    assert d * n == (d - 1) * n + n;
  }

  /** The remainder is determined by any quotient-remainder decomposition. */
  lemma ModUnique(a: int, n: int, q: int, r: int)
    requires n > 0 && 0 <= r < n && a == q * n + r
    ensures a % n == r
  {
    var q' := a / n;
    var r' := a % n;
    assert a == q' * n + r';
    if q' < q {
      assert q * n - q' * n == (q - q') * n;
      MulAtLeast(q - q', n);
    } else if q' > q {
      assert q' * n - q * n == (q' - q) * n;
      MulAtLeast(q' - q, n);
    }
  }

  /** Advancing a remainder by one is advancing the number by one. */
  lemma ModSucc(a: nat, n: nat)
    requires n > 0
    ensures (a % n + 1) % n == (a + 1) % n
  {
    var q := a / n;
    var r := a % n;
    assert a == q * n + r;
    if r + 1 < n {
      ModUnique(a + 1, n, q, r + 1);
      ModUnique(r + 1, n, 0, r + 1);
    } else {
      ModUnique(a + 1, n, q + 1, 0);
      assert (q + 1) * n == q * n + n;
      ModUnique(r + 1, n, 1, 0);
    }
  }

  /**
    The roles are visited in order: after `m` whole cycles from the start of role
    `from` the cycler is at the start of role `(from + m) % |roles|`.
   */
  lemma {:induction false} VisitsInOrder(roles: seq<string>, from: nat, m: nat)
    requires WellFormedRoles(roles) && from < |roles|
    ensures Run(roles, State(from, 0, false), CycleTicks(roles, from, m)) == State((from + m) % |roles|, 0, false)
    decreases m
  {
    var s0 := State(from, 0, false);
    if m == 0 {
      ModUnique(from, |roles|, 0, from);
    } else {
      var r := (from + m - 1) % |roles|;
      var a := CycleTicks(roles, from, m - 1);
      RunAdd(roles, s0, a, 2 * |roles[r]|);
      VisitsInOrder(roles, from, m - 1);
      assert Run(roles, s0, a) == State(r, 0, false);
      RoleCycle(roles, r);
      ModSucc(from + m - 1, |roles|);
    }
  }

  /**
    From page load the cycler starts at the first role, so after `m` whole cycles
    it starts typing role `m % |roles|`.
   */
  lemma VisitsFromLoad(roles: seq<string>, m: nat)
    requires WellFormedRoles(roles)
    ensures Run(roles, Initial, CycleTicks(roles, 0, m)) == State(m % |roles|, 0, false)
  {
    VisitsInOrder(roles, 0, m);
  }

  /** The four roles of the page are shown in their listed order, for ever. */
  lemma PageVisitsRolesInOrder(m: nat)
    ensures Run(Roles, Initial, CycleTicks(Roles, 0, m)) == State(m % |Roles|, 0, false)
  {
    PageRolesWellFormed();
    VisitsFromLoad(Roles, m);
  }

  /** The time after page load at which tick number `k` (counting from 0) runs. */
  function TickTime(roles: seq<string>, k: nat): (ms: nat)
    requires |roles| > 0
    ensures StartDelay + DeleteSpeed * k <= ms <= StartDelay + PauseEnd * k
  {
    StartDelay + Elapsed(roles, Initial, k)
  }

  /**
    After load the first role is typed out one character per tick: the tick that
    shows it in full runs `StartDelay + (len - 1) * TypeSpeed` ms after load.
   */
  lemma FirstRoleFullyShown(roles: seq<string>)
    requires WellFormedRoles(roles)
    ensures var len := |roles[0]|;
      && Step(roles, Run(roles, Initial, len - 1)).text == roles[0]
      && TickTime(roles, len - 1) == StartDelay + (len - 1) * TypeSpeed
  {
    TypingPhase(roles, 0, 0, |roles[0]| - 1);
  }
}
