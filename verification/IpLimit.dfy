/**
 * The per-address connection limit: a table of counts behind a mutex, and guards whose drop gives
 * the slot back. First the two critical sections as the code writes them, then every interleaving
 * of every connection's steps through them.
 */
module IpLimit {
  import opened Labels

  type Ip = nat

  datatype ConnectionGuard = ConnectionGuard(ip: Ip, tracked: bool)

  function CountOf(counts: map<Ip, nat>, ip: Ip): nat {
    if ip in counts then counts[ip] else 0
  }

  /** `entry(ip).or_insert(0)`. */
  function OrInsert(counts: map<Ip, nat>, ip: Ip): map<Ip, nat> {
    if ip in counts then counts else counts[ip := 0]
  }

  function SaturatingSub(n: nat, m: nat): nat {
    if n >= m then n - m else 0
  }

  class Connections {
    var counts: map<Ip, nat>

    constructor ()
      ensures counts == map[]
    {
      counts := map[];
    }

    /** `try_acquire`: a negative limit hands out an untracked guard; otherwise a slot is taken if one is free. */
    method TryAcquire(ip: Ip, limit: int) returns (r: Option<ConnectionGuard>)
      modifies this
      ensures limit < 0 ==> r == Some(ConnectionGuard(ip, false)) && counts == old(counts)
      ensures limit >= 0 && old(CountOf(counts, ip)) < limit ==>
                r == Some(ConnectionGuard(ip, true)) && counts == old(counts)[ip := old(CountOf(counts, ip)) + 1]
      ensures limit >= 0 && old(CountOf(counts, ip)) >= limit ==>
                r == None && counts == OrInsert(old(counts), ip)
    {
      if limit < 0 {
        return Some(ConnectionGuard(ip, false));
      }
      counts := OrInsert(counts, ip);
      if counts[ip] >= limit {
        return None;
      }
      counts := counts[ip := counts[ip] + 1];
      return Some(ConnectionGuard(ip, true));
    }

    /** `drop`: a tracked guard gives its slot back, and the last one takes the entry with it. */
    method Drop(guard: ConnectionGuard)
      modifies this
      ensures !guard.tracked || guard.ip !in old(counts) ==> counts == old(counts)
      ensures guard.tracked && guard.ip in old(counts) ==>
                counts == if old(counts)[guard.ip] <= 1 then old(counts) - {guard.ip}
                          else old(counts)[guard.ip := old(counts)[guard.ip] - 1]
    {
      if !guard.tracked {
        return;
      }
      if guard.ip in counts {
        counts := counts[guard.ip := SaturatingSub(counts[guard.ip], 1)];
        var remaining := counts[guard.ip];
        if remaining == 0 {
          counts := counts - {guard.ip};
        }
      }
    }
  }

  // ---- All interleavings ----

  /** Where a connection's task stands; the states marked (lock) are inside a critical section. */
  datatype Task =
    | Accepted(ip: Ip, limit: int)
    | Acquiring(ip: Ip, limit: int)        // (lock) before `entry`
    | Comparing(ip: Ip, limit: int)        // (lock) after `entry`, before the comparison
    | Serving(guard: ConnectionGuard)
    | Releasing(ip: Ip)                    // (lock) in `drop`, before the subtraction
    | Cleaning(ip: Ip, remaining: nat)     // (lock) in `drop`, after the subtraction
    | Refused(ip: Ip)
    | Closed
  {
    predicate InSection() {
      Acquiring? || Comparing? || Releasing? || Cleaning?
    }

    /** Does the task hold a slot of this address? */
    predicate Holds(a: Ip) {
      (Serving? && guard.tracked && guard.ip == a) || (Releasing? && ip == a)
    }
  }

  datatype State = State(counts: map<Ip, nat>, lock: Option<nat>, tasks: map<nat, Task>) {
    function With(t: nat, task: Task): State {
      this.(tasks := tasks[t := task])
    }
  }

  ghost predicate Init(s: State) {
    && s.counts == map[] && s.lock == None
    && forall t | t in s.tasks :: s.tasks[t].Accepted?
  }

  /** One step of task `t`. */
  ghost predicate Step(s: State, s': State, t: nat) {
    t in s.tasks &&
    match s.tasks[t]
    case Accepted(ip, limit) =>
      if limit < 0 then s' == s.With(t, Serving(ConnectionGuard(ip, false)))
      else s.lock == None && s' == s.With(t, Acquiring(ip, limit)).(lock := Some(t))
    case Acquiring(ip, limit) =>
      s' == s.With(t, Comparing(ip, limit)).(counts := OrInsert(s.counts, ip))
    case Comparing(ip, limit) =>
      if CountOf(s.counts, ip) >= limit then s' == s.With(t, Refused(ip)).(lock := None)
      else s' == s.With(t, Serving(ConnectionGuard(ip, true)))
                  .(lock := None, counts := s.counts[ip := CountOf(s.counts, ip) + 1])
    case Serving(guard) =>
      if !guard.tracked then s' == s.With(t, Closed)
      else s.lock == None && s' == s.With(t, Releasing(guard.ip)).(lock := Some(t))
    case Releasing(ip) =>
      if ip in s.counts then
        var n := SaturatingSub(s.counts[ip], 1);
        s' == s.With(t, Cleaning(ip, n)).(counts := s.counts[ip := n])
      else s' == s.With(t, Closed).(lock := None)
    case Cleaning(ip, remaining) =>
      s' == s.With(t, Closed).(lock := None, counts := if remaining == 0 then s.counts - {ip} else s.counts)
    case Refused(_) => s' == s.With(t, Closed)
    case Closed => false
  }

  ghost function Holders(tasks: map<nat, Task>, a: Ip): set<nat> {
    set t | t in tasks && tasks[t].Holds(a)
  }

  /** Slots are accounted for: each address's count is the number of tasks that hold a slot of it. */
  ghost predicate Accounted(s: State) {
    forall a: Ip :: CountOf(s.counts, a) == |Holders(s.tasks, a)|
  }

  /** The lock is held exactly by the one task inside a critical section. */
  ghost predicate LockOk(s: State) {
    && (s.lock.Some? ==> s.lock.value in s.tasks && s.tasks[s.lock.value].InSection())
    && forall t | t in s.tasks && s.tasks[t].InSection() :: s.lock == Some(t)
  }

  ghost predicate SectionOk(s: State, task: Task) {
    && (task.Acquiring? || task.Comparing? ==> task.limit >= 0)
    && (task.Comparing? ==> task.ip in s.counts)
    && (task.Cleaning? ==> task.ip in s.counts && s.counts[task.ip] == task.remaining)
  }

  ghost predicate Invariant(s: State) {
    && Accounted(s)
    && LockOk(s)
    && forall t | t in s.tasks :: SectionOk(s, s.tasks[t])
  }

  ghost function OtherHolders(tasks: map<nat, Task>, t: nat, a: Ip): set<nat> {
    set u | u in tasks && u != t && tasks[u].Holds(a)
  }

  lemma HoldersCount(tasks: map<nat, Task>, t: nat, a: Ip)
    requires t in tasks
    ensures |Holders(tasks, a)| == |OtherHolders(tasks, t, a)| + if tasks[t].Holds(a) then 1 else 0
  {
    var others := OtherHolders(tasks, t, a);
    assert Holders(tasks, a) == if tasks[t].Holds(a) then others + {t} else others;
  }

  /** Moving one task changes each address's holders by at most that task. */
  lemma HoldersMove(tasks: map<nat, Task>, t: nat, task: Task, a: Ip)
    requires t in tasks
    ensures |Holders(tasks[t := task], a)| ==
            |Holders(tasks, a)| - (if tasks[t].Holds(a) then 1 else 0) + (if task.Holds(a) then 1 else 0)
  {
    HoldersCount(tasks, t, a);
    HoldersCount(tasks[t := task], t, a);
    assert OtherHolders(tasks[t := task], t, a) == OtherHolders(tasks, t, a);
  }

  lemma AccountedStep(s: State, s': State, t: nat)
    requires Invariant(s) && Step(s, s', t)
    ensures Accounted(s')
  {
    forall a: Ip ensures CountOf(s'.counts, a) == |Holders(s'.tasks, a)| {
      HoldersMove(s.tasks, t, s'.tasks[t], a);
      assert CountOf(s.counts, a) == |Holders(s.tasks, a)|;
      if s.tasks[t].Releasing? { ReleasingCounted(s, t); }
    }
  }

  /** The saturating subtraction never saturates: a task about to release finds its own slot counted. */
  lemma ReleasingCounted(s: State, t: nat)
    requires Accounted(s) && t in s.tasks && s.tasks[t].Releasing?
    ensures s.tasks[t].ip in s.counts && s.counts[s.tasks[t].ip] >= 1
  {
    var a := s.tasks[t].ip;
    assert t in Holders(s.tasks, a);
    assert CountOf(s.counts, a) == |Holders(s.tasks, a)|;
  }

  /** Every step of every task keeps the accounting and the lock discipline. */
  lemma StepKeepsInvariant(s: State, s': State, t: nat)
    requires Invariant(s) && Step(s, s', t)
    ensures Invariant(s')
  {
    AccountedStep(s, s', t);
    if s.tasks[t].Releasing? { ReleasingCounted(s, t); }
    forall u | u in s'.tasks
      ensures SectionOk(s', s'.tasks[u])
      ensures s'.tasks[u].InSection() ==> s'.lock == Some(u)
    {
      assert SectionOk(s, s.tasks[u]);
      assert s.tasks[u].InSection() ==> s.lock == Some(u);
      assert s.tasks[t].InSection() ==> s.lock == Some(t);
    }
  }

  /** The mutex works: while one task is inside, no other can change the table, the lock or that task. */
  lemma LockProtects(s: State, s': State, t: nat, u: nat)
    requires Invariant(s) && s.lock == Some(t) && u != t && Step(s, s', u)
    ensures s'.counts == s.counts && s'.lock == s.lock && s'.tasks[t] == s.tasks[t]
  {
    assert s.tasks[u].InSection() ==> s.lock == Some(u);
  }

  /** The steps of one acquiring section, whatever happens outside it in between, do what the method does. */
  lemma AcquireSection(s: State, mid: State, mid': State, s': State, t: nat)
    requires t in s.tasks && s.tasks[t].Acquiring? && s.tasks[t].limit >= 0
    requires Step(s, mid, t) && mid'.counts == mid.counts && t in mid'.tasks && mid'.tasks[t] == mid.tasks[t]
    requires Step(mid', s', t)
    ensures
      var ip, limit, n := s.tasks[t].ip, s.tasks[t].limit, CountOf(s.counts, s.tasks[t].ip);
      if n < limit then s'.tasks[t] == Serving(ConnectionGuard(ip, true)) && s'.counts == s.counts[ip := n + 1]
      else s'.tasks[t] == Refused(ip) && s'.counts == OrInsert(s.counts, ip)
  {
  }

  /** The same for a releasing section: the last holder takes the entry with it. */
  lemma ReleaseSection(s: State, mid: State, mid': State, s': State, t: nat)
    requires Invariant(s) && t in s.tasks && s.tasks[t].Releasing?
    requires Step(s, mid, t) && mid'.counts == mid.counts && t in mid'.tasks && mid'.tasks[t] == mid.tasks[t]
    requires Step(mid', s', t)
    ensures
      var ip := s.tasks[t].ip;
      && ip in s.counts && s.counts[ip] >= 1 && s'.tasks[t] == Closed
      && s'.counts == if s.counts[ip] == 1 then s.counts - {ip} else s.counts[ip := s.counts[ip] - 1]
  {
    ReleasingCounted(s, t);
  }

  ghost predicate CanStep(s: State, t: nat) {
    exists s' :: Step(s, s', t)
  }

  /** No deadlock: as long as some connection is unfinished, some connection can take a step. */
  lemma SomeoneCanStep(s: State, t: nat) returns (u: nat)
    requires Invariant(s) && t in s.tasks && !s.tasks[t].Closed?
    ensures CanStep(s, u)
  {
    u := if s.lock.Some? then s.lock.value else t;
    var task := s.tasks[u];
    assert SectionOk(s, task);
    var s' := match task
      case Accepted(ip, limit) =>
        if limit < 0 then s.With(u, Serving(ConnectionGuard(ip, false)))
        else s.With(u, Acquiring(ip, limit)).(lock := Some(u))
      case Acquiring(ip, limit) => s.With(u, Comparing(ip, limit)).(counts := OrInsert(s.counts, ip))
      case Comparing(ip, limit) =>
        if CountOf(s.counts, ip) >= limit then s.With(u, Refused(ip)).(lock := None)
        else s.With(u, Serving(ConnectionGuard(ip, true)))
              .(lock := None, counts := s.counts[ip := CountOf(s.counts, ip) + 1])
      case Serving(guard) =>
        if !guard.tracked then s.With(u, Closed) else s.With(u, Releasing(guard.ip)).(lock := Some(u))
      case Releasing(ip) =>
        if ip in s.counts then
          var n := SaturatingSub(s.counts[ip], 1);
          s.With(u, Cleaning(ip, n)).(counts := s.counts[ip := n])
        else s.With(u, Closed).(lock := None)
      case Cleaning(ip, remaining) =>
        s.With(u, Closed).(lock := None, counts := if remaining == 0 then s.counts - {ip} else s.counts)
      case Refused(_) => s.With(u, Closed)
      case Closed => s;
    assert Step(s, s', u);
  }

  // ---- Whole runs ----

  ghost predicate Next(s: State, s': State) {
    exists t :: Step(s, s', t)
  }

  /** Any number of connections, each taking its steps in any order relative to the others. */
  ghost predicate IsRun(run: seq<State>) {
    && run != [] && Init(run[0])
    && forall i | 0 < i < |run| :: Next(run[i - 1], run[i])
  }

  lemma {:induction false} RunInvariant(run: seq<State>, i: nat)
    requires IsRun(run) && i < |run|
    ensures Invariant(run[i])
  {
    if i == 0 {
      forall a: Ip ensures CountOf(run[0].counts, a) == |Holders(run[0].tasks, a)| {
        assert Holders(run[0].tasks, a) == {};
      }
    } else {
      RunInvariant(run, i - 1);
      assert Next(run[i - 1], run[i]);
      var t :| Step(run[i - 1], run[i], t);
      StepKeepsInvariant(run[i - 1], run[i], t);
    }
  }

  /** The limit a task carries, while it still needs it. */
  ghost predicate LimitIs(task: Task, limit: int) {
    task.Accepted? || task.Acquiring? || task.Comparing? ==> task.limit == limit
  }

  ghost predicate UniformLimit(s: State, limit: int) {
    forall t | t in s.tasks :: LimitIs(s.tasks[t], limit)
  }

  ghost predicate WithinLimit(s: State, limit: int) {
    forall a: Ip :: |Holders(s.tasks, a)| <= limit
  }

  /** Is the task in its critical section, about to decide over this address's entry? */
  ghost predicate AtEntry(task: Task, a: Ip) {
    (task.Comparing? || task.Cleaning?) && task.ip == a
  }

  /** An entry stands for live holders, or for the address the task in the critical section is working on. */
  ghost predicate EntriesLive(s: State) {
    forall a | a in s.counts :: s.counts[a] >= 1 || exists t :: t in s.tasks && AtEntry(s.tasks[t], a)
  }

  /** With one limit for all, no step takes an address over it, and with room for one, entries stay live. */
  lemma LimitStep(s: State, s': State, t: nat, limit: int)
    requires Invariant(s) && Step(s, s', t) && UniformLimit(s, limit) && limit >= 0 && WithinLimit(s, limit)
    ensures UniformLimit(s', limit) && WithinLimit(s', limit)
    ensures limit >= 1 && EntriesLive(s) ==> EntriesLive(s')
  {
    assert LimitIs(s.tasks[t], limit);
    forall u | u in s'.tasks ensures LimitIs(s'.tasks[u], limit) {
      assert u in s.tasks && LimitIs(s.tasks[u], limit);
    }
    forall a: Ip ensures |Holders(s'.tasks, a)| <= limit {
      HoldersMove(s.tasks, t, s'.tasks[t], a);
      assert CountOf(s.counts, a) == |Holders(s.tasks, a)|;
    }
    if limit >= 1 && EntriesLive(s) { EntriesLiveStep(s, s', t, limit); }
  }

  lemma EntriesLiveStep(s: State, s': State, t: nat, limit: int)
    requires Invariant(s) && Step(s, s', t) && LimitIs(s.tasks[t], limit) && limit >= 1 && EntriesLive(s)
    ensures EntriesLive(s')
  {
    forall a | a in s'.counts
      ensures s'.counts[a] >= 1 || exists u :: u in s'.tasks && AtEntry(s'.tasks[u], a)
    {
      if s'.counts[a] == 0 && !AtEntry(s'.tasks[t], a) {
        assert a in s.counts && s.counts[a] == 0;
        var u :| u in s.tasks && AtEntry(s.tasks[u], a);
        assert s.tasks[u].InSection();
        if u != t { assert s'.tasks[u] == s.tasks[u]; }
      }
    }
  }

  lemma {:induction false} LimitInvariant(run: seq<State>, i: nat, limit: int)
    requires IsRun(run) && i < |run| && limit >= 0 && UniformLimit(run[0], limit)
    ensures Invariant(run[i]) && UniformLimit(run[i], limit) && WithinLimit(run[i], limit)
    ensures limit >= 1 ==> EntriesLive(run[i])
  {
    RunInvariant(run, i);
    if i == 0 {
      forall a: Ip ensures |Holders(run[0].tasks, a)| <= limit {
        assert Holders(run[0].tasks, a) == {};
      }
    } else {
      LimitInvariant(run, i - 1, limit);
      assert Next(run[i - 1], run[i]);
      var t :| Step(run[i - 1], run[i], t);
      LimitStep(run[i - 1], run[i], t, limit);
    }
  }

  /** In every interleaving under one limit, no address ever holds more slots than the limit allows. */
  lemma NeverOverLimit(run: seq<State>, i: nat, limit: int, a: Ip)
    requires IsRun(run) && i < |run| && limit >= 0 && UniformLimit(run[0], limit)
    ensures CountOf(run[i].counts, a) == |Holders(run[i].tasks, a)| <= limit
  {
    LimitInvariant(run, i, limit);
    assert CountOf(run[i].counts, a) == |Holders(run[i].tasks, a)|;
  }

  /** In every interleaving, an attempt is refused exactly if its address already holds the limit. */
  lemma RefusedExactlyAtLimit(run: seq<State>, i: nat, t: nat)
    requires IsRun(run) && i + 1 < |run| && Step(run[i], run[i + 1], t) && run[i].tasks[t].Comparing?
    ensures run[i + 1].tasks[t].Refused? <==> |Holders(run[i].tasks, run[i].tasks[t].ip)| >= run[i].tasks[t].limit
    ensures !run[i + 1].tasks[t].Refused? ==>
              run[i + 1].tasks[t] == Serving(ConnectionGuard(run[i].tasks[t].ip, true))
  {
    RunInvariant(run, i);
    assert CountOf(run[i].counts, run[i].tasks[t].ip) == |Holders(run[i].tasks, run[i].tasks[t].ip)|;
  }

  lemma LiveWhenUnlocked(run: seq<State>, i: nat, limit: int, a: Ip)
    requires IsRun(run) && i < |run| && limit >= 1 && UniformLimit(run[0], limit) && run[i].lock == None
    ensures a in run[i].counts <==> Holders(run[i].tasks, a) != {}
  {
    LimitInvariant(run, i, limit);
    var s := run[i];
    assert CountOf(s.counts, a) == |Holders(s.tasks, a)|;
    assert forall t | t in s.tasks :: !s.tasks[t].InSection();
  }

  /** Switched off, the limiter leaves no trace: no task holds a slot or ever enters a critical section. */
  ghost predicate Untouched(s: State) {
    && s.counts == map[] && s.lock == None
    && forall t | t in s.tasks :: !s.tasks[t].InSection() && (s.tasks[t].Serving? ==> !s.tasks[t].guard.tracked)
  }

  lemma {:induction false} SwitchedOff(run: seq<State>, i: nat, limit: int)
    requires IsRun(run) && i < |run| && limit < 0 && UniformLimit(run[0], limit)
    ensures Untouched(run[i]) && UniformLimit(run[i], limit)
  {
    if i > 0 {
      SwitchedOff(run, i - 1, limit);
      assert Next(run[i - 1], run[i]);
      var t :| Step(run[i - 1], run[i], t);
      assert LimitIs(run[i - 1].tasks[t], limit);
      forall u | u in run[i].tasks ensures LimitIs(run[i].tasks[u], limit) {
        assert LimitIs(run[i - 1].tasks[u], limit);
      }
    }
  }

  /** The unlocked table of this state lists exactly the addresses that hold a slot. */
  ghost predicate ListsHolders(s: State) {
    forall a: Ip :: a in s.counts <==> Holders(s.tasks, a) != {}
  }

  /** It does so in every unlocked state of every run under the limit. */
  ghost predicate AlwaysListsHolders(limit: int) {
    forall run: seq<State>, i: nat |
      IsRun(run) && i < |run| && UniformLimit(run[0], limit) && run[i].lock == None :: ListsHolders(run[i])
  }

  /** Entries are exactly the live addresses, whatever happens, if and only if the limit is not zero. */
  lemma EntriesExactlyLive(limit: int)
    ensures AlwaysListsHolders(limit) <==> limit != 0
  {
    if limit == 0 {
      var run := ZeroLimitLeavesEntry();
      assert !ListsHolders(run[|run| - 1]);
    } else {
      forall run: seq<State>, i: nat |
        IsRun(run) && i < |run| && UniformLimit(run[0], limit) && run[i].lock == None
        ensures ListsHolders(run[i])
      {
        forall a: Ip ensures a in run[i].counts <==> Holders(run[i].tasks, a) != {} {
          if limit > 0 {
            LiveWhenUnlocked(run, i, limit, a);
          } else {
            SwitchedOff(run, i, limit);
            assert Holders(run[i].tasks, a) == {};
          }
        }
      }
    }
  }

  /** A limit of zero leaves an entry behind for an address that holds nothing. */
  lemma ZeroLimitLeavesEntry() returns (run: seq<State>)
    ensures IsRun(run) && UniformLimit(run[0], 0)
    ensures run[|run| - 1].lock == None && 7 in run[|run| - 1].counts && Holders(run[|run| - 1].tasks, 7) == {}
  {
    var s0 := State(map[], None, map[0 := Accepted(7, 0)]);
    var s1 := s0.With(0, Acquiring(7, 0)).(lock := Some(0));
    var s2 := s1.With(0, Comparing(7, 0)).(counts := map[7 := 0]);
    var s3 := s2.With(0, Refused(7)).(lock := None);
    run := [s0, s1, s2, s3];
    assert Step(s0, s1, 0) && Step(s1, s2, 0) && Step(s2, s3, 0);
    forall i | 0 < i < |run| ensures Next(run[i - 1], run[i]) {
      assert i == 1 || i == 2 || i == 3;
    }
  }
}
