/** The scheduler: priority classes, the limit on consecutive high-priority picks, and the cyclic search. */
module Scheduler {
  import opened Common

  const PICK_LIMIT: nat := 3
  const DOC_INTERVAL: nat := 7000

  const IDLE_PID: nat := 0
  const FS_PID: nat := 1
  const REAPER_PID: nat := 2
  const GUI_PID: nat := 3
  const DOC_PID: nat := 4
  const CLERK_COUNT: nat := 5

  datatype State = Ready | Running | Blocked | Sleeping | Dead

  datatype Priority = High | Normal | Low

  datatype Task = Task(state: State, priority: Priority, user: bool, started: bool)

  datatype Slot = Free | Used(task: Task)

  type Table = t: seq<Slot> | |t| == MAX_TASKS witness seq(MAX_TASKS, _ => Free)

  // ---------------------------------------------------------------- picking

  predicate Runnable(s: Slot, prio: Priority) {
    s.Used? && s.task.priority == prio && (s.task.state == Ready || s.task.state == Running)
  }

  ghost predicate Any(table: Table, prio: Priority) { exists i :: 0 <= i < MAX_TASKS && Runnable(table[i], prio) }

  /** Steps from `cur` to `i` around the table; a full round back to `cur` itself. */
  function Distance(cur: nat, i: nat): (d: nat)
    requires cur < MAX_TASKS && i < MAX_TASKS
    ensures 1 <= d <= MAX_TASKS && (cur + d) % MAX_TASKS == i
  {
    if i > cur then i - cur else i + MAX_TASKS - cur
  }

  /** The nearest runnable task of that priority after `cur`. */
  ghost predicate Nearest(table: Table, cur: nat, prio: Priority, pid: nat) {
    && cur < MAX_TASKS && pid < MAX_TASKS && Runnable(table[pid], prio)
    && forall i :: 0 <= i < MAX_TASKS && Runnable(table[i], prio) ==> Distance(cur, pid) <= Distance(cur, i)
  }

  /**
   * What a pick has to be: high priority unless the limit is reached and a normal task waits; low only when nothing
   * else is runnable.
   */
  ghost predicate Picks(table: Table, cur: nat, count: nat, pid: int, count': nat)
    requires cur < MAX_TASKS
  {
    if Any(table, High) && count < PICK_LIMIT then pid >= 0 && Nearest(table, cur, High, pid) && count' == count + 1
    else if Any(table, Normal) then pid >= 0 && Nearest(table, cur, Normal, pid) && count' == 0
    else if Any(table, High) then
      && count' == 1
      && if Runnable(table[cur], High) then pid == cur else pid >= 0 && Nearest(table, cur, High, pid)
    else if Any(table, Low) then pid >= 0 && Nearest(table, cur, Low, pid) && count' == 0
    else pid == -1 && count' == count
  }

  // ---------------------------------------------------------------- runs of picks

  /** Pick `k` is made from table `k`: between picks the tables change in any way. */
  ghost predicate IsRun(tables: seq<Table>, curs: seq<nat>, counts: seq<nat>) {
    && |curs| == |tables| + 1 && |counts| == |tables| + 1
    && (forall k :: 0 <= k < |curs| ==> curs[k] < MAX_TASKS)
    && forall k :: 0 <= k < |tables| ==> PickAt(tables, curs, counts, k)
  }

  ghost predicate PickAt(tables: seq<Table>, curs: seq<nat>, counts: seq<nat>, k: nat)
    requires k < |tables| && |curs| == |tables| + 1 && |counts| == |tables| + 1
  {
    curs[k] < MAX_TASKS && Picks(tables[k], curs[k], counts[k], curs[k + 1], counts[k + 1])
  }

  /** Pick `k` went to a task of that priority. */
  ghost predicate Went(tables: seq<Table>, curs: seq<nat>, k: nat, prio: Priority) {
    k < |tables| && k + 1 < |curs| && curs[k + 1] < MAX_TASKS && Runnable(tables[k][curs[k + 1]], prio)
  }

  /** The count of consecutive high picks never passes the limit. */
  lemma PickBounds(table: Table, cur: nat, count: nat, pid: int, count': nat)
    requires cur < MAX_TASKS && count <= PICK_LIMIT && Picks(table, cur, count, pid, count')
    ensures count' <= PICK_LIMIT
    ensures pid == -1 <==> !Any(table, High) && !Any(table, Normal) && !Any(table, Low)
    ensures pid >= 0 ==> pid < MAX_TASKS && table[pid].Used?
  {}

  /** While a normal task waits, a high pick brings the limit closer, and anything else is a normal pick. */
  lemma PickOrCount(table: Table, cur: nat, count: nat, pid: int, count': nat)
    requires cur < MAX_TASKS && Picks(table, cur, count, pid, count') && Any(table, Normal)
    ensures 0 <= pid < MAX_TASKS
    ensures Runnable(table[pid], Normal) || (count < PICK_LIMIT && count' == count + 1)
  {}

  /** Among any four consecutive picks with a normal task runnable at each, one is normal. */
  lemma FourPicks(tables: seq<Table>, curs: seq<nat>, counts: seq<nat>, n: nat)
    requires IsRun(tables, curs, counts) && n + 4 <= |tables| && counts[n] <= PICK_LIMIT
    requires forall k :: n <= k < n + 4 ==> Any(tables[k], Normal)
    ensures exists k :: n <= k < n + 4 && Went(tables, curs, k, Normal)
  {
    forall k | n <= k < n + 4
      ensures Went(tables, curs, k, Normal) || (counts[k] < PICK_LIMIT && counts[k + 1] == counts[k] + 1)
    {
      assert PickAt(tables, curs, counts, k);
      PickOrCount(tables[k], curs[k], counts[k], curs[k + 1], counts[k + 1]);
    }
    assert Went(tables, curs, n, Normal) || Went(tables, curs, n + 1, Normal) || Went(tables, curs, n + 2, Normal)
        || Went(tables, curs, n + 3, Normal);
  }

  /** A low pick means that nothing of high or normal priority was runnable. */
  lemma LowOnlyWhenAlone(table: Table, cur: nat, count: nat, pid: nat, count': nat)
    requires cur < MAX_TASKS && Picks(table, cur, count, pid, count') && pid < MAX_TASKS && Runnable(table[pid], Low)
    ensures !Any(table, High) && !Any(table, Normal)
  {}

  // ---------------------------------------------------------------- turns within a class

  /** A class below high, with nothing above it runnable. */
  ghost predicate OnTop(table: Table, prio: Priority) {
    prio != High && !Any(table, High) && (prio == Low ==> !Any(table, Normal))
  }

  /** A pick that passes over a waiting task of the topmost class, normal or low, comes strictly closer to it. */
  lemma Closer(table: Table, cur: nat, count: nat, pid: nat, count': nat, prio: Priority, t: nat)
    requires cur < MAX_TASKS && Picks(table, cur, count, pid, count') && OnTop(table, prio) && t < MAX_TASKS
    requires Runnable(table[t], prio)
    ensures pid < MAX_TASKS && (pid == t || Distance(pid, t) < Distance(cur, t))
  {
    assert Any(table, prio);
    assert Distance(cur, pid) <= Distance(cur, t);
  }

  /** A task that stays runnable in the topmost class, normal or low, is picked within its distance, so one round. */
  lemma {:induction false} PickedWithin(tables: seq<Table>, curs: seq<nat>, counts: seq<nat>, n: nat, prio: Priority,
                                        t: nat)
    requires IsRun(tables, curs, counts) && t < MAX_TASKS && n < |curs| && n + Distance(curs[n], t) <= |tables|
    requires forall k :: n <= k < n + Distance(curs[n], t) ==> OnTop(tables[k], prio) && Runnable(tables[k][t], prio)
    ensures exists m :: n < m <= n + Distance(curs[n], t) && curs[m] == t
    decreases Distance(curs[n], t)
  {
    var d := Distance(curs[n], t);
    assert OnTop(tables[n], prio) && Runnable(tables[n][t], prio);
    assert PickAt(tables, curs, counts, n);
    Closer(tables[n], curs[n], counts[n], curs[n + 1], counts[n + 1], prio, t);
    if curs[n + 1] != t {
      PickedWithin(tables, curs, counts, n + 1, prio, t);
      var m :| n + 1 < m <= n + 1 + Distance(curs[n + 1], t) && curs[m] == t;
      assert n < m <= n + d;
    }
  }

  /**
   * Below the limit a high pick leaves the current task while another high task is runnable, and comes strictly closer
   * to every high task it passes over.
   */
  lemma HighMoves(tables: seq<Table>, curs: seq<nat>, counts: seq<nat>, n: nat, t: nat)
    requires IsRun(tables, curs, counts) && n < |tables| && counts[n] < PICK_LIMIT
    requires t < MAX_TASKS && Runnable(tables[n][t], High)
    ensures Went(tables, curs, n, High) && counts[n + 1] == counts[n] + 1
    ensures t != curs[n] ==> curs[n + 1] != curs[n]
    ensures curs[n + 1] == t || Distance(curs[n + 1], t) < Distance(curs[n], t)
  {
    assert PickAt(tables, curs, counts, n);
    assert Distance(curs[n], curs[n + 1]) <= Distance(curs[n], t);
  }

  /**
   * At the limit, with no normal task runnable, the current task is picked again if and only if it is high and
   * runnable; otherwise the pick comes closer as below the limit.
   */
  lemma HighAtLimit(tables: seq<Table>, curs: seq<nat>, counts: seq<nat>, n: nat, t: nat)
    requires IsRun(tables, curs, counts) && n < |tables| && counts[n] >= PICK_LIMIT && !Any(tables[n], Normal)
    requires t < MAX_TASKS && Runnable(tables[n][t], High)
    ensures Went(tables, curs, n, High) && counts[n + 1] == 1
    ensures curs[n + 1] == curs[n] <==> Runnable(tables[n][curs[n]], High)
    ensures curs[n + 1] == curs[n] || curs[n + 1] == t || Distance(curs[n + 1], t) < Distance(curs[n], t)
  {
    assert PickAt(tables, curs, counts, n) && Any(tables[n], High);
    if !Runnable(tables[n][curs[n]], High) { assert Distance(curs[n], curs[n + 1]) <= Distance(curs[n], t); }
  }

  /** Picks until a high task at distance `d` has its turn: the limit adds one for every two places on the way. */
  function Turns(d: nat, count: nat): nat { d + if d + count < 2 then 0 else (d + count - 2) / 2 }

  /** Without normal tasks a high task that stays runnable is picked within that many picks. */
  lemma {:induction false} HighWithin(tables: seq<Table>, curs: seq<nat>, counts: seq<nat>, n: nat, t: nat)
    requires IsRun(tables, curs, counts) && t < MAX_TASKS && n < |curs| && counts[n] <= PICK_LIMIT
    requires n + Turns(Distance(curs[n], t), counts[n]) <= |tables|
    requires forall k :: n <= k < n + Turns(Distance(curs[n], t), counts[n]) ==>
               !Any(tables[k], Normal) && Runnable(tables[k][t], High)
    ensures exists m :: n < m <= n + Turns(Distance(curs[n], t), counts[n]) && curs[m] == t
    decreases Distance(curs[n], t), counts[n]
  {
    var w := Turns(Distance(curs[n], t), counts[n]);
    assert !Any(tables[n], Normal) && Runnable(tables[n][t], High);
    if counts[n] < PICK_LIMIT {
      HighMoves(tables, curs, counts, n, t);
    } else {
      HighAtLimit(tables, curs, counts, n, t);
    }
    if curs[n + 1] != t {
      assert Turns(Distance(curs[n + 1], t), counts[n + 1]) < w;
      HighWithin(tables, curs, counts, n + 1, t);
      var m :| n + 1 < m <= n + 1 + Turns(Distance(curs[n + 1], t), counts[n + 1]) && curs[m] == t;
      assert n < m <= n + w;
    }
  }

  /** Every task is high and runnable. */
  ghost predicate Crowded(table: Table) { forall i :: 0 <= i < MAX_TASKS ==> Runnable(table[i], High) }

  /** The bound is the exact one: with every task high and runnable, the turn comes with the last of those picks. */
  lemma {:induction false} HighExact(tables: seq<Table>, curs: seq<nat>, counts: seq<nat>, n: nat, t: nat)
    requires IsRun(tables, curs, counts) && t < MAX_TASKS && n < |curs| && counts[n] <= PICK_LIMIT && t != curs[n]
    requires n + Turns(Distance(curs[n], t), counts[n]) <= |tables|
    requires forall k :: n <= k < n + Turns(Distance(curs[n], t), counts[n]) ==> Crowded(tables[k])
    ensures curs[n + Turns(Distance(curs[n], t), counts[n])] == t
    ensures forall m :: n < m < n + Turns(Distance(curs[n], t), counts[n]) ==> curs[m] != t
    decreases Distance(curs[n], t), counts[n]
  {
    assert Crowded(tables[n]);
    assert !Any(tables[n], Normal);
    var next := (curs[n] + 1) % MAX_TASKS;
    if counts[n] < PICK_LIMIT {
      HighMoves(tables, curs, counts, n, next);
      assert curs[n + 1] == next;
    } else {
      HighAtLimit(tables, curs, counts, n, t);
    }
    if curs[n + 1] != t {
      assert Distance(curs[n + 1], t) == Distance(curs[n], t) - if counts[n] < PICK_LIMIT then 1 else 0;
      assert Turns(Distance(curs[n], t), counts[n]) == 1 + Turns(Distance(curs[n + 1], t), counts[n + 1]);
      HighExact(tables, curs, counts, n + 1, t);
    }
  }

  // ---------------------------------------------------------------- high tasks beside normal ones

  /** Only tasks of `H` are high and runnable, and `t` is. */
  ghost predicate HighAmong(table: Table, H: set<nat>, t: nat) {
    && t < MAX_TASKS && Runnable(table[t], High)
    && forall i :: 0 <= i < MAX_TASKS && Runnable(table[i], High) ==> i in H
  }

  ghost predicate Rivals(tables: seq<Table>, H: set<nat>, t: nat, n: nat, w: nat) {
    n + w <= |tables| && forall k :: n <= k < n + w ==> HighAmong(tables[k], H, t)
  }

  lemma ThreeOthers(H: set<nat>, t: nat, a: nat, b: nat, c: nat)
    requires t in H && a in H && b in H && c in H && a != b && a != c && b != c && t != a && t != b && t != c
    ensures |H| > PICK_LIMIT
  {
    assert {t, a, b, c} <= H;
    Subset({t, a, b, c}, H);
  }

  lemma Subset(a: set<nat>, b: set<nat>)
    requires a <= b
    ensures |a| <= |b|
  {
    assert b == a + (b - a);
  }

  /** The pick at `k` is high. It stays on a high task at the limit, and else it is `t` or comes closer to it. */
  lemma HighPick(tables: seq<Table>, curs: seq<nat>, counts: seq<nat>, H: set<nat>, t: nat, k: nat)
    requires IsRun(tables, curs, counts) && k < |tables| && HighAmong(tables[k], H, t) && counts[k] <= PICK_LIMIT
    requires counts[k] < PICK_LIMIT || !Any(tables[k], Normal)
    ensures curs[k + 1] in H && counts[k + 1] == if counts[k] < PICK_LIMIT then counts[k] + 1 else 1
    ensures || curs[k + 1] == t || Distance(curs[k + 1], t) < Distance(curs[k], t)
            || (counts[k] == PICK_LIMIT && curs[k + 1] == curs[k])
  {
    if counts[k] < PICK_LIMIT {
      HighMoves(tables, curs, counts, k, t);
    } else {
      HighAtLimit(tables, curs, counts, k, t);
    }
    assert Went(tables, curs, k, High);
  }

  /** After a normal pick, three high picks reach each of at most three high tasks. */
  lemma FreshRound(tables: seq<Table>, curs: seq<nat>, counts: seq<nat>, H: set<nat>, t: nat, n: nat)
    requires IsRun(tables, curs, counts) && Rivals(tables, H, t, n, 3) && |H| <= PICK_LIMIT && counts[n] == 0
    ensures t in {curs[n + 1], curs[n + 2], curs[n + 3]}
  {
    HighPick(tables, curs, counts, H, t, n);
    HighPick(tables, curs, counts, H, t, n + 1);
    HighPick(tables, curs, counts, H, t, n + 2);
    if t !in {curs[n + 1], curs[n + 2], curs[n + 3]} {
      ThreeOthers(H, t, curs[n + 1], curs[n + 2], curs[n + 3]);
    }
  }

  /** The picks a high task waits for at most when no more than three tasks are high: normal tasks interrupt once. */
  function Soon(count: nat): nat
    requires count <= PICK_LIMIT
  {
    if count == 0 then PICK_LIMIT else 2 * PICK_LIMIT + 1 - count
  }

  /** With normal tasks that come and go, at most three high tasks all get their turn. */
  lemma HighSoon(tables: seq<Table>, curs: seq<nat>, counts: seq<nat>, H: set<nat>, t: nat, n: nat)
    requires IsRun(tables, curs, counts) && n < |curs| && counts[n] <= PICK_LIMIT && |H| <= PICK_LIMIT
    requires Rivals(tables, H, t, n, Soon(counts[n]))
    ensures exists m :: n < m <= n + Soon(counts[n]) && curs[m] == t
  {
    var c := counts[n];
    if c == 0 {
      FreshRound(tables, curs, counts, H, t, n);
    } else {
      ToLimit(tables, curs, counts, H, t, n);
      var l := n + PICK_LIMIT - c;
      assert HighAmong(tables[l], H, t);
      if Any(tables[l], Normal) {
        assert PickAt(tables, curs, counts, l);
        FreshRound(tables, curs, counts, H, t, l + 1);
      } else {
        PastLimit(tables, curs, counts, H, t, n);
      }
    }
  }

  /** The picks up to the limit are high. */
  lemma ToLimit(tables: seq<Table>, curs: seq<nat>, counts: seq<nat>, H: set<nat>, t: nat, n: nat)
    requires IsRun(tables, curs, counts) && n < |curs| && 0 < counts[n] <= PICK_LIMIT
    requires Rivals(tables, H, t, n, PICK_LIMIT - counts[n])
    ensures counts[n + PICK_LIMIT - counts[n]] == PICK_LIMIT
  {
    if counts[n] < 3 { HighPick(tables, curs, counts, H, t, n); }
    if counts[n] < 2 { HighPick(tables, curs, counts, H, t, n + 1); }
  }

  /** The limit passes without a normal task: three different tasks have had a turn two picks later. */
  lemma PastLimit(tables: seq<Table>, curs: seq<nat>, counts: seq<nat>, H: set<nat>, t: nat, n: nat)
    requires IsRun(tables, curs, counts) && n < |curs| && 0 < counts[n] <= PICK_LIMIT && |H| <= PICK_LIMIT
    requires Rivals(tables, H, t, n, Soon(counts[n])) && counts[n + PICK_LIMIT - counts[n]] == PICK_LIMIT
    requires !Any(tables[n + PICK_LIMIT - counts[n]], Normal)
    ensures exists m :: n < m <= n + Soon(counts[n]) && curs[m] == t
  {
    HighPick(tables, curs, counts, H, t, n);
    HighPick(tables, curs, counts, H, t, n + 1);
    HighPick(tables, curs, counts, H, t, n + 2);
    if counts[n] < 3 { HighPick(tables, curs, counts, H, t, n + 3); }
    if forall m :: n < m <= n + Soon(counts[n]) ==> curs[m] != t {
      match counts[n]
      case 1 => ThreeOthers(H, t, curs[n + 1], curs[n + 2], curs[n + 4]);
      case 2 => ThreeOthers(H, t, curs[n + 1], curs[n + 3], curs[n + 4]);
      case 3 => ThreeOthers(H, t, curs[n + 1], curs[n + 2], curs[n + 3]);
    }
  }

  /** One normal task, and behind it four high ones. */
  function FourHigh(): (table: Table)
    ensures |table| == MAX_TASKS
  {
    seq(MAX_TASKS, i => if i == 0 then Used(Task(Ready, Normal, true, true))
                        else if i <= 4 then Used(Task(Ready, High, true, true)) else Free)
  }

  /** A fourth high task need not get any: a run of any length passes it over, though it is runnable throughout. */
  lemma HighStarves(n: nat) returns (tables: seq<Table>, curs: seq<nat>, counts: seq<nat>)
    ensures IsRun(tables, curs, counts) && |tables| == n && counts[0] == 0
    ensures Rivals(tables, {1, 2, 3, 4}, 4, 0, n)
    ensures forall m :: 0 <= m < |curs| ==> curs[m] != 4
  {
    tables := seq(n, _ => FourHigh());
    curs := seq(n + 1, i requires 0 <= i => i % 4);
    counts := curs;
    forall k | 0 <= k < n ensures PickAt(tables, curs, counts, k) {
      FourHighPick(k % 4);
      assert curs[k + 1] == if k % 4 == 3 then 0 else k % 4 + 1;
    }
  }

  lemma FourHighPick(c: nat)
    requires c <= PICK_LIMIT
    ensures var d := if c == 3 then 0 else c + 1; Picks(FourHigh(), c, c, d, d)
  {
    var table := FourHigh();
    assert Runnable(table[1], High) && Runnable(table[0], Normal);
    assert Nearest(table, c, if c == 3 then Normal else High, if c == 3 then 0 else c + 1);
  }

  // ---------------------------------------------------------------- a normal task can starve

  /** One high task, runnable all the time. */
  ghost predicate OneHigh(table: Table, h: nat) {
    h < MAX_TASKS && Runnable(table[h], High) && forall i :: 0 <= i < MAX_TASKS && Runnable(table[i], High) ==> i == h
  }

  /**
   * After a pick of the high task, or with the count at zero, the next pick is the high task or the normal one behind
   * it.
   */
  lemma StarveStep(table: Table, h: nat, first: nat, cur: nat, count: nat, pid: int, count': nat)
    requires OneHigh(table, h) && Nearest(table, h, Normal, first) && cur < MAX_TASKS && count <= PICK_LIMIT
    requires (cur == h || count == 0) && Picks(table, cur, count, pid, count')
    ensures (pid == h && count' <= PICK_LIMIT) || (pid == first && count' == 0)
  {
    assert Any(table, High) && Any(table, Normal);
    if count >= PICK_LIMIT {
      SameNearest(table, h, Normal, first, pid);
    }
  }

  /** The count is backed by that many high picks just before, as far back as the run goes. */
  lemma {:induction false} HighStreak(tables: seq<Table>, curs: seq<nat>, counts: seq<nat>, n: nat)
    requires IsRun(tables, curs, counts) && counts[0] <= PICK_LIMIT && n < |curs|
    ensures counts[n] <= PICK_LIMIT
    ensures forall j :: 0 <= j < n && n - counts[n] <= j ==> Went(tables, curs, j, High)
  {
    if n > 0 {
      HighStreak(tables, curs, counts, n - 1);
      assert PickAt(tables, curs, counts, n - 1);
    }
  }

  /**
   * While high tasks, any number of them, are runnable, a pick goes to one of them or to the normal task nearest behind
   * the task picked just before; and that one, like the two before it, was picked for its high priority.
   */
  lemma OthersStarve(tables: seq<Table>, curs: seq<nat>, counts: seq<nat>, n: nat)
    requires IsRun(tables, curs, counts) && counts[0] <= PICK_LIMIT && n < |tables| && Any(tables[n], High)
    ensures || Went(tables, curs, n, High)
            || (counts[n] == PICK_LIMIT && Nearest(tables[n], curs[n], Normal, curs[n + 1]))
    ensures counts[n] == PICK_LIMIT ==> forall j :: 0 <= j < n && n - PICK_LIMIT <= j ==> Went(tables, curs, j, High)
  {
    HighStreak(tables, curs, counts, n);
    assert PickAt(tables, curs, counts, n);
  }

  /** A normal task that is never nearest behind a task that was high at the pick before is never picked. */
  lemma NeverPicked(tables: seq<Table>, curs: seq<nat>, counts: seq<nat>, t: nat, m: nat)
    requires IsRun(tables, curs, counts) && counts[0] < PICK_LIMIT && 0 < m < |curs| && t < MAX_TASKS
    requires forall k :: 0 <= k < |tables| ==> Any(tables[k], High) && !Runnable(tables[k][t], High)
    requires forall k, h :: 0 < k < |tables| && 0 <= h < MAX_TASKS && Runnable(tables[k - 1][h], High) ==>
               !Nearest(tables[k], h, Normal, t)
    ensures curs[m] != t
  {
    var n := m - 1;
    OthersStarve(tables, curs, counts, n);
    if counts[n] == PICK_LIMIT && n > 0 {
      assert Went(tables, curs, n - 1, High);
    }
  }

  ghost predicate Contended(table: Table) { Any(table, High) && Any(table, Normal) }

  /** While high and normal tasks are runnable, the count goes round: every fourth pick is normal, the others high. */
  lemma {:induction false} Round(tables: seq<Table>, curs: seq<nat>, counts: seq<nat>, n: nat)
    requires IsRun(tables, curs, counts) && counts[0] <= PICK_LIMIT && n < |curs|
    requires forall k :: 0 <= k < |tables| ==> Contended(tables[k])
    ensures counts[n] == (counts[0] + n) % (PICK_LIMIT + 1)
    ensures n < |tables| ==> (Went(tables, curs, n, Normal) <==> (counts[0] + n) % (PICK_LIMIT + 1) == PICK_LIMIT)
  {
    if n > 0 {
      Round(tables, curs, counts, n - 1);
      assert PickAt(tables, curs, counts, n - 1) && Contended(tables[n - 1]);
    }
    if n < |tables| { assert PickAt(tables, curs, counts, n) && Contended(tables[n]); }
  }

  /** Pick `k` is a fourth one, and `t` is the normal task nearest behind `cur`. */
  ghost predicate Chosen(tables: seq<Table>, count: nat, cur: nat, t: nat, k: nat) {
    k < |tables| && (count + k) % (PICK_LIMIT + 1) == PICK_LIMIT && Nearest(tables[k], cur, Normal, t)
  }

  /**
   * With any number of high tasks, pick `k` takes a task that is not high if and only if it is a fourth pick and the
   * task is the normal one nearest behind the task picked just before.
   */
  lemma ChosenIff(tables: seq<Table>, curs: seq<nat>, counts: seq<nat>, t: nat, k: nat)
    requires IsRun(tables, curs, counts) && counts[0] <= PICK_LIMIT && k < |tables| && t < MAX_TASKS
    requires forall k :: 0 <= k < |tables| ==> Contended(tables[k])
    requires !Runnable(tables[k][t], High)
    ensures curs[k + 1] == t <==> Chosen(tables, counts[0], curs[k], t, k)
  {
    Round(tables, curs, counts, k);
    assert PickAt(tables, curs, counts, k) && Contended(tables[k]);
    if Chosen(tables, counts[0], curs[k], t, k) {
      SameNearest(tables[k], curs[k], Normal, t, curs[k + 1]);
    }
  }

  /**
   * With one high task `h`, and normal tasks that come and go, another task is ever picked if and only if at one of the
   * fourth picks it is the normal task nearest behind `h`.
   */
  lemma PickedIff(tables: seq<Table>, curs: seq<nat>, counts: seq<nat>, h: nat, t: nat)
    requires IsRun(tables, curs, counts) && counts[0] <= PICK_LIMIT && t != h && t < MAX_TASKS
    requires curs[0] == h || counts[0] < PICK_LIMIT
    requires forall k :: 0 <= k < |tables| ==> OneHigh(tables[k], h) && Any(tables[k], Normal)
    ensures (exists m :: 0 < m < |curs| && curs[m] == t) <==>
            (exists k :: 0 <= k < |tables| && Chosen(tables, counts[0], h, t, k))
  {
    forall k | 0 <= k < |tables| ensures curs[k + 1] == t <==> Chosen(tables, counts[0], h, t, k) {
      BehindHigh(tables, curs, counts, h, t, k);
    }
    if m :| 0 < m < |curs| && curs[m] == t {
      assert curs[m - 1 + 1] == t;
      assert Chosen(tables, counts[0], h, t, m - 1);
    }
  }

  lemma BehindHigh(tables: seq<Table>, curs: seq<nat>, counts: seq<nat>, h: nat, t: nat, k: nat)
    requires IsRun(tables, curs, counts) && counts[0] <= PICK_LIMIT && t != h && t < MAX_TASKS && k < |tables|
    requires curs[0] == h || counts[0] < PICK_LIMIT
    requires forall k :: 0 <= k < |tables| ==> OneHigh(tables[k], h) && Any(tables[k], Normal)
    ensures curs[k + 1] == t <==> Chosen(tables, counts[0], h, t, k)
  {
    forall k | 0 <= k < |tables| ensures Contended(tables[k]) { assert OneHigh(tables[k], h); }
    assert OneHigh(tables[k], h);
    ChosenIff(tables, curs, counts, t, k);
    Round(tables, curs, counts, k);
    OthersStarve(tables, curs, counts, k);
    if counts[k] == PICK_LIMIT && k > 0 {
      assert Went(tables, curs, k - 1, High) && OneHigh(tables[k - 1], h);
    }
  }

  lemma SameNearest(table: Table, cur: nat, prio: Priority, a: nat, b: nat)
    requires Nearest(table, cur, prio, a) && Nearest(table, cur, prio, b)
    ensures a == b
  {
    assert Distance(cur, a) <= Distance(cur, b) && Distance(cur, b) <= Distance(cur, a);
  }

  // ---------------------------------------------------------------- the scheduler's state

  /** At most one task is running, and it is the current one and has been started. */
  ghost predicate OneRunning(table: Table, current: int) {
    forall i :: 0 <= i < MAX_TASKS && table[i].Used? && table[i].task.state == Running ==>
        i == current && table[i].task.started
  }

  ghost predicate NoneRunning(table: Table) {
    forall i :: 0 <= i < MAX_TASKS && table[i].Used? ==> table[i].task.state != Running
  }

  predicate IsClerk(s: Slot) { s.Used? && !s.task.user }

  function WithState(table: Table, i: nat, st: State): Table
    requires i < MAX_TASKS && table[i].Used?
  {
    table[i := Used(table[i].task.(state := st))]
  }

  predicate IsReady(s: Slot) { s.Used? && s.task.state == Ready }

  predicate Asleep(s: Slot) { IsClerk(s) && s.task.state == Sleeping }

  ghost predicate AnyReady(table: Table) { exists i :: 0 <= i < MAX_TASKS && IsReady(table[i]) }

  function Activated(table: Table, pid: nat, prio: Priority): Table
    requires pid < MAX_TASKS
  {
    if Asleep(table[pid]) then table[pid := Used(table[pid].task.(state := Ready, priority := prio))] else table
  }

  lemma ActivatedKeeps(table: Table, pid: nat, prio: Priority)
    requires pid < MAX_TASKS
    ensures var t := Activated(table, pid, prio);
            && (NoneRunning(table) ==> NoneRunning(t)) && (AnyReady(table) ==> AnyReady(t))
            && (forall i :: 0 <= i < MAX_TASKS && i != pid ==> t[i] == table[i])
            && (forall i :: 0 <= i < MAX_TASKS ==>
                (IsClerk(t[i]) <==> IsClerk(table[i])) && (IsReady(table[i]) ==> t[i] == table[i]))
            && (if Asleep(table[pid]) then IsReady(t[pid]) && t[pid].task.priority == prio else t[pid] == table[pid])
            && forall i :: 0 <= i < MAX_TASKS && Asleep(t[i]) ==> t[i] == table[i]
  {
    var t := Activated(table, pid, prio);
    if AnyReady(table) {
      var i :| 0 <= i < MAX_TASKS && IsReady(table[i]);
      assert IsReady(t[i]);
    }
  }

  /** A clerk without work, or one that is not asleep, is left as it is. */
  ghost predicate Untouched(a: Table, b: Table, pid: nat, work: bool)
    requires pid < MAX_TASKS
  {
    !work || !Asleep(a[pid]) ==> b[pid] == a[pid]
  }

  function Roused(table: Table, gui: bool, fs: bool, reaper: bool): Table {
    var t1 := if gui then Activated(table, GUI_PID, High) else table;
    var t2 := if fs then Activated(t1, FS_PID, Normal) else t1;
    if reaper then Activated(t2, REAPER_PID, Normal) else t2
  }

  lemma RousedKeeps(table: Table, gui: bool, fs: bool, reaper: bool)
    ensures var t := Roused(table, gui, fs, reaper);
            && (NoneRunning(table) ==> NoneRunning(t)) && (IsClerk(t[IDLE_PID]) <==> IsClerk(table[IDLE_PID]))
            && (forall i :: DOC_PID < i < MAX_TASKS ==> t[i] == table[i])
            && (gui && Asleep(table[GUI_PID]) ==> IsReady(t[GUI_PID]) && t[GUI_PID].task.priority == High)
            && (fs && Asleep(table[FS_PID]) ==> IsReady(t[FS_PID]) && t[FS_PID].task.priority == Normal)
            && (reaper && Asleep(table[REAPER_PID]) ==> IsReady(t[REAPER_PID]) && t[REAPER_PID].task.priority == Normal)
            && Untouched(table, t, GUI_PID, gui) && Untouched(table, t, FS_PID, fs)
            && Untouched(table, t, REAPER_PID, reaper)
            && t[DOC_PID] == table[DOC_PID] && t[IDLE_PID] == table[IDLE_PID]
  {
    hide NoneRunning, AnyReady;
    var t1 := if gui then Activated(table, GUI_PID, High) else table;
    var t2 := if fs then Activated(t1, FS_PID, Normal) else t1;
    ActivatedKeeps(table, GUI_PID, High);
    ActivatedKeeps(t1, FS_PID, Normal);
    ActivatedKeeps(t2, REAPER_PID, Normal);
  }

  lemma AllChecked(a: Table, roused: Table, idled: Table, b: Table, gui: bool, fs: bool, reaper: bool, doc: bool)
    requires roused == Roused(a, gui, fs, reaper)
    requires forall i :: IDLE_PID < i < MAX_TASKS ==> idled[i] == roused[i]
    requires AnyReady(roused) ==> idled == roused
    requires !AnyReady(roused) ==> IsReady(idled[IDLE_PID]) && idled[IDLE_PID].task.priority == Low
    requires b == if doc then Activated(idled, DOC_PID, Low) else idled
    ensures Checked(a, b, gui, fs, reaper, doc)
  {
    hide Activated, Roused, NoneRunning, Asleep, IsClerk;
    RousedKeeps(a, gui, fs, reaper);
    ActivatedKeeps(idled, DOC_PID, Low);
    hide IsReady;
  }

  lemma IdleReadied(table: Table)
    requires IsClerk(table[IDLE_PID])
    ensures table[IDLE_PID].Used?
    ensures var t := table[IDLE_PID := Used(table[IDLE_PID].task.(state := Ready, priority := Low))];
            AnyReady(t) && IsClerk(t[IDLE_PID]) && (NoneRunning(table) ==> NoneRunning(t))
  {
    var t := table[IDLE_PID := Used(table[IDLE_PID].task.(state := Ready, priority := Low))];
    assert IsReady(t[IDLE_PID]);
  }

  /** The table once the running task has gone back to ready. */
  function Rested(table: Table, current: nat): Table
    requires current < MAX_TASKS
  {
    if table[current].Used? && table[current].task.started && table[current].task.state == Running
    then WithState(table, current, Ready) else table
  }

  /**
   * What a check of the clerks does: those asleep that have work become ready, the idle clerk exactly when nothing is
   * ready after that, and no other task is touched.
   */
  ghost predicate Checked(a: Table, b: Table, gui: bool, fs: bool, reaper: bool, doc: bool) {
    && (forall i :: DOC_PID < i < MAX_TASKS ==> b[i] == a[i])
    && (gui && Asleep(a[GUI_PID]) ==> IsReady(b[GUI_PID]) && b[GUI_PID].task.priority == High)
    && (fs && Asleep(a[FS_PID]) ==> IsReady(b[FS_PID]) && b[FS_PID].task.priority == Normal)
    && (reaper && Asleep(a[REAPER_PID]) ==> IsReady(b[REAPER_PID]) && b[REAPER_PID].task.priority == Normal)
    && (doc && Asleep(a[DOC_PID]) ==> IsReady(b[DOC_PID]) && b[DOC_PID].task.priority == Low)
    && Untouched(a, b, GUI_PID, gui) && Untouched(a, b, FS_PID, fs) && Untouched(a, b, REAPER_PID, reaper)
    && Untouched(a, b, DOC_PID, doc)
    && (b[IDLE_PID] != a[IDLE_PID] ==> IsReady(b[IDLE_PID]) && b[IDLE_PID].task.priority == Low)
    && (b[IDLE_PID] != a[IDLE_PID] ==> forall i :: 0 < i < MAX_TASKS && i != DOC_PID ==> !IsReady(b[i]))
    && ((forall i :: 0 <= i < MAX_TASKS && i != DOC_PID && i != IDLE_PID ==> !IsReady(b[i])) && !IsReady(a[DOC_PID]) ==>
        IsReady(b[IDLE_PID]))
  }

  datatype Event =
    | Tick(guiWork: bool, fsWork: bool, reaperWork: bool)
    | Woken(pid: nat)
    | Sets(st: State)
    | Reset(pid: nat)
    | Added(pid: nat, task: Task)
    | Removed(pid: nat)
    | Ranked(pid: nat, prio: Priority)
    | Killed(pid: nat)

  lemma RunExtends(tables: seq<Table>, curs: seq<nat>, counts: seq<nat>, table: Table, pid: nat, count: nat)
    requires IsRun(tables, curs, counts) && pid < MAX_TASKS
    requires Picks(table, curs[|tables|], counts[|tables|], pid, count)
    ensures IsRun(tables + [table], curs + [pid], counts + [count])
  {
    hide Picks;
    var ts, cs, ns := tables + [table], curs + [pid], counts + [count];
    forall k | 0 <= k < |ts| ensures PickAt(ts, cs, ns, k) {
      if k < |tables| { assert PickAt(tables, curs, counts, k); }
    }
  }

  class Sched {
    var table: Table
    var current: int
    var highCount: nat
    var docCounter: nat

    ghost predicate Valid()
      reads this
    {
      && 0 <= current < MAX_TASKS && highCount <= PICK_LIMIT
      && OneRunning(table, current)
      && IsClerk(table[IDLE_PID])
    }

    constructor (idle: Task)
      requires !idle.user && idle.state != Running
      ensures Valid() && current == IDLE_PID && highCount == 0 && docCounter == 0
      ensures table == seq(MAX_TASKS, i => if i == IDLE_PID then Used(idle) else Free)
    {
      table := seq(MAX_TASKS, i => if i == IDLE_PID then Used(idle) else Free);
      current, highCount, docCounter := IDLE_PID, 0, 0;
    }

    method HasRunnable() returns (found: bool)
      ensures found <==> AnyReady(table)
    {
      var i := 0;
      while i < MAX_TASKS
        invariant 0 <= i <= MAX_TASKS
        invariant forall j :: 0 <= j < i ==> !IsReady(table[j])
      {
        if IsReady(table[i]) {
          return true;
        }
        i := i + 1;
      }
      found := false;
    }

    /** Looks once around the table from the current task: from the one behind it, or from itself. */
    method SearchByPriority(prio: Priority, start: nat) returns (ok: bool, pid: nat)
      requires 0 <= current < MAX_TASKS && start <= 1
      ensures ok <==> Any(table, prio)
      ensures ok ==>
                if start == 0 && Runnable(table[current], prio) then pid == current
                else Nearest(table, current, prio, pid)
    {
      var i := start;
      pid := 0;
      while i <= MAX_TASKS
        invariant start <= i <= MAX_TASKS + 1
        invariant start == 0 && i > 0 ==> !Runnable(table[current], prio)
        invariant forall j :: 0 <= j < MAX_TASKS && Distance(current, j) < i ==> !Runnable(table[j], prio)
      {
        var idx := (current + i) % MAX_TASKS;
        if Runnable(table[idx], prio) {
          assert i > 0 ==> Distance(current, idx) == i;
          return true, idx;
        }
        i := i + 1;
      }
      ok := false;
    }

    method FindNext() returns (pid: int)
      requires 0 <= current < MAX_TASKS
      modifies this`highCount
      ensures Picks(table, current, old(highCount), pid, highCount)
    {
      hide Nearest;
      var ok, next := false, 0;
      if highCount < PICK_LIMIT {
        ok, next := SearchByPriority(High, 1);
        if ok {
          highCount := highCount + 1;
          return next;
        }
      }
      ok, next := SearchByPriority(Normal, 1);
      if ok {
        highCount := 0;
        return next;
      }
      ok, next := SearchByPriority(High, 0);
      if ok {
        highCount := 1;
        return next;
      }
      ok, next := SearchByPriority(Normal, 0);
      assert !ok; // the first search for a normal task has looked everywhere already
      ok, next := SearchByPriority(Low, 1);
      if ok {
        highCount := 0;
        return next;
      }
      pid := -1;
    }

    /** Wakes a sleeping clerk that has work. */
    method Activate(pid: nat, prio: Priority)
      requires pid < MAX_TASKS
      modifies this`table
      ensures table == Activated(old(table), pid, prio)
    {
      if IsClerk(table[pid]) && table[pid].task.state == Sleeping {
        table := table[pid := Used(table[pid].task.(state := Ready, priority := prio))];
      }
    }

    /**
     * Readies the sleeping clerks that have work, and the idle clerk when nothing else is ready. No other task is
     * touched.
     */
    method CheckClerks(guiWork: bool, fsWork: bool, reaperWork: bool)
      requires NoneRunning(table) && IsClerk(table[IDLE_PID])
      modifies this`table, this`docCounter
      ensures NoneRunning(table) && IsClerk(table[IDLE_PID]) && AnyReady(table)
      ensures Checked(old(table), table, guiWork, fsWork, reaperWork, old(docCounter) + 1 > DOC_INTERVAL)
      ensures docCounter == if old(docCounter) + 1 > DOC_INTERVAL then 0 else old(docCounter) + 1
    {
      hide Activated, AnyReady, NoneRunning, IsReady, Asleep, IsClerk, Roused, Checked;
      RousedKeeps(table, guiWork, fsWork, reaperWork);
      RouseClerks(guiWork, fsWork, reaperWork);
      ghost var roused := table;
      ReadyIdle();
      ghost var idled := table;
      docCounter := docCounter + 1;
      ActivatedKeeps(table, DOC_PID, Low);
      if docCounter > DOC_INTERVAL {
        Activate(DOC_PID, Low);
        docCounter := 0;
      }
      AllChecked(old(table), roused, idled, table, guiWork, fsWork, reaperWork, old(docCounter) + 1 > DOC_INTERVAL);
    }

    method RouseClerks(guiWork: bool, fsWork: bool, reaperWork: bool)
      modifies this`table
      ensures table == Roused(old(table), guiWork, fsWork, reaperWork)
    {
      hide Activated;
      if guiWork {
        Activate(GUI_PID, High);
      }
      if fsWork {
        Activate(FS_PID, Normal);
      }
      if reaperWork {
        Activate(REAPER_PID, Normal);
      }
    }

    /** When no task is ready, the idle clerk is made ready, at low priority. */
    method ReadyIdle()
      requires NoneRunning(table) && IsClerk(table[IDLE_PID])
      modifies this`table
      ensures NoneRunning(table) && IsClerk(table[IDLE_PID]) && AnyReady(table)
      ensures forall i :: IDLE_PID < i < MAX_TASKS ==> table[i] == old(table)[i]
      ensures AnyReady(old(table)) ==> table == old(table)
      ensures !AnyReady(old(table)) ==> IsReady(table[IDLE_PID]) && table[IDLE_PID].task.priority == Low
    {
      var found := HasRunnable();
      if !found {
        if IsClerk(table[IDLE_PID]) {
          IdleReadied(table);
          table := table[IDLE_PID := Used(table[IDLE_PID].task.(state := Ready, priority := Low))];
        }
      }
    }

    /** The switch: there is always a task to run, and afterwards it alone is running and current. */
    method Switch(guiWork: bool, fsWork: bool, reaperWork: bool) returns (pid: int, ghost seen: Table)
      requires Valid()
      modifies this
      ensures Valid() && 0 <= pid < MAX_TASKS && current == pid
      ensures table[current].Used? && table[current].task.state == Running
      ensures Picks(seen, old(current), old(highCount), pid, highCount) && NoneRunning(seen)
      ensures Checked(Rested(old(table), old(current)), seen, guiWork, fsWork, reaperWork,
                      old(docCounter) + 1 > DOC_INTERVAL)
      ensures table == seen[pid := Used(seen[pid].task.(state := Running, started := true))]
    {
      hide Picks, Nearest, Any, OneRunning, NoneRunning, AnyReady, Checked;
      SwitchedOut(table, current);
      var cur := table[current];
      if cur.Used? && cur.task.started && cur.task.state != Dead && cur.task.state != Sleeping {
        if cur.task.state == Running {
          table := WithState(table, current, Ready);
        }
      }
      CheckClerks(guiWork, fsWork, reaperWork);
      seen := table;
      pid := FindNext();
      PickReady(table, current, old(highCount), pid, highCount);
      var next := table[pid].task;
      if next.state == Ready {
        next := next.(state := Running);
      }
      SwitchedIn(table, pid, next.(started := true));
      table := table[pid := Used(next.(started := true))];
      if pid != current {
        current := pid;
      }
    }

    /** Any task, dead or alive, becomes ready. */
    method Wake(pid: nat)
      requires Valid()
      modifies this`table
      ensures Valid()
      ensures table == if pid < MAX_TASKS && old(table)[pid].Used? then WithState(old(table), pid, Ready)
                       else old(table)
    {
      if pid >= MAX_TASKS {
        return;
      }
      if table[pid].Used? {
        table := WithState(table, pid, Ready);
      }
    }

    /**
     * The current task changes its own state; a dead task cannot block or become ready again this way, and none
     * declares itself running.
     */
    method SetState(st: State)
      requires Valid()
      modifies this`table
      ensures Valid()
      ensures table == if old(table)[current].Used? && st != Running && (old(table)[current].task.state == Dead ==>
                st == Sleeping || st == Dead)
                       then WithState(old(table), current, st) else old(table)
    {
      if table[current].Free? || table[current].task.state == st {
        return;
      }
      match st {
        case Sleeping => table := WithState(table, current, Sleeping);
        case Ready =>
          if table[current].task.state != Dead {
            table := WithState(table, current, Ready);
          }
        case Blocked =>
          if table[current].task.state != Dead {
            table := WithState(table, current, Blocked);
          }
        case Dead => table := WithState(table, current, Dead);
        case Running =>
      }
    }

    /** The blankie reset of a clerk, as one step: it will start afresh and sleeps. */
    method Blankie(pid: nat)
      requires Valid() && pid < MAX_TASKS
      modifies this`table
      ensures Valid()
      ensures table == if !old(table)[pid].Used? then old(table) else
                         old(table)[pid := Used(old(table)[pid].task.(started := false, state := Sleeping))]
    {
      if table[pid].Used? {
        table := table[pid := Used(table[pid].task.(started := false, state := Sleeping))];
      }
    }

    /** A new task gets a free slot. */
    method Add(pid: nat, task: Task)
      requires Valid()
      modifies this`table
      ensures Valid()
      ensures table == if pid < MAX_TASKS && old(table)[pid].Free?
                && task.state != Running then old(table)[pid := Used(task)] else old(table)
    {
      if pid < MAX_TASKS && table[pid].Free? && task.state != Running {
        table := table[pid := Used(task)];
      }
    }

    /** A task's priority is set, as waking a clerk and finishing a request do. */
    method Rank(pid: nat, prio: Priority)
      requires Valid()
      modifies this`table
      ensures Valid() && forall i :: 0 <= i < MAX_TASKS && i != pid ==> table[i] == old(table)[i]
      ensures pid < MAX_TASKS && old(table)[pid].Used? ==> table[pid] == Used(old(table)[pid].task.(priority := prio))
      ensures pid < MAX_TASKS && old(table)[pid].Free? ==> table[pid].Free?
    {
      if pid < MAX_TASKS && table[pid].Used? {
        table := table[pid := Used(table[pid].task.(priority := prio))];
      }
    }

    /** The current task kills another one; clerks cannot be killed. */
    method Kill(pid: nat)
      requires Valid()
      modifies this`table
      ensures Valid()
      ensures table == if CLERK_COUNT <= pid < MAX_TASKS && pid != current && old(table)[pid].Used?
                       then WithState(old(table), pid, Dead) else old(table)
    {
      if pid < MAX_TASKS && table[pid].Used? {
        if pid >= CLERK_COUNT && pid != current {
          table := WithState(table, pid, Dead);
        }
      }
    }

    /** One event; `picked` tells whether it was a switch. */
    method Step(e: Event) returns (ghost picked: bool, ghost seen: Table)
      requires Valid()
      modifies this
      ensures Valid()
      ensures picked ==> Picks(seen, old(current), old(highCount), current, highCount)
      ensures !picked ==> current == old(current) && highCount == old(highCount)
    {
      hide Picks;
      picked, seen := false, table;
      match e {
        case Tick(gui, fs, reaper) =>
          var pid;
          pid, seen := Switch(gui, fs, reaper);
          picked := true;
        case Woken(pid) => Wake(pid);
        case Sets(st) => SetState(st);
        case Reset(pid) =>
          if pid < MAX_TASKS {
            Blankie(pid);
          }
        case Added(pid, task) => Add(pid, task);
        case Ranked(pid, prio) => Rank(pid, prio);
        case Killed(pid) => Kill(pid);
        case Removed(pid) =>
          if 0 < pid < MAX_TASKS {
            table := table[pid := Free];
          }
      }
    }

    /** Over any sequence of events the switches form a run of picks, so the waiting bounds above hold for them. */
    method Run(events: seq<Event>) returns (ghost tables: seq<Table>, ghost curs: seq<nat>, ghost counts: seq<nat>)
      requires Valid()
      modifies this
      ensures Valid() && IsRun(tables, curs, counts)
      ensures curs[0] == old(current) && counts[0] == old(highCount) && curs[|tables|] == current
      ensures counts[|tables|] == highCount
    {
      hide Picks, OneRunning;
      tables, curs, counts := [], [current], [highCount];
      var n := 0;
      while n < |events|
        invariant 0 <= n <= |events| && Valid() && IsRun(tables, curs, counts)
        invariant curs[0] == old(current) && counts[0] == old(highCount) && curs[|tables|] == current
        invariant counts[|tables|] == highCount
      {
        ghost var picked, seen := Step(events[n]);
        if picked {
          RunExtends(tables, curs, counts, seen, current, highCount);
          tables, curs, counts := tables + [seen], curs + [current], counts + [highCount];
        }
        n := n + 1;
      }
    }
  }

  lemma SwitchedOut(table: Table, current: nat)
    requires current < MAX_TASKS && OneRunning(table, current)
    ensures if table[current].Used? && table[current].task.state == Running then table[current].task.started
              && NoneRunning(WithState(table, current, Ready))
            else NoneRunning(table)
  {}

  lemma SwitchedIn(table: Table, pid: nat, task: Task)
    requires pid < MAX_TASKS && NoneRunning(table) && task.started
    ensures OneRunning(table[pid := Used(task)], pid)
  {}

  /** Some task is ready, so one is picked; with nothing running it is a ready one. */
  lemma PickReady(table: Table, cur: nat, count: nat, pid: int, count': nat)
    requires cur < MAX_TASKS && count <= PICK_LIMIT && Picks(table, cur, count, pid, count') && NoneRunning(table)
    requires AnyReady(table)
    ensures 0 <= pid < MAX_TASKS && IsReady(table[pid]) && count' <= PICK_LIMIT
  {
    var i :| 0 <= i < MAX_TASKS && IsReady(table[i]);
    assert Runnable(table[i], table[i].task.priority);
    assert Any(table, table[i].task.priority);
    PickBounds(table, cur, count, pid, count');
  }

  // ---------------------------------------------------------------- starvation through the scheduler

  const WAITING: Task := Task(Ready, Normal, true, false)

  /** The idle clerk asleep, the window clerk at high priority, task 5 in front of it and task `t` further on. */
  function Crowd(t: nat): Table {
    seq(MAX_TASKS, i => if i == IDLE_PID then Used(Task(Sleeping, Low, false, true))
                        else if i == GUI_PID then Used(Task(Ready, High, false, true))
                        else if i == 5 then Used(Task(Ready, Normal, true, true))
                        else if i == t then Used(WAITING) else Free)
  }

  lemma CrowdStarves(t: nat)
    requires 5 < t < MAX_TASKS
    ensures OneHigh(Crowd(t), GUI_PID) && Nearest(Crowd(t), GUI_PID, Normal, 5)
  {}

  /** Nothing in the crowd changes when the clerks are checked. */
  lemma CrowdChecked(t: nat, seen: Table, doc: bool)
    requires 5 < t < MAX_TASKS && Checked(Crowd(t), seen, false, false, false, doc)
    ensures seen == Crowd(t)
  {
    assert IsReady(seen[5]);
    forall i | 0 <= i < MAX_TASKS ensures seen[i] == Crowd(t)[i] {
      if i > DOC_PID { assert seen[i] == Crowd(t)[i]; }
    }
  }

  /**
   * However often the scheduler switches, a ready task is never started: the search always begins again at the window
   * clerk.
   */
  method Starves(t: nat, n: nat) returns (s: Sched)
    requires 5 < t < MAX_TASKS
    ensures fresh(s) && s.Valid() && s.table[t] == Used(WAITING)
  {
    hide Picks, Nearest, OneHigh, Checked, OneRunning, NoneRunning;
    s := new Sched(Task(Sleeping, Low, false, true));
    s.Add(GUI_PID, Task(Ready, High, false, true));
    s.Add(5, Task(Ready, Normal, true, true));
    s.Add(t, WAITING);
    assert s.table == Crowd(t);
    CrowdStarves(t);
    for k := 0 to n
      invariant s.Valid() && s.table[t] == Used(WAITING) && s.current != t
      invariant Rested(s.table, s.current) == Crowd(t) && (s.current == GUI_PID || s.highCount == 0)
    {
      ghost var cur, count, doc := s.current, s.highCount, s.docCounter;
      var pid, seen := s.Switch(false, false, false);
      CrowdChecked(t, seen, doc + 1 > DOC_INTERVAL);
      StarveStep(seen, GUI_PID, 5, cur, count, pid, s.highCount);
    }
  }
}
