/** uspace/src/timer.c: a timer wheel that catches up on the seconds it has missed. */
module Timer {
  import opened Common
  import opened Cyclic

  /** Timer t was handled at the tick-th second of the clock. */
  datatype Firing = Firing(timer: nat, tick: nat)

  // ---------- what the wheel stands for ----------

  /** Seconds passed, the tick at which each armed timer is due, and what was handled so far. */
  datatype Wheel = Wheel(ticks: nat, due: map<nat, nat>, fired: seq<Firing>)

  datatype Op = Add(timer: nat, seconds: int) | Del(timer: nat) | Expire(ticks: nat, batch: seq<Firing>)

  /** After how many ticks a timer added with this argument is handled; 0 is a whole turn of the wheel. */
  function Delay(seconds: int, total: nat): (d: nat)
    requires total > 0
    ensures 1 <= d <= total
  {
    if seconds > total || seconds == 0 then total else if seconds < 0 then 1 else seconds
  }

  /** The ticks at which t was handled. */
  function TicksOf(fired: seq<Firing>, t: nat): seq<nat> {
    if fired == [] then []
    else TicksOf(fired[..|fired| - 1], t) + if fired[|fired| - 1].timer == t then [fired[|fired| - 1].tick] else []
  }

  /** A batch handles every timer due up to tick hi, once and at its tick, earlier ones first, and no other. */
  ghost predicate Handles(batch: seq<Firing>, due: map<nat, nat>, hi: nat) {
    && (forall t: nat {:trigger TicksOf(batch, t)} ::
          TicksOf(batch, t) == if t in due && due[t] <= hi then [due[t]] else [])
    && forall j, k {:trigger batch[j], batch[k]} | 0 <= j < k < |batch| :: batch[j].tick <= batch[k].tick
  }

  function Later(due: map<nat, nat>, hi: nat): map<nat, nat> {
    map t | t in due && due[t] > hi :: due[t]
  }

  ghost predicate Step(total: nat, w: Wheel, op: Op, w': Wheel)
    requires total > 0
  {
    match op
    case Add(t, seconds) => t !in w.due && w' == w.(due := w.due[t := w.ticks + Delay(seconds, total)])
    case Del(t) => w' == w.(due := w.due - {t})
    case Expire(ticks, batch) =>
      ticks >= w.ticks && Handles(batch, w.due, ticks) && w' == Wheel(ticks, Later(w.due, ticks), w.fired + batch)
  }

  // ---------- a timer that is added and not deleted ----------

  ghost predicate Run(total: nat, ws: seq<Wheel>, ops: seq<Op>)
    requires total > 0
  {
    |ws| == |ops| + 1 && forall i {:trigger ops[i]} | 0 <= i < |ops| :: Step(total, ws[i], ops[i], ws[i + 1])
  }

  predicate Concerns(op: Op, t: nat) {
    (op.Add? || op.Del?) && op.timer == t
  }

  lemma {:induction false} TicksOfConcat(a: seq<Firing>, b: seq<Firing>, t: nat)
    ensures TicksOf(a + b, t) == TicksOf(a, t) + TicksOf(b, t)
  {
    if b == [] {
      assert a + b == a;
    } else {
      assert (a + b)[..|a + b| - 1] == a + b[..|b| - 1];
      TicksOfConcat(a, b[..|b| - 1], t);
    }
  }

  /**
   * In any run that starts with adding t and then neither deletes it nor adds it again, t is handled exactly once,
   * so many seconds after it was added, and by no call that does not reach that tick.  A negative number of seconds
   * counts as 1, and 0 like one that is longer than the wheel as a whole turn.
   */
  lemma {:induction false} HandledExactlyOnTime(total: nat, ws: seq<Wheel>, ops: seq<Op>, t: nat, seconds: int, i: nat)
    requires total > 0 && Run(total, ws, ops) && ops != [] && ops[0] == Add(t, seconds)
    requires forall k | 1 <= k < |ops| :: !Concerns(ops[k], t)
    requires 1 <= i < |ws|
    ensures var tick := ws[0].ticks + (if 1 <= seconds <= total then seconds else if seconds < 0 then 1 else total);
            && TicksOf(ws[i].fired, t) == TicksOf(ws[0].fired, t) + (if ws[i].ticks < tick then [] else [tick])
            && (ws[i].ticks < tick ==> t in ws[i].due && ws[i].due[t] == tick)
            && (ws[i].ticks >= tick ==> t !in ws[i].due)
  {
    hide TicksOf;
    assert Step(total, ws[i - 1], ops[i - 1], ws[i]);
    if i > 1 {
      HandledExactlyOnTime(total, ws, ops, t, seconds, i - 1);
      if ops[i - 1].Expire? {
        TicksOfConcat(ws[i - 1].fired, ops[i - 1].batch, t);
      }
    }
  }

  // ---------- the clock ----------

  /** The slot r ticks ahead, for r from 1 to a whole turn. */
  function SlotOf(next: nat, r: nat, total: nat): (i: nat)
    requires next < total && 1 <= r <= total
    ensures i < total
  {
    if next + r < total then next + r else next + r - total
  }

  function Without(s: seq<nat>, t: nat): (r: seq<nat>)
    ensures t !in s ==> r == s
  {
    if s == [] then [] else if s[0] == t then s[1..] else [s[0]] + Without(s[1..], t)
  }

  lemma {:induction false} WithoutMember(s: seq<nat>, t: nat, x: nat)
    requires Distinct(s)
    ensures x in Without(s, t) <==> x in s && x != t
  {
    if s != [] {
      assert s == [s[0]] + s[1..];
      if s[0] != t { WithoutMember(s[1..], t, x); }
    }
  }

  lemma {:induction false} WithoutDistinct(s: seq<nat>, t: nat)
    requires Distinct(s)
    ensures Distinct(Without(s, t))
  {
    if s != [] && s[0] != t {
      WithoutDistinct(s[1..], t);
      WithoutMember(s[1..], t, s[0]);
    }
  }

  lemma {:induction false} WithoutIs(s: seq<nat>, t: nat)
    requires Distinct(s)
    ensures Distinct(Without(s, t))
    ensures forall x: nat {:trigger x in Without(s, t)} :: x in Without(s, t) <==> x in s && x != t
  {
    hide Without, Distinct;
    WithoutDistinct(s, t);
    forall x: nat | true ensures x in Without(s, t) <==> x in s && x != t { WithoutMember(s, t, x); }
  }

  ghost predicate Slotted(table: seq<seq<nat>>, i: int, t: nat) {
    0 <= i < |table| && t in table[i]
  }

  /** The lists hold exactly the armed timers; one that is due in r ticks is in the slot r ahead. */
  ghost predicate Placed(table: seq<seq<nat>>, next: nat, ticks: nat, due: map<nat, nat>) {
    && next < |table|
    && (forall i {:trigger table[i]} | 0 <= i < |table| :: Distinct(table[i]))
    && (forall t | t in due :: ticks < due[t] <= ticks + |table|)
    && (forall i: int, t: nat {:trigger Slotted(table, i, t)} ::
          Slotted(table, i, t) <==> t in due && i == SlotOf(next, due[t] - ticks, |table|))
  }

  /** Within a tick: the timers of the current slot are due now, and handled one by one. */
  ghost predicate Handling(table: seq<seq<nat>>, next: nat, ticks: nat, due: map<nat, nat>) {
    && next < |table|
    && (forall i {:trigger table[i]} | 0 <= i < |table| :: Distinct(table[i]))
    && (forall t | t in due :: ticks <= due[t] < ticks + |table|)
    && (forall i: int, t: nat {:trigger Slotted(table, i, t)} ::
          Slotted(table, i, t) <==> t in due && i == At(next, due[t] - ticks, |table|))
  }

  lemma {:induction false} AddPlaces(table: seq<seq<nat>>, next: nat, ticks: nat, due: map<nat, nat>, t: nat, r: nat)
    requires Placed(table, next, ticks, due) && t !in due && 1 <= r <= |table|
    ensures var i := SlotOf(next, r, |table|);
            Placed(table[i := [t] + table[i]], next, ticks, due[t := ticks + r])
  {
    var i := SlotOf(next, r, |table|);
    var table', due' := table[i := [t] + table[i]], due[t := ticks + r];
    assert !Slotted(table, i, t);
    forall j: int, x: nat | true
      ensures Slotted(table', j, x) <==> x in due' && j == SlotOf(next, due'[x] - ticks, |table|)
    {
      assert Slotted(table', j, x) <==> Slotted(table, j, x) || (j == i && x == t);
    }
  }

  lemma {:induction false} DelPlaces(table: seq<seq<nat>>, table': seq<seq<nat>>, next: nat, ticks: nat,
                                     due: map<nat, nat>, t: nat)
    requires Placed(table, next, ticks, due)
    requires |table'| == |table| && forall i | 0 <= i < |table| :: table'[i] == Without(table[i], t)
    ensures Placed(table', next, ticks, due - {t})
  {
    forall i | 0 <= i < |table|
      ensures Distinct(table'[i]) && forall x: nat :: Slotted(table', i, x) <==> Slotted(table, i, x) && x != t
    {
      WithoutIs(table[i], t);
    }
  }

  /** Moving on to the next second. */
  lemma TickHandles(table: seq<seq<nat>>, next: nat, ticks: nat, due: map<nat, nat>)
    requires Placed(table, next, ticks, due)
    ensures Handling(table, Next(next, |table|), ticks + 1, due)
  {
  }

  /** Handling the first timer of the current slot, which deletes itself. */
  lemma {:induction false} OneHandled(table: seq<seq<nat>>, table': seq<seq<nat>>, next: nat, ticks: nat,
                                      due: map<nat, nat>, t: nat)
    requires Handling(table, next, ticks, due) && table[next] != [] && t == table[next][0]
    requires |table'| == |table| && forall i | 0 <= i < |table| :: table'[i] == Without(table[i], t)
    ensures t in due && due[t] == ticks
    ensures table'[next] == table[next][1..]
    ensures Handling(table', next, ticks, due - {t})
  {
    assert Slotted(table, next, t);
    forall i | 0 <= i < |table|
      ensures Distinct(table'[i]) && forall x: nat :: Slotted(table', i, x) <==> Slotted(table, i, x) && x != t
    {
      WithoutIs(table[i], t);
    }
  }

  lemma {:induction false} AllHandled(table: seq<seq<nat>>, next: nat, ticks: nat, due: map<nat, nat>)
    requires Handling(table, next, ticks, due) && table[next] == []
    ensures Placed(table, next, ticks, due)
  {
    forall t | t in due ensures due[t] != ticks {
      assert Slotted(table, At(next, due[t] - ticks, |table|), t);
    }
  }

  lemma ModOnce(a: nat, n: nat)
    requires n > 0 && a < 2 * n
    ensures a % n == if a < n then a else a - n
  {
    if a >= n {
      assert (a - n) % n == a - n;
      assert a == n * 1 + (a - n);
    }
  }

  lemma Another(k: nat, f: nat)
    ensures (k + 1) * f == k * f + f
  {
  }

  /** ticks is how many whole periods lie strictly before the elapsed time. */
  predicate OnTime(ticks: nat, frequency: nat, elapsed: nat) {
    if elapsed == 0 then ticks == 0 else ticks * frequency < elapsed <= (ticks + 1) * frequency
  }

  /** The number of ticks is a function of the time alone: no pattern of calls leads to another one. */
  lemma TicksDependOnTimeOnly(a: nat, b: nat, frequency: nat, elapsed: nat)
    requires frequency > 0 && OnTime(a, frequency, elapsed) && OnTime(b, frequency, elapsed)
    ensures a == b
  {
    if a < b { Grows(a + 1, b, frequency); }
    if b < a { Grows(b + 1, a, frequency); }
  }

  lemma Grows(a: nat, b: nat, f: nat)
    requires a <= b
    ensures a * f <= b * f
  {
    assert b * f - a * f == (b - a) * f;
  }

  class Clock {
    const cpuFrequency: nat
    var now: nat
    var fill: nat
    var lastExpire: nat
    const totalClockSeconds: nat
    var nextClockSecond: nat
    var timerTable: seq<seq<nat>>
    ghost const start: nat
    ghost var ticks: nat
    ghost var due: map<nat, nat>
    ghost var fired: seq<Firing>

    ghost function View(): Wheel
      reads this
    {
      Wheel(ticks, due, fired)
    }

    ghost predicate Valid()
      reads this
    {
      && totalClockSeconds > 0 && cpuFrequency > 0 && |timerTable| == totalClockSeconds
      && Placed(timerTable, nextClockSecond, ticks, due)
      && start <= lastExpire <= now
      && ticks * cpuFrequency + fill == lastExpire - start
      && now - lastExpire + fill <= cpuFrequency
      && (ticks > 0 ==> fill > 0)
    }

    /** timer_module_init; the source divides by the number of seconds, so it must not be 0. */
    constructor (seconds: int, defaultSeconds: nat, frequency: nat, t: nat)
      requires seconds != 0 && defaultSeconds > 0 && frequency > 0
      ensures Valid() && View() == Wheel(0, map[], []) && now == start == t && cpuFrequency == frequency
      ensures totalClockSeconds == if seconds < 0 then defaultSeconds else seconds
    {
      var size := if seconds < 0 then defaultSeconds else seconds;
      cpuFrequency := frequency;
      lastExpire, now, start := t, t, t;
      totalClockSeconds, nextClockSecond, fill := size, 0, 0;
      timerTable := seq(size, _ => []);
      ticks, due, fired := 0, map[], [];
    }

    /** timer_add of a timer that is not armed */
    method Add(t: nat, seconds: int) returns (r: int)
      requires Valid() && t !in due
      modifies this`timerTable, this`due
      ensures Valid() && Step(totalClockSeconds, old(View()), Op.Add(t, seconds), View())
      ensures r == if seconds > totalClockSeconds then totalClockSeconds else if seconds < 0 then 1 else seconds
      ensures 1 <= seconds <= totalClockSeconds ==> due == old(due)[t := ticks + seconds]
      ensures seconds < 0 ==> due == old(due)[t := ticks + 1]
      ensures seconds == 0 || totalClockSeconds < seconds ==> due == old(due)[t := ticks + totalClockSeconds]
    {
      hide Placed;
      r := seconds;
      if r > totalClockSeconds { r := totalClockSeconds; }
      if r < 0 { r := 1; }
      assert nextClockSecond < |timerTable| by { PlacedNext(timerTable, nextClockSecond, ticks, due); }
      var id := (nextClockSecond + r) % totalClockSeconds;
      ModOnce(nextClockSecond + r, totalClockSeconds);
      AddPlaces(timerTable, nextClockSecond, ticks, due, t, Delay(seconds, totalClockSeconds));
      timerTable := timerTable[id := [t] + timerTable[id]];
      due := due[t := ticks + Delay(seconds, totalClockSeconds)];
    }

    /** timer_del: takes the timer out of the list it is in, if it is in one. */
    method Del(t: nat)
      requires Valid()
      modifies this`timerTable, this`due
      ensures Valid() && Step(totalClockSeconds, old(View()), Op.Del(t), View())
    {
      ghost var was := timerTable;
      timerTable := Unlinked(timerTable, t);
      DelPlaces(was, timerTable, nextClockSecond, ticks, due, t);
      due := due - {t};
    }

    /** The handlers of the current slot, which delete their own timer (connection.c:196-205). */
    method HandleSlot()
      requires Handling(timerTable, nextClockSecond, ticks, due) && |timerTable| == totalClockSeconds
      modifies this`timerTable, this`due, this`fired
      ensures Placed(timerTable, nextClockSecond, ticks, due) && |timerTable| == totalClockSeconds
      ensures due == Later(old(due), ticks)
      ensures old(fired) <= fired && Handles(fired[|old(fired)|..], old(due), ticks)
      ensures forall k | |old(fired)| <= k < |fired| :: fired[k].tick == ticks
    {
      hide Handling, Placed, TicksOf, Later;
      NoneFired();
      ghost var was, n := due, |fired|;
      assert nextClockSecond < |timerTable| by { HandlingNext(timerTable, nextClockSecond, ticks, due); }
      var list := timerTable[nextClockSecond];
      var j: nat := 0;
      ghost var batch: seq<Firing> := [];
      while j < |list|
        invariant j <= |list| && |timerTable| == totalClockSeconds && nextClockSecond < |timerTable|
        invariant timerTable[nextClockSecond] == list[j..]
        invariant Handling(timerTable, nextClockSecond, ticks, due)
        invariant due.Keys <= was.Keys && (forall t | t in due :: due[t] == was[t])
        invariant forall t | t in was && t !in due :: was[t] == ticks
        invariant fired == old(fired) + batch
        invariant forall k | 0 <= k < |batch| :: batch[k].tick == ticks
        invariant forall t: nat {:trigger TicksOf(batch, t)} ::
                    TicksOf(batch, t) == if t in was && t !in due then [ticks] else []
      {
        var pos := list[j];
        ghost var table := timerTable;
        timerTable := Unlinked(timerTable, pos);
        OneHandled(table, timerTable, nextClockSecond, ticks, due, pos);
        OneFired(batch, Firing(pos, ticks));
        assert old(fired) + batch + [Firing(pos, ticks)] == old(fired) + (batch + [Firing(pos, ticks)]);
        fired := fired + [Firing(pos, ticks)];
        batch := batch + [Firing(pos, ticks)];
        due := due - {pos};
        j := j + 1;
      }
      assert fired[n..] == batch;
      AllHandled(timerTable, nextClockSecond, ticks, due);
      PlacedLater(timerTable, nextClockSecond, ticks, due);
      HandledBound(was, due, ticks);
    }

    /** timer_expire at clock reading t. The handled timers do not depend on how late or how often it is called. */
    method Expire(t: nat) returns (ghost batch: seq<Firing>)
      requires Valid() && t >= now
      modifies this
      ensures Valid() && now == t
      ensures Step(totalClockSeconds, old(View()), Op.Expire(ticks, batch), View())
      ensures OnTime(ticks, cpuFrequency, now - start)
    {
      hide Placed, Handling, Handles, Later, TicksOf;
      ghost var due0, fired0 := due, fired;
      var elapse := t - lastExpire + fill;
      var flag := elapse > cpuFrequency;
      batch := [];
      NothingDue(timerTable, nextClockSecond, ticks, due);
      while elapse > cpuFrequency
        invariant 0 <= elapse && |timerTable| == totalClockSeconds
        invariant Placed(timerTable, nextClockSecond, ticks, due)
        invariant ticks * cpuFrequency + elapse == t - start
        invariant old(ticks) <= ticks && due == Later(due0, ticks)
        invariant fired == fired0 + batch && Handles(batch, due0, ticks)
        invariant forall k | 0 <= k < |batch| :: batch[k].tick <= ticks
        invariant flag ==> elapse > 0
        invariant !flag ==> ticks == old(ticks) && elapse == t - lastExpire + fill
        invariant unchanged(this`fill) && unchanged(this`lastExpire)
        decreases elapse
      {
        TickHandles(timerTable, nextClockSecond, ticks, due);
        PlacedNext(timerTable, nextClockSecond, ticks, due);
        nextClockSecond := nextClockSecond + 1;
        if nextClockSecond >= totalClockSeconds { nextClockSecond := 0; }
        Another(ticks, cpuFrequency);
        ghost var n := |fired|;
        ticks := ticks + 1;
        HandleSlot();
        MoreHandled(batch, fired[n..], due0, ticks - 1, ticks);
        assert fired == fired0 + (batch + fired[n..]);
        batch := batch + fired[n..];
        elapse := elapse - cpuFrequency;
      }
      if flag {
        fill := elapse;
        lastExpire := t;
      }
      now := t;
      Another(ticks, cpuFrequency);
    }
  }

  lemma NoneFired()
    ensures forall t: nat :: TicksOf([], t) == []
  {
  }

  lemma OneFired(batch: seq<Firing>, f: Firing)
    ensures forall t: nat {:trigger TicksOf(batch + [f], t)} ::
              TicksOf(batch + [f], t) == TicksOf(batch, t) + if t == f.timer then [f.tick] else []
  {
    assert (batch + [f])[..|batch + [f]| - 1] == batch;
  }

  function Unlinked(table: seq<seq<nat>>, t: nat): (r: seq<seq<nat>>)
    ensures |r| == |table| && forall i | 0 <= i < |table| :: r[i] == Without(table[i], t)
  {
    seq(|table|, i requires 0 <= i < |table| => Without(table[i], t))
  }

  lemma PlacedNext(table: seq<seq<nat>>, next: nat, ticks: nat, due: map<nat, nat>)
    requires Placed(table, next, ticks, due)
    ensures next < |table|
  {
  }

  lemma HandlingNext(table: seq<seq<nat>>, next: nat, ticks: nat, due: map<nat, nat>)
    requires Handling(table, next, ticks, due)
    ensures next < |table|
  {
  }

  lemma PlacedLater(table: seq<seq<nat>>, next: nat, ticks: nat, due: map<nat, nat>)
    requires Placed(table, next, ticks, due)
    ensures forall t | t in due :: due[t] > ticks
  {
  }

  lemma HandledBound(was: map<nat, nat>, due: map<nat, nat>, ticks: nat)
    requires due.Keys <= was.Keys && forall t | t in due :: due[t] == was[t] && due[t] > ticks
    requires forall t | t in was && t !in due :: was[t] == ticks
    ensures due == Later(was, ticks)
  {
  }

  lemma NothingDue(table: seq<seq<nat>>, next: nat, ticks: nat, due: map<nat, nat>)
    requires Placed(table, next, ticks, due)
    ensures due == Later(due, ticks) && Handles([], due, ticks)
  {
  }

  lemma {:induction false} MoreHandled(batch: seq<Firing>, more: seq<Firing>, due: map<nat, nat>, lo: nat, hi: nat)
    requires lo <= hi && Handles(batch, due, lo) && Handles(more, Later(due, lo), hi)
    requires forall k | 0 <= k < |batch| :: batch[k].tick <= lo
    requires forall k | 0 <= k < |more| :: more[k].tick == hi
    ensures Handles(batch + more, due, hi) && Later(Later(due, lo), hi) == Later(due, hi)
  {
    hide TicksOf;
    forall t: nat | true
      ensures TicksOf(batch + more, t) == if t in due && due[t] <= hi then [due[t]] else []
    {
      TicksOfConcat(batch, more, t);
      assert TicksOf(batch, t) == if t in due && due[t] <= lo then [due[t]] else [];
    }
  }
}
