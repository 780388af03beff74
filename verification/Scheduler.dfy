/** The locality scheduler: threads get one core each until the cores run out; afterwards a freed core goes to
    the waiting thread with the lowest score, and every period the lowest-scored runnable threads run. */
module Scheduler {
  import opened Wrappers
  import opened ThreadLists

  datatype Thread = Thread(core: Option<nat>, runnable: bool, unscheduled: bool, score: int, metricLast: int)

  type Threads = map<nat, Thread>

  /** Score and metric of a thread when its score was last set: at its start or at its last resume. */
  datatype Mark = Mark(score: int, metric: int)

  /** A score is the one last set plus the progress of the metric from then to when it was last looked at. */
  ghost predicate Accounted(ts: Threads, marks: map<nat, Mark>) {
    marks.Keys == ts.Keys &&
    forall id :: id in ts ==> ts[id].score == marks[id].score + (ts[id].metricLast - marks[id].metric)
  }

  lemma AccountedAnew(ts: Threads, marks: map<nat, Mark>, id: nat, t: Thread, mark: Mark)
    requires Accounted(ts, marks) && t.score == mark.score + (t.metricLast - mark.metric)
    ensures Accounted(ts[id := t], marks[id := mark])
  {
  }

  lemma AccountedThroughout(before: Threads, after: Threads, marks: map<nat, Mark>)
    requires Accounted(before, marks) && after.Keys == before.Keys
    requires forall id :: id in after ==>
               after[id].score - before[id].score == after[id].metricLast - before[id].metricLast
    ensures Accounted(after, marks)
  {
  }

  lemma MarkedScores(ts: Threads, marks: map<nat, Mark>)
    requires Accounted(ts, marks)
    ensures marks.Keys == ts.Keys
    ensures forall id :: id in ts ==> ts[id].score == marks[id].score + (ts[id].metricLast - marks[id].metric)
  {
  }

  lemma RunningHeld(ts: Threads)
    ensures forall id :: id in Running(ts) <==> id in ts && ts[id].core.Some?
  {
  }

  lemma AccountedStill(ts: Threads, marks: map<nat, Mark>, id: nat, t: Thread)
    requires Accounted(ts, marks) && id in ts && t.score - ts[id].score == t.metricLast - ts[id].metricLast
    ensures Accounted(ts[id := t], marks)
  {
  }

  /** Progress since the thread was last looked at is added to its score. */
  predicate Credited(before: Thread, after: Thread, metric: int) {
    after.score == before.score + (metric - before.metricLast) && after.metricLast == metric
  }

  // ----- thread records

  function UpdateScore(t: Thread, now: int): Thread {
    t.(score := t.score + now - t.metricLast, metricLast := now)
  }

  function SetScore(t: Thread, score: int, now: int): Thread {
    t.(score := score, metricLast := now)
  }

  /** A thread that loses its core, or stays without one, has its score brought up to date. */
  function SetCore(t: Thread, core: Option<nat>, now: int): Thread {
    if core == None then UpdateScore(t.(core := None), now) else t.(core := core)
  }

  function Running(ts: Threads): set<nat> { set id | id in ts && ts[id].core.Some? }

  function Runnable(ts: Threads): set<nat> { set id | id in ts && ts[id].runnable }

  /** Runnable, but not running. */
  function Waiting(ts: Threads): set<nat> { set id | id in ts && ts[id].runnable && ts[id].core == None }

  function On(ts: Threads, core: nat): set<nat> { set id | id in ts && ts[id].core == Some(core) }

  function ScoreOf(ts: Threads): nat -> int { id => if id in ts then ts[id].score else 0 }

  function CoreOf(ts: Threads, id: nat): nat { if id in ts && ts[id].core.Some? then ts[id].core.value else 0 }

  function CoresOf(ts: Threads, ids: set<nat>): set<nat> { set id | id in ids :: CoreOf(ts, id) }

  function Used(ts: Threads): set<nat> { CoresOf(ts, Running(ts)) }

  /** No two threads share a core. */
  ghost predicate Unshared(ts: Threads) {
    forall a, b :: a in ts && b in ts && a != b && ts[a].core.Some? ==> ts[a].core != ts[b].core
  }

  /** Only runnable threads hold a core, and it is one of the scheduler's. */
  ghost predicate Placed(ts: Threads, cores: seq<nat>) {
    forall id :: id in ts && ts[id].core.Some? ==> ts[id].runnable && ts[id].core.value in cores
  }

  lemma {:induction false} CoresSize(ts: Threads, ids: set<nat>)
    requires Unshared(ts) && ids <= Running(ts)
    ensures |CoresOf(ts, ids)| == |ids|
    decreases |ids|
  {
    if ids != {} {
      var id :| id in ids;
      CoresSize(ts, ids - {id});
      assert CoresOf(ts, ids) == CoresOf(ts, ids - {id}) + {CoreOf(ts, id)};
      assert CoreOf(ts, id) !in CoresOf(ts, ids - {id});
    }
  }

  lemma RunningMember(ts: Threads, c: nat)
    ensures c in Used(ts) <==> exists id :: id in ts && ts[id].core == Some(c)
  {
    if c in Used(ts) {
      var id :| id in Running(ts) && CoreOf(ts, id) == c;
      assert ts[id].core == Some(c);
    }
    if id :| id in ts && ts[id].core == Some(c) {
      assert id in Running(ts) && CoreOf(ts, id) == c;
    }
  }

  /** Giving a core to a runnable thread is safe exactly when no other thread holds it. */
  lemma AssignSafe(ts: Threads, cores: seq<nat>, id: nat, t: Thread)
    requires Unshared(ts) && Placed(ts, cores)
    requires t.core.Some? ==> t.runnable && t.core.value in cores
    requires id in ts && ts[id].core.Some? ==> t.core != ts[id].core
    ensures Placed(ts[id := t], cores)
    ensures Unshared(ts[id := t]) <==> t.core == None || t.core.value !in Used(ts)
  {
    var us := ts[id := t];
    if t.core.Some? {
      RunningMember(ts, t.core.value);
      if a :| a in ts && ts[a].core == t.core {
        assert a in us && id in us && us[a].core == us[id].core;
      }
    }
  }

  /** The cores in use after one thread got `core`, which adds that one at most. */
  lemma UsedAfter(ts: Threads, id: nat, t: Thread)
    ensures Used(ts[id := t]) <= Used(ts) + (if t.core.Some? then {t.core.value} else {})
    ensures t.core.Some? ==> t.core.value in Used(ts[id := t])
  {
    var us := ts[id := t];
    forall c | c in Used(us) ensures c in Used(ts) + (if t.core.Some? then {t.core.value} else {}) {
      RunningMember(us, c);
      var a :| a in us && us[a].core == Some(c);
      if a != id { assert a in ts && ts[a].core == Some(c); RunningMember(ts, c); }
    }
    if t.core.Some? { RunningMember(us, t.core.value); assert id in us && us[id].core == t.core; }
  }

  /** A thread without a core leaves one of the first `n` cores free when there are at most `n` threads. */
  lemma RoomInPrefix(ts: Threads, cores: seq<nat>, order: seq<nat>, n: nat, id: nat)
    requires Unshared(ts) && Distinct(cores) && Distinct(order) && Elements(order) == ts.Keys
    requires |order| <= n <= |cores| && id in ts && ts[id].core == None
    ensures |Used(ts)| < n && Without(cores[..n], Used(ts)) != []
  {
    CoresSize(ts, Running(ts));
    DistinctSize(order);
    SubsetSize(Running(ts) + {id}, ts.Keys);
    WithoutSize(cores[..n], Used(ts));
  }

  /** Taking a thread's core away is safe. */
  lemma ReleaseSafe(ts: Threads, cores: seq<nat>, id: nat, t: Thread)
    requires Unshared(ts) && Placed(ts, cores) && id in ts
        && (t.core == None || (t.core == ts[id].core && t.runnable == ts[id].runnable))
    ensures Unshared(ts[id := t]) && Placed(ts[id := t], cores) && Used(ts[id := t]) <= Used(ts)
    ensures t.core == None && ts[id].core.Some? ==> ts[id].core.value !in Used(ts[id := t])
  {
    UsedAfter(ts, id, t);
    if t.core.Some? { RunningMember(ts, t.core.value); }
    if t.core == None && ts[id].core.Some? { RunningMember(ts[id := t], ts[id].core.value); }
  }

  /** A core given up by one thread can go to a waiting one. */
  lemma HandOverSafe(ts: Threads, cores: seq<nat>, id: nat, t: Thread, first: nat, u: Thread)
    requires Unshared(ts) && Placed(ts, cores) && id in ts && t.core == None
    requires first in Waiting(ts[id := t]) && u.core == ts[id].core && u.runnable
    ensures var us := ts[id := t][first := u]; Unshared(us) && Placed(us, cores) && Used(us) <= Used(ts)
  {
    ReleaseSafe(ts, cores, id, t);
    if u.core.Some? { RunningMember(ts, u.core.value); }
    AssignSafe(ts[id := t], cores, first, u);
    UsedAfter(ts[id := t], first, u);
  }

  lemma WaitingAfter(ts: Threads, id: nat, t: Thread)
    requires !t.runnable
    ensures Waiting(ts[id := t]) == Waiting(ts) - {id} && Waiting(ts) - {id} <= ts.Keys
  {
  }

  /** The first of the waiting threads by score. */
  lemma FirstWaiting(ts: Threads, order: seq<nat>)
    requires Elements(order) == ts.Keys
    ensures var waiting := Only(order, Waiting(ts));
            && |Sort(waiting, ScoreOf(ts))| == |waiting| && (waiting == [] <==> Waiting(ts) == {})
            && (waiting != [] ==>
                  var first := Sort(waiting, ScoreOf(ts))[0];
                  first in Waiting(ts) && ts[first].runnable
                  && forall x :: x in Waiting(ts) ==> ts[first].score <= ts[x].score)
  {
    hide Only, Sort, SortedBy;
    var waiting := Only(order, Waiting(ts));
    OnlyElements(order, Waiting(ts));
    SortKeeps(waiting, ScoreOf(ts));
    SortSorted(waiting, ScoreOf(ts));
    assert forall x :: x in Waiting(ts) ==> x in Elements(order);
    if waiting != [] {
      var sorted := Sort(waiting, ScoreOf(ts));
      assert sorted[0] in waiting;
      SortedFirst(sorted, ScoreOf(ts));
    }
  }

  lemma SortedFirst(ids: seq<nat>, score: nat -> int)
    requires SortedBy(ids, score) && ids != []
    ensures forall x :: x in ids ==> score(ids[0]) <= score(x)
  {
  }

  function MinScore(ids: seq<nat>, score: nat -> int): (m: int)
    requires ids != []
    ensures forall x :: x in ids ==> m <= score(x)
    ensures exists x :: x in ids && m == score(x)
  {
    if |ids| == 1 then score(ids[0])
    else
      var m := MinScore(ids[1..], score);
      assert ids == [ids[0]] + ids[1..];
      if score(ids[0]) <= m then score(ids[0]) else m
  }

  lemma OrderMembers(ts: Threads, order: seq<nat>, id: nat)
    requires Elements(order) == ts.Keys && id in ts
    ensures order != [] && forall x :: x in order <==> x in ts
  {
    assert id in Elements(order);
    forall x ensures x in order <==> x in ts { assert x in Elements(order) <==> x in order; }
  }

  /** What a resumed thread may hold afterwards: a free core, or what it held if none is free. */
  ghost predicate ResumedTo(ts: Threads, cores: seq<nat>, id: nat, t: Thread)
    requires id in ts
  {
    var free := Without(cores, Used(ts));
    t.runnable && t.core == if free != [] then Some(free[0]) else ts[id].core
  }

  lemma ResumeSafe(ts: Threads, cores: seq<nat>, id: nat, t: Thread)
    requires Unshared(ts) && Placed(ts, cores) && id in ts && ResumedTo(ts, cores, id, t)
    ensures Unshared(ts[id := t]) && Placed(ts[id := t], cores)
  {
    var free := Without(cores, Used(ts));
    WithoutElements(cores, Used(ts));
    if free != [] {
      assert free[0] in free;
      RunningMember(ts, free[0]);
      AssignSafe(ts, cores, id, t);
    }
  }

  lemma ResumeReserved(ts: Threads, cores: seq<nat>, n: nat, id: nat, t: Thread)
    requires Distinct(cores) && n < |cores| && Used(ts) <= Elements(cores[..n]) && id in ts
        && ResumedTo(ts, cores, id, t)
    ensures Used(ts[id := t]) <= Elements(cores[..n]) <==> Without(cores[..n], Used(ts)) != []
  {
    hide Used, Distinct;
    var free := Without(cores, Used(ts));
    WithoutSplit(cores, n, Used(ts));
    WithoutElements(cores[..n], Used(ts));
    WithoutElements(cores[n..], Used(ts));
    PrefixApart(cores, n);
    UsedAfter(ts, id, t);
    var early, late := Without(cores[..n], Used(ts)), Without(cores[n..], Used(ts));
    if early != [] {
      assert free[0] == early[0] && early[0] in early;
    } else {
      assert cores[n] in cores[n..] && cores[n] !in cores[..n];
      assert cores[n] in late;
      assert free == late && late[0] in late;
      assert t.core.value in Used(ts[id := t]);
    }
  }

  lemma PrefixApart(cores: seq<nat>, n: nat)
    requires Distinct(cores) && n <= |cores|
    ensures forall c :: c in cores[n..] ==> c !in cores[..n]
  {
  }

  // ----- the periodic choice

  function Updated(ts: Threads, metric: nat -> int): Threads {
    map id | id in ts :: if ts[id].core.Some? then UpdateScore(ts[id], metric(id)) else ts[id]
  }

  /** The first `n` incoming threads hold the first `n` free cores, whoever held one of these before has
      none, and nothing else changed. */
  ghost predicate Moved(before: Threads, ts: Threads, incoming: seq<nat>, free: seq<nat>, n: nat)
    requires n <= |incoming| <= |free|
  {
    && ts.Keys == before.Keys
    && (forall j :: 0 <= j < n ==> incoming[j] in before
                                   && ts[incoming[j]] == before[incoming[j]].(core := Some(free[j])))
    && forall id :: id in before && id !in incoming[..n] ==> ts[id] == Displaced(before[id], free[..n])
  }

  /** A thread after its core, if it is one of these, was given away. */
  function Displaced(t: Thread, given: seq<nat>): Thread {
    if t.core.Some? && t.core.value in given then t.(core := None) else t
  }

  /** Threads to be moved in: each once, none of them running. */
  ghost predicate Incoming(ts: Threads, ids: seq<nat>) {
    Distinct(ids) && forall id :: id in ids ==> id in ts && ts[id].core == None
  }

  lemma MovedNone(ts: Threads, incoming: seq<nat>, free: seq<nat>)
    requires |incoming| <= |free|
    ensures Moved(ts, ts, incoming, free, 0)
  {
  }

  lemma MovedKeys(before: Threads, ts: Threads, incoming: seq<nat>, free: seq<nat>, i: nat)
    requires Incoming(before, incoming) && i < |incoming| <= |free| && Moved(before, ts, incoming, free, i)
    ensures ts.Keys == before.Keys && incoming[i] in ts && ts[incoming[i]] == before[incoming[i]]
  {
    assert incoming[i] !in incoming[..i];
  }

  /** The one thread that holds the next free core, if any, is found and has not been touched yet. */
  lemma CurrentHolder(before: Threads, ts: Threads, order: seq<nat>, incoming: seq<nat>, free: seq<nat>, i: nat)
    requires Unshared(before) && Elements(order) == before.Keys && Distinct(free) && Incoming(before, incoming)
    requires i < |incoming| <= |free| && Moved(before, ts, incoming, free, i)
    ensures var current := Only(order, On(ts, free[i]));
            if current == [] then forall id :: id in before ==> before[id].core != Some(free[i])
            else
              var h := current[0];
              && h in before && h in ts && ts[h] == before[h] && before[h].core == Some(free[i]) && h != incoming[i]
              && forall id :: id in before && before[id].core == Some(free[i]) ==> id == h
  {
    hide Only;
    var current := Only(order, On(ts, free[i]));
    OnlyElements(order, On(ts, free[i]));
    assert free[i] !in free[..i];
    forall id | id in before ensures id in On(ts, free[i]) <==> before[id].core == Some(free[i]) {
      if id in incoming[..i] {
        var j :| 0 <= j < i && incoming[j] == id;
        assert free[j] != free[i];
        assert id in incoming;
      }
    }
    if current == [] {
      forall id | id in before ensures before[id].core != Some(free[i]) {
        assert id in Elements(order);
      }
    } else {
      assert current[0] in current;
    }
  }

  lemma Extended(xs: seq<nat>, i: nat)
    requires i < |xs|
    ensures forall x :: x in xs[..i + 1] <==> x in xs[..i] || x == xs[i]
  {
    assert xs[..i + 1] == xs[..i] + [xs[i]];
  }

  lemma DisplacedMore(t: Thread, given: seq<nat>, i: nat)
    requires i < |given|
    ensures Displaced(t, given[..i + 1]) == if t.core == Some(given[i]) then t.(core := None)
                                            else Displaced(t, given[..i])
  {
    Extended(given, i);
  }

  lemma MovedStep(before: Threads, ts: Threads, incoming: seq<nat>, free: seq<nat>, i: nat, holder: Option<nat>,
      us: Threads)
    requires Incoming(before, incoming) && i < |incoming| <= |free| && Moved(before, ts, incoming, free, i)
    requires holder.Some? ==> holder.value in before && before[holder.value].core == Some(free[i])
    requires forall id :: id in before && before[id].core == Some(free[i]) ==> holder == Some(id)
    requires incoming[i] in before
    requires var mid := match holder case None => ts case Some(h) => ts[h := before[h].(core := None)];
             us == mid[incoming[i] := before[incoming[i]].(core := Some(free[i]))]
    ensures Moved(before, us, incoming, free, i + 1)
  {
    hide Distinct, Displaced;
    Extended(incoming, i);
    forall j | 0 <= j < i + 1 ensures us[incoming[j]] == before[incoming[j]].(core := Some(free[j])) {
      if j < i { DistinctAt(incoming, j, i); assert incoming[j] in incoming; }
    }
    forall id | id in before && id !in incoming[..i + 1]
      ensures us[id] == Displaced(before[id], free[..i + 1])
    {
      DisplacedMore(before[id], free, i);
    }
  }

  lemma DistinctAt(xs: seq<nat>, i: nat, j: nat)
    requires Distinct(xs) && i < j < |xs|
    ensures xs[i] != xs[j]
  {
  }

  function Least(a: nat, b: nat): nat { if a <= b then a else b }

  lemma UpdatedSame(ts: Threads, cores: seq<nat>, metric: nat -> int)
    requires Unshared(ts) && Placed(ts, cores)
    ensures var us := Updated(ts, metric);
            && Unshared(us) && Placed(us, cores) && Running(us) == Running(ts) && Runnable(us) == Runnable(ts)
                && Used(us) == Used(ts)
            && us.Keys == ts.Keys && (forall id :: id in ts ==> us[id].core == ts[id].core)
            && forall id :: id in us && us[id].core.Some? ==> us[id].metricLast == metric(id)
  {
    var us := Updated(ts, metric);
    assert Running(us) == Running(ts);
    forall c ensures c in Used(us) <==> c in Used(ts) {
      RunningMember(us, c);
      RunningMember(ts, c);
      if id :| id in ts && ts[id].core == Some(c) { assert us[id].core == Some(c); }
    }
  }

  /** The choice of threads to run: as many of the lowest-scored runnable ones as there are cores. */
  ghost predicate Selected(ts: Threads, cores: seq<nat>, sel: seq<nat>) {
    && Distinct(sel) && (forall id :: id in sel ==> id in Runnable(ts))
    && |sel| == Least(|Runnable(ts)|, |cores|)
    && forall a, b :: a in sel && b in Runnable(ts) && b !in sel ==> ts[a].score <= ts[b].score
  }

  lemma SelectedRight(ts: Threads, order: seq<nat>, cores: seq<nat>)
    requires Distinct(order) && Elements(order) == ts.Keys
    ensures var candidates := Sort(Only(order, Runnable(ts)), ScoreOf(ts));
            Selected(ts, cores, candidates[..Least(|candidates|, |cores|)])
  {
    hide Sort, Only, SortedBy;
    var ids := Only(order, Runnable(ts));
    OnlyElements(order, Runnable(ts));
    var candidates := Sort(ids, ScoreOf(ts));
    SortKeeps(ids, ScoreOf(ts));
    SortSorted(ids, ScoreOf(ts));
    forall id ensures id in Runnable(ts) <==> id in candidates { assert id in Elements(order) <==> id in order; }
    DistinctSize(candidates);
    assert Elements(candidates) == Runnable(ts);
    SortedPrefix(candidates, ScoreOf(ts), Least(|candidates|, |cores|));
  }

  lemma SortedPrefix(ids: seq<nat>, score: nat -> int, n: nat)
    requires SortedBy(ids, score) && n <= |ids|
    ensures forall a, b :: a in ids[..n] && b in ids && b !in ids[..n] ==> score(a) <= score(b)
  {
    forall a, b | a in ids[..n] && b in ids && b !in ids[..n] ensures score(a) <= score(b) {
      var i :| 0 <= i < n && ids[i] == a;
      assert ids == ids[..n] + ids[n..];
      var j :| n <= j < |ids| && ids[j] == b;
    }
  }

  ghost function Kept(ts: Threads, sel: seq<nat>): set<nat> { set id | id in Only(sel, Running(ts)) }

  /** The assertion before the moves: there are at least as many free cores as threads to move in. */
  lemma EnoughRoom(ts: Threads, cores: seq<nat>, sel: seq<nat>)
    requires Unshared(ts) && Placed(ts, cores) && Distinct(cores) && Selected(ts, cores, sel)
    ensures var used, incoming := CoresOf(ts, set id | id in Only(sel, Running(ts))), Without(sel, Running(ts));
            && |used| + |incoming| == |sel| && |Without(cores, used)| == |cores| - |used|
                && |incoming| <= |Without(cores, used)|
            && Distinct(Without(cores, used)) && Incoming(ts, incoming)
  {
    hide Only, Without, CoresOf, Distinct;
    var kept := Only(sel, Running(ts));
    OnlyElements(sel, Running(ts));
    WithoutElements(sel, Running(ts));
    DistinctSize(kept);
    assert Elements(kept) == (set id | id in kept) == Kept(ts, sel);
    CoresSize(ts, Kept(ts, sel));
    var used := CoresOf(ts, Kept(ts, sel));
    CoresKnown(ts, cores, Kept(ts, sel));
    WithoutSize(cores, used);
    WithoutElements(cores, used);
  }

  ghost function CoresKept(ts: Threads, sel: seq<nat>): set<nat> { CoresOf(ts, set id | id in Only(sel, Running(ts))) }

  /** The moves of one period. */
  ghost predicate Exchanged(base: Threads, ts: Threads, cores: seq<nat>, sel: seq<nat>) {
    var free, incoming := Without(cores, CoresKept(base, sel)), Without(sel, Running(base));
    |incoming| <= |free| && Moved(base, ts, incoming, free, |incoming|)
  }

  /** The threads moved in take the lowest free cores, the lowest score the lowest of them. */
  ghost predicate InOrder(base: Threads, ts: Threads, sel: seq<nat>) {
    forall a, b :: a in sel && b in sel && a in base && b in base && a in ts && b in ts
                   && base[a].core == None && base[b].core == None && base[a].score < base[b].score ==>
      ts[a].core.Some? && ts[b].core.Some? && ts[a].core.value < ts[b].core.value
  }

  lemma NewInOrder(before: Threads, base: Threads, ts: Threads, sel: seq<nat>)
    requires InOrder(base, ts, sel) && Running(ts) == Elements(sel) && base.Keys == before.Keys == ts.Keys
    requires forall id :: id in base ==> base[id].core == before[id].core
    requires forall id :: id in ts ==> ts[id].(core := None) == base[id].(core := None)
    ensures forall a, b :: a in Running(ts) - Running(before) && b in Running(ts) - Running(before) ==>
              ts[a].score < ts[b].score ==> ts[a].core.value < ts[b].core.value
  {
    forall a, b | a in Running(ts) - Running(before) && b in Running(ts) - Running(before) && ts[a].score < ts[b].score
      ensures ts[a].core.value < ts[b].core.value
    {
      assert a in Elements(sel) && b in Elements(sel);
      assert base[a].score == base[a].(core := None).score && base[b].score == base[b].(core := None).score;
    }
  }

  lemma MovedInOrder(base: Threads, ts: Threads, cores: seq<nat>, sel: seq<nat>)
    requires Exchanged(base, ts, cores, sel) && SortedBy(sel, ScoreOf(base)) && Rising(cores)
    ensures InOrder(base, ts, sel)
  {
    hide Without, CoresOf, Moved, SortedBy, Rising, Running;
    var free, incoming := Without(cores, CoresKept(base, sel)), Without(sel, Running(base));
    WithoutRising(cores, CoresKept(base, sel));
    WithoutSorted(sel, Running(base), ScoreOf(base));
    WithoutElements(sel, Running(base));
    RunningHeld(base);
    forall a, b | a in sel && b in sel && a in base && b in base && a in ts && b in ts
                  && base[a].core == None && base[b].core == None && base[a].score < base[b].score
      ensures ts[a].core.Some? && ts[b].core.Some? && ts[a].core.value < ts[b].core.value
    {
      var i: nat :| i < |incoming| && incoming[i] == a;
      var j: nat :| j < |incoming| && incoming[j] == b;
      PairInOrder(base, ts, incoming, free, i, j);
    }
  }

  lemma PairInOrder(base: Threads, ts: Threads, incoming: seq<nat>, free: seq<nat>, i: nat, j: nat)
    requires |incoming| <= |free| && Moved(base, ts, incoming, free, |incoming|) && Rising(free)
    requires SortedBy(incoming, ScoreOf(base)) && i < |incoming| && j < |incoming|
    requires incoming[i] in base && incoming[j] in base && base[incoming[i]].score < base[incoming[j]].score
    ensures ts[incoming[i]].core == Some(free[i]) && ts[incoming[j]].core == Some(free[j]) && free[i] < free[j]
  {
    hide Displaced;
    assert i < j;
  }

  /** Where each thread is after the moves of one period. */
  lemma CoreAfter(base: Threads, ts: Threads, cores: seq<nat>, sel: seq<nat>, id: nat)
    requires Unshared(base) && Placed(base, cores) && Distinct(cores) && Selected(base, cores, sel)
        && Exchanged(base, ts, cores, sel)
    requires id in base
    ensures ts.Keys == base.Keys && ts[id].(core := None) == base[id].(core := None)
    ensures id !in sel ==> ts[id].core == None
    ensures id in sel && id in Running(base) ==>
              ts[id].core == base[id].core && CoreOf(base, id) in CoresKept(base, sel)
    ensures id in sel && id !in Running(base) ==>
              var free, incoming := Without(cores, CoresKept(base, sel)), Without(sel, Running(base));
              exists j :: 0 <= j < |incoming| <= |free| && incoming[j] == id && ts[id].core == Some(free[j])
  {
    hide Only, Without, Unshared, Placed, Distinct, Selected;
    var used := CoresKept(base, sel);
    var free, incoming := Without(cores, used), Without(sel, Running(base));
    assert incoming[..|incoming|] == incoming;
    WithoutElements(cores, used);
    WithoutElements(sel, Running(base));
    OnlyElements(sel, Running(base));
    EnoughRoom(base, cores, sel);
    if id in sel {
      if id in Running(base) {
        assert CoreOf(base, id) in used;
      } else {
        assert id in incoming;
      }
    } else if id in Running(base) {
      NotSelectedFree(base, cores, sel, id);
      assert free[..|incoming|] == free;
    }
  }

  /** A running thread that is not selected is on a core that is not kept, and all of those are taken. */
  lemma NotSelectedFree(base: Threads, cores: seq<nat>, sel: seq<nat>, id: nat)
    requires Unshared(base) && Placed(base, cores) && Distinct(cores) && Selected(base, cores, sel)
    requires id in base && id in Running(base) && id !in sel
    ensures CoreOf(base, id) in Without(cores, CoresKept(base, sel))
    ensures |Without(cores, CoresKept(base, sel))| == |Without(sel, Running(base))|
  {
    hide Only, Without, Distinct;
    var used := CoresKept(base, sel);
    WithoutElements(cores, used);
    OnlyElements(sel, Running(base));
    EnoughRoom(base, cores, sel);
    assert Distinct(sel);
    DistinctSize(sel);
    assert id in Runnable(base);
    SubsetSize(Elements(sel) + {id}, Runnable(base));
    assert |sel| == |cores|;
    assert CoreOf(base, id) !in used;
  }

  lemma AfterPeriodic(base: Threads, ts: Threads, cores: seq<nat>, sel: seq<nat>)
    requires Unshared(base) && Placed(base, cores) && Distinct(cores) && Selected(base, cores, sel)
        && Exchanged(base, ts, cores, sel)
    ensures Running(ts) == Elements(sel) && Runnable(ts) == Runnable(base) && ts.Keys == base.Keys
        && Running(base) <= base.Keys
    ensures |Running(ts)| == Least(|Runnable(ts)|, |cores|) && Running(ts) <= Runnable(ts)
    ensures forall id :: id in ts ==> ts[id].(core := None) == base[id].(core := None)
    ensures forall a, b :: a in Running(ts) && b in Runnable(ts) - Running(ts) ==> ts[a].score <= ts[b].score
    ensures forall id :: id in Running(base) && id in Running(ts) ==> ts[id].core == base[id].core
    ensures Unshared(ts) && Placed(ts, cores)
  {
    hide Without, Only, Distinct, Exchanged, CoresOf, Unshared, Placed;
    KeysAfter(base, ts, cores, sel);
    forall id | id in base
      ensures (id in Running(ts) <==> id in sel) && ts[id].(core := None) == base[id].(core := None)
      ensures id in Running(base) && id in sel ==> ts[id].core == base[id].core
    {
      CoreAfter(base, ts, cores, sel, id);
    }
    assert Running(ts) == Elements(sel);
    DistinctSize(sel);
    PeriodicUnshared(base, ts, cores, sel);
  }

  lemma KeysAfter(base: Threads, ts: Threads, cores: seq<nat>, sel: seq<nat>)
    requires Exchanged(base, ts, cores, sel)
    ensures ts.Keys == base.Keys
  {
  }

  /** Where a thread runs after a period: on its old, kept core or on a free one. */
  ghost predicate RunsOn(base: Threads, cores: seq<nat>, sel: seq<nat>, id: nat, c: nat) {
    && id in base
    && if id in Running(base) then base[id].core == Some(c) && c in CoresKept(base, sel)
       else var free, incoming := Without(cores, CoresKept(base, sel)), Without(sel, Running(base));
            exists j :: 0 <= j < |incoming| <= |free| && incoming[j] == id && c == free[j]
  }

  lemma RunsAfter(base: Threads, ts: Threads, cores: seq<nat>, sel: seq<nat>, id: nat)
    requires Unshared(base) && Placed(base, cores) && Distinct(cores) && Selected(base, cores, sel)
        && Exchanged(base, ts, cores, sel)
    requires id in ts && ts[id].core.Some?
    ensures RunsOn(base, cores, sel, id, ts[id].core.value) && id in sel
  {
    hide Without, Only, Distinct, CoresOf, Unshared, Placed, Selected;
    KeysAfter(base, ts, cores, sel);
    CoreAfter(base, ts, cores, sel, id);
  }

  lemma RunsApart(base: Threads, cores: seq<nat>, sel: seq<nat>, a: nat, b: nat, c: nat)
    requires Unshared(base) && Distinct(cores) && RunsOn(base, cores, sel, a, c) && RunsOn(base, cores, sel, b, c)
    ensures a == b
  {
    hide Only, CoresOf;
    var used := CoresKept(base, sel);
    var free := Without(cores, used);
    WithoutElements(cores, used);
  }

  lemma RunsPlaced(base: Threads, cores: seq<nat>, sel: seq<nat>, id: nat, c: nat)
    requires Placed(base, cores) && RunsOn(base, cores, sel, id, c)
    ensures c in cores
  {
    hide Only, CoresOf;
    WithoutElements(cores, CoresKept(base, sel));
  }

  lemma PeriodicUnshared(base: Threads, ts: Threads, cores: seq<nat>, sel: seq<nat>)
    requires Unshared(base) && Placed(base, cores) && Distinct(cores) && Selected(base, cores, sel)
        && Exchanged(base, ts, cores, sel)
    ensures Unshared(ts) && Placed(ts, cores)
  {
    hide Distinct, Exchanged, RunsOn, Running;
    KeysAfter(base, ts, cores, sel);
    forall a, b | a in ts && b in ts && a != b && ts[a].core.Some? ensures ts[a].core != ts[b].core {
      RunsAfter(base, ts, cores, sel, a);
      if ts[b].core.Some? {
        RunsAfter(base, ts, cores, sel, b);
        if ts[a].core == ts[b].core { RunsApart(base, cores, sel, a, b, ts[a].core.value); }
      }
    }
    forall id | id in ts && ts[id].core.Some? ensures ts[id].runnable && ts[id].core.value in cores {
      RunsAfter(base, ts, cores, sel, id);
      RunsPlaced(base, cores, sel, id, ts[id].core.value);
      CoreAfter(base, ts, cores, sel, id);
      assert id in Runnable(base);
    }
  }

  /** During the initial assignment the moves stay within the cores already given out. */
  lemma PeriodicReserved(base: Threads, ts: Threads, cores: seq<nat>, order: seq<nat>, n: nat, sel: seq<nat>)
    requires Unshared(base) && Placed(base, cores) && Distinct(cores) && Selected(base, cores, sel)
        && Exchanged(base, ts, cores, sel)
    requires Distinct(order) && Elements(order) == base.Keys && |order| == n < |cores|
        && Used(base) <= Elements(cores[..n])
    ensures Used(ts) <= Elements(cores[..n])
  {
    hide Unshared, Placed, Distinct, Exchanged, Selected, Only, Without, CoresOf, Used;
    var used := CoresKept(base, sel);
    SelectionSize(base, cores, order, sel);
    EnoughRoom(base, cores, sel);
    forall c | c in Used(ts) ensures c in Elements(cores[..n]) {
      RunningMember(ts, c);
      var id :| id in ts && ts[id].core == Some(c);
      RunsAfter(base, ts, cores, sel, id);
      if id in Running(base) {
        RunningMember(base, c);
      } else {
        var j :| 0 <= j < |Without(sel, Running(base))| <= |Without(cores, used)| && c == Without(cores, used)[j];
        EarlyFree(cores, n, used, j);
      }
    }
  }

  lemma NextCore(cores: seq<nat>, n: nat)
    requires Distinct(cores) && n < |cores|
    ensures Elements(cores[..n + 1]) == Elements(cores[..n]) + {cores[n]} && cores[n] !in Elements(cores[..n])
  {
    assert cores[..n + 1] == cores[..n] + [cores[n]];
  }

  /** What a started thread changes: the core it gets, and the cores in use. */
  lemma StartSafe(ts: Threads, cores: seq<nat>, order: seq<nat>, id: nat, t: Thread)
    requires Unshared(ts) && Placed(ts, cores) && id !in ts && Distinct(order) && Elements(order) == ts.Keys
    requires t.runnable && (t.core.Some? ==> t.core.value in cores)
    ensures Placed(ts[id := t], cores) && (Unshared(ts[id := t]) <==> t.core == None || t.core.value !in Used(ts))
    ensures Used(ts[id := t]) <= Used(ts) + (if t.core.Some? then {t.core.value} else {})
    ensures Distinct(order + [id]) && Elements(order + [id]) == ts.Keys + {id}
  {
    AssignSafe(ts, cores, id, t);
    UsedAfter(ts, id, t);
  }

  lemma SelectionSize(base: Threads, cores: seq<nat>, order: seq<nat>, sel: seq<nat>)
    requires Selected(base, cores, sel) && Distinct(order) && Elements(order) == base.Keys
    ensures |sel| <= |order|
  {
    DistinctSize(order);
    SubsetSize(Runnable(base), base.Keys);
  }

  lemma CoresKnown(ts: Threads, cores: seq<nat>, ids: set<nat>)
    requires Placed(ts, cores) && ids <= Running(ts)
    ensures CoresOf(ts, ids) <= Elements(cores)
  {
  }

  /** A thread takes over the core of a stalled one. Where that had none, its score is brought up to date. */
  predicate HandedOver(before: Thread, after: Thread, core: Option<nat>, metric: int) {
    && after.core == core && after.runnable == before.runnable && after.unscheduled == before.unscheduled
    && if core.Some? then after.score == before.score && after.metricLast == before.metricLast
       else Credited(before, after, metric)
  }

  class Scheduler {
    const cores: seq<nat>
    var threads: Threads
    var order: seq<nat>
    var lastCore: nat
    ghost var marks: map<nat, Mark>

    /** The cores differ, `order` lists the threads, in the order in which they are looked at, and every score is
        accounted for. */
    ghost predicate WellFormed()
      reads this
    {
      Distinct(cores) && Distinct(order) && Elements(order) == threads.Keys && Accounted(threads, marks)
    }

    /** Safety: no core is shared and only runnable threads hold one. */
    ghost predicate Safe()
      reads this
    {
      Unshared(threads) && Placed(threads, cores)
    }

    /** While the initial assignment goes on, later cores are untouched and no thread was left out. */
    ghost predicate Reserved()
      reads this
    {
      lastCore < |cores| ==> |order| == lastCore && Used(threads) <= Elements(cores[..lastCore])
    }

    ghost predicate Valid()
      reads this
    {
      WellFormed() && Safe() && Reserved()
    }

    constructor (cs: seq<nat>)
      requires Distinct(cs)
      ensures Valid() && cores == cs && threads == map[] && lastCore == 0
    {
      cores := cs;
      marks := map[];
      threads := map[];
      order := [];
      lastCore := 0;
    }

    /** A new thread takes the next core of the initial assignment, if there is one. No core becomes shared
        exactly when that core is not in use. */
    method ThreadStart(id: nat, metric: nat -> int)
      requires WellFormed() && Safe() && id !in threads
      modifies this
      ensures WellFormed()
      ensures threads.Keys == old(threads.Keys) + {id}
      ensures forall x :: x in old(threads) ==> threads[x] == old(threads[x])
      ensures threads[id].runnable && !threads[id].unscheduled
      ensures lastCore == Least(old(lastCore) + 1, |cores|) || lastCore == old(lastCore) >= |cores|
      ensures threads[id].core == if old(lastCore) < |cores| then Some(cores[old(lastCore)]) else None
      ensures threads[id].score == threads[id].metricLast == if threads[id].core == None then metric(id) else 0
      ensures marks == old(marks)[id := Mark(0, 0)]
      ensures Safe() <==> old(lastCore) >= |cores| || cores[old(lastCore)] !in old(Used(threads))
      ensures old(Reserved()) ==> Valid()
    {
      hide Unshared, Placed, Distinct, Elements, Used, Accounted;
      var t := Thread(None, true, false, 0, 0);
      if lastCore < |cores| {
        t := SetCore(t, Some(cores[lastCore]), metric(id));
        NextCore(cores, lastCore);
        lastCore := lastCore + 1;
      } else {
        t := SetCore(t, None, metric(id));
      }
      StartSafe(threads, cores, order, id, t);
      AccountedAnew(threads, marks, id, t, Mark(0, 0));
      threads := threads[id := t];
      order := order + [id];
      marks := marks[id := Mark(0, 0)];
    }

    /** A thread stalls: being scheduled out by this scheduler is only noted; otherwise the thread gives up
        its core, which goes to the waiting thread with the lowest score. */
    method ThreadStall(id: nat, scheduledOut: bool, metric: nat -> int) returns (ghost chosen: Option<nat>)
      requires WellFormed() && Safe() && id in threads
      modifies this`threads
      ensures WellFormed() && Safe() && (old(Reserved()) ==> Valid())
      ensures threads.Keys == old(threads.Keys)
      ensures scheduledOut ==> chosen == None && threads == old(threads)[id := old(threads[id]).(unscheduled := true)]
      ensures !scheduledOut ==>
                && Credited(old(threads[id]), threads[id], metric(id))
                && threads[id].core == None && !threads[id].runnable
                && threads[id].unscheduled == old(threads[id].unscheduled)
      ensures !scheduledOut ==> (chosen == None <==> Waiting(old(threads)) <= {id})
      ensures chosen.Some? ==>
                && chosen.value in Waiting(old(threads)) - {id}
                && HandedOver(old(threads[chosen.value]), threads[chosen.value], old(threads[id].core),
                              metric(chosen.value))
                && forall x :: x in Waiting(old(threads)) - {id}
                     ==> old(threads[chosen.value].score) <= old(threads[x].score)
      ensures forall x :: x in threads && x != id && Some(x) != chosen ==> threads[x] == old(threads[x])
    {
      hide Used, Unshared, Placed, Sort, Only, Waiting, Elements, Distinct, Accounted;
      chosen := None;
      ghost var before := threads;
      if scheduledOut {
        threads := threads[id := threads[id].(unscheduled := true)];
        AccountedStill(before, marks, id, threads[id]);
        ReleaseSafe(before, cores, id, threads[id]);
      } else {
        var core := threads[id].core;
        threads := threads[id := SetCore(threads[id], None, metric(id)).(runnable := false)];
        AccountedStill(before, marks, id, threads[id]);
        ReleaseSafe(before, cores, id, threads[id]);
        ghost var released := threads;
        var waiting := Only(order, Waiting(threads));
        FirstWaiting(threads, order);
        WaitingAfter(before, id, threads[id]);
        if waiting != [] {
          var first := Sort(waiting, ScoreOf(threads))[0];
          threads := threads[first := SetCore(threads[first], core, metric(first))];
          AccountedStill(released, marks, first, threads[first]);
          chosen := Some(first);
          HandOverSafe(before, cores, id, released[id], first, threads[first]);
        }
      }
    }

    /** A thread resumes: being scheduled in again is only noted; otherwise it becomes runnable with the
        lowest score of all and moves to the lowest free core, if there is one. Safety holds in any case; a
        core of the initial assignment is used out of turn exactly when none of the earlier ones was free. */
    method ThreadResume(id: nat, metric: nat -> int)
      requires WellFormed() && Safe() && id in threads
      modifies this`threads, this`marks
      ensures WellFormed() && Safe()
      ensures forall x :: x in old(threads) && x != id ==> x in threads && threads[x] == old(threads[x])
      ensures threads.Keys == old(threads.Keys)
      ensures old(threads[id].unscheduled) ==> threads[id] == old(threads[id]).(unscheduled := false)
      ensures marks == if old(threads[id].unscheduled) then old(marks)
                       else old(marks)[id := Mark(threads[id].score, metric(id))]
      ensures !old(threads[id].unscheduled) ==>
                && threads[id].runnable && !threads[id].unscheduled && threads[id].metricLast == metric(id)
                && (forall x :: x in old(threads) ==> threads[id].score <= old(threads[x].score))
                && (exists x :: x in old(threads) && threads[id].score == old(threads[x].score))
                && var free := Without(cores, Used(old(threads)));
                   threads[id].core == if free != [] then Some(free[0]) else old(threads[id].core)
      ensures old(Reserved()) ==>
                (Reserved() <==> old(threads[id].unscheduled) || lastCore >= |cores|
                                 || Without(cores[..lastCore], Used(old(threads))) != [])
      ensures old(Reserved()) && old(threads[id].core) == None ==> Valid()
    {
      hide Used, Unshared, Placed, Without, Distinct, Elements, Accounted;
      ghost var before, reserved := threads, Reserved();
      if threads[id].unscheduled {
        threads := threads[id := threads[id].(unscheduled := false)];
        AccountedStill(before, marks, id, threads[id]);
        ReleaseSafe(before, cores, id, threads[id]);
      } else {
        OrderMembers(threads, order, id);
        var t := SetScore(threads[id], MinScore(order, ScoreOf(threads)), metric(id)).(runnable := true);
        var free := Without(cores, Used(threads));
        if free != [] { t := SetCore(t, Some(free[0]), metric(id)); }
        ResumeSafe(before, cores, id, t);
        if reserved && lastCore < |cores| {
          ResumeReserved(before, cores, lastCore, id, t);
          if before[id].core == None { RoomInPrefix(before, cores, order, lastCore, id); }
        }
        AccountedAnew(before, marks, id, t, Mark(t.score, metric(id)));
        threads := threads[id := t];
        marks := marks[id := Mark(t.score, metric(id))];
      }
    }

    /** Moves the incoming threads to free cores one by one, taking each core from whoever holds it. */
    method MoveIn(incoming: seq<nat>, free: seq<nat>, metric: nat -> int)
      requires WellFormed() && Unshared(threads) && Distinct(free) && Incoming(threads, incoming)
          && |incoming| <= |free|
      requires forall id :: id in threads && threads[id].core.Some? ==> threads[id].metricLast == metric(id)
      modifies this`threads
      ensures Moved(old(threads), threads, incoming, free, |incoming|)
    {
      hide Unshared, Only, Elements, On, Incoming, Moved, Distinct;
      ghost var before := threads;
      MovedNone(before, incoming, free);
      for i := 0 to |incoming|
        invariant Moved(before, threads, incoming, free, i)
      {
        MovedKeys(before, threads, incoming, free, i);
        var current := Only(order, On(threads, free[i]));
        CurrentHolder(before, threads, order, incoming, free, i);
        ghost var during := threads;
        if current != [] {
          threads := threads[current[0] := SetCore(threads[current[0]], None, metric(current[0]))];
        }
        threads := threads[incoming[i] := SetCore(threads[incoming[i]], Some(free[i]), metric(incoming[i]))];
        MovedStep(before, during, incoming, free, i, if current == [] then None else Some(current[0]), threads);
      }
    }

    /** Every period: afterwards exactly the lowest-scored runnable threads run, as many as there are cores;
        those of them that ran before stay where they were; and the assertion on free cores holds. */
    method Periodic(metric: nat -> int)
      requires WellFormed() && Safe()
      modifies this`threads
      ensures WellFormed() && Safe() && (old(Reserved()) ==> Valid())
      ensures threads.Keys == old(threads.Keys)
      ensures forall id :: id in threads ==>
                && threads[id].runnable == old(threads[id].runnable)
                && threads[id].unscheduled == old(threads[id].unscheduled)
                && if old(threads[id].core).Some? then Credited(old(threads[id]), threads[id], metric(id))
                   else threads[id].score == old(threads[id].score)
                        && threads[id].metricLast == old(threads[id].metricLast)
      ensures forall id :: id in old(Running(threads)) ==>
                threads[id].score == marks[id].score + (metric(id) - marks[id].metric)
      ensures Rising(cores) ==>
                forall a, b :: a in Running(threads) - old(Running(threads))
                               && b in Running(threads) - old(Running(threads)) ==>
                  threads[a].score < threads[b].score ==> threads[a].core.value < threads[b].core.value
      ensures |Running(threads)| == Least(|Runnable(threads)|, |cores|) && Running(threads) <= Runnable(threads)
      ensures forall a, b :: a in Running(threads) && b in Runnable(threads) - Running(threads)
                ==> threads[a].score <= threads[b].score
      ensures forall id :: id in old(Running(threads)) && id in Running(threads)
                ==> threads[id].core == old(threads[id].core)
    {
      hide Unshared, Placed, Elements, Distinct, Exchanged, Selected, Running, Runnable, Used, Accounted, SortedBy,
          InOrder, Rising;
      ghost var before, reserved := threads, Reserved();
      RunningHeld(before);
      UpdatedSame(threads, cores, metric);
      threads := Updated(threads, metric);
      ghost var base := threads;
      AccountedThroughout(before, base, marks);
      ghost var selected := Exchange(metric);
      AfterPeriodic(base, threads, cores, selected);
      AccountedThroughout(before, threads, marks);
      MarkedScores(threads, marks);
      if Rising(cores) {
        MovedInOrder(base, threads, cores, selected);
        NewInOrder(before, base, threads, selected);
      }
      if reserved && lastCore < |cores| { PeriodicReserved(base, threads, cores, order, lastCore, selected); }
    }

    /** Selects the threads to run and moves those in that do not run yet. The assertion on free cores holds. */
    method Exchange(metric: nat -> int) returns (ghost selected: seq<nat>)
      requires WellFormed() && Safe()
      requires forall id :: id in threads && threads[id].core.Some? ==> threads[id].metricLast == metric(id)
      modifies this`threads
      ensures Selected(old(threads), cores, selected) && SortedBy(selected, ScoreOf(old(threads)))
      ensures Exchanged(old(threads), threads, cores, selected)
    {
      hide Unshared, Placed, Only, Without, Sort, Elements, Distinct, Moved, Incoming, Selected, Running, Runnable,
          Used, CoresOf, Accounted;
      var candidates := Sort(Only(order, Runnable(threads)), ScoreOf(threads));
      var chosen := candidates[..Least(|candidates|, |cores|)];
      SelectedRight(threads, order, cores);
      SortSorted(Only(order, Runnable(threads)), ScoreOf(threads));
      var keep := Only(chosen, Running(threads));
      var used := CoresOf(threads, set id | id in keep);
      var free := Without(cores, used);
      var incoming := Without(chosen, Running(threads));
      EnoughRoom(threads, cores, chosen);
      assert |free| >= |incoming|;
      MoveIn(incoming, free, metric);
      selected := chosen;
    }
  }

  // ----- where safety is lost

  lemma SecondFree(ts: Threads)
    requires ts.Keys == {7} && ts[7].core == Some(0)
    ensures Without([0, 1], Used(ts)) == [1]
  {
    assert Running(ts) == {7};
    assert Used(ts) == {0};
    assert [0, 1][1..] == [1] && [1][1..] == [];
    assert Without([1], {0}) == [1] + Without([], {0});
    assert Without([0, 1], {0}) == [] + Without([1], {0});
  }

  /** Resuming a thread that was not stalled moves it to a core of the initial assignment that is not its
      turn yet, and the next thread to start shares that core. */
  method ResumedWhileRunning(metric: nat -> int) returns (s: Scheduler)
    ensures s.cores == [0, 1] && s.threads.Keys == {7, 8} && s.threads[7].core == s.threads[8].core == Some(1)
        && !s.Safe()
  {
    s := new Scheduler([0, 1]);
    s.ThreadStart(7, metric);
    SecondFree(s.threads);
    s.ThreadResume(7, metric);
    s.ThreadStart(8, metric);
  }
}
