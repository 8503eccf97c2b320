/** What every scheduler step keeps, and what a context switch decides. */
module SchedulerSteps {
  import opened Wrappers
  import opened Rings
  import opened Scheduler

  // ---- Rings and membership ----------------------------------------------

  /** A process is listed in one ring, the one its priority names. */
  lemma ListedByPriority(s: State, p: Pid)
    requires Shaped(s)
    ensures s.Listed(p) <==> p in s.procs && s.procs[p].priority < 4 && p in s.rings[s.procs[p].priority]
    ensures forall i | 0 <= i < 4 && p in s.rings[i] :: p in s.procs && s.procs[p].priority == i
  {
  }

  lemma UnlistKeeps(s: State, p: Pid)
    requires Shaped(s) && s.Listed(p) && p != s.IdlePid()
    ensures var r := Unlist(s, p);
            && Shaped(r) && r.IdlePid() == s.IdlePid()
            && (forall q :: r.Listed(q) <==> s.Listed(q) && q != p)
  {
    var i := s.procs[p].priority;
    var r := Unlist(s, p);
    ListedByPriority(s, p);
    RemoveDeletes(s.rings[i], p);
    assert forall j | 0 <= j < 4 && j != i :: r.rings[j] == s.rings[j];
    if i == 0 {
      assert r.rings[0][0] == s.rings[0][0];
    }
    forall q ensures r.Listed(q) <==> s.Listed(q) && q != p {
      ListedByPriority(s, q);
      if s.Listed(q) && q != p {
        assert q in r.rings[s.procs[q].priority];
      }
    }
  }

  /** The removal queue leaves the rings, nothing else does. */
  lemma {:induction false} KillAllRemoves(s: State)
    requires Shaped(s) && Distinct(s.removal)
    requires forall p | p in s.removal :: s.Listed(p) && p != s.IdlePid()
    ensures var r := KillAll(s);
            && Shaped(r) && r.IdlePid() == s.IdlePid() && r == s.(rings := r.rings, removal := [])
            && (forall p :: r.Listed(p) <==> s.Listed(p) && p !in s.removal)
    decreases |s.removal|
  {
    if s.removal != [] {
      var p := s.removal[0];
      var t := Unlist(s, p).(removal := s.removal[1..]);
      UnlistKeeps(s, p);
      assert forall q :: q in s.removal <==> q == p || q in t.removal;
      assert forall q :: t.Listed(q) <==> Unlist(s, p).Listed(q);
      KillAllRemoves(t);
    }
  }

  lemma AddKeeps(s: State, p: Pid)
    requires Shaped(s) && p !in s.procs
    ensures var r := Add(s, p);
            && Shaped(r) && r.IdlePid() == s.IdlePid()
            && (forall q :: r.Listed(q) <==> s.Listed(q) || q == p)
  {
    var r := Add(s, p);
    assert forall j | 0 <= j < 4 && j != HIGH :: r.rings[j] == s.rings[j];
    forall q ensures r.Listed(q) <==> s.Listed(q) || q == p {
      if s.Listed(q) || q == p {
        var i := if q == p then HIGH else s.procs[q].priority;
        assert q in r.rings[i];
      }
    }
  }

  /** The creation queue joins the highest ring, in order. */
  lemma {:induction false} CreateAllAdds(s: State)
    requires Shaped(s) && Distinct(s.creation) && forall p | p in s.creation :: p !in s.procs
    ensures var r := CreateAll(s);
            && Shaped(r) && r.IdlePid() == s.IdlePid()
            && r == s.(rings := r.rings, procs := r.procs, creation := [])
            && r.rings[HIGH] == s.rings[HIGH] + s.creation
            && (forall i | 0 <= i < HIGH :: r.rings[i] == s.rings[i])
            && (forall p :: p in r.procs <==> p in s.procs || p in s.creation)
            && (forall p | p in s.procs :: r.procs[p] == s.procs[p])
            && (forall p | p in s.creation :: r.procs[p] == Proc(Ready, 0, HIGH))
            && (forall p :: r.Listed(p) <==> s.Listed(p) || p in s.creation)
    decreases |s.creation|
  {
    hide Add, Shaped, Distinct;
    if s.creation != [] {
      OneIsAdded(s);
      CreateAllAdds(Add(s, s.creation[0]).(creation := s.creation[1..]));
    }
  }

  /** One turn of `create_processes_in_creation_queue`. */
  lemma OneIsAdded(s: State)
    requires Shaped(s) && Distinct(s.creation) && s.creation != [] && forall p | p in s.creation :: p !in s.procs
    ensures var p := s.creation[0];
            var t := Add(s, p).(creation := s.creation[1..]);
            && Shaped(t) && t.IdlePid() == s.IdlePid() && Distinct(t.creation)
            && t == s.(rings := t.rings, procs := t.procs, creation := t.creation)
            && t.rings[HIGH] + t.creation == s.rings[HIGH] + s.creation
            && (forall i | 0 <= i < HIGH :: t.rings[i] == s.rings[i])
            && t.procs == s.procs[p := Proc(Ready, 0, HIGH)]
            && (forall q :: q in s.creation <==> q == p || q in t.creation)
            && (forall q | q in t.creation :: q !in t.procs)
            && (forall q :: t.Listed(q) <==> s.Listed(q) || q == p)
  {
    var p := s.creation[0];
    var t := Add(s, p).(creation := s.creation[1..]);
    AddKeeps(s, p);
    assert forall q :: t.Listed(q) <==> Add(s, p).Listed(q);
    assert s.creation == [p] + t.creation;
  }

  /** A change of priority moves one process and keeps the set of listed ones. */
  lemma ChangePriorityMoves(s: State, p: Pid, priority: nat)
    requires Shaped(s) && priority < 4 && (s.Listed(p) ==> p != s.IdlePid())
    ensures var r := ChangePriority(s, p, priority);
            && Shaped(r) && r.IdlePid() == s.IdlePid()
            && (forall q :: r.Listed(q) <==> s.Listed(q))
            && (s.Listed(p) ==> r.procs[p] == s.procs[p].(priority := priority))
            && r.procs.Keys == s.procs.Keys && (forall q | q in s.procs && q != p :: r.procs[q] == s.procs[q])
  {
    if s.Listed(p) {
      ListedByPriority(s, p);
      var from := s.procs[p].priority;
      var r := ChangePriority(s, p, priority);
      RemoveDeletes(s.rings[from], p);
      var out := s.rings[from := Remove(s.rings[from], p)];
      assert forall j | 0 <= j < 4 && j != from :: out[j] == s.rings[j];
      assert forall j | 0 <= j < 4 && j != priority :: r.rings[j] == out[j];
      assert p !in out[priority];
      if from == 0 {
        assert out[0][0] == s.rings[0][0];
      }
      forall q ensures r.Listed(q) <==> s.Listed(q) {
        ListedByPriority(s, q);
        if s.Listed(q) {
          assert q in r.rings[if q == p then priority else s.procs[q].priority];
        }
      }
    }
  }

  // ---- The choice of the next process ------------------------------------

  ghost predicate NoneReadyAbove(s: State, level: nat)
  {
    forall h, q | level < h < 4 && q in s.rings[h] :: !s.Is(q, Ready)
  }

  /** Position `k` of ring `level` holds the first READY process of the highest ring that has one. */
  ghost predicate IsFirstReady(s: State, level: nat, k: nat)
  {
    && LOW <= level <= HIGH && k < |s.rings[level]|
    && s.Is(s.rings[level][k], Ready)
    && (forall j | 0 <= j < k :: !s.Is(s.rings[level][j], Ready))
    && NoneReadyAbove(s, level)
  }

  /** A RUNNING process in a ring above `level`. */
  ghost predicate RunsAbove(s: State, level: nat, p: Pid)
  {
    s.Is(p, Running) && exists h | level < h < 4 :: p in s.rings[h]
  }

  lemma {:induction false} KeepFindsRunning(s: State, q: seq<Pid>, keep: Option<Pid>)
    ensures var r := Keep(s, q, keep);
            && (r.Some? ==> r == keep || (r.value in q && s.Is(r.value, Running)))
            && (r.None? ==> keep.None? && forall p | p in q :: !s.Is(p, Running))
  {
    if q != [] {
      KeepFindsRunning(s, q[1..], if s.Is(q[0], Running) then Some(q[0]) else keep);
      assert forall p :: p in q <==> p == q[0] || p in q[1..];
    }
  }

  /**
    `find_next_process` takes the first READY process of the highest ring that has one
    and moves that ring past it; failing that it keeps a RUNNING process, failing that idle.
    Level 0 stands for "no READY process".
   */
  lemma {:induction false} FindNextDecides(s: State, i: nat, keep: Option<Pid>) returns (level: nat, k: nat)
    requires i < 4 && NoneReadyAbove(s, i)
    requires keep.Some? ==> RunsAbove(s, i, keep.value)
    requires keep.None? ==> forall p :: !RunsAbove(s, i, p)
    ensures var (t, p) := FindNext(s, i, keep);
            if level > 0 then
              && IsFirstReady(s, level, k) && p == s.rings[level][k]
              && t == s.SetStatus(p, Running).(rings := s.rings[level := Rotate(s.rings[level], k + 1)])
            else
              && t == s && NoneReadyAbove(s, 0)
              && (RunsAbove(s, 0, p) || (p == s.IdlePid() && forall q :: !RunsAbove(s, 0, q)))
    decreases i
  {
    if i < LOW {
      level, k := 0, 0;
    } else {
      k := FirstReady(s, s.rings[i]);
      if k < |s.rings[i]| {
        level := i;
      } else {
        KeepFindsRunning(s, s.rings[i], keep);
        forall h, q | i - 1 < h < 4 && q in s.rings[h] ensures !s.Is(q, Ready) {
          if h == i {
            var j :| 0 <= j < |s.rings[i]| && s.rings[i][j] == q;
          }
        }
        forall p ensures RunsAbove(s, i - 1, p) <==> RunsAbove(s, i, p) || (s.Is(p, Running) && p in s.rings[i]) {
          if RunsAbove(s, i - 1, p) {
            var h :| i - 1 < h < 4 && p in s.rings[h];
            assert h == i || RunsAbove(s, i, p);
          }
        }
        level, k := FindNextDecides(s, i - 1, Keep(s, s.rings[i], keep));
      }
    }
  }
}
