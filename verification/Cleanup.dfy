/** The cleanup of expired requests: one critical section that visits every entry in key order and
    erases those that are ready for removal, while threads finish and time passes between visits. */
module Cleanup {
  import opened Values
  import opened RequestTable
  import opened TableInvariant

  /** The visits of one cleanup that found the given keys in the table. */
  ghost predicate IsSweep(keys: set<uint64>, evs: seq<Event>) {
    && (forall i | 0 <= i < |evs| :: evs[i].Visit? && evs[i].id in keys)
    && (forall i, j | 0 <= i < j < |evs| :: evs[i].id < evs[j].id)
    && (forall id | id in keys :: exists i :: 0 <= i < |evs| && evs[i].id == id)
  }

  /** Nobody needs the entry any more, judging by the given environment. */
  ghost predicate Removable(cfg: Config, env: Env, id: uint64, e: Entry) {
    id in env.done && (e.invalidated || env.clock > e.lastAccess + cfg.expirationNs)
  }

  lemma VisitExactly(cfg: Config, s: State, id: uint64, o: Obs)
    requires Inv(cfg, s) && id in s.entries && WithinLimits(StepVisit(cfg, s, id, o).0)
    ensures var s' := StepVisit(cfg, s, id, o).0;
      && s'.entries == (if Removable(cfg, s'.env, id, s.entries[id]) then s.entries - {id} else s.entries)
      && s.env.clock <= s'.env.clock && s.env.done <= s'.env.done
      && s'.lastId == s.lastId && s'.issued == s.issued && s'.delivered == s.delivered
  {
    assert LiveOk(cfg, s, id);
    RemovalMeans(cfg, s.env, id, s.entries[id], o);
  }

  predicate VisitedWithin(evs: seq<Event>, n: nat, id: uint64)
    requires n <= |evs|
  {
    exists k :: 0 <= k < n && evs[k].Visit? && evs[k].id == id
  }

  /** Visit number k was to this entry and found it removable. */
  ghost predicate RemovedBy(cfg: Config, s: State, evs: seq<Event>, k: nat, id: uint64)
    requires k < |evs| && id in s.entries
  {
    evs[k].Visit? && evs[k].id == id && Removable(cfg, At(cfg, s, evs, k + 1).env, id, s.entries[id])
  }

  /** What holds of entry id of the state s after the first n visits. */
  ghost predicate SweptUpTo(cfg: Config, s: State, evs: seq<Event>, n: nat, id: uint64)
    requires n <= |evs| && id in s.entries
  {
    var t := At(cfg, s, evs, n);
    && (id in t.entries ==> t.entries[id] == s.entries[id])
    && (id !in t.entries ==> exists k :: 0 <= k < n && RemovedBy(cfg, s, evs, k, id))
    && (Removable(cfg, s.env, id, s.entries[id]) && VisitedWithin(evs, n, id) ==> id !in t.entries)
  }

  ghost predicate SameButEntries(s: State, t: State) {
    && t.entries.Keys <= s.entries.Keys
    && s.env.clock <= t.env.clock && s.env.done <= t.env.done
    && t.lastId == s.lastId && t.issued == s.issued && t.delivered == s.delivered
  }

  lemma SweepVisit(cfg: Config, s: State, evs: seq<Event>, n: nat, id: uint64)
    requires 0 < n <= |evs| && id in s.entries && evs[n - 1].Visit?
    requires SameButEntries(s, At(cfg, s, evs, n - 1)) && Inv(cfg, At(cfg, s, evs, n - 1))
    requires evs[n - 1].id in At(cfg, s, evs, n - 1).entries && WithinLimits(At(cfg, s, evs, n))
    requires SweptUpTo(cfg, s, evs, n - 1, id)
    ensures SweptUpTo(cfg, s, evs, n, id)
  {
    hide StepVisit, Inv;
    var t, t', ev := At(cfg, s, evs, n - 1), At(cfg, s, evs, n), evs[n - 1];
    assert t' == StepVisit(cfg, t, ev.id, ev.obs).0;
    VisitExactly(cfg, t, ev.id, ev.obs);
    if id !in t'.entries && id in t.entries {
      assert RemovedBy(cfg, s, evs, n - 1, id);
    }
    if VisitedWithin(evs, n, id) && id != ev.id {
      assert VisitedWithin(evs, n - 1, id);
    }
  }

  lemma {:induction false} SweepPrefix(cfg: Config, s: State, evs: seq<Event>, n: nat)
    requires n <= |evs| && Inv(cfg, s) && WithinLimits(At(cfg, s, evs, n)) && IsSweep(s.entries.Keys, evs)
    ensures Inv(cfg, At(cfg, s, evs, n)) && SameButEntries(s, At(cfg, s, evs, n))
    ensures forall id | id in s.entries :: SweptUpTo(cfg, s, evs, n, id)
    ensures forall k | n <= k < |evs| :: evs[k].id in At(cfg, s, evs, n).entries
  {
    hide Step, StepVisit, Inv;
    if n == 0 {
      assert At(cfg, s, evs, 0) == s;
    } else {
      EarlierIsSmaller(cfg, s, evs, n - 1, n);
      SweepPrefix(cfg, s, evs, n - 1);
      var t, ev := At(cfg, s, evs, n - 1), evs[n - 1];
      forall id | id in s.entries ensures SweptUpTo(cfg, s, evs, n, id) {
        SweepVisit(cfg, s, evs, n, id);
      }
      StepKeeps(cfg, t, ev);
      assert Step(cfg, t, ev) == StepVisit(cfg, t, ev.id, ev.obs) by { VisitIsStep(cfg, t, ev); }
      VisitExactly(cfg, t, ev.id, ev.obs);
    }
  }

  lemma VisitIsStep(cfg: Config, s: State, ev: Event)
    requires ev.Visit?
    ensures Step(cfg, s, ev) == StepVisit(cfg, s, ev.id, ev.obs)
  {
  }

  /** The erase-while-iterating loop is right whatever happens meanwhile: it removes every entry that was
      removable when the cleanup started, it removes only entries that were removable when it visited
      them, and it leaves all others, the id counter and the delivered replies exactly as they were. */
  lemma CleanupIsExact(cfg: Config, s: State, evs: seq<Event>)
    requires Inv(cfg, s) && IsSweep(s.entries.Keys, evs) && WithinLimits(Final(cfg, s, evs))
    ensures Inv(cfg, Final(cfg, s, evs)) && SameButEntries(s, Final(cfg, s, evs))
    ensures forall id | id in s.entries && Removable(cfg, s.env, id, s.entries[id]) :: id !in Final(cfg, s, evs).entries
    ensures forall id | id in s.entries && id !in Final(cfg, s, evs).entries ::
              exists k :: 0 <= k < |evs| && RemovedBy(cfg, s, evs, k, id)
    ensures forall id | id in Final(cfg, s, evs).entries :: Final(cfg, s, evs).entries[id] == s.entries[id]
  {
    hide Step, Inv;
    SweepPrefix(cfg, s, evs, |evs|);
    var t := Final(cfg, s, evs);
    forall id | id in s.entries
      ensures id in t.entries ==> t.entries[id] == s.entries[id]
      ensures Removable(cfg, s.env, id, s.entries[id]) ==> id !in t.entries
      ensures id !in t.entries ==> exists k :: 0 <= k < |evs| && RemovedBy(cfg, s, evs, k, id)
    {
      assert SweptUpTo(cfg, s, evs, |evs|, id);
      assert VisitedWithin(evs, |evs|, id);
    }
  }
}
