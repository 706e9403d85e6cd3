/** The bookkeeping of one expiration sweep. The live timers are seen as a
    map from id to Timer; a sweep reports the nodes it handed to their
    callbacks, in firing order, each as it was when it fired. A sweep
    starts from the timers t0 with the id counter at c0 and re-arms every
    repeating timer it fires at the clock reading rearmAt. */
module Sweep {
  import opened TimerNode

  /** Ids of the timers that are due at time now. */
  ghost function Due(t: map<int, Timer>, now: nat): set<int>
  {
    set x | x in t && t[x].expire <= now
  }

  /** Ids of the first n firings. */
  ghost function IdsBefore(fs: seq<Node>, n: nat): set<int>
    requires n <= |fs|
  {
    set k | 0 <= k < n :: fs[k].id
  }

  /** Ids of all the firings. */
  ghost function FiredIds(fs: seq<Node>): set<int>
  {
    IdsBefore(fs, |fs|)
  }

  /** Number of repeating firings among the first n. */
  function LoopsIn(fs: seq<Node>, n: nat): (m: nat)
    requires n <= |fs|
    ensures m <= n
  {
    if n == 0 then 0 else LoopsIn(fs, n - 1) + (if fs[n - 1].isLoop then 1 else 0)
  }

  /** The timers re-inserted for the repeating ones among the first n
      firings: the j-th of them (counting from 1) is re-armed under the
      fresh id c + j, expiring at rearmAt plus its interval. */
  ghost function ReinsertedIn(fs: seq<Node>, n: nat, c: int, rearmAt: nat): map<int, Timer>
    requires n <= |fs|
  {
    if n == 0 then map[]
    else
      var f := fs[n - 1];
      if f.isLoop then ReinsertedIn(fs, n - 1, c, rearmAt)[c + LoopsIn(fs, n - 1) + 1 := Timer(rearmAt + f.interval, f.interval, true)]
      else ReinsertedIn(fs, n - 1, c, rearmAt)
  }

  /** Number of repeating firings. */
  function Loops(fs: seq<Node>): nat
  {
    LoopsIn(fs, |fs|)
  }

  /** The timers re-inserted for all the repeating firings. */
  ghost function Reinserted(fs: seq<Node>, c: int, rearmAt: nat): map<int, Timer>
  {
    ReinsertedIn(fs, |fs|, c, rearmAt)
  }

  /** Counting and re-inserting over the first n firings only looks at
      those n firings. */
  lemma {:induction false} PrefixAgree(fs: seq<Node>, gs: seq<Node>, n: nat, c: int, rearmAt: nat)
    requires n <= |fs| && n <= |gs|
    requires forall k :: 0 <= k < n ==> fs[k] == gs[k]
    ensures LoopsIn(fs, n) == LoopsIn(gs, n)
    ensures ReinsertedIn(fs, n, c, rearmAt) == ReinsertedIn(gs, n, c, rearmAt)
  {
    if 0 < n {
      PrefixAgree(fs, gs, n - 1, c, rearmAt);
    }
  }

  /** The re-inserted timers carry exactly the ids c + 1 .. c + LoopsIn,
      all repeating. */
  lemma {:induction false} ReinsertedIds(fs: seq<Node>, n: nat, c: int, rearmAt: nat)
    requires n <= |fs|
    ensures forall y :: y in ReinsertedIn(fs, n, c, rearmAt) <==> c < y <= c + LoopsIn(fs, n)
    ensures forall y :: y in ReinsertedIn(fs, n, c, rearmAt) ==> ReinsertedIn(fs, n, c, rearmAt)[y].isLoop
  {
    if 0 < n {
      ReinsertedIds(fs, n - 1, c, rearmAt);
    }
  }

  /** When every repeating firing's interval reaches past now from rearmAt,
      no re-inserted timer is due at now. */
  lemma {:induction false} ReinsertedNotDue(fs: seq<Node>, n: nat, c: int, rearmAt: nat, now: nat)
    requires n <= |fs|
    requires forall k :: 0 <= k < n && fs[k].isLoop ==> now < rearmAt + fs[k].interval
    ensures Due(ReinsertedIn(fs, n, c, rearmAt), now) == {}
  {
    if 0 < n {
      ReinsertedNotDue(fs, n - 1, c, rearmAt, now);
    }
  }

  /** The live timers once the firings fs are done: the fired timers are
      gone and their repeating ones are back under fresh ids. */
  ghost function AfterFirings(t0: map<int, Timer>, fs: seq<Node>, c0: int, rearmAt: nat): map<int, Timer>
  {
    (t0 - FiredIds(fs)) + Reinserted(fs, c0, rearmAt)
  }

  /** The live timers after firing f from t: f is removed and, if it
      repeats, re-armed at rearmAt under the id newId. */
  ghost function AfterFire(t: map<int, Timer>, f: Node, newId: int, rearmAt: nat): map<int, Timer>
  {
    if f.isLoop then (t - {f.id})[newId := Timer(rearmAt + f.interval, f.interval, true)]
    else t - {f.id}
  }

  /** Appending a firing adds its id to the fired ids. */
  lemma FiredIdsAppend(fs: seq<Node>, f: Node)
    ensures FiredIds(fs + [f]) == FiredIds(fs) + {f.id}
  {
    var fs' := fs + [f];
    forall x | x in FiredIds(fs')
      ensures x in FiredIds(fs) + {f.id}
    {
      var k :| 0 <= k < |fs'| && fs'[k].id == x;
      if k < |fs| {
        assert fs[k].id == x;
      }
    }
    forall x | x in FiredIds(fs)
      ensures x in FiredIds(fs')
    {
      var k :| 0 <= k < |fs| && fs[k].id == x;
      assert fs'[k].id == x;
    }
    assert fs'[|fs|].id == f.id;
  }

  /** Appending a firing extends the re-inserted timers by its re-armed
      copy when it repeats, under the next id. */
  lemma ReinsertedAppend(fs: seq<Node>, f: Node, c: int, rearmAt: nat)
    ensures Loops(fs + [f]) == Loops(fs) + (if f.isLoop then 1 else 0)
    ensures Reinserted(fs + [f], c, rearmAt)
         == if f.isLoop then Reinserted(fs, c, rearmAt)[c + Loops(fs) + 1 := Timer(rearmAt + f.interval, f.interval, true)]
            else Reinserted(fs, c, rearmAt)
  {
    var fs' := fs + [f];
    PrefixAgree(fs', fs, |fs|, c, rearmAt);
    assert fs'[|fs|] == f;
  }

  /** Dropping one more id that the right-hand map lacks commutes with the
      union. */
  lemma UnionRemove(a: map<int, Timer>, gone: set<int>, r: map<int, Timer>, x: int)
    requires x !in r
    ensures (a - (gone + {x})) + r == ((a - gone) + r) - {x}
  {
  }

  /** Updating the right-hand map of a union updates the union. */
  lemma UnionUpdate(a: map<int, Timer>, r: map<int, Timer>, y: int, v: Timer)
    ensures a + r[y := v] == (a + r)[y := v]
  {
  }

  /** Firing a timer of t0, as one step from the state before it: a
      one-shot timer is removed; a repeating one is removed and re-armed at
      rearmAt plus its interval under the next fresh id, c0 plus the number
      of repeating firings so far plus one. */
  lemma Fire(t0: map<int, Timer>, fs: seq<Node>, f: Node, c0: int, rearmAt: nat)
    requires forall x :: x in t0 ==> x <= c0
    requires f.id in t0
    ensures Loops(fs + [f]) == Loops(fs) + (if f.isLoop then 1 else 0)
    ensures AfterFirings(t0, fs + [f], c0, rearmAt)
         == AfterFire(AfterFirings(t0, fs, c0, rearmAt), f, c0 + Loops(fs) + 1, rearmAt)
  {
    var r := Reinserted(fs, c0, rearmAt);
    FiredIdsAppend(fs, f);
    ReinsertedAppend(fs, f, c0, rearmAt);
    ReinsertedIds(fs, |fs|, c0, rearmAt);
    UnionRemove(t0, FiredIds(fs), r, f.id);
    UnionUpdate(t0 - (FiredIds(fs) + {f.id}), r, c0 + Loops(fs) + 1, Timer(rearmAt + f.interval, f.interval, true));
  }

  /** A repeating timer whose re-armed expiration is not after now is due
      again as soon as it is re-inserted: the sweep that fired it would
      fire it again. */
  lemma RearmedDueAgain(t0: map<int, Timer>, fs: seq<Node>, f: Node, c0: int, rearmAt: nat, now: nat)
    requires forall x :: x in t0 ==> x <= c0
    requires f.id in t0 && f.isLoop && rearmAt + f.interval <= now
    ensures c0 + Loops(fs) + 1 in Due(AfterFirings(t0, fs + [f], c0, rearmAt), now)
  {
    Fire(t0, fs, f, c0, rearmAt);
  }

  /** Removing a timer removes its id from the due ids. */
  lemma DueRemove(t: map<int, Timer>, x: int, now: nat)
    ensures Due(t - {x}, now) == Due(t, now) - {x}
  {
  }

  /** Adding a timer that is not due yet under an id that is not due adds
      nothing to the due ids. */
  lemma DueAddLate(t: map<int, Timer>, y: int, timer: Timer, now: nat)
    requires y !in Due(t, now) && now < timer.expire
    ensures Due(t[y := timer], now) == Due(t, now)
  {
  }

  /** Firing a due timer whose re-armed copy, if any, is not due and takes
      an id that is not due takes exactly its id out of the due ids. */
  lemma DueAfterFire(t: map<int, Timer>, f: Node, newId: int, rearmAt: nat, now: nat)
    requires f.id in Due(t, now) && newId !in Due(t, now)
    requires f.isLoop ==> now < rearmAt + f.interval
    ensures Due(AfterFire(t, f, newId, rearmAt), now) == Due(t, now) - {f.id}
    ensures Due(AfterFire(t, f, newId, rearmAt), now) < Due(t, now)
  {
    DueRemove(t, f.id, now);
    if f.isLoop {
      DueAddLate(t - {f.id}, newId, Timer(rearmAt + f.interval, f.interval, true), now);
    }
  }

  /** A firing that is no later than any live timer, and whose re-armed
      copy expires after now, is no later than any timer left after it. */
  lemma AfterFireLater(t: map<int, Timer>, f: Node, newId: int, rearmAt: nat, now: nat)
    requires forall x :: x in t ==> f.expire <= t[x].expire
    requires f.expire <= now && (f.isLoop ==> now < rearmAt + f.interval)
    ensures forall x :: x in AfterFire(t, f, newId, rearmAt) ==> f.expire <= AfterFire(t, f, newId, rearmAt)[x].expire
  {
  }

  /** Each firing is of a timer that had not fired before it. */
  ghost predicate EachOnce(fs: seq<Node>)
  {
    forall k :: 0 <= k < |fs| ==> fs[k].id !in IdsBefore(fs, k)
  }

  /** Each firing expires no earlier than the one before it. */
  ghost predicate InFiringOrder(fs: seq<Node>)
  {
    forall k :: 0 < k < |fs| ==> fs[k - 1].expire <= fs[k].expire
  }

  /** No two firings are of the same timer. */
  lemma EachOncePairs(fs: seq<Node>)
    requires EachOnce(fs)
    ensures forall k, j :: 0 <= k < j < |fs| ==> fs[k].id != fs[j].id
  {
    forall k, j | 0 <= k < j < |fs|
      ensures fs[k].id != fs[j].id
    {
      assert fs[k].id in IdsBefore(fs, j);
    }
  }

  /** A firing expires no later than any firing after it. */
  lemma {:induction false} InFiringOrderFrom(fs: seq<Node>, k: nat, j: nat)
    requires InFiringOrder(fs) && k <= j < |fs|
    ensures fs[k].expire <= fs[j].expire
    decreases j - k
  {
    if k < j {
      InFiringOrderFrom(fs, k + 1, j);
    }
  }

  /** What a sweep needs: every live id is at most c0, and every repeating
      timer re-armed at rearmAt expires after now. In this model, where one
      clock reading rearmAt serves every re-insertion, a repeating timer
      re-armed at or before now would fire again in the same sweep, and the
      sweep would not end. */
  ghost predicate SweepPre(t0: map<int, Timer>, c0: int, now: nat, rearmAt: nat)
  {
    && (forall x :: x in t0 ==> x <= c0)
    && (forall x :: x in t0 && t0[x].isLoop ==> now < rearmAt + t0[x].interval)
  }

  /** The firings fs are timers of t0 as they were, each due at now, each
      fired once, in order of expiration. */
  ghost predicate FiringLog(t0: map<int, Timer>, now: nat, fs: seq<Node>)
  {
    && (forall k :: 0 <= k < |fs| ==> fs[k].id in t0 && AsTimer(fs[k]) == t0[fs[k].id] && fs[k].expire <= now)
    && EachOnce(fs) && InFiringOrder(fs)
  }

  /** The state of a sweep after the firings fs, with t the live timers:
      t is what the firings leave of t0, the firings are a proper log, and
      none of them is later than a live timer. */
  ghost predicate SweepState(t0: map<int, Timer>, c0: int, now: nat, rearmAt: nat, fs: seq<Node>, t: map<int, Timer>)
  {
    && t == AfterFirings(t0, fs, c0, rearmAt)
    && FiringLog(t0, now, fs)
    && (0 < |fs| ==> forall x :: x in t ==> fs[|fs| - 1].expire <= t[x].expire)
  }

  /** A sweep starts with no firings and the timers untouched. */
  lemma SweepStart(t0: map<int, Timer>, c0: int, now: nat, rearmAt: nat)
    ensures SweepState(t0, c0, now, rearmAt, [], t0)
  {
    assert FiredIds([]) == {};
    assert AfterFirings(t0, [], c0, rearmAt) == t0;
  }

  /** In a sweep state, a timer of t0 that has not fired is live unchanged,
      and a live timer that is due is such a timer. */
  lemma LiveOriginal(t0: map<int, Timer>, c0: int, now: nat, rearmAt: nat, fs: seq<Node>, t: map<int, Timer>)
    requires SweepPre(t0, c0, now, rearmAt) && SweepState(t0, c0, now, rearmAt, fs, t)
    ensures forall x :: x in t0 && x !in FiredIds(fs) ==> x in t && t[x] == t0[x]
    ensures forall x :: x in t && t[x].expire <= now ==> x in t0 && x !in FiredIds(fs)
  {
    ReinsertedNotDue(fs, |fs|, c0, rearmAt, now);
    ReinsertedIds(fs, |fs|, c0, rearmAt);
    forall x | x in t && t[x].expire <= now
      ensures x in t0 && x !in FiredIds(fs)
    {
      assert x !in Due(Reinserted(fs, c0, rearmAt), now);
    }
  }

  /** Appending f to a firing log keeps it a firing log when f is a timer
      of t0 as it is, due at now, not fired yet, and no earlier than the
      last firing. */
  lemma FiredLog(t0: map<int, Timer>, now: nat, fs: seq<Node>, f: Node)
    requires FiringLog(t0, now, fs)
    requires f.id in t0 && AsTimer(f) == t0[f.id] && f.expire <= now && f.id !in FiredIds(fs)
    requires 0 < |fs| ==> fs[|fs| - 1].expire <= f.expire
    ensures FiringLog(t0, now, fs + [f])
    ensures |fs + [f]| == |fs| + 1 && (fs + [f])[|fs|] == f
  {
    var fs' := fs + [f];
    assert forall k :: 0 <= k < |fs| ==> fs'[k] == fs[k];
    forall k | 0 <= k < |fs'|
      ensures fs'[k].id !in IdsBefore(fs', k)
    {
      assert IdsBefore(fs', k) == IdsBefore(fs, k);
    }
  }

  /** One firing: f is a due live timer no later than any other. It is a
      timer of t0 that has not fired yet, and firing it (removing it, and
      re-arming it under the next fresh id if it repeats) keeps the sweep
      state. */
  lemma FireKeepsState(t0: map<int, Timer>, c0: int, now: nat, rearmAt: nat, fs: seq<Node>, t: map<int, Timer>, f: Node, newId: int)
    requires SweepPre(t0, c0, now, rearmAt) && SweepState(t0, c0, now, rearmAt, fs, t)
    requires f.id in t && t[f.id] == AsTimer(f) && f.expire <= now
    requires forall x :: x in t ==> f.expire <= t[x].expire
    requires newId == c0 + Loops(fs) + 1
    ensures f.id in t0 && t0[f.id] == AsTimer(f) && newId !in t
    ensures SweepState(t0, c0, now, rearmAt, fs + [f], AfterFire(t, f, newId, rearmAt))
  {
    assert f.id in t0 && f.id !in FiredIds(fs) && t0[f.id] == AsTimer(f) && newId !in t by {
      LiveOriginal(t0, c0, now, rearmAt, fs, t);
      ReinsertedIds(fs, |fs|, c0, rearmAt);
    }
    Fire(t0, fs, f, c0, rearmAt);
    FiredLog(t0, now, fs, f);
    AfterFireLater(t, f, newId, rearmAt, now);
  }

  /** The same firing, with t' the timers it leaves: the counter advances
      by one exactly when f repeats, and fewer timers are due, which is what
      makes a sweep end. */
  lemma SweepStep(t0: map<int, Timer>, c0: int, now: nat, rearmAt: nat, fs: seq<Node>, t: map<int, Timer>, f: Node, newId: int, t': map<int, Timer>)
    requires SweepPre(t0, c0, now, rearmAt) && SweepState(t0, c0, now, rearmAt, fs, t)
    requires f.id in t && t[f.id] == AsTimer(f) && f.expire <= now
    requires forall x :: x in t ==> f.expire <= t[x].expire
    requires newId == c0 + Loops(fs) + 1
    requires t' == AfterFire(t, f, newId, rearmAt)
    ensures Loops(fs + [f]) == Loops(fs) + (if f.isLoop then 1 else 0)
    ensures SweepState(t0, c0, now, rearmAt, fs + [f], t')
    ensures Due(t', now) < Due(t, now)
  {
    FireKeepsState(t0, c0, now, rearmAt, fs, t, f, newId);
    ReinsertedAppend(fs, f, c0, rearmAt);
    DueAfterFire(t, f, newId, rearmAt, now);
  }

  /** A sweep that stops when no live timer is due has fired exactly the
      timers of t0 that were due, and none of their ids is live any more. */
  lemma SweepEnd(t0: map<int, Timer>, c0: int, now: nat, rearmAt: nat, fs: seq<Node>, t: map<int, Timer>)
    requires SweepPre(t0, c0, now, rearmAt) && SweepState(t0, c0, now, rearmAt, fs, t)
    requires forall x :: x in t ==> now < t[x].expire
    ensures FiredIds(fs) == Due(t0, now)
    ensures forall k :: 0 <= k < |fs| ==> fs[k].id in t0 && AsTimer(fs[k]) == t0[fs[k].id]
    ensures forall k, j :: 0 <= k < j < |fs| ==> fs[k].id != fs[j].id
    ensures forall k, j :: 0 <= k < j < |fs| ==> fs[k].expire <= fs[j].expire
    ensures forall k :: 0 <= k < |fs| ==> fs[k].id !in t
  {
    EachOncePairs(fs);
    forall k, j | 0 <= k < j < |fs|
      ensures fs[k].expire <= fs[j].expire
    {
      InFiringOrderFrom(fs, k, j);
    }
    LiveOriginal(t0, c0, now, rearmAt, fs, t);
    ReinsertedIds(fs, |fs|, c0, rearmAt);
    forall x | x in FiredIds(fs)
      ensures x in Due(t0, now)
    {
      var k :| 0 <= k < |fs| && fs[k].id == x;
    }
    forall x | x in Due(t0, now)
      ensures x in FiredIds(fs)
    {
      assert !(x in t && t[x] == t0[x]);
    }
    forall k | 0 <= k < |fs|
      ensures fs[k].id !in t
    {
      assert fs[k].id in FiredIds(fs);
      assert fs[k].id !in Reinserted(fs, c0, rearmAt);
    }
  }
}
