/**
 * The health monitor of a data-pool client (src/DataPoolClient.cpp): one pass over the active processes
 * is a step. The process list, the health of each process and its process information come from the
 * data pool, which is not part of this model, and are inputs.
 */
module HealthMonitor {
  import opened Common
  import Positions

  datatype Health = HEALTHY | WARNING | DEAD | UNKNOWN

  /** A health-change callback. */
  datatype Note = Note(id: nat, oldHealth: Health, newHealth: Health)

  /** What the monitor learns about one entry of the process list. */
  datatype Check = Check(id: nat, health: Health, hasInfo: bool)

  // ---------- What a sequence of checks must produce ----------

  /** The health last seen for a process, UNKNOWN before the first check. */
  function Seen(checks: seq<Check>, self: nat, id: nat): Health {
    if checks == [] then UNKNOWN
    else
      var c := checks[|checks| - 1];
      if c.id == id && id != self then c.health else Seen(checks[..|checks| - 1], self, id)
  }

  /** The notifications, one for each check that finds a health other than the one seen before. */
  function Notes(checks: seq<Check>, self: nat): seq<Note> {
    if checks == [] then []
    else
      var front, c := checks[..|checks| - 1], checks[|checks| - 1];
      Notes(front, self) +
      if c.id != self && c.health != Seen(front, self, c.id) then [Note(c.id, Seen(front, self, c.id), c.health)] else []
  }

  /** Notifications tell of process id in a chain from its first to its last health, each one a change. */
  function ChainEnd(notes: seq<Note>, id: nat): Option<Health> {
    if notes == [] then Some(UNKNOWN)
    else
      var n, before := notes[|notes| - 1], ChainEnd(notes[..|notes| - 1], id);
      if n.id != id then before
      else if before == Some(n.oldHealth) && n.oldHealth != n.newHealth then Some(n.newHealth)
      else None
  }

  /** The processes reported dead, one entry per notified change into DEAD for which information was at hand. */
  function Deaths(checks: seq<Check>, self: nat): seq<nat> {
    if checks == [] then []
    else
      var front, c := checks[..|checks| - 1], checks[|checks| - 1];
      Deaths(front, self) +
      if c.id != self && c.health == DEAD && c.hasInfo && Seen(front, self, c.id) != DEAD then [c.id] else []
  }

  class Monitor {
    const self: nat
    const cache: array<Health>
    const hasHealthCallback: bool
    const hasDeathCallback: bool
    var running: bool
    var notes: seq<Note>     // calls of the health-change callback since the start
    var deaths: seq<nat>     // calls of the death callback since the start
    ghost var checks: seq<Check>

    ghost predicate Valid()
      reads this, cache
    {
      && cache.Length == MAX_PROCESS_COUNT
      && (running ==>
            && (forall id :: 0 <= id < MAX_PROCESS_COUNT ==> cache[id] == Seen(checks, self, id))
            && notes == (if hasHealthCallback then Notes(checks, self) else [])
            && deaths == if hasDeathCallback then Deaths(checks, self) else [])
    }

    constructor (self: nat, hasHealthCallback: bool, hasDeathCallback: bool)
      ensures Valid() && !running && fresh(cache)
      ensures this.self == self && this.hasHealthCallback == hasHealthCallback && this.hasDeathCallback == hasDeathCallback
    {
      this.self, this.hasHealthCallback, this.hasDeathCallback := self, hasHealthCallback, hasDeathCallback;
      cache := new Health[MAX_PROCESS_COUNT](_ => UNKNOWN);
      running, notes, deaths, checks := false, [], [], [];
    }

    method Start()
      requires Valid()
      modifies this, cache
      ensures Valid() && running
      ensures old(running) ==> unchanged(this) && unchanged(cache)
      ensures !old(running) ==> notes == [] && deaths == [] && checks == []
    {
      if running {
        return;
      }
      for i := 0 to MAX_PROCESS_COUNT
        invariant !running && forall id :: 0 <= id < i ==> cache[id] == UNKNOWN
        modifies cache
      {
        cache[i] := UNKNOWN;
      }
      notes, deaths, checks := [], [], [];
      running := true;
    }

    method Stop()
      requires Valid()
      modifies this`running
      ensures Valid() && !running
    {
      running := false;
    }

    /**
     * One pass: every listed process but the client itself is checked. Valid() carries the result: for
     * each process the notifications since the start form a chain from UNKNOWN to the cached health, and
     * the death callback has fired exactly on the changes into DEAD with information at hand.
     */
    method Pass(processes: seq<Check>)
      requires Valid() && running && forall c :: c in processes ==> c.id < MAX_PROCESS_COUNT
      modifies this`notes, this`deaths, this`checks, cache
      ensures Valid() && checks == old(checks) + processes
      ensures old(notes) <= notes && old(deaths) <= deaths
    {
      for i := 0 to |processes|
        invariant Valid() && checks == old(checks) + processes[..i]
        invariant old(notes) <= notes && old(deaths) <= deaths
      {
        ghost var before := checks;
        CheckOne(processes[i]);
        NextPrefix(before, old(checks), processes, i);
      }
    }

    static lemma NextPrefix(before: seq<Check>, start: seq<Check>, processes: seq<Check>, i: nat)
      requires i < |processes| && before == start + processes[..i]
      ensures before + [processes[i]] == start + processes[..i + 1]
    {
    }

    /** What clients have been told at any time: chains of changes, never about the client, and the right deaths. */
    lemma NotificationsTellHealth(id: nat)
      requires Valid() && running && id < MAX_PROCESS_COUNT
      ensures hasHealthCallback ==> IsChain(About(notes, id)) && LastHealth(About(notes, id)) == Seen(checks, self, id)
      ensures About(notes, self) == []
      ensures hasHealthCallback ==> notes == Notes(checks, self)
      ensures hasDeathCallback ==> deaths == Deaths(checks, self)
    {
      if hasHealthCallback {
        NotesAreChains(checks, self, id);
        ChainMeans(notes, id);
        NobodySelf(notes, self);
      }
    }

    /** The body of the loop. */
    method CheckOne(c: Check)
      requires Valid() && running && c.id < MAX_PROCESS_COUNT
      modifies this`notes, this`deaths, this`checks, cache
      ensures Valid() && checks == old(checks) + [c]
      ensures old(notes) <= notes && old(deaths) <= deaths
    {
      OneMoreCheck(checks, self, c);
      checks := checks + [c];
      var pid := c.id;
      if pid == self {
        return;
      }
      var oldHealth := cache[pid];
      var newHealth := c.health;
      if newHealth != oldHealth {
        cache[pid] := newHealth;
        if hasHealthCallback {
          notes := notes + [Note(pid, oldHealth, newHealth)];
        }
        if newHealth == DEAD && hasDeathCallback {
          if c.hasInfo {
            deaths := deaths + [pid];
          }
        }
      }
    }
  }

  lemma OneMoreCheck(checks: seq<Check>, self: nat, c: Check)
    ensures forall id :: Seen(checks + [c], self, id) == if c.id == id && id != self then c.health else Seen(checks, self, id)
    ensures Deaths(checks + [c], self) == Deaths(checks, self) +
              if c.id != self && c.health == DEAD && c.hasInfo && Seen(checks, self, c.id) != DEAD then [c.id] else []
    ensures Notes(checks + [c], self) == Notes(checks, self) +
              if c.id != self && c.health != Seen(checks, self, c.id) then [Note(c.id, Seen(checks, self, c.id), c.health)] else []
  {
    var more := checks + [c];
    assert more[..|more| - 1] == checks;
  }

  lemma OneMoreNote(notes: seq<Note>, n: Note)
    ensures forall id :: ChainEnd(notes + [n], id) ==
              if n.id != id then ChainEnd(notes, id)
              else if ChainEnd(notes, id) == Some(n.oldHealth) && n.oldHealth != n.newHealth then Some(n.newHealth)
              else None
  {
    var more := notes + [n];
    assert more[..|more| - 1] == notes;
  }

  /** The notifications about a process are a chain of changes from UNKNOWN to the health last seen; none is about the client. */
  lemma {:induction false} NotesAreChains(checks: seq<Check>, self: nat, id: nat)
    ensures ChainEnd(Notes(checks, self), id) == Some(Seen(checks, self, id))
    ensures forall n :: n in Notes(checks, self) ==> n.id != self
  {
    if checks == [] {
    } else {
      var front, c := checks[..|checks| - 1], checks[|checks| - 1];
      NotesAreChains(front, self, id);
      assert checks == front + [c];
      OneMoreCheck(front, self, c);
      OneMoreNote(Notes(front, self), Note(c.id, Seen(front, self, c.id), c.health));
      assert Notes(front, self) + [] == Notes(front, self);
      forall n | n in Notes(checks, self) ensures n.id != self {
        assert n in Notes(front, self) || n == Note(c.id, Seen(front, self, c.id), c.health);
      }
    }
  }

  lemma {:induction false} NobodySelf(notes: seq<Note>, self: nat)
    requires forall n :: n in notes ==> n.id != self
    ensures About(notes, self) == []
  {
    if notes == [] {
    } else {
      NobodySelf(notes[..|notes| - 1], self);
    }
  }

  // ---------- What the chain says ----------

  /** The notifications about one process, in order. */
  function About(notes: seq<Note>, id: nat): (r: seq<Note>)
    ensures forall n :: n in r ==> n in notes && n.id == id
  {
    if notes == [] then []
    else About(notes[..|notes| - 1], id) + if notes[|notes| - 1].id == id then [notes[|notes| - 1]] else []
  }

  /** The first notification starts at UNKNOWN, each old health is the previous new one, and each one is a change. */
  ghost predicate IsChain(a: seq<Note>) {
    && (a != [] ==> a[0].oldHealth == UNKNOWN)
    && (forall i :: 0 <= i < |a| ==> a[i].oldHealth != a[i].newHealth)
    && (forall i :: 0 < i < |a| ==> a[i].oldHealth == a[i - 1].newHealth)
  }

  function LastHealth(a: seq<Note>): Health {
    if a == [] then UNKNOWN else a[|a| - 1].newHealth
  }

  lemma ChainGrows(a: seq<Note>, n: Note)
    ensures IsChain(a + [n]) <==> IsChain(a) && n.oldHealth == LastHealth(a) && n.oldHealth != n.newHealth
  {
    var b := a + [n];
    if IsChain(b) {
      forall i | 0 <= i < |a| ensures a[i].oldHealth != a[i].newHealth {
        assert b[i] == a[i];
      }
      forall i | 0 < i < |a| ensures a[i].oldHealth == a[i - 1].newHealth {
        assert b[i] == a[i] && b[i - 1] == a[i - 1];
      }
    }
    assert b[|a|] == n;
    if a != [] {
      assert b[0] == a[0] && b[|a| - 1] == a[|a| - 1];
    }
  }

  /** The recursive chain end says exactly that the notifications about a process are a chain, and where it ends. */
  lemma {:induction false} ChainMeans(notes: seq<Note>, id: nat)
    ensures ChainEnd(notes, id) == if IsChain(About(notes, id)) then Some(LastHealth(About(notes, id))) else None
  {
    if notes == [] {
    } else {
      var front, n := notes[..|notes| - 1], notes[|notes| - 1];
      ChainMeans(front, id);
      ChainGrows(About(front, id), n);
      assert n.id != id ==> About(notes, id) == About(front, id);
    }
  }

  // ---------- What has been seen ----------

  /** The health seen is the one of the last check of the process, whatever was checked before. */
  lemma {:induction false} SeenIsLast(checks: seq<Check>, self: nat, id: nat, k: nat)
    requires id != self && k < |checks| && checks[k].id == id
    requires forall j :: k < j < |checks| ==> checks[j].id != id
    ensures Seen(checks, self, id) == checks[k].health
    decreases |checks|
  {
    var n := |checks| - 1;
    if k == n {
    } else {
      SeenIsLast(checks[..n], self, id, k);
    }
  }

  lemma {:induction false} NeverSeen(checks: seq<Check>, self: nat, id: nat)
    requires id == self || forall c :: c in checks ==> c.id != id
    ensures Seen(checks, self, id) == UNKNOWN
  {
    if checks == [] {
    } else {
      NeverSeen(checks[..|checks| - 1], self, id);
    }
  }

  /** The check finds a process dead that is not the client and was not seen dead before, with information at hand. */
  ghost predicate FoundDead(checks: seq<Check>, self: nat, k: nat)
    requires k < |checks|
  {
    checks[k].id != self && checks[k].health == DEAD && checks[k].hasInfo && Seen(checks[..k], self, checks[k].id) != DEAD
  }

  ghost function DeadSet(checks: seq<Check>, self: nat): set<nat> {
    set k: nat | k < |checks| && FoundDead(checks, self, k)
  }

  lemma DeadSetNext(checks: seq<Check>, self: nat)
    requires checks != []
    ensures var n := |checks| - 1;
            DeadSet(checks, self) == DeadSet(checks[..n], self) + if FoundDead(checks, self, n) then {n} else {}
  {
    var n := |checks| - 1;
    forall k: nat | k < n ensures FoundDead(checks, self, k) <==> FoundDead(checks[..n], self, k) {
      assert checks[..n][..k] == checks[..k];
    }
  }

  /** The deaths are those processes, check by check: each such check gives one, in order, and no other does. */
  lemma {:induction false} DeathsMeans(checks: seq<Check>, self: nat) returns (at: seq<nat>)
    ensures |at| == |Deaths(checks, self)| && Positions.Enumerates(at, DeadSet(checks, self))
    ensures forall i :: 0 <= i < |at| ==> at[i] < |checks| && Deaths(checks, self)[i] == checks[at[i]].id
  {
    if checks == [] {
      at := [];
    } else {
      var n := |checks| - 1;
      at := DeathsMeans(checks[..n], self);
      DeadSetNext(checks, self);
      if FoundDead(checks, self, n) {
        Positions.OneMore(at, DeadSet(checks[..n], self), n);
        at := at + [n];
      }
    }
  }

  ghost function AboutSet(notes: seq<Note>, id: nat): set<nat> {
    set k: nat | k < |notes| && notes[k].id == id
  }

  /** The notifications about a process are all those with its number, in order. */
  lemma {:induction false} AboutMeans(notes: seq<Note>, id: nat) returns (at: seq<nat>)
    ensures |at| == |About(notes, id)| && Positions.Enumerates(at, AboutSet(notes, id))
    ensures forall i :: 0 <= i < |at| ==> at[i] < |notes| && About(notes, id)[i] == notes[at[i]]
  {
    if notes == [] {
      at := [];
    } else {
      var n := |notes| - 1;
      at := AboutMeans(notes[..n], id);
      assert AboutSet(notes, id) == AboutSet(notes[..n], id) + if notes[n].id == id then {n} else {};
      if notes[n].id == id {
        Positions.OneMore(at, AboutSet(notes[..n], id), n);
        at := at + [n];
      }
    }
  }
}
