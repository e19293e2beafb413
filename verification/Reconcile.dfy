/**
 Workspace metadata and runtime records: the record store of fusefs/runtime.go,
 and findRuntimeStateByAgent, refreshWorkspaceMetadata and inspectWorkspaceState
 of main.go. Which processes exist is a fixed predicate.
 */
module Reconcile {
  import opened Wrappers

  datatype Status = Starting | Mounted | Failed

  datatype State = State(profile: string, agent: string, mountpoint: string, pid: int, status: Status, updated: int)

  /** A record file: one that can be decoded, or one that cannot. */
  datatype Record = Good(state: State) | Corrupt

  /** The record files by mountpoint. */
  type Table = map<string, Record>

  ghost predicate TableOk(t: Table) {
    forall m :: m in t && t[m].Good? ==> m != "" && t[m].state.mountpoint == m
  }

  /** ProcessExists: never true of a pid that is not positive. */
  type Alive = int -> bool

  predicate Live(alive: Alive, s: State) {
    s.status == Mounted && s.pid > 0 && alive(s.pid)
  }

  datatype Loaded = Found(state: State) | NotExist | Unreadable

  class Runtime {
    var table: Table

    ghost predicate Valid()
      reads this
    {
      TableOk(table)
    }

    /** Save: the new record takes the place of any other of its mountpoint. */
    method Save(s: State, now: int)
      requires Valid() && s.mountpoint != ""
      modifies this
      ensures Valid() && table == Saved(old(table), s, now)
    {
      table := table[s.mountpoint := Good(s.(updated := now))];
    }

    method Load(m: string) returns (r: Loaded)
      ensures r == Lookup(table, m)
    {
      if m !in table {
        return NotExist;
      }
      return if table[m].Good? then Found(table[m].state) else Unreadable;
    }

    /** List: the records by mountpoint; None when one cannot be decoded. */
    method List() returns (r: Option<seq<State>>)
      requires Valid()
      ensures r.None? <==> exists m :: m in table && table[m].Corrupt?
      ensures r.Some? ==> Sorted(r.value) && forall s :: s in r.value <==> Recorded(table, s)
    {
      var todo := table.Keys;
      var states: seq<State> := [];
      while todo != {}
        invariant todo <= table.Keys && Sorted(states)
        invariant forall m :: m in table && m !in todo ==> table[m].Good?
        invariant forall s :: s in states <==> exists m :: m in table && m !in todo && table[m] == Good(s)
        decreases todo
      {
        var m :| m in todo;
        if table[m].Corrupt? {
          return None;
        }
        InsertSpec(table[m].state, states);
        states := Insert(table[m].state, states);
        todo := todo - {m};
      }
      return Some(states);
    }

    method Delete(m: string)
      requires Valid()
      modifies this
      ensures Valid() && table == old(table) - {m}
    {
      table := table - {m};
    }

    /** ClearStale removes a record only when its process is gone, so every live record stays. */
    method ClearStale(m: string, alive: Alive) returns (ok: bool)
      requires Valid()
      modifies this
      ensures Valid() && (ok <==> !(m in old(table) && old(table)[m].Corrupt?))
      ensures table == if DeadRecord(old(table), m, alive) then old(table) - {m} else old(table)
      ensures forall s :: Live(alive, s) ==> (Recorded(table, s) <==> Recorded(old(table), s))
    {
      var r := Load(m);
      if r.NotExist? {
        return true;
      }
      if r.Unreadable? {
        return false;
      }
      if r.state.pid > 0 && alive(r.state.pid) {
        return true;
      }
      Delete(m);
      ok := true;
      DeleteDead(old(table), m, alive);
    }
  }

  /** The record at m is of a process that is gone, whatever its status. */
  predicate DeadRecord(t: Table, m: string, alive: Alive) {
    m in t && t[m].Good? && !(t[m].state.pid > 0 && alive(t[m].state.pid))
  }

  // ----- The order of List

  /** The order of Go's strings. */
  predicate Less(a: string, b: string) {
    b != "" && (a == "" || a[0] < b[0] || (a[0] == b[0] && Less(a[1..], b[1..])))
  }

  /** At the first place where they differ, a has the lesser byte or has ended. */
  lemma {:induction false} LessIff(a: string, b: string)
    ensures Less(a, b) <==> exists k: nat :: Differ(a, b, k)
  {
    if Less(a, b) {
      if a == "" || a[0] != b[0] {
        assert Differ(a, b, 0);
      } else {
        LessIff(a[1..], b[1..]);
        var k: nat :| Differ(a[1..], b[1..], k);
        assert a[..k + 1] == [a[0]] + a[1..][..k] && b[..k + 1] == [b[0]] + b[1..][..k];
        assert Differ(a, b, k + 1);
      }
    }
    if k: nat :| Differ(a, b, k) {
      if k > 0 {
        LessIff(a[1..], b[1..]);
        assert a[0] == a[..k][0] == b[..k][0] == b[0];
        assert a[1..][..k - 1] == a[..k][1..] == b[..k][1..] == b[1..][..k - 1];
        assert Differ(a[1..], b[1..], k - 1);
      }
    }
  }

  ghost predicate Differ(a: string, b: string, k: nat) {
    k <= |a| && k < |b| && a[..k] == b[..k] && (k == |a| || a[k] < b[k])
  }

  lemma {:induction false} LessTotal(a: string, b: string)
    ensures a == b || Less(a, b) || Less(b, a)
    ensures !(Less(a, b) && Less(b, a)) && !Less(a, a)
  {
    if a != "" && b != "" && a[0] == b[0] {
      LessTotal(a[1..], b[1..]);
      assert a[1..] == b[1..] ==> a == [a[0]] + b[1..] == b;
    }
    if a != "" {
      LessTotal(a[1..], a[1..]);
    }
  }

  lemma {:induction false} LessTrans(a: string, b: string, c: string)
    requires Less(a, b) && Less(b, c)
    ensures Less(a, c)
  {
    if a != "" && a[0] == b[0] == c[0] {
      LessTrans(a[1..], b[1..], c[1..]);
    }
  }

  ghost predicate Sorted(states: seq<State>) {
    forall i, j :: 0 <= i < j < |states| ==> Less(states[i].mountpoint, states[j].mountpoint)
  }

  function Insert(s: State, states: seq<State>): seq<State> {
    if states == [] || Less(s.mountpoint, states[0].mountpoint) then [s] + states
    else [states[0]] + Insert(s, states[1..])
  }

  lemma {:induction false} InsertElements(s: State, states: seq<State>)
    ensures forall x :: x in Insert(s, states) <==> x == s || x in states
  {
    if states != [] && !Less(s.mountpoint, states[0].mountpoint) {
      InsertElements(s, states[1..]);
      assert states == [states[0]] + states[1..];
    }
  }

  lemma {:induction false} InsertSpec(s: State, states: seq<State>)
    requires Sorted(states) && forall x :: x in states ==> x.mountpoint != s.mountpoint
    ensures Sorted(Insert(s, states)) && forall x :: x in Insert(s, states) <==> x == s || x in states
  {
    InsertElements(s, states);
    if states != [] {
      LessTotal(s.mountpoint, states[0].mountpoint);
      if Less(s.mountpoint, states[0].mountpoint) {
        forall j | 0 <= j < |states| ensures Less(s.mountpoint, states[j].mountpoint) {
          if j > 0 { LessTrans(s.mountpoint, states[0].mountpoint, states[j].mountpoint); }
        }
      } else {
        InsertSpec(s, states[1..]);
        var r := Insert(s, states[1..]);
        forall k | 0 <= k < |r| ensures Less(states[0].mountpoint, r[k].mountpoint) {
          assert r[k] in r;
        }
      }
    }
  }

  function Saved(t: Table, s: State, now: int): Table {
    t[s.mountpoint := Good(s.(updated := now))]
  }

  /** Which records there are after a Save. */
  lemma SavedRecords(t: Table, s: State, now: int, x: State)
    requires TableOk(t)
    ensures Recorded(Saved(t, s, now), x) <==> x == s.(updated := now) || (x.mountpoint != s.mountpoint && Recorded(t, x))
  {
    var u := Saved(t, s, now);
    assert u[s.mountpoint] == Good(s.(updated := now));
    if x.mountpoint != s.mountpoint && Recorded(t, x) {
      assert u[x.mountpoint] == Good(x);
    }
  }

  lemma DeleteDead(t: Table, m: string, alive: Alive)
    requires TableOk(t) && m in t && t[m].Good? && !Live(alive, t[m].state)
    ensures forall s :: Live(alive, s) ==> (Recorded(t - {m}, s) <==> Recorded(t, s))
  {
    forall s | Live(alive, s) && Recorded(t, s) ensures Recorded(t - {m}, s) {
      var k :| k in t && t[k] == Good(s);
      assert k in t - {m};
    }
  }

  function Lookup(t: Table, m: string): Loaded {
    if m !in t then NotExist else if t[m].Good? then Found(t[m].state) else Unreadable
  }

  ghost predicate Recorded(t: Table, s: State) {
    exists m :: m in t && t[m] == Good(s)
  }

  // ----- Finding an agent's record

  /** The record belongs to the agent and is one the selector takes. */
  predicate Selected(profile: string, agent: string, select: State -> bool, s: State) {
    s.profile == profile && s.agent == agent && select(s)
  }

  /** s is chosen over x: it is newer, or of the same time and earlier by mountpoint. */
  predicate Beats(s: State, x: State) {
    x.updated < s.updated || (x.updated == s.updated && (x == s || Less(s.mountpoint, x.mountpoint)))
  }

  /** The newest of the selected records. */
  ghost predicate Newest(t: Table, profile: string, agent: string, select: State -> bool, s: State) {
    Recorded(t, s) && Selected(profile, agent, select, s) &&
    forall x :: Recorded(t, x) && Selected(profile, agent, select, x) ==> Beats(s, x)
  }

  /** The hinted record is one of the selected ones. */
  ghost predicate Hit(t: Table, profile: string, agent: string, hint: string, select: State -> bool) {
    hint != "" && Lookup(t, hint).Found? && Selected(profile, agent, select, Lookup(t, hint).state)
  }

  /** The record that findRuntimeStateByAgent decides for: the hinted one if it is selected, else the newest that is. */
  ghost predicate Chosen(t: Table, profile: string, agent: string, hint: string, select: State -> bool, s: State) {
    if Hit(t, profile, agent, hint, select) then Lookup(t, hint) == Found(s) else Newest(t, profile, agent, select, s)
  }

  lemma ChosenOnce(t: Table, profile: string, agent: string, hint: string, select: State -> bool, s: State, s': State)
    requires Chosen(t, profile, agent, hint, select, s) && Chosen(t, profile, agent, hint, select, s')
    ensures s == s'
  {
    if !Hit(t, profile, agent, hint, select) {
      assert Beats(s, s') && Beats(s', s);
      LessTotal(s.mountpoint, s'.mountpoint);
    }
  }

  ghost predicate Damaged(t: Table) {
    exists m :: m in t && t[m].Corrupt?
  }

  /** findRuntimeStateByAgent; its error is Unreadable, and NotExist stands for not found. */
  method FindByAgent(r: Runtime, profile: string, agent: string, hint: string, select: State -> bool) returns (f: Loaded)
    requires r.Valid()
    ensures f.Unreadable? <==> Damaged(r.table) && !Hit(r.table, profile, agent, hint, select)
    ensures f.Found? ==> Chosen(r.table, profile, agent, hint, select, f.state)
    ensures f.Found? ==> Recorded(r.table, f.state) && Selected(profile, agent, select, f.state)
    ensures f.NotExist? ==> forall s :: Recorded(r.table, s) ==> !Selected(profile, agent, select, s)
  {
    if hint != "" {
      var h := r.Load(hint);
      if h.Found? && Selected(profile, agent, select, h.state) {
        assert r.table[hint] == Good(h.state);
        return h;
      }
      if h.Unreadable? {
        return Unreadable;
      }
    }
    var states := r.List();
    if states.None? {
      return Unreadable;
    }
    f := NotExist;
    for i := 0 to |states.value|
      invariant !f.Unreadable?
      invariant f.Found? ==> f.state in states.value[..i] && Selected(profile, agent, select, f.state)
      invariant forall k :: 0 <= k < i && Selected(profile, agent, select, states.value[k]) ==>
                  f.Found? && Beats(f.state, states.value[k])
    {
      var s := states.value[i];
      assert states.value[..i + 1] == states.value[..i] + [s];
      if Selected(profile, agent, select, s) && (f.NotExist? || s.updated > f.state.updated) {
        f := Found(s);
      }
    }
    assert states.value[..|states.value|] == states.value;
  }

  /** The selector of findMountedRuntimeStateByAgent. */
  function Mounts(alive: Alive): State -> bool {
    s => Live(alive, s)
  }

  // ----- Refreshing

  datatype Metadata = Metadata(profile: string, agent: string, mountpoint: string, mounted: bool, pid: int)

  /** Mounted exactly when mountpoint and pid are set. */
  ghost predicate WellFormed(m: Metadata) {
    m.mounted <==> m.mountpoint != "" && m.pid != 0
  }

  /** The agent has a record of a live mount. */
  ghost predicate HasLive(t: Table, alive: Alive, profile: string, agent: string) {
    exists s :: Recorded(t, s) && s.profile == profile && s.agent == agent && Live(alive, s)
  }

  /** What an error-free refresh promises about the metadata it returns. */
  ghost predicate Agrees(t: Table, alive: Alive, m: Metadata) {
    if m.mounted then
      m.mountpoint in t && t[m.mountpoint].Good? && t[m.mountpoint].state.pid == m.pid && Live(alive, t[m.mountpoint].state)
    else !HasLive(t, alive, m.profile, m.agent) && forall k :: k in t ==> t[k].Good?
  }

  /** The record is not of the metadata's agent. */
  predicate Foreign(m: Metadata, s: State) {
    s.profile != m.profile || s.agent != m.agent
  }

  /** The metadata is mounted on a live record of that pid. */
  ghost predicate OnLive(t: Table, alive: Alive, m: Metadata) {
    var l := Lookup(t, m.mountpoint);
    m.mounted && l.Found? && l.state.pid == m.pid && Live(alive, l.state)
  }

  /** That record is another agent's. */
  ghost predicate OnForeign(t: Table, alive: Alive, m: Metadata) {
    OnLive(t, alive, m) && Foreign(m, Lookup(t, m.mountpoint).state)
  }

  /** The record that the metadata is to name when it is not mounted on a live one. */
  ghost predicate Recovered(t: Table, alive: Alive, m: Metadata, s: State) {
    Chosen(t, m.profile, m.agent, m.mountpoint, Mounts(alive), s)
  }

  predicate Names(m: Metadata, s: State) {
    m.mounted && m.mountpoint == s.mountpoint && m.pid == s.pid
  }

  /** refreshWorkspaceMetadata. saved is what it writes back; saves says whether writing succeeds. */
  method Refresh(r: Runtime, alive: Alive, meta: Metadata, saves: bool)
    returns (m: Metadata, ok: bool, saved: Option<Metadata>)
    requires r.Valid() && WellFormed(meta)
    ensures m.profile == meta.profile && m.agent == meta.agent && WellFormed(m)
    ensures ok ==> Agrees(r.table, alive, m)
    ensures ok ==> if m == meta then saved.None? || saved == Some(m) else saved == Some(m)
    ensures Agrees(r.table, alive, meta) ==> ok && m == meta && saved.None?
    ensures saved.Some? ==> ok && saves
    ensures !ok ==> !saves || Damaged(r.table)
    ensures ok && m.mounted && !OnLive(r.table, alive, meta) ==> exists s :: Recovered(r.table, alive, meta, s) && Names(m, s)
    ensures ok && m.mounted ==> (Foreign(meta, r.table[m.mountpoint].state) <==> OnForeign(r.table, alive, meta))
  {
    m, saved := meta, None;
    if !meta.mounted || meta.mountpoint == "" || meta.pid == 0 {
      var f := FindByAgent(r, meta.profile, meta.agent, meta.mountpoint, Mounts(alive));
      if f.Unreadable? {
        return m, false, None;
      }
      if f.Found? {
        FoundLive(r.table, alive, f.state);
        m := m.(mountpoint := f.state.mountpoint, mounted := true, pid := f.state.pid);
        assert Recovered(r.table, alive, meta, f.state) && Names(m, f.state);
        ok := saves;
        saved := if saves then Some(m) else None;
        return;
      }
      return m, true, None;
    }
    var l := r.Load(meta.mountpoint);
    if l.Found? && l.state.pid == meta.pid && Live(alive, l.state) {
      return m, true, None;
    }
    if l.Unreadable? {
      return m, false, None;
    }
    var f := FindByAgent(r, meta.profile, meta.agent, meta.mountpoint, Mounts(alive));
    if f.Unreadable? {
      return m, false, None;
    }
    if f.Found? {
      FoundLive(r.table, alive, f.state);
      m := m.(mountpoint := f.state.mountpoint, mounted := true, pid := f.state.pid);
      assert Recovered(r.table, alive, meta, f.state) && Names(m, f.state);
    } else {
      m := m.(mountpoint := "", mounted := false, pid := 0);
    }
    ok := saves;
    saved := if saves then Some(m) else None;
  }

  lemma FoundLive(t: Table, alive: Alive, s: State)
    requires TableOk(t) && Recorded(t, s) && Live(alive, s)
    ensures s.mountpoint != "" && s.pid != 0 && s.mountpoint in t && t[s.mountpoint] == Good(s)
  {
  }

  /** A second refresh changes nothing and writes nothing. */
  method RefreshTwice(r: Runtime, alive: Alive, meta: Metadata, saves: bool)
    returns (once: Metadata, ok: bool, twice: Metadata, again: bool, saved: Option<Metadata>)
    requires r.Valid() && WellFormed(meta)
    ensures ok ==> again && twice == once && saved.None?
  {
    once, ok, saved := Refresh(r, alive, meta, saves);
    twice, again, saved := Refresh(r, alive, once, saves);
  }

  /** Before a Save for mountpoint m: the metadata names another mountpoint, whose live record a refresh would keep or take. */
  ghost predicate Elsewhere(t: Table, alive: Alive, meta: Metadata, m: string) {
    meta.mountpoint != m &&
    (OnLive(t, alive, meta) || Hit(t, meta.profile, meta.agent, meta.mountpoint, Mounts(alive)))
  }

  /** The agent's other live records are older than now. */
  ghost predicate Later(t: Table, alive: Alive, s: State, now: int) {
    forall x :: Recorded(t, x) && x.mountpoint != s.mountpoint && Selected(s.profile, s.agent, Mounts(alive), x) ==> x.updated < now
  }

  /** The record just saved is the one to recover. */
  lemma SavedRecovered(t: Table, alive: Alive, meta: Metadata, s: State, now: int)
    requires TableOk(t) && s.mountpoint != "" && Live(alive, s) && !Foreign(meta, s) && Later(t, alive, s, now)
    requires !Elsewhere(t, alive, meta, s.mountpoint)
    ensures Recovered(Saved(t, s, now), alive, meta, s.(updated := now))
  {
    var u, newest := Saved(t, s, now), s.(updated := now);
    SavedRecords(t, s, now, newest);
    if meta.mountpoint != s.mountpoint {
      forall x | Recorded(u, x) && Selected(s.profile, s.agent, Mounts(alive), x) ensures Beats(newest, x) {
        SavedRecords(t, s, now, x);
      }
      assert Newest(u, s.profile, s.agent, Mounts(alive), newest);
    }
  }

  /**
   A mount is recorded and its agent's metadata refreshed. The metadata then names that mount, unless it named
   another mountpoint whose record a refresh still accepts.
   */
  method SaveThenRefresh(r: Runtime, alive: Alive, s: State, now: int, meta: Metadata, saves: bool)
    returns (m: Metadata, ok: bool, saved: Option<Metadata>)
    requires r.Valid() && s.mountpoint != "" && WellFormed(meta) && Live(alive, s) && !Foreign(meta, s)
    requires Later(r.table, alive, s, now)
    modifies r
    ensures ok ==> (Names(m, s) <==> !Elsewhere(old(r.table), alive, meta, s.mountpoint))
    ensures Recorded(r.table, s.(updated := now)) && r.Valid()
  {
    r.Save(s, now);
    m, ok, saved := Refresh(r, alive, meta, saves);
    SavedRecords(old(r.table), s, now, s.(updated := now));
    if ok && !Elsewhere(old(r.table), alive, meta, s.mountpoint) {
      SavedRecovered(old(r.table), alive, meta, s, now);
      ThenNamed(r.table, alive, meta, s.(updated := now), m);
    }
  }

  /** A refresh that recovers, when s is the record to recover. */
  lemma ThenNamed(t: Table, alive: Alive, meta: Metadata, s: State, m: Metadata)
    requires TableOk(t) && Recovered(t, alive, meta, s) && Agrees(t, alive, m)
    requires m.profile == meta.profile && m.agent == meta.agent
    requires OnLive(t, alive, meta) ==> m == meta && meta.mountpoint == s.mountpoint
    requires m.mounted && !OnLive(t, alive, meta) ==> exists x :: Recovered(t, alive, meta, x) && Names(m, x)
    ensures Names(m, s)
  {
    if !OnLive(t, alive, meta) {
      assert Recorded(t, s) && Selected(meta.profile, meta.agent, Mounts(alive), s);
      var x :| Recovered(t, alive, meta, x) && Names(m, x);
      ChosenOnce(t, meta.profile, meta.agent, meta.mountpoint, Mounts(alive), s, x);
    } else {
      assert Recorded(t, s);
    }
  }

  /** A refresh that keeps another agent's record: agent x is not mounted at all, and stays mounted on y's. */
  lemma ForeignMount(alive: Alive)
    requires alive(7)
    ensures var t: Table := map["/m" := Good(State("p", "y", "/m", 7, Mounted, 1))];
            var m := Metadata("p", "x", "/m", true, 7);
            TableOk(t) && WellFormed(m) && OnForeign(t, alive, m) && Agrees(t, alive, m) && !HasLive(t, alive, "p", "x")
  {
  }

  // ----- Inspecting

  /** The record that inspectWorkspaceState looks at. */
  ghost predicate Inspected(t: Table, profile: string, agent: string, hint: string, s: State) {
    Chosen(t, profile, agent, hint, _ => true, s)
  }

  /** The agent has a live mount, and the record that is looked at is not one. */
  ghost predicate Hidden(t: Table, alive: Alive, profile: string, agent: string, hint: string) {
    HasLive(t, alive, profile, agent) && exists s :: Inspected(t, profile, agent, hint, s) && !Live(alive, s)
  }

  /**
   inspectWorkspaceState, as far as it decides whether the workspace is mounted. It reports a mount exactly when the
   record it looks at is live, so it is right about the agent having one exactly when none is hidden.
   */
  method Inspect(r: Runtime, alive: Alive, profile: string, agent: string, hint: string) returns (mounted: bool, ok: bool)
    requires r.Valid()
    ensures ok <==> !Damaged(r.table) || Hit(r.table, profile, agent, hint, _ => true)
    ensures ok ==> (mounted <==> exists s :: Inspected(r.table, profile, agent, hint, s) && Live(alive, s))
    ensures ok && mounted ==> HasLive(r.table, alive, profile, agent)
    ensures ok ==> ((mounted <==> HasLive(r.table, alive, profile, agent)) <==> !Hidden(r.table, alive, profile, agent, hint))
  {
    var f := FindByAgent(r, profile, agent, hint, _ => true);
    if f.Unreadable? {
      return false, false;
    }
    mounted, ok := f.Found? && Live(alive, f.state), true;
    if f.Found? {
      assert Inspected(r.table, profile, agent, hint, f.state);
      forall s | Inspected(r.table, profile, agent, hint, s) ensures s == f.state {
        ChosenOnce(r.table, profile, agent, hint, _ => true, s, f.state);
      }
    }
  }

  /** If inspect reports a mount, then an error-free refresh does too. */
  method InspectThenRefresh(r: Runtime, alive: Alive, meta: Metadata, saves: bool)
    returns (mounted: bool, ok: bool, m: Metadata, refreshed: bool)
    requires r.Valid() && WellFormed(meta)
    ensures ok && mounted && refreshed ==> m.mounted
  {
    mounted, ok := Inspect(r, alive, meta.profile, meta.agent, meta.mountpoint);
    var saved;
    m, refreshed, saved := Refresh(r, alive, meta, saves);
  }

  /** The converse fails: inspect looks at the newest record, which may be a failed one beside an older live mount. */
  lemma InspectMisses(alive: Alive)
    requires alive(7)
    ensures var t: Table := map[
              "/a" := Good(State("p", "x", "/a", 7, Mounted, 1)), "/b" := Good(State("p", "x", "/b", 8, Failed, 2))];
            TableOk(t) && Hidden(t, alive, "p", "x", "")
  {
    var (older, newer) := (State("p", "x", "/a", 7, Mounted, 1), State("p", "x", "/b", 8, Failed, 2));
    var t: Table := map["/a" := Good(older), "/b" := Good(newer)];
    assert t["/a"] == Good(older) && t["/b"] == Good(newer);
    assert Recorded(t, older) && Recorded(t, newer) && Live(alive, older);
    assert Inspected(t, "p", "x", "", newer);
  }
}
