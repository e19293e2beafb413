/**
 The connection cache of exportfs.Client: connect looks at the cache in one
 critical section, dials without the lock, and publishes in a second one, while
 any caller may report a broken connection through recordError. Client holds the
 two fields and the three critical sections; the state machine below interleaves
 them for any number of callers.
 */
module Connection {
  import opened Wrappers

  /** c.client and c.unhealthy; a 9P client is named by the stream it runs on. */
  datatype Cache = Cache(client: Option<nat>, unhealthy: bool)

  datatype Verdict = Refused | Use(client: nat) | Dial

  /** What recordError distinguishes: the errors that mean a lost stream, and all others. */
  datatype Kind = Lost | Other

  // ----- The critical sections

  function Check(c: Cache): Verdict {
    if c.unhealthy then Refused else if c.client.Some? then Use(c.client.value) else Dial
  }

  /** The second section of connect, for a caller that holds stream s: new cache, result, and whether s is closed. */
  function Publish(c: Cache, s: nat): (Cache, Verdict, bool) {
    if c.unhealthy then (c, Refused, true)
    else if c.client.Some? then (c, Use(c.client.value), true)
    else (Cache(Some(s), false), Use(s), false)
  }

  /** recordError: new cache, and the stream it closes. */
  function Record(c: Cache, k: Kind): (Cache, Option<nat>) {
    if k == Lost then (Cache(None, true), c.client) else (c, None)
  }

  /**
   The two fields of exportfs.Client and its critical sections, each of which holds the mutex throughout. Their
   contracts tie the code to Check, Publish and Record, from which the state machine below is built.
   */
  class Client {
    var client: Option<nat>
    var unhealthy: bool

    ghost function State(): Cache
      reads this
    {
      Cache(client, unhealthy)
    }

    constructor ()
      ensures State() == Cache(None, false)
    {
      client, unhealthy := None, false;
    }

    method CheckCache() returns (v: Verdict)
      ensures v == Check(State())
    {
      if unhealthy {
        return Refused;
      }
      if client.Some? {
        return Use(client.value);
      }
      return Dial;
    }

    method PublishStream(s: nat) returns (v: Verdict, closed: bool)
      modifies this
      ensures (State(), v, closed) == Publish(old(State()), s)
      ensures old(unhealthy) ==> unhealthy
    {
      if unhealthy {
        return Refused, true;
      }
      if client.Some? {
        return Use(client.value), true;
      }
      client := Some(s);
      return Use(s), false;
    }

    method RecordError(k: Kind) returns (closed: Option<nat>)
      modifies this
      ensures (State(), closed) == Record(old(State()), k)
      ensures old(unhealthy) ==> unhealthy
    {
      if k != Lost {
        return None;
      }
      closed := client;
      unhealthy := true;
      client := None;
    }
  }

  // ----- Interleavings

  /** Where a call of connect stands. Holding means its stream is open and not yet published. */
  datatype Phase = Idle | Dialing | Holding(stream: nat) | Failing(error: Kind) | Done(result: Verdict)

  /** The cache, the number of streams opened, how often each was closed, the calls, and every client returned. */
  datatype World = World(cache: Cache, streams: nat, closes: multiset<nat>, calls: map<nat, Phase>, handed: set<nat>)

  datatype Action =
    | Begin(i: nat)                // first critical section
    | OpenFails(i: nat, k: Kind)   // OpenExportFS returns an error
    | OpenSucceeds(i: nat)
    | HandshakeFails(i: nat, k: Kind) // Version or Attach fails: the stream is closed
    | Report(i: nat)               // the failed call runs recordError
    | Finish(i: nat)               // handshake done, second critical section
    | Operation(k: Kind)           // an operation on a client runs recordError

  ghost function PhaseOf(w: World, i: nat): Phase {
    if i in w.calls then w.calls[i] else Idle
  }

  ghost function Hand(w: World, v: Verdict): set<nat> {
    if v.Use? then w.handed + {v.client} else w.handed
  }

  ghost function CloseAll(closes: multiset<nat>, s: Option<nat>): multiset<nat> {
    if s.Some? then closes + multiset{s.value} else closes
  }

  ghost predicate Enabled(w: World, a: Action) {
    match a
    case Begin(i) => PhaseOf(w, i).Idle?
    case OpenFails(i, _) => PhaseOf(w, i).Dialing?
    case OpenSucceeds(i) => PhaseOf(w, i).Dialing?
    case HandshakeFails(i, _) => PhaseOf(w, i).Holding?
    case Report(i) => PhaseOf(w, i).Failing?
    case Finish(i) => PhaseOf(w, i).Holding?
    case Operation(_) => true
  }

  ghost function Next(w: World, a: Action): World
    requires Enabled(w, a)
  {
    match a
    case Begin(i) =>
      var v := Check(w.cache);
      w.(calls := w.calls[i := if v.Dial? then Dialing else Done(v)], handed := Hand(w, v))
    case OpenFails(i, k) => w.(calls := w.calls[i := Failing(k)])
    case OpenSucceeds(i) => w.(streams := w.streams + 1, calls := w.calls[i := Holding(w.streams)])
    case HandshakeFails(i, k) =>
      w.(calls := w.calls[i := Failing(k)], closes := w.closes + multiset{PhaseOf(w, i).stream})
    case Report(i) =>
      var (c, s) := Record(w.cache, PhaseOf(w, i).error);
      w.(cache := c, closes := CloseAll(w.closes, s), calls := w.calls[i := Done(Refused)])
    case Finish(i) =>
      var s := PhaseOf(w, i).stream;
      var (c, v, closed) := Publish(w.cache, s);
      w.(cache := c, calls := w.calls[i := Done(v)], handed := Hand(w, v),
         closes := if closed then w.closes + multiset{s} else w.closes)
    case Operation(k) =>
      var (c, s) := Record(w.cache, k);
      w.(cache := c, closes := CloseAll(w.closes, s))
  }

  ghost predicate Init(w: World) {
    w == World(Cache(None, false), 0, multiset{}, map[], {})
  }

  /** A run: every action is enabled in the state it finds. */
  ghost predicate Run(ws: seq<World>, acts: seq<Action>) {
    |ws| == |acts| + 1 && Init(ws[0]) &&
    forall j :: 0 <= j < |acts| ==> Enabled(ws[j], acts[j]) && ws[j + 1] == Next(ws[j], acts[j])
  }

  // ----- The invariant

  ghost predicate Held(w: World, i: nat, s: nat) {
    i in w.calls && w.calls[i] == Holding(s)
  }

  ghost predicate IsHeld(w: World, s: nat) {
    exists i :: Held(w, i, s)
  }

  ghost predicate Cached(w: World, s: nat) {
    w.cache.client == Some(s)
  }

  /** Every opened stream is in exactly one place: closed once, cached, or held by one running call. */
  ghost predicate Placed(w: World, s: nat) {
    if w.closes[s] != 0 then w.closes[s] == 1 && !Cached(w, s) && !IsHeld(w, s)
    else Cached(w, s) != IsHeld(w, s)
  }

  ghost predicate Inv(w: World) {
    (w.cache.unhealthy ==> w.cache.client.None?) &&
    (forall s :: w.streams <= s ==> w.closes[s] == 0 && !Cached(w, s) && !IsHeld(w, s)) &&
    (forall s :: 0 <= s < w.streams ==> Placed(w, s)) &&
    (forall i, j, s :: Held(w, i, s) && Held(w, j, s) ==> i == j) &&
    (forall s, t :: s in w.handed && t in w.handed ==> s == t) &&
    (!w.cache.unhealthy ==> w.handed == (if w.cache.client.Some? then {w.cache.client.value} else {})) &&
    (forall i :: i in w.calls && w.calls[i].Done? && w.calls[i].result.Use? ==> w.calls[i].result.client in w.handed)
  }

  lemma InitInv(w: World)
    requires Init(w)
    ensures Inv(w)
  {
  }

  /** Moving call i to a phase that holds no stream leaves the other calls' streams as they are. */
  lemma Released(w: World, w': World, i: nat, p: Phase)
    requires w'.calls == w.calls[i := p] && !p.Holding?
    ensures forall j, s :: Held(w', j, s) <==> j != i && Held(w, j, s)
  {
  }

  lemma BeginStep(w: World, i: nat)
    requires Inv(w) && Enabled(w, Begin(i))
    ensures Inv(Next(w, Begin(i)))
  {
    var w' := Next(w, Begin(i));
    var v := Check(w.cache);
    Released(w, w', i, if v.Dial? then Dialing else Done(v));
    assert forall j, s :: Held(w', j, s) <==> Held(w, j, s);
    SamePlaces(w, w');
  }

  /** The same streams are closed, cached and held. */
  lemma SamePlaces(w: World, w': World)
    requires w'.closes == w.closes && w'.cache == w.cache
    requires forall j, s :: Held(w', j, s) <==> Held(w, j, s)
    ensures forall s :: IsHeld(w', s) <==> IsHeld(w, s)
    ensures forall s :: Placed(w', s) <==> Placed(w, s)
  {
    forall s ensures IsHeld(w', s) <==> IsHeld(w, s) {
      if IsHeld(w, s) {
        var j :| Held(w, j, s);
        assert Held(w', j, s);
      }
    }
  }

  lemma OpenFailsStep(w: World, i: nat, k: Kind)
    requires Inv(w) && Enabled(w, OpenFails(i, k))
    ensures Inv(Next(w, OpenFails(i, k)))
  {
    var w' := Next(w, OpenFails(i, k));
    Released(w, w', i, Failing(k));
    SamePlaces(w, w');
  }

  lemma OpenSucceedsStep(w: World, i: nat)
    requires Inv(w) && Enabled(w, OpenSucceeds(i))
    ensures Inv(Next(w, OpenSucceeds(i)))
  {
    var w' := Next(w, OpenSucceeds(i));
    var n := w.streams;
    assert forall j, s :: Held(w', j, s) <==> Held(w, j, s) || (j == i && s == n);
    forall s ensures IsHeld(w', s) <==> IsHeld(w, s) || s == n {
      assert Held(w', i, n);
      if IsHeld(w, s) {
        var j :| Held(w, j, s);
        assert Held(w', j, s);
      }
    }
    assert !IsHeld(w, n);
    forall s | 0 <= s < w'.streams ensures Placed(w', s) {
      assert s < n ==> Placed(w, s);
    }
    forall j, k, s | Held(w', j, s) && Held(w', k, s) ensures j == k {
      assert s == n ==> !Held(w, j, s) && !Held(w, k, s);
    }
  }

  /** Call i gives up its stream. */
  lemma GivesUp(w: World, w': World, i: nat, p: Phase)
    requires Inv(w) && PhaseOf(w, i).Holding? && w'.calls == w.calls[i := p] && !p.Holding?
    ensures var n := PhaseOf(w, i).stream;
            n < w.streams && w.closes[n] == 0 && !Cached(w, n) && !IsHeld(w', n)
    ensures forall s :: s != PhaseOf(w, i).stream ==> (IsHeld(w', s) <==> IsHeld(w, s))
    ensures forall j, s :: Held(w', j, s) ==> Held(w, j, s)
  {
    var n := PhaseOf(w, i).stream;
    Released(w, w', i, p);
    assert Held(w, i, n);
    assert IsHeld(w, n);
    assert n < w.streams && Placed(w, n);
    forall s | s != n ensures IsHeld(w', s) <==> IsHeld(w, s) {
      if IsHeld(w, s) {
        var j :| Held(w, j, s);
        assert Held(w', j, s);
      }
    }
  }

  lemma HandshakeFailsStep(w: World, i: nat, k: Kind)
    requires Inv(w) && Enabled(w, HandshakeFails(i, k))
    ensures Inv(Next(w, HandshakeFails(i, k)))
  {
    var w' := Next(w, HandshakeFails(i, k));
    GivesUp(w, w', i, Failing(k));
    forall s | 0 <= s < w'.streams ensures Placed(w', s) {
      assert Placed(w, s);
    }
  }

  lemma FinishStep(w: World, i: nat)
    requires Inv(w) && Enabled(w, Finish(i))
    ensures Inv(Next(w, Finish(i)))
  {
    var w' := Next(w, Finish(i));
    var (c, v, closed) := Publish(w.cache, PhaseOf(w, i).stream);
    GivesUp(w, w', i, Done(v));
    forall s | 0 <= s < w'.streams ensures Placed(w', s) {
      assert Placed(w, s);
    }
  }

  /** Closing the cached stream and forgetting it. */
  lemma RecordPlaces(w: World, w': World, k: Kind)
    requires Inv(w) && w'.streams == w.streams && (w'.cache, w'.closes) == (Record(w.cache, k).0, CloseAll(w.closes, Record(w.cache, k).1))
    requires forall j, s :: Held(w', j, s) <==> Held(w, j, s)
    ensures forall s :: IsHeld(w', s) <==> IsHeld(w, s)
    ensures forall s :: w.streams <= s ==> w'.closes[s] == 0 && !Cached(w', s) && !IsHeld(w', s)
    ensures forall s :: 0 <= s < w.streams ==> Placed(w', s)
  {
    forall s ensures IsHeld(w', s) <==> IsHeld(w, s) {
      if IsHeld(w, s) {
        var j :| Held(w, j, s);
        assert Held(w', j, s);
      }
    }
    forall s | 0 <= s < w.streams ensures Placed(w', s) {
      assert Placed(w, s);
    }
  }

  lemma ReportStep(w: World, i: nat)
    requires Inv(w) && Enabled(w, Report(i))
    ensures Inv(Next(w, Report(i)))
  {
    var w' := Next(w, Report(i));
    Released(w, w', i, Done(Refused));
    RecordPlaces(w, w', PhaseOf(w, i).error);
  }

  lemma OperationStep(w: World, k: Kind)
    requires Inv(w)
    ensures Inv(Next(w, Operation(k)))
  {
    RecordPlaces(w, Next(w, Operation(k)), k);
  }

  lemma StepInv(w: World, a: Action)
    requires Inv(w) && Enabled(w, a)
    ensures Inv(Next(w, a))
  {
    match a
    case Begin(i) => BeginStep(w, i);
    case OpenFails(i, k) => OpenFailsStep(w, i, k);
    case OpenSucceeds(i) => OpenSucceedsStep(w, i);
    case HandshakeFails(i, k) => HandshakeFailsStep(w, i, k);
    case Report(i) => ReportStep(w, i);
    case Finish(i) => FinishStep(w, i);
    case Operation(k) => OperationStep(w, k);
  }

  lemma {:induction false} RunInv(ws: seq<World>, acts: seq<Action>, j: nat)
    requires Run(ws, acts) && j < |ws|
    ensures Inv(ws[j])
  {
    if j == 0 {
      InitInv(ws[0]);
    } else {
      RunInv(ws, acts, j - 1);
      StepInv(ws[j - 1], acts[j - 1]);
      assert ws[j - 1 + 1] == Next(ws[j - 1], acts[j - 1]);
    }
  }

  // ----- What the cache promises

  lemma {:induction false} Monotone(ws: seq<World>, acts: seq<Action>, j: nat, k: nat)
    requires Run(ws, acts) && j <= k < |ws|
    ensures ws[j].cache.unhealthy ==> ws[k].cache.unhealthy
    ensures ws[j].handed <= ws[k].handed
    decreases k
  {
    if j < k {
      Monotone(ws, acts, j, k - 1);
      assert ws[k - 1 + 1] == Next(ws[k - 1], acts[k - 1]);
    }
  }

  /** In state w, call i has returned client s. */
  ghost predicate Returned(w: World, i: nat, s: nat) {
    PhaseOf(w, i) == Done(Use(s))
  }

  /** At most one distinct client is ever handed out, over the whole run. */
  lemma OneClient(ws: seq<World>, acts: seq<Action>, j: nat, k: nat, i: nat, i': nat, s: nat, s': nat)
    requires Run(ws, acts) && j < |ws| && k < |ws| && Returned(ws[j], i, s) && Returned(ws[k], i', s')
    ensures s == s'
  {
    var last := |ws| - 1;
    RunInv(ws, acts, j);
    RunInv(ws, acts, k);
    RunInv(ws, acts, last);
    Monotone(ws, acts, j, last);
    Monotone(ws, acts, k, last);
  }

  /** Unhealthy is sticky, leaves no cached client, and from then on no call returns one that was not returned before. */
  lemma UnhealthySticks(ws: seq<World>, acts: seq<Action>, j: nat, k: nat)
    requires Run(ws, acts) && j <= k < |ws| && ws[j].cache.unhealthy
    ensures ws[k].cache == Cache(None, true) && ws[k].handed == ws[j].handed
    decreases k
  {
    RunInv(ws, acts, k);
    Monotone(ws, acts, j, k);
    if j < k {
      UnhealthySticks(ws, acts, j, k - 1);
      assert ws[k - 1 + 1] == Next(ws[k - 1], acts[k - 1]);
    }
  }

  // ----- What makes the connection unhealthy

  /** The m-th action fails call i with error k. */
  ghost predicate Fails(acts: seq<Action>, m: nat, i: nat, k: Kind) {
    m < |acts| && (acts[m] == OpenFails(i, k) || acts[m] == HandshakeFails(i, k))
  }

  /** The m-th action reports a lost stream: an operation does, or a call that failed with that error before. */
  ghost predicate Loses(acts: seq<Action>, m: nat) {
    m < |acts| &&
    (acts[m] == Operation(Lost) || (acts[m].Report? && exists k: nat :: k < m && Fails(acts, k, acts[m].i, Lost)))
  }

  /** A call that waits to report its error failed with it, and with no other. */
  lemma {:induction false} FailingFrom(ws: seq<World>, acts: seq<Action>, j: nat, i: nat, k: Kind)
    requires Run(ws, acts) && j < |ws| && PhaseOf(ws[j], i) == Failing(k)
    ensures exists m: nat :: m < j && Fails(acts, m, i, k)
    decreases j
  {
    if j > 0 {
      assert ws[j - 1 + 1] == Next(ws[j - 1], acts[j - 1]);
      if PhaseOf(ws[j - 1], i) == Failing(k) {
        FailingFrom(ws, acts, j - 1, i, k);
      } else {
        assert Fails(acts, j - 1, i, k);
      }
    }
  }

  lemma {:induction false} FailsOnce(ws: seq<World>, acts: seq<Action>, m: nat, j: nat, i: nat, k: Kind)
    requires Run(ws, acts) && m < j < |ws| && Fails(acts, m, i, k)
    ensures PhaseOf(ws[j], i) == Failing(k) || PhaseOf(ws[j], i).Done?
    decreases j
  {
    var w, a := ws[j - 1], acts[j - 1];
    assert ws[j - 1 + 1] == Next(w, a);
    if m < j - 1 {
      FailsOnce(ws, acts, m, j - 1, i, k);
      FailedStep(w, a, i, k);
    }
  }

  lemma FailedStep(w: World, a: Action, i: nat, k: Kind)
    requires Enabled(w, a) && (PhaseOf(w, i) == Failing(k) || PhaseOf(w, i).Done?)
    ensures var p := PhaseOf(Next(w, a), i); p == Failing(k) || p.Done?
  {
  }

  /** One step changes the health exactly when it reports a lost stream. */
  lemma LosesStep(ws: seq<World>, acts: seq<Action>, j: nat)
    requires Run(ws, acts) && j < |acts|
    ensures ws[j + 1].cache.unhealthy <==> ws[j].cache.unhealthy || Loses(acts, j)
    ensures !Loses(acts, j) && ws[j].cache.client.Some? ==> ws[j + 1].cache == ws[j].cache
  {
    assert ws[j + 1] == Next(ws[j], acts[j]);
    if acts[j].Report? {
      var i := acts[j].i;
      FailingFrom(ws, acts, j, i, PhaseOf(ws[j], i).error);
      if Loses(acts, j) {
        var m: nat :| m < j && Fails(acts, m, i, Lost);
        FailsOnce(ws, acts, m, j, i, Lost);
      }
    }
  }

  /** The connection is unhealthy exactly when a lost stream has been reported, and no other error makes it so. */
  lemma {:induction false} UnhealthyIff(ws: seq<World>, acts: seq<Action>, j: nat)
    requires Run(ws, acts) && j < |ws|
    ensures ws[j].cache.unhealthy <==> exists m: nat :: m < j && Loses(acts, m)
    decreases j
  {
    if j > 0 {
      UnhealthyIff(ws, acts, j - 1);
      LosesStep(ws, acts, j - 1);
    }
  }

  /** Until a lost stream is reported, a client that has been cached stays so, and open. */
  lemma {:induction false} CachedStays(ws: seq<World>, acts: seq<Action>, j: nat, k: nat, s: nat)
    requires Run(ws, acts) && j <= k < |ws| && Cached(ws[j], s)
    requires forall m: nat :: j <= m < k ==> !Loses(acts, m)
    ensures Cached(ws[k], s) && ws[k].closes[s] == 0
    decreases k
  {
    if j < k {
      CachedStays(ws, acts, j, k - 1, s);
      LosesStep(ws, acts, k - 1);
    }
    RunInv(ws, acts, k);
    CachedOpen(ws[k], s);
  }

  lemma CachedOpen(w: World, s: nat)
    requires Inv(w) && Cached(w, s)
    ensures s < w.streams && w.closes[s] == 0
  {
    assert s < w.streams ==> Placed(w, s);
  }

  /** No stream leaks and none is closed twice: each is closed once, cached, or held by exactly one running call. */
  lemma NoLeak(ws: seq<World>, acts: seq<Action>, j: nat, s: nat)
    requires Run(ws, acts) && j < |ws| && s < ws[j].streams
    ensures ws[j].closes[s] == 1 || Cached(ws[j], s) || IsHeld(ws[j], s)
    ensures ws[j].closes[s] <= 1 && !(Cached(ws[j], s) && IsHeld(ws[j], s))
    ensures Cached(ws[j], s) || IsHeld(ws[j], s) ==> ws[j].closes[s] == 0
  {
    RunInv(ws, acts, j);
    assert Placed(ws[j], s);
  }

  /** Once the connection is lost and no call is running, every stream has been closed. */
  lemma AllClosed(ws: seq<World>, acts: seq<Action>, j: nat, s: nat)
    requires Run(ws, acts) && j < |ws| && s < ws[j].streams && ws[j].cache.unhealthy
    requires forall i :: i in ws[j].calls ==> !ws[j].calls[i].Holding?
    ensures ws[j].closes[s] == 1
  {
    NoLeak(ws, acts, j, s);
    RunInv(ws, acts, j);
  }

  /** A client that connect returns is open at that moment. */
  lemma ReturnsOpen(ws: seq<World>, acts: seq<Action>, j: nat, i: nat, s: nat)
    requires Run(ws, acts) && j < |acts| && !Returned(ws[j], i, s) && Returned(ws[j + 1], i, s)
    ensures ws[j + 1].closes[s] == 0 && Cached(ws[j + 1], s) && s < ws[j + 1].streams
  {
    RunInv(ws, acts, j);
    RunInv(ws, acts, j + 1);
    assert ws[j + 1] == Next(ws[j], acts[j]);
    assert Cached(ws[j + 1], s);
    assert s < ws[j + 1].streams;
    assert Placed(ws[j + 1], s);
  }

  /** Call i has returned a client, which is the cached one. */
  ghost predicate Served(w: World, i: nat) {
    var p := PhaseOf(w, i);
    p.Done? && p.result.Use? && Cached(w, p.result.client)
  }

  /** While the connection is healthy, neither critical section refuses, and the second one returns a client. */
  lemma HealthyServes(ws: seq<World>, acts: seq<Action>, j: nat, i: nat)
    requires Run(ws, acts) && j < |acts| && !ws[j].cache.unhealthy
    ensures acts[j] == Begin(i) ==> if ws[j].handed == {} then PhaseOf(ws[j + 1], i).Dialing? else Served(ws[j + 1], i)
    ensures acts[j] == Finish(i) ==> Served(ws[j + 1], i)
  {
    RunInv(ws, acts, j);
    assert ws[j + 1] == Next(ws[j], acts[j]);
  }

  /** Once it is lost, both sections refuse, and nothing more is dialled. */
  lemma LostRefuses(ws: seq<World>, acts: seq<Action>, j: nat, i: nat)
    requires Run(ws, acts) && j < |acts| && ws[j].cache.unhealthy && acts[j] in {Begin(i), Finish(i)}
    ensures PhaseOf(ws[j + 1], i) == Done(Refused)
  {
    assert ws[j + 1] == Next(ws[j], acts[j]);
  }
}
