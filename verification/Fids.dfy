/**
 Fids: the operations of exportfs.Client over a 9P server's fid table, and
 AllocFID of ninep.Client. Every reply of the server is its own choice, so the
 contracts hold for every mix of errors; calls are not cancelled half-way.
 */
module Fids {
  import opened Wrappers

  const NOFID: nat := 0xFFFF_FFFF

  /** The fid of the attach, which stays. */
  const ROOT: nat := 1

  // ----- AllocFID

  /** How the counter moves: 32-bit increment, skipping NOFID, 0 and 1. */
  function NextFid(fid: nat): nat {
    var next := (fid + 1) % 0x1_0000_0000;
    if next == NOFID then 2 else next
  }

  /** The counter after k allocations from fid. */
  function After(fid: nat, k: nat): nat {
    if k == 0 then fid else NextFid(After(fid, k - 1))
  }

  /** The number of fids that AllocFID goes through. */
  const WINDOW: nat := 0xFFFF_FFFD

  lemma {:induction false} AfterValue(fid: nat, k: nat)
    requires 2 <= fid < NOFID
    ensures After(fid, k) == 2 + (fid - 2 + k) % WINDOW
  {
    if k > 0 {
      AfterValue(fid, k - 1);
      NextOffset(fid - 2 + (k - 1));
    }
  }

  lemma NextOffset(m: nat)
    ensures NextFid(2 + m % WINDOW) == 2 + (m + 1) % WINDOW
  {
    var (q, r) := (m / WINDOW, m % WINDOW);
    assert m + 1 == q * WINDOW + (r + 1);
  }

  /** AllocFID never yields 0, 1 or NOFID, and repeats a fid exactly when a multiple of WINDOW allocations lies between. */
  lemma FreshInWindow(fid: nat, i: nat, j: nat)
    requires 2 <= fid < NOFID && i <= j
    ensures 2 <= After(fid, i) < NOFID
    ensures After(fid, i) == After(fid, j) <==> (j - i) % WINDOW == 0
  {
    AfterValue(fid, i);
    AfterValue(fid, j);
    var (a, b) := (fid - 2 + i, fid - 2 + j);
    SameRemainder(a, b);
  }

  lemma SameRemainder(a: nat, b: nat)
    requires a <= b
    ensures a % WINDOW == b % WINDOW <==> (b - a) % WINDOW == 0
  {
    var (q, r, q', r') := (a / WINDOW, a % WINDOW, b / WINDOW, b % WINDOW);
    assert b - a == (q' - q) * WINDOW + (r' - r);
  }

  // ----- The server

  class Server {
    var fids: set<nat>
    /** How many requests it has answered by an error: those that do the work, and the clunks. */
    ghost var refused: nat
    ghost var clunkErrors: nat
    /** How many requests on an established fid it has served. */
    ghost var served: nat
    /** The server refuses nothing that the protocol allows. */
    const obliging: bool

    constructor (obliging: bool)
      ensures fids == {ROOT} && this.obliging == obliging
    {
      fids, this.obliging := {ROOT}, obliging;
      refused, clunkErrors, served := 0, 0, 0;
    }

    /** Twalk: an error, a partial walk (which establishes nothing, though it is not an error), or a full one. */
    method Walk(newfid: nat) returns (ok: bool)
      modifies this`fids, this`refused
      ensures ok <==> refused == old(refused)
      ensures refused >= old(refused)
      ensures fids == old(fids) || (ok && newfid !in old(fids) && fids == old(fids) + {newfid})
      ensures newfid in old(fids) ==> !ok
      ensures obliging && newfid !in old(fids) ==> newfid in fids
    {
      ok := *;
      if newfid in fids {
        refused := refused + 1;
        return false;
      }
      var full: bool := *;
      if obliging {
        ok, full := true, true;
      }
      if ok && full {
        fids := fids + {newfid};
      }
      refused := refused + if ok then 0 else 1;
    }

    /** Tstat, Topen, Tcreate, Tread, Twstat: they work on established fids only and keep the table. */
    method Use(fid: nat) returns (ok: bool)
      modifies this`refused, this`served
      ensures ok <==> refused == old(refused)
      ensures served == old(served) + if ok then 1 else 0
      ensures refused >= old(refused)
      ensures ok ==> fid in fids
      ensures obliging && fid in fids ==> ok
    {
      ok := *;
      ok := (ok || obliging) && fid in fids;
      refused, served := refused + if ok then 0 else 1, served + if ok then 1 else 0;
    }

    /** Tremove: the fid is gone, whether or not it reports an error. */
    method Remove(fid: nat) returns (ok: bool)
      modifies this`fids, this`refused
      ensures fids == old(fids) - {fid}
      ensures ok <==> refused == old(refused)
      ensures refused >= old(refused)
      ensures obliging && fid in old(fids) ==> ok
    {
      ok := *;
      ok := ok || obliging;
      fids := fids - {fid};
      refused := refused + if ok then 0 else 1;
    }

    /** Tclunk: likewise. */
    method Clunk(fid: nat) returns (ok: bool)
      modifies this`fids, this`clunkErrors
      ensures fids == old(fids) - {fid}
      ensures ok <==> clunkErrors == old(clunkErrors)
      ensures clunkErrors >= old(clunkErrors)
      ensures obliging && fid in old(fids) ==> ok
    {
      ok := *;
      ok := ok || obliging;
      fids := fids - {fid};
      clunkErrors := clunkErrors + if ok then 0 else 1;
    }
  }

  /** The open files with the number of allocations before theirs, and the number of allocations so far. */
  datatype Ledger = Ledger(open: map<nat, nat>, allocs: nat)

  /** Every open fid is the one its allocation yielded. */
  ghost predicate LedgerOk(l: Ledger) {
    forall f :: f in l.open ==> l.open[f] < l.allocs && f == After(2, l.open[f])
  }

  /** No file has been open for WINDOW allocations or more. */
  ghost predicate Young(l: Ledger) {
    forall f :: f in l.open ==> l.allocs - l.open[f] < WINDOW
  }

  lemma FreshFid(i: nat, k: nat)
    requires i < k < i + WINDOW
    ensures After(2, i) != After(2, k)
  {
    FreshInWindow(2, i, k);
    SmallRemainder(k - i);
  }

  lemma SmallRemainder(n: nat)
    requires 0 < n < WINDOW
    ensures n % WINDOW != 0
  {
  }

  /** The next fid is not in use, unless a file has been open for WINDOW allocations. */
  lemma NoLiveReuse(l: Ledger)
    requires LedgerOk(l) && Young(l)
    ensures After(2, l.allocs) !in l.open && After(2, l.allocs) != ROOT
  {
    FreshInWindow(2, l.allocs, l.allocs);
    forall f | f in l.open ensures f != After(2, l.allocs) {
      FreshFid(l.open[f], l.allocs);
    }
  }

  class Client {
    const server: Server
    var fid: nat
    ghost var ledger: Ledger

    /** The table holds the root and the open files, nothing else, and the counter is where the allocations led it. */
    ghost predicate Valid()
      reads this, server
    {
      LedgerOk(ledger) && fid == After(2, ledger.allocs) && server.fids == {ROOT} + ledger.open.Keys && ROOT !in ledger.open
    }

    /** Nothing forces the next operation to fail. */
    ghost predicate Ready()
      reads this, server
    {
      server.obliging && Young(ledger)
    }

    constructor (server: Server)
      requires server.fids == {ROOT}
      ensures Valid() && this.server == server && ledger == Ledger(map[], 0)
    {
      this.server := server;
      fid, ledger := 2, Ledger(map[], 0);
    }

    method AllocFID() returns (f: nat)
      requires Valid()
      modifies this`fid, this`ledger
      ensures Valid() && f == old(fid) && fid == NextFid(f) && 2 <= f < NOFID
      ensures ledger == old(ledger).(allocs := old(ledger).allocs + 1)
    {
      FreshInWindow(2, ledger.allocs, ledger.allocs);
      f := fid;
      fid := (fid + 1) % 0x1_0000_0000;
      if fid == NOFID {
        fid := 2;
      }
      ledger := ledger.(allocs := ledger.allocs + 1);
    }

    /** walkTo: on success one more fid is established, on an error none. It succeeds whenever the client is ready. */
    method WalkTo() returns (r: Option<nat>)
      requires Valid()
      modifies this`fid, this`ledger, server
      ensures LedgerOk(ledger) && fid == After(2, ledger.allocs)
      ensures ledger == old(ledger).(allocs := old(ledger).allocs + 1)
      ensures r.None? ==> server.fids == old(server.fids)
      ensures r.Some? ==> r.value == old(fid) && r.value !in old(server.fids) && server.fids == old(server.fids) + {r.value}
      ensures old(Ready()) ==> r.Some?
      ensures r.Some? <==> server.refused == old(server.refused)
      ensures r.Some? ==> server.clunkErrors == old(server.clunkErrors) && server.served == old(server.served) + 1
      ensures server.refused >= old(server.refused) && server.clunkErrors >= old(server.clunkErrors)
    {
      if Young(ledger) {
        NoLiveReuse(ledger);
      }
      var f := AllocFID();
      var ok := server.Walk(f);
      if !ok {
        return None;
      }
      ok := server.Use(f);
      if !ok {
        var _ := server.Clunk(f);
        return None;
      }
      return Some(f);
    }

    /** Stat, Rename, Chmod and Truncate (which send a Twstat), and List (an open and reads). */
    method Query(requests: nat) returns (ok: bool)
      requires Valid()
      modifies this`fid, this`ledger, server
      ensures Valid() && ledger == old(ledger).(allocs := old(ledger).allocs + 1)
      ensures old(Ready()) ==> ok
      ensures ok <==> server.refused == old(server.refused)
      ensures ok ==> server.served == old(server.served) + 1 + requests
      ensures server.refused >= old(server.refused) && server.clunkErrors >= old(server.clunkErrors)
    {
      var w := WalkTo();
      if w.None? {
        return false;
      }
      ok := true;
      var i := 0;
      while i < requests && ok
        invariant LedgerOk(ledger) && fid == After(2, ledger.allocs) && ledger == old(ledger).(allocs := old(ledger).allocs + 1)
        invariant server.fids == old(server.fids) + {w.value}
        invariant server.obliging ==> ok
        invariant i <= requests && (ok <==> server.refused == old(server.refused))
        invariant ok ==> server.served == old(server.served) + 1 + i
        invariant server.refused >= old(server.refused) && server.clunkErrors == old(server.clunkErrors)
      {
        ok := server.Use(w.value);
        i := i + 1;
      }
      var _ := server.Clunk(w.value);
    }

    /** Open and Create: the file's fid is the one walked to, or nothing is left behind. */
    method Open() returns (r: Option<nat>)
      requires Valid()
      modifies this, server
      ensures Valid()
      ensures r.Some? ==> r.value == old(fid) && r.value !in old(ledger).open
      ensures ledger == Opened(old(ledger), r)
      ensures old(Ready()) ==> r.Some?
      ensures r.Some? <==> server.refused == old(server.refused)
      ensures r.Some? ==> server.clunkErrors == old(server.clunkErrors) && server.served == old(server.served) + 2
      ensures server.refused >= old(server.refused) && server.clunkErrors >= old(server.clunkErrors)
    {
      var w := WalkTo();
      if w.None? {
        return None;
      }
      var ok := server.Use(w.value);
      if !ok {
        var _ := server.Clunk(w.value);
        return None;
      }
      ledger := ledger.(open := ledger.open[w.value := ledger.allocs - 1]);
      return w;
    }

    method Close(f: nat) returns (ok: bool)
      requires Valid() && f in ledger.open
      modifies this`ledger, server
      ensures Valid() && ledger == old(ledger).(open := old(ledger).open - {f})
      ensures server.obliging ==> ok
      ensures ok <==> server.clunkErrors == old(server.clunkErrors)
      ensures server.refused == old(server.refused) && server.clunkErrors >= old(server.clunkErrors)
    {
      ledger := ledger.(open := ledger.open - {f});
      ok := server.Clunk(f);
    }

    method Mkdir() returns (ok: bool)
      requires Valid()
      modifies this, server
      ensures Valid() && ledger == old(ledger).(allocs := old(ledger).allocs + 1)
      ensures old(Ready()) ==> ok
      ensures ok <==> server.refused == old(server.refused) && server.clunkErrors == old(server.clunkErrors)
      ensures server.refused >= old(server.refused) && server.clunkErrors >= old(server.clunkErrors)
    {
      var h := Open();
      if h.None? {
        return false;
      }
      ok := Close(h.value);
      assert old(ledger).open[h.value := old(ledger).allocs] - {h.value} == old(ledger).open;
    }

    method Remove() returns (ok: bool)
      requires Valid()
      modifies this`fid, this`ledger, server
      ensures Valid() && ledger == old(ledger).(allocs := old(ledger).allocs + 1)
      ensures old(Ready()) ==> ok
      ensures ok <==> server.refused == old(server.refused)
      ensures server.refused >= old(server.refused) && server.clunkErrors >= old(server.clunkErrors)
    {
      var w := WalkTo();
      if w.None? {
        return false;
      }
      ok := server.Remove(w.value);
    }
  }

  // ----- Whole runs

  datatype Op = DoQuery(requests: nat) | DoOpen | DoClose(f: nat) | DoMkdir | DoRemove

  /** What an operation returns. Closing what is not open is no call at all. */
  datatype Reply = Done(ok: bool) | Handle(r: Option<nat>) | NotOpen

  function Opened(l: Ledger, r: Option<nat>): Ledger {
    Ledger(if r.Some? then l.open[r.value := l.allocs] else l.open, l.allocs + 1)
  }

  /** What is open after an operation and its reply. */
  function Then(l: Ledger, op: Op, reply: Reply): Ledger {
    match op
    case DoOpen => Opened(l, if reply.Handle? then reply.r else None)
    case DoClose(f) => l.(open := l.open - {f})
    case _ => l.(allocs := l.allocs + 1)
  }

  /** What is open after operations and their replies: the fids that they yielded, minus those closed since. */
  function Replay(ops: seq<Op>, replies: seq<Reply>): Ledger
    requires |replies| == |ops|
  {
    if ops == [] then Ledger(map[], 0)
    else Then(Replay(ops[..|ops| - 1], replies[..|ops| - 1]), ops[|ops| - 1], replies[|ops| - 1])
  }

  predicate Succeeds(reply: Reply) {
    match reply
    case Done(ok) => ok
    case Handle(r) => r.Some?
    case NotOpen => true
  }

  /** One operation of a run. */
  method Perform(c: Client, op: Op) returns (reply: Reply)
    requires c.Valid()
    modifies c, c.server
    ensures c.Valid() && c.ledger == Then(old(c.ledger), op, reply)
    ensures reply.NotOpen? <==> op.DoClose? && op.f !in old(c.ledger).open
    ensures reply.Handle? <==> op.DoOpen?
    ensures reply.Handle? && reply.r.Some? ==> reply.r.value == old(c.fid)
    ensures old(c.Ready()) ==> Succeeds(reply)
    ensures Succeeds(reply) <==>
            c.server.refused == old(c.server.refused) &&
            (op.DoClose? || op.DoMkdir? ==> c.server.clunkErrors == old(c.server.clunkErrors))
    ensures c.server.refused >= old(c.server.refused) && c.server.clunkErrors >= old(c.server.clunkErrors)
  {
    match op
    case DoQuery(n) =>
      var ok := c.Query(n);
      reply := Done(ok);
    case DoMkdir =>
      var ok := c.Mkdir();
      reply := Done(ok);
    case DoRemove =>
      var ok := c.Remove();
      reply := Done(ok);
    case DoOpen =>
      var h := c.Open();
      reply := Handle(h);
    case DoClose(f) =>
      if f in c.server.fids && f != ROOT {
        var ok := c.Close(f);
        reply := Done(ok);
      } else {
        assert c.ledger.open - {f} == c.ledger.open;
        reply := NotOpen;
      }
  }

  /**
   Any sequence of operations, for every mix of server errors. The table holds the root and what the replies say is
   open, nothing else. And if the server is obliging, each operation succeeds that finds no file open for WINDOW
   allocations or more.
   */
  method RunAll(c: Client, ops: seq<Op>) returns (replies: seq<Reply>)
    requires c.Valid() && c.ledger == Ledger(map[], 0)
    modifies c, c.server
    ensures |replies| == |ops| && c.Valid()
    ensures c.server.fids == {ROOT} + Replay(ops, replies).open.Keys
    ensures forall i :: 0 <= i < |ops| ==> Sound(c.server.obliging, ops, replies, i)
    ensures (forall i :: 0 <= i < |ops| ==> Succeeds(replies[i])) ==> c.server.refused == old(c.server.refused)
    ensures c.server.refused == old(c.server.refused) && c.server.clunkErrors == old(c.server.clunkErrors) ==>
              forall i :: 0 <= i < |ops| ==> Succeeds(replies[i])
  {
    replies := [];
    for i := 0 to |ops|
      invariant |replies| == i && c.Valid() && c.ledger == Replay(ops[..i], replies)
      invariant forall k :: 0 <= k < i ==> Sound(c.server.obliging, ops, replies, k)
      invariant c.server.refused >= old(c.server.refused) && c.server.clunkErrors >= old(c.server.clunkErrors)
      invariant (forall k :: 0 <= k < i ==> Succeeds(replies[k])) ==> c.server.refused == old(c.server.refused)
      invariant c.server.refused == old(c.server.refused) && c.server.clunkErrors == old(c.server.clunkErrors) ==>
                  forall k :: 0 <= k < i ==> Succeeds(replies[k])
    {
      ghost var before := replies;
      var reply := Perform(c, ops[i]);
      replies := replies + [reply];
      assert ops[..i + 1][..i] == ops[..i] && replies[..i] == before;
      forall k | 0 <= k < i ensures Sound(c.server.obliging, ops, replies, k) {
        assert Sound(c.server.obliging, ops, before, k);
        assert replies[..k] == before[..k];
      }
    }
    assert ops[..|ops|] == ops;
  }

  /** The i-th reply: what it can be, which fid it yields, and when it must be a success. */
  ghost predicate Sound(obliging: bool, ops: seq<Op>, replies: seq<Reply>, i: nat)
    requires i < |replies| && i < |ops|
  {
    var l := Replay(ops[..i], replies[..i]);
    (replies[i].Handle? <==> ops[i].DoOpen?) &&
    (replies[i].NotOpen? <==> ops[i].DoClose? && ops[i].f !in l.open) &&
    (replies[i].Handle? && replies[i].r.Some? ==> replies[i].r.value == After(2, l.allocs)) &&
    (obliging && Young(l) ==> Succeeds(replies[i]))
  }

  /** In a run of fewer than WINDOW operations every file is young. */
  lemma {:induction false} ShortRun(ops: seq<Op>, replies: seq<Reply>)
    requires |replies| == |ops|
    ensures Replay(ops, replies).allocs <= |ops|
    ensures |ops| < WINDOW ==> Young(Replay(ops, replies))
  {
    if ops != [] {
      ShortRun(ops[..|ops| - 1], replies[..|ops| - 1]);
    }
  }
}
