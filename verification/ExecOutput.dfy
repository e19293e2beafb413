/**
 The output side of agentic9 exec: execOutputRouter and classifyExecWarning of
 main.go, and Runner.Run, which feeds the remote stream through the sentinel
 parser into the router.
 */
module ExecOutput {
  import opened Wrappers
  import opened Sentinel

  // ----- Lines

  /** Reading s, when the lines done are complete and cur has been read since. */
  function Split(done: seq<string>, cur: string, s: string): (seq<string>, string)
    decreases |s|
  {
    if s == "" then (done, cur)
    else if s[0] == '\n' then Split(done + [cur + "\n"], "", s[1..])
    else Split(done, cur + [s[0]], s[1..])
  }

  /** The newline-terminated lines of s, and what follows the last newline. */
  function Lines(s: string): seq<string> { Split([], "", s).0 }
  function Rest(s: string): string { Split([], "", s).1 }

  /** The lines of s and, when it is not empty, the unterminated tail. */
  function Pieces(s: string): seq<string> {
    Lines(s) + if Rest(s) == "" then [] else [Rest(s)]
  }

  /** Nothing is lost while splitting. */
  lemma {:induction false} SplitConcat(done: seq<string>, cur: string, s: string)
    ensures var (ls, r) := Split(done, cur, s); Concat(ls) + r == Concat(done) + cur + s
    decreases |s|
  {
    if s != "" {
      var c, t := [s[0]], s[1..];
      assert s == c + t;
      if s[0] == '\n' {
        SplitConcat(done + [cur + "\n"], "", t);
        ConcatAppend(done, [cur + "\n"]);
        ConcatOne(cur + "\n");
      } else {
        SplitConcat(done, cur + c, t);
      }
    }
  }

  lemma LinesConcat(s: string)
    ensures Concat(Lines(s)) + Rest(s) == s
  {
    SplitConcat([], "", s);
    assert Concat([]) + "" + s == s;
  }

  /** The pieces are the bytes, none lost and none repeated. */
  lemma PiecesConcat(s: string)
    ensures Concat(Pieces(s)) == s
  {
    LinesConcat(s);
    if Rest(s) == "" {
      assert Pieces(s) == Lines(s);
    } else {
      ConcatAppend(Lines(s), [Rest(s)]);
      assert [Rest(s)][1..] == [];
    }
  }

  predicate Plain(s: string) {
    forall i :: 0 <= i < |s| ==> s[i] != '\n'
  }

  lemma {:induction false} SplitAppend(done: seq<string>, cur: string, s: string, t: string)
    ensures var (d, c) := Split(done, cur, s); Split(done, cur, s + t) == Split(d, c, t)
    decreases |s|
  {
    if s == "" {
      assert s + t == t;
    } else {
      assert (s + t)[1..] == s[1..] + t;
      if s[0] == '\n' {
        SplitAppend(done + [cur + "\n"], "", s[1..], t);
      } else {
        SplitAppend(done, cur + [s[0]], s[1..], t);
      }
    }
  }

  lemma {:induction false} SplitPrefix(done: seq<string>, more: seq<string>, cur: string, s: string)
    ensures Split(done + more, cur, s) == (done + Split(more, cur, s).0, Split(more, cur, s).1)
    decreases |s|
  {
    if s != "" {
      if s[0] == '\n' {
        assert done + more + [cur + "\n"] == done + (more + [cur + "\n"]);
        SplitPrefix(done, more + [cur + "\n"], "", s[1..]);
      } else {
        SplitPrefix(done, more, cur + [s[0]], s[1..]);
      }
    }
  }

  lemma {:induction false} SplitPlain(done: seq<string>, cur: string, s: string)
    requires Plain(s)
    ensures Split(done, cur, s) == (done, cur + s)
    decreases |s|
  {
    if s == "" {
      assert cur + s == cur;
    } else {
      SplitPlain(done, cur + [s[0]], s[1..]);
      assert cur + [s[0]] + s[1..] == cur + s;
    }
  }

  /** Every line is plain but for its last byte, and the rest is plain. */
  lemma {:induction false} SplitShape(done: seq<string>, cur: string, s: string)
    requires Plain(cur)
    requires forall k :: 0 <= k < |done| ==> IsLine(done[k])
    ensures Plain(Split(done, cur, s).1)
    ensures forall k :: 0 <= k < |Split(done, cur, s).0| ==> IsLine(Split(done, cur, s).0[k])
    decreases |s|
  {
    if s != "" {
      if s[0] == '\n' {
        assert (cur + "\n")[..|cur|] == cur;
        SplitShape(done + [cur + "\n"], "", s[1..]);
      } else {
        SplitShape(done, cur + [s[0]], s[1..]);
      }
    }
  }

  predicate IsLine(s: string) {
    s != "" && s[|s| - 1] == '\n' && Plain(s[..|s| - 1])
  }

  /** Lines are newline-terminated and hold no other newline. */
  lemma LinesShape(s: string)
    ensures Plain(Rest(s)) && forall k :: 0 <= k < |Lines(s)| ==> IsLine(Lines(s)[k])
  {
    SplitShape([], "", s);
  }

  /** Splitting into lines can be resumed: only the tail of the first part matters to the second. */
  lemma LinesAppend(s: string, t: string)
    ensures Lines(s + t) == Lines(s) + Lines(Rest(s) + t) && Rest(s + t) == Rest(Rest(s) + t)
  {
    var (ls, r) := Split([], "", s);
    LinesShape(s);
    SplitAppend([], "", s, t);
    SplitAppend([], "", r, t);
    SplitPlain([], "", r);
    assert "" + r == r && ls + [] == ls;
    SplitPrefix(ls, [], r, t);
  }

  lemma Associate<T>(a: seq<T>, b: seq<T>, c: seq<T>)
    ensures a + (b + c) == (a + b) + c
  {
  }

  // ----- What happens to a line

  datatype Event = Emitted(line: string) | Warned(line: string)

  /** Which lines classifyExecWarning takes, and whether standard output takes the i-th line that it is offered. */
  datatype Ends = Ends(warns: string -> bool, takes: nat -> bool)

  function TrimNewlines(s: string): string {
    if s != "" && (s[|s| - 1] == '\r' || s[|s| - 1] == '\n') then TrimNewlines(s[..|s| - 1]) else s
  }

  const CONS_WARNING := "bind: /mnt/term/dev/cons: file does not exist: '/mnt/term/dev'"
  const DEV_WARNING := "bind: /mnt/term/dev: file does not exist: '/mnt/term/dev'"

  /** classifyExecWarning. */
  predicate IsBindWarning(line: string) {
    TrimNewlines(line) in {CONS_WARNING, DEV_WARNING}
  }

  /** One of the two messages, followed by nothing but carriage returns and newlines. */
  lemma BindWarningIff(line: string)
    ensures IsBindWarning(line) <==>
            exists ends: string :: EndsOnly(ends) && (line == CONS_WARNING + ends || line == DEV_WARNING + ends)
  {
    assert CONS_WARNING[|CONS_WARNING| - 1] == '\'' && DEV_WARNING[|DEV_WARNING| - 1] == '\'';
    TrimNewlinesIff(line, CONS_WARNING);
    TrimNewlinesIff(line, DEV_WARNING);
  }

  ghost predicate EndsOnly(s: string) {
    forall i :: 0 <= i < |s| ==> s[i] == '\r' || s[i] == '\n'
  }

  lemma TrimNewlinesIff(s: string, t: string)
    requires t != "" && t[|t| - 1] != '\r' && t[|t| - 1] != '\n'
    ensures TrimNewlines(s) == t <==> exists ends: string :: EndsOnly(ends) && s == t + ends
  {
    var ends := NewlinesOff(s);
    if s == TrimNewlines(s) + ends && TrimNewlines(s) == t {
      assert EndsOnly(ends);
    }
    forall ends: string | EndsOnly(ends) && s == t + ends ensures TrimNewlines(s) == t {
      NewlinesAfter(t, ends);
    }
  }

  lemma {:induction false} NewlinesOff(s: string) returns (ends: string)
    ensures EndsOnly(ends) && s == TrimNewlines(s) + ends
    decreases |s|
  {
    if s != "" && (s[|s| - 1] == '\r' || s[|s| - 1] == '\n') {
      var front := NewlinesOff(s[..|s| - 1]);
      ends := front + [s[|s| - 1]];
      assert s == s[..|s| - 1] + [s[|s| - 1]];
    } else {
      ends := "";
      assert s == s + "";
    }
  }

  lemma {:induction false} NewlinesAfter(t: string, ends: string)
    requires t != "" && t[|t| - 1] != '\r' && t[|t| - 1] != '\n' && EndsOnly(ends)
    ensures TrimNewlines(t + ends) == t
    decreases |ends|
  {
    if ends == "" {
      assert t + ends == t;
    } else {
      NewlinesAfter(t, ends[..|ends| - 1]);
      assert (t + ends)[..|t + ends| - 1] == t + ends[..|ends| - 1];
    }
  }

  /** A warning is recognised whatever its line ending. */
  lemma WarningLineEnd(line: string, end: char)
    requires end == '\n' || end == '\r'
    ensures IsBindWarning(line + [end]) <==> IsBindWarning(line)
  {
    assert (line + [end])[..|line|] == line;
  }

  function EventOf(e: Ends, line: string): Event {
    if e.warns(line) then Warned(line) else Emitted(line)
  }

  function Events(e: Ends, ls: seq<string>): seq<Event> {
    if ls == [] then [] else [EventOf(e, ls[0])] + Events(e, ls[1..])
  }

  /** The line is handled, when a lines have been offered before. */
  predicate Takes(e: Ends, a: nat, line: string) {
    e.warns(line) || e.takes(a)
  }

  /** How many lines have been offered after this one. */
  function Next(e: Ends, a: nat, line: string): nat {
    if e.warns(line) then a else a + 1
  }

  /** How many of the lines are offered to standard output. */
  function Offers(e: Ends, ls: seq<string>): nat {
    if ls == [] then 0 else Next(e, Offers(e, ls[..|ls| - 1]), ls[|ls| - 1])
  }

  /** How many lines are handled before one is refused, when a lines have been offered before. */
  function Accepted(e: Ends, a: nat, ls: seq<string>): (k: nat)
    ensures k <= |ls|
    decreases |ls|
  {
    if ls == [] || !Takes(e, a, ls[0]) then 0 else 1 + Accepted(e, Next(e, a, ls[0]), ls[1..])
  }

  lemma {:induction false} EventsAppend(e: Ends, a: seq<string>, b: seq<string>)
    ensures Events(e, a + b) == Events(e, a) + Events(e, b)
  {
    if a == [] {
      assert a + b == b;
    } else {
      assert (a + b)[1..] == a[1..] + b;
      EventsAppend(e, a[1..], b);
    }
  }

  lemma OffersLast(e: Ends, ls: seq<string>, line: string)
    ensures Offers(e, ls + [line]) == Next(e, Offers(e, ls), line)
  {
    assert (ls + [line])[..|ls|] == ls;
  }

  lemma {:induction false} OffersAppend(e: Ends, x: seq<string>, y: seq<string>)
    ensures Offers(e, x + y) == Offers(e, x) + Offers(e, y)
    decreases |y|
  {
    if y == [] {
      assert x + y == x;
    } else {
      var z, line := y[..|y| - 1], y[|y| - 1];
      OffersAppend(e, x, z);
      assert x + y == x + z + [line];
      OffersLast(e, x + z, line);
    }
  }

  lemma {:induction false} AcceptedAppend(e: Ends, a: nat, x: seq<string>, y: seq<string>)
    requires Accepted(e, a, x) == |x|
    ensures Accepted(e, a, x + y) == |x| + Accepted(e, a + Offers(e, x), y)
    decreases |x|
  {
    if x == [] {
      assert x + y == y;
    } else {
      assert (x + y)[1..] == x[1..] + y;
      AcceptedAppend(e, Next(e, a, x[0]), x[1..], y);
      OffersAppend(e, [x[0]], x[1..]);
      OffersLast(e, [], x[0]);
      assert [] + [x[0]] == [x[0]] && [x[0]] + x[1..] == x;
    }
  }

  lemma {:induction false} AcceptedStops(e: Ends, a: nat, x: seq<string>, y: seq<string>)
    requires Accepted(e, a, x) < |x|
    ensures Accepted(e, a, x + y) == Accepted(e, a, x)
    decreases |x|
  {
    assert (x + y)[1..] == x[1..] + y;
    if Takes(e, a, x[0]) { AcceptedStops(e, Next(e, a, x[0]), x[1..], y); }
  }

  /** One more line, after lines that were all handled. */
  lemma OneMore(e: Ends, a: nat, done: seq<string>, line: string, rest: seq<string>)
    requires Accepted(e, a, done) == |done|
    ensures Offers(e, done + [line]) == Next(e, Offers(e, done), line)
    ensures Events(e, done + [line]) == Events(e, done) + [EventOf(e, line)]
    ensures Takes(e, a + Offers(e, done), line) ==> Accepted(e, a, done + [line]) == |done| + 1
    ensures !Takes(e, a + Offers(e, done), line) ==> Accepted(e, a, done + ([line] + rest)) == |done|
    ensures (done + ([line] + rest))[..|done|] == done
  {
    AcceptedAppend(e, a, done, [line]);
    AcceptedAppend(e, a, done, [line] + rest);
    EventsAppend(e, done, [line]);
    OffersLast(e, done, line);
    assert [line][1..] == [];
  }

  /** The lines done so far, and the position after them. */
  ghost predicate Progress(data: string, consumed: nat, done: seq<string>) {
    consumed <= |data| && Split([], "", data) == Split(done, "", data[consumed..])
  }

  lemma Subslice(s: string, i: nat, k: nat)
    requires i + k <= |s|
    ensures s[i..][..k] == s[i..i + k] && s[i..][k..] == s[i + k..]
  {
  }

  lemma NextLine(data: string, consumed: nat, done: seq<string>, idx: nat)
    requires Progress(data, consumed, done) && idx == IndexNewline(data[consumed..])
    ensures Progress(data, consumed + idx + 1, done + [data[consumed..consumed + idx + 1]])
  {
    var more := data[consumed..];
    var (a, line, rest) := (more[..idx], more[..idx + 1], more[idx + 1..]);
    NewlineSpec(more, idx);
    assert line == a + "\n" && more == line + rest;
    SplitAppend(done, "", line, rest);
    SplitAppend(done, "", a, "\n");
    SplitPlain(done, "", a);
    EndLine(done, a);
    Subslice(data, consumed, idx + 1);
  }

  lemma EndLine(done: seq<string>, a: string)
    ensures Split(done, "" + a, "\n") == (done + [a + "\n"], "")
  {
    assert "" + a == a;
    assert "\n"[1..] == "";
  }

  lemma ProgressPrefix(data: string, consumed: nat, done: seq<string>)
    requires Progress(data, consumed, done)
    ensures Lines(data) == done + Lines(data[consumed..])
  {
    assert done + [] == done;
    SplitPrefix(done, [], "", data[consumed..]);
  }

  /** The router's record: what was handled, in order, and how many lines standard output was offered. */
  datatype Tally = Tally(log: seq<Event>, offered: nat)

  /** What flushLines makes of the lines ls: all of them, or those before the first one refused. */
  ghost predicate Handled(e: Ends, ls: seq<string>, before: Tally, after: Tally, ok: bool) {
    var k := Accepted(e, before.offered, ls);
    ok == (k == |ls|) && after.log == before.log + Events(e, ls[..k]) &&
    after.offered == before.offered + Offers(e, ls[..k]) + if ok then 0 else 1
  }

  /** After the lines done. */
  ghost function Add(e: Ends, t: Tally, done: seq<string>): Tally {
    Tally(t.log + Events(e, done), t.offered + Offers(e, done))
  }

  /** One iteration of the loop, whether its line is taken or refused. */
  lemma Iteration(e: Ends, data: string, consumed: nat, done: seq<string>, tail: seq<string>, idx: nat, t: Tally)
    requires Progress(data, consumed, done) && Accepted(e, t.offered, done) == |done| && idx == IndexNewline(data[consumed..])
    ensures var line, now := data[consumed..consumed + idx + 1], Add(e, t, done);
            if Takes(e, now.offered, line) then
              Progress(data, consumed + idx + 1, done + [line]) && Accepted(e, t.offered, done + [line]) == |done + [line]| &&
              Add(e, t, done + [line]) == Tally(now.log + [EventOf(e, line)], Next(e, now.offered, line))
            else
              Handled(e, Lines(data), t, now.(offered := now.offered + 1), false) &&
              Handled(e, Lines(data) + tail, t, now.(offered := now.offered + 1), false)
  {
    var end := consumed + idx + 1;
    var line, rest := data[consumed..end], Lines(data[end..]);
    NextLine(data, consumed, done, idx);
    ProgressPrefix(data, end, done + [line]);
    Associate(done, [line], rest);
    OneMore(e, t.offered, done, line, rest);
    OneMore(e, t.offered, done, line, rest + tail);
    Associate([line], rest, tail);
    Associate(done, [line] + rest, tail);
    Associate(t.log, Events(e, done), [EventOf(e, line)]);
  }

  class Router {
    const ends: Ends
    var pending: string
    /** The warnings recorded and the lines written, in the order they were handled. */
    var log: seq<Event>
    /** How many lines standard output was offered. */
    var offered: nat

    ghost function State(): Tally
      reads this
    {
      Tally(log, offered)
    }

    constructor (ends: Ends)
      ensures this.ends == ends && pending == "" && State() == Tally([], 0)
    {
      this.ends := ends;
      pending, log, offered := "", [], 0;
    }

    /** handleLine: standard output may take or refuse each line that it is offered. */
    method HandleLine(line: string) returns (ok: bool)
      modifies this`log, this`offered
      ensures ok == Takes(ends, old(offered), line)
      ensures offered == Next(ends, old(offered), line)
      ensures log == if ok then old(log) + [EventOf(ends, line)] else old(log)
    {
      if ends.warns(line) {
        log := log + [Warned(line)];
        return true;
      }
      ok := ends.takes(offered);
      offered := offered + 1;
      if ok {
        log := log + [Emitted(line)];
      }
    }

    /** The loop of flushLines. On a refused line nothing is consumed, though the lines before it were handled. */
    method HandleLines(data: string, ghost tail: seq<string>) returns (ok: bool, consumed: nat)
      modifies this`log, this`offered
      ensures Handled(ends, Lines(data), old(State()), State(), ok)
      ensures !ok ==> Handled(ends, Lines(data) + tail, old(State()), State(), ok)
      ensures ok ==> consumed <= |data| && data[consumed..] == Rest(data)
      ensures ok ==> State() == Add(ends, old(State()), Lines(data))
    {
      consumed := 0;
      ghost var done: seq<string> := [];
      assert data[0..] == data;
      while true
        invariant Progress(data, consumed, done)
        invariant State() == Add(ends, old(State()), done) && Accepted(ends, old(offered), done) == |done|
        decreases |data| - consumed
      {
        var idx := IndexNewline(data[consumed..]);
        if idx < 0 {
          break;
        }
        var end := consumed + idx + 1;
        Iteration(ends, data, consumed, done, tail, idx, old(State()));
        ok := HandleLine(data[consumed..end]);
        if !ok {
          return;
        }
        done := done + [data[consumed..end]];
        consumed := end;
      }
      ok := true;
      AllDone(data, consumed, done);
    }

    /** flushLines. */
    method FlushLines(flushRemainder: bool) returns (ok: bool)
      modifies this
      ensures Handled(ends, if flushRemainder then Pieces(old(pending)) else Lines(old(pending)), old(State()), State(), ok)
      ensures pending == if !ok then old(pending) else if flushRemainder then "" else Rest(old(pending))
    {
      var data := pending;
      ghost var tail := if flushRemainder && Rest(data) != "" then [Rest(data)] else [];
      PiecesTail(data);
      var consumed;
      ok, consumed := HandleLines(data, tail);
      if !ok {
        return;
      }
      if flushRemainder && consumed < |data| {
        TailLine(ends, data, old(State()));
        ok := HandleLine(data[consumed..]);
        if !ok {
          return;
        }
        consumed := |data|;
      }
      pending := data[consumed..];
    }

    /** Write. */
    method Write(chunk: string) returns (ok: bool)
      modifies this
      ensures chunk == "" ==> ok && State() == old(State()) && pending == old(pending)
      ensures chunk != "" ==> Handled(ends, Lines(old(pending) + chunk), old(State()), State(), ok)
      ensures chunk != "" ==> pending == if ok then Rest(old(pending) + chunk) else old(pending) + chunk
    {
      if chunk == "" {
        return true;
      }
      pending := pending + chunk;
      ok := FlushLines(false);
    }
  }

  lemma AllDone(data: string, consumed: nat, done: seq<string>)
    requires Progress(data, consumed, done) && IndexNewline(data[consumed..]) < 0
    ensures data[consumed..] == Rest(data) && Lines(data) == done && done[..|done|] == done
  {
    NewlineSpec(data[consumed..], -1);
    SplitPlain(done, "", data[consumed..]);
    assert "" + data[consumed..] == data[consumed..];
  }

  lemma PiecesTail(data: string)
    ensures Lines(data) + [] == Lines(data) && Pieces(data) == Lines(data) + if Rest(data) == "" then [] else [Rest(data)]
  {
  }

  /** The unterminated tail, after all lines were handled. */
  lemma TailLine(e: Ends, data: string, t: Tally)
    requires Accepted(e, t.offered, Lines(data)) == |Lines(data)| && Rest(data) != ""
    ensures var now, r := Add(e, t, Lines(data)), Rest(data);
            var ok := Takes(e, now.offered, r);
            Handled(e, Pieces(data), t,
                    Tally(if ok then now.log + [EventOf(e, r)] else now.log, Next(e, now.offered, r)), ok)
  {
    var ls, r := Lines(data), Rest(data);
    OneMore(e, t.offered, ls, r, []);
    assert [r] + [] == [r];
    assert (ls + [r])[..|ls + [r]|] == ls + [r];
    Associate(t.log, Events(e, ls), [EventOf(e, r)]);
  }

  lemma PlainPieces(s: string)
    requires Plain(s)
    ensures Pieces(s) == if s == "" then [] else [s]
  {
    SplitPlain([], "", s);
    assert "" + s == s;
  }

  // ----- Running a command

  datatype Result = Exited(code: nat, status: string) | SessionEnded | OutputFailed

  /** The router has handled the lines of out and kept its tail. */
  ghost predicate Routed(e: Ends, out: string, pending: string, t: Tally) {
    pending == Rest(out) && t == Tally(Events(e, Lines(out)), Offers(e, Lines(out))) &&
    Accepted(e, 0, Lines(out)) == |Lines(out)|
  }

  lemma PiecesAppend(out: string, visible: string)
    ensures Pieces(out + visible) == Lines(out) + Pieces(Rest(out) + visible)
    ensures Lines(out) + Lines(Rest(out) + visible) == Lines(out + visible)
  {
    LinesAppend(out, visible);
    var r := Rest(out) + visible;
    Associate(Lines(out), Lines(r), if Rest(r) == "" then [] else [Rest(r)]);
  }

  lemma RouteMore(e: Ends, out: string, t: Tally, visible: string, t': Tally)
    requires Routed(e, out, Rest(out), t) && Handled(e, Lines(Rest(out) + visible), t, t', true)
    ensures Routed(e, out + visible, Rest(Rest(out) + visible), t')
  {
    var ls := Lines(Rest(out) + visible);
    assert ls[..|ls|] == ls;
    LinesAppend(out, visible);
    EventsAppend(e, Lines(out), ls);
    OffersAppend(e, Lines(out), ls);
    AcceptedAppend(e, 0, Lines(out), ls);
  }

  /** A write in which a line is refused: everything before that line has been handled once. */
  ghost predicate Refused(e: Ends, before: string, out: string, pending: string, t: Tally) {
    var ls, k := Lines(out), Accepted(e, 0, Lines(out));
    |Lines(before)| <= k < |ls| && t == Tally(Events(e, ls[..k]), Offers(e, ls[..k]) + 1) &&
    Pieces(out) == Lines(before) + Pieces(pending)
  }

  lemma Join<T>(a: seq<T>, b: seq<T>, k: nat)
    requires k <= |b|
    ensures (a + b)[..|a| + k] == a + b[..k]
  {
  }

  lemma RouteRefused(e: Ends, out: string, t: Tally, visible: string, t': Tally)
    requires Routed(e, out, Rest(out), t) && Handled(e, Lines(Rest(out) + visible), t, t', false)
    ensures Refused(e, out, out + visible, Rest(out) + visible, t')
  {
    var done, ls := Lines(out), Lines(Rest(out) + visible);
    var k := Accepted(e, t.offered, ls);
    PiecesAppend(out, visible);
    AcceptedAppend(e, 0, done, ls);
    Join(done, ls, k);
    EventsAppend(e, done, ls[..k]);
    OffersAppend(e, done, ls[..k]);
  }

  /**
   What has been handled after a refusal and the Flush that follows it. With ps the visible pieces, k the first one
   refused and j the number of lines finished by earlier writes, Flush starts over at j.
   */
  ghost predicate Retried(e: Ends, before: string, out: string, log: seq<Event>) {
    var ps, j := Pieces(out), |Lines(before)|;
    var k := Accepted(e, 0, ps);
    j <= k < |Lines(out)| && log == Events(e, ps[..k]) + Events(e, ps[j..][..Again(e, ps, j)])
  }

  /** How many pieces from j on that Flush handles before one is refused again. */
  ghost function Again(e: Ends, ps: seq<string>, j: nat): (n: nat)
    requires j <= |ps|
    ensures n <= |ps| - j
  {
    Accepted(e, Offers(e, ps[..Accepted(e, 0, ps)]) + 1, ps[j..])
  }

  lemma RetryAfter(e: Ends, before: string, out: string, pending: string, t: Tally, t': Tally, ok: bool)
    requires Refused(e, before, out, pending, t) && Handled(e, Pieces(pending), t, t', ok)
    ensures Retried(e, before, out, t'.log)
  {
    var ls, tail := Lines(out), if Rest(out) == "" then [] else [Rest(out)];
    PiecesTail(out);
    AcceptedStops(e, 0, ls, tail);
    Front(ls, tail, Accepted(e, 0, ls));
    Front(Lines(before), Pieces(pending), |Lines(before)|);
  }

  lemma Front<T>(a: seq<T>, b: seq<T>, k: nat)
    requires k <= |a|
    ensures (a + b)[..k] == a[..k] && (a + b)[|a|..] == b
  {
  }

  /** The callback of Runner.Run on one chunk: the parser, then the router. */
  method OnChunk(parser: Parser, router: Router, chunk: string) returns (ok: bool)
    requires parser.Valid() && Routed(router.ends, parser.out, router.pending, router.State())
    modifies parser, router
    ensures parser.Valid() && parser.history == Then(old(parser.history), chunk)
    ensures ok ==> Routed(router.ends, parser.out, router.pending, router.State())
    ensures !ok ==> Refused(router.ends, old(parser.out), parser.out, router.pending, router.State())
  {
    ghost var before, t := parser.out, router.State();
    var visible := parser.Feed(chunk);
    ok := router.Write(visible);
    if visible == "" {
      assert before + visible == before;
    } else if ok {
      RouteMore(router.ends, before, t, visible, router.State());
    } else {
      RouteRefused(router.ends, before, t, visible, router.State());
    }
  }

  /** The last Flush, when nothing has been refused before: the tail is handled or refused. */
  method LastFlush(router: Router, ghost out: string) returns (ok: bool)
    requires Routed(router.ends, out, router.pending, router.State())
    modifies router
    ensures var ps := Pieces(out);
            var k := Accepted(router.ends, 0, ps);
            |Lines(out)| <= k && (ok <==> k == |ps|) && router.log == Events(router.ends, ps[..k])
  {
    ghost var t := router.State();
    ok := router.FlushLines(true);
    TailDone(router.ends, out, t, router.State(), ok);
  }

  lemma TailDone(e: Ends, out: string, t: Tally, t': Tally, ok: bool)
    requires Routed(e, out, Rest(out), t) && Handled(e, Pieces(Rest(out)), t, t', ok)
    ensures var ps := Pieces(out);
            var k := Accepted(e, 0, ps);
            |Lines(out)| <= k && (ok <==> k == |ps|) && t'.log == Events(e, ps[..k])
  {
    PiecesOfRest(out);
    TailHandled(e, Lines(out), Pieces(Rest(out)), t, t', ok);
  }

  lemma PiecesOfRest(out: string)
    ensures Pieces(out) == Lines(out) + Pieces(Rest(out))
  {
    LinesShape(out);
    PlainPieces(Rest(out));
  }

  lemma TailHandled(e: Ends, ls: seq<string>, tail: seq<string>, t: Tally, t': Tally, ok: bool)
    requires Accepted(e, 0, ls) == |ls| && t == Tally(Events(e, ls), Offers(e, ls)) && Handled(e, tail, t, t', ok)
    ensures var k := Accepted(e, 0, ls + tail);
            |ls| <= k && (ok <==> k == |ls + tail|) && t'.log == Events(e, (ls + tail)[..k])
  {
    AfterAll(e, ls, tail);
  }

  /** Handling more pieces after lines that were all handled. */
  lemma AfterAll(e: Ends, ls: seq<string>, more: seq<string>)
    requires Accepted(e, 0, ls) == |ls|
    ensures var n := Accepted(e, Offers(e, ls), more);
            Accepted(e, 0, ls + more) == |ls| + n &&
            Events(e, (ls + more)[..|ls| + n]) == Events(e, ls) + Events(e, more[..n])
  {
    AcceptedAppend(e, 0, ls, more);
    EventsPrefix(e, ls, more, Accepted(e, Offers(e, ls), more));
  }

  lemma EventsPrefix(e: Ends, ls: seq<string>, more: seq<string>, n: nat)
    requires n <= |more|
    ensures Events(e, (ls + more)[..|ls| + n]) == Events(e, ls) + Events(e, more[..n])
  {
    Join(ls, more, n);
    EventsAppend(e, ls, more[..n]);
  }

  lemma {:induction false} VisibleGrows(mark: string, chunks: seq<string>, n: nat, m: nat)
    requires mark != "" && n <= m <= |chunks|
    ensures Shown(mark, HistoryOf(chunks, n)) <= Shown(mark, HistoryOf(chunks, m))
    decreases m
  {
    if n < m {
      VisibleGrows(mark, chunks, n, m - 1);
      var buf, done, text := ShownParsed(mark, HistoryOf(chunks, m));
    }
  }

  /** A refusal among the lines that are visible early is the first refusal of all. */
  lemma RefusedEarly(e: Ends, out: string, all: string)
    requires out <= all && Accepted(e, 0, Pieces(out)) < |Lines(out)|
    ensures Accepted(e, 0, Pieces(all)) == Accepted(e, 0, Pieces(out)) < |Lines(all)|
  {
    var more := all[|out|..];
    assert out + more == all;
    PiecesAppend(out, more);
    PiecesTail(out);
    var ls := Lines(out);
    if Accepted(e, 0, ls) == |ls| {
      AcceptedAppend(e, 0, ls, if Rest(out) == "" then [] else [Rest(out)]);
    }
    AcceptedStops(e, 0, ls, if Rest(out) == "" then [] else [Rest(out)]);
    AcceptedStops(e, 0, ls, Pieces(Rest(out) + more));
  }

  /**
   What a run amounts to. Let ps be the pieces of the visible bytes and k the first of them that is refused. Without a
   refusal the pieces are handled once each and in order. A line that is refused makes the run fail and the lines of
   its write, the n-th, be handled again; a refused tail is dropped, and fails the run only if the command has exited.
   */
  ghost predicate Outcome(mark: string, e: Ends, chunks: seq<string>, r: Result, log: seq<Event>, n: nat)
    requires mark != ""
  {
    var out := Shown(mark, HistoryOf(chunks, |chunks|));
    Ended(e, out, ExitOf(mark, Concat(chunks)), r, log) && (LineRefused(e, out) ==> RetriedAt(mark, e, chunks, n, log))
  }

  /** A line of out, and not only its tail, is refused. */
  ghost predicate LineRefused(e: Ends, out: string) {
    Accepted(e, 0, Pieces(out)) < |Lines(out)|
  }

  /** The result, and the log unless a line is refused. */
  ghost predicate Ended(e: Ends, out: string, exit: Option<Exit>, r: Result, log: seq<Event>) {
    var (ps, k) := (Pieces(out), Accepted(e, 0, Pieces(out)));
    (r.Exited? <==> exit.Some? && k == |ps|) &&
    (r.SessionEnded? <==> exit.None? && !LineRefused(e, out)) &&
    (r.Exited? ==> Trimmed(exit.value.text, r.status) && r.code == if Spaces(exit.value.text) then 0 else 1) &&
    (!LineRefused(e, out) ==> log == Events(e, ps[..k]))
  }

  /** A line of the n-th chunk was refused. */
  ghost predicate RetriedAt(mark: string, e: Ends, chunks: seq<string>, n: nat, log: seq<Event>)
    requires mark != ""
  {
    1 <= n <= |chunks| && Retried(e, Shown(mark, HistoryOf(chunks, n - 1)), Shown(mark, HistoryOf(chunks, n)), log)
  }

  lemma FailedRun(mark: string, e: Ends, chunks: seq<string>, log: seq<Event>, n: nat)
    requires mark != "" && RetriedAt(mark, e, chunks, n, log)
    ensures Outcome(mark, e, chunks, OutputFailed, log, n)
  {
    VisibleGrows(mark, chunks, n, |chunks|);
    RefusedEarly(e, Shown(mark, HistoryOf(chunks, n)), Shown(mark, HistoryOf(chunks, |chunks|)));
  }

  /** Runner.Run and the Flush that follows it, for any way the network splits the stream and any answers of standard output. */
  method RunExec(chunks: seq<string>, ends: Ends) returns (r: Result, log: seq<Event>, ghost n: nat)
    ensures Outcome(SENTINEL_PREFIX, ends, chunks, r, log, n)
  {
    var parser := new Parser(SENTINEL_PREFIX);
    var router := new Router(ends);
    var ok;
    ok, n := Drive(parser, router, chunks);
    if ok {
      r, log := Finish(parser, router, chunks);
    } else {
      FailedRun(SENTINEL_PREFIX, ends, chunks, router.log, n);
      r, log := OutputFailed, router.log;
    }
  }

  /** The chunks, one by one, until a line is refused, which is a line of the n-th. */
  method Drive(parser: Parser, router: Router, chunks: seq<string>) returns (ok: bool, ghost n: nat)
    requires parser.Valid() && Routed(router.ends, parser.out, router.pending, router.State()) && parser.history == Start
    modifies parser, router
    ensures parser.Valid()
    ensures ok ==> Routed(router.ends, parser.out, router.pending, router.State()) && parser.history == HistoryOf(chunks, |chunks|)
    ensures !ok ==> RetriedAt(parser.sentinel, router.ends, chunks, n, router.log)
  {
    ok, n := true, 0;
    for i := 0 to |chunks|
      invariant ok && parser.Valid() && parser.history == HistoryOf(chunks, i)
      invariant Routed(router.ends, parser.out, router.pending, router.State())
    {
      ok := Turn(parser, router, chunks[i]);
      if !ok {
        n := i + 1;
        return;
      }
    }
  }

  /** One chunk, and the Flush if a line of it is refused. */
  method Turn(parser: Parser, router: Router, chunk: string) returns (ok: bool)
    requires parser.Valid() && Routed(router.ends, parser.out, router.pending, router.State())
    modifies parser, router
    ensures parser.Valid() && parser.history == Then(old(parser.history), chunk)
    ensures ok ==> Routed(router.ends, parser.out, router.pending, router.State())
    ensures !ok ==> Retried(router.ends, old(parser.out), parser.out, router.log)
  {
    ghost var before := parser.out;
    ok := OnChunk(parser, router, chunk);
    if !ok {
      FlushAgain(router, before, parser.out);
    }
  }

  /** The Flush after a refusal, whose own error is dropped. */
  method FlushAgain(router: Router, ghost before: string, ghost out: string)
    requires Refused(router.ends, before, out, router.pending, router.State())
    modifies router
    ensures Retried(router.ends, before, out, router.log)
  {
    ghost var t, pending := router.State(), router.pending;
    var flushed := router.FlushLines(true);
    RetryAfter(router.ends, before, out, pending, t, router.State(), flushed);
  }

  /** The end of a run in which no line was refused. */
  method Finish(parser: Parser, router: Router, ghost chunks: seq<string>) returns (r: Result, log: seq<Event>)
    requires parser.Valid() && Routed(router.ends, parser.out, router.pending, router.State())
    requires parser.history == HistoryOf(chunks, |chunks|)
    modifies router
    ensures forall n: nat :: Outcome(parser.sentinel, router.ends, chunks, r, log, n)
  {
    FedAll(chunks);
    var ok := LastFlush(router, parser.out);
    log := router.log;
    if !parser.done {
      r := SessionEnded;
    } else if ok {
      TrimmedEmpty(parser.text, parser.status);
      r := Exited(if parser.status == "" then 0 else 1, parser.status);
    } else {
      r := OutputFailed;
    }
  }

  // ----- What reaches standard output

  /** The non-warnings among the first i lines. */
  ghost function Offered(e: Ends, ls: seq<string>, i: nat): set<nat>
    requires i <= |ls|
  {
    set j: nat | j < i && !e.warns(ls[j])
  }

  /** The i-th line is no warning, and standard output does not take it, when a lines have been offered before. */
  ghost predicate Refuses(e: Ends, a: nat, ls: seq<string>, i: nat)
    requires i < |ls|
  {
    !e.warns(ls[i]) && !e.takes(a + |Offered(e, ls, i)|)
  }

  ghost predicate Unrefused(e: Ends, ls: seq<string>) {
    forall i :: 0 <= i < |ls| ==> !Refuses(e, 0, ls, i)
  }

  lemma {:induction false} OffersCount(e: Ends, ls: seq<string>, i: nat)
    requires i <= |ls|
    ensures Offers(e, ls[..i]) == |Offered(e, ls, i)|
  {
    if i > 0 {
      OffersCount(e, ls, i - 1);
      OffersLast(e, ls[..i - 1], ls[i - 1]);
      assert ls[..i] == ls[..i - 1] + [ls[i - 1]];
      assert Offered(e, ls, i) == Offered(e, ls, i - 1) + if e.warns(ls[i - 1]) then {} else {i - 1};
    } else {
      assert Offered(e, ls, 0) == {};
    }
  }

  lemma {:induction false} AcceptedAt(e: Ends, a: nat, ls: seq<string>, i: nat)
    requires i < |ls| && i <= Accepted(e, a, ls)
    ensures i < Accepted(e, a, ls) <==> Takes(e, a + Offers(e, ls[..i]), ls[i])
    decreases |ls|
  {
    if i == 0 {
      assert ls[..0] == [];
    } else {
      AcceptedAt(e, Next(e, a, ls[0]), ls[1..], i - 1);
      OffersAppend(e, [ls[0]], ls[1..][..i - 1]);
      OffersLast(e, [], ls[0]);
      assert [] + [ls[0]] == [ls[0]] && [ls[0]] + ls[1..][..i - 1] == ls[..i];
    }
  }

  /** Accepted is the first refusal, and the number of lines when there is none. */
  lemma FirstRefusal(e: Ends, a: nat, ls: seq<string>, k: nat)
    requires k <= |ls|
    ensures k == Accepted(e, a, ls) <==>
            (k < |ls| ==> Refuses(e, a, ls, k)) && forall i :: 0 <= i < k ==> !Refuses(e, a, ls, i)
  {
    var n := Accepted(e, a, ls);
    forall i | 0 <= i <= n && i < |ls| ensures Refuses(e, a, ls, i) <==> i == n {
      AcceptedAt(e, a, ls, i);
      OffersCount(e, ls, i);
    }
    if n < k {
      assert Refuses(e, a, ls, n);
    }
  }

  /** The bytes that standard output has taken. */
  ghost function Written(log: seq<Event>): string {
    if log == [] then "" else (if log[0].Emitted? then log[0].line else "") + Written(log[1..])
  }

  lemma {:induction false} WrittenEvents(e: Ends, ls: seq<string>)
    requires forall i :: 0 <= i < |ls| ==> !e.warns(ls[i])
    ensures Written(Events(e, ls)) == Concat(ls)
  {
    if ls != [] {
      WrittenEvents(e, ls[1..]);
      assert Events(e, ls)[1..] == Events(e, ls[1..]);
    }
  }

  /**
   When standard output refuses nothing, every piece of what is shown is handled once and in order: a warning is
   recorded, and anything else is written. Without warnings, what is written is what is shown, byte for byte.
   */
  lemma OutputIntact(mark: string, e: Ends, chunks: seq<string>, r: Result, log: seq<Event>, n: nat)
    requires mark != "" && Outcome(mark, e, chunks, r, log, n)
    requires Unrefused(e, Pieces(Shown(mark, HistoryOf(chunks, |chunks|))))
    ensures !r.OutputFailed?
    ensures var ps := Pieces(Shown(mark, HistoryOf(chunks, |chunks|)));
            |log| == |ps| && (forall i :: 0 <= i < |ps| ==> log[i] == if e.warns(ps[i]) then Warned(ps[i]) else Emitted(ps[i])) &&
            ((forall i :: 0 <= i < |ps| ==> !e.warns(ps[i])) ==> Written(log) == Shown(mark, HistoryOf(chunks, |chunks|)))
  {
    NothingRefused(e, Shown(mark, HistoryOf(chunks, |chunks|)), ExitOf(mark, Concat(chunks)), r, log);
    AllHandled(e, Shown(mark, HistoryOf(chunks, |chunks|)));
  }

  lemma NothingRefused(e: Ends, out: string, exit: Option<Exit>, r: Result, log: seq<Event>)
    requires Ended(e, out, exit, r, log) && Unrefused(e, Pieces(out))
    ensures !r.OutputFailed? && log == Events(e, Pieces(out))
  {
    FirstRefusal(e, 0, Pieces(out), |Pieces(out)|);
    PiecesTail(out);
    assert Pieces(out)[..|Pieces(out)|] == Pieces(out);
  }

  lemma AllHandled(e: Ends, out: string)
    ensures var (ps, log) := (Pieces(out), Events(e, Pieces(out)));
            |log| == |ps| && (forall i :: 0 <= i < |ps| ==> log[i] == if e.warns(ps[i]) then Warned(ps[i]) else Emitted(ps[i])) &&
            ((forall i :: 0 <= i < |ps| ==> !e.warns(ps[i])) ==> Written(log) == out)
  {
    var ps := Pieces(out);
    EachEvent(e, ps);
    PiecesConcat(out);
    if forall i :: 0 <= i < |ps| ==> !e.warns(ps[i]) {
      WrittenEvents(e, ps);
    }
  }

  lemma {:induction false} EachEvent(e: Ends, ls: seq<string>)
    ensures |Events(e, ls)| == |ls|
    ensures forall i :: 0 <= i < |ls| ==> Events(e, ls)[i] == if e.warns(ls[i]) then Warned(ls[i]) else Emitted(ls[i])
  {
    if ls != [] {
      EachEvent(e, ls[1..]);
    }
  }

  // ----- The exit status

  /** A command without output whose exit line carries the text. */
  lemma StatusLine(mark: string, e: Ends, text: string, r: Result, log: seq<Event>, n: nat)
    requires mark != "" && Plain(text) && Outcome(mark, e, [mark + (text + "\n")], r, log, n)
    ensures r.Exited? && log == [] && Trimmed(text, r.status) && r.code == if Spaces(text) then 0 else 1
  {
    var s := mark + (text + "\n");
    ExitLine(mark, text);
    ConcatOne(s);
    FedAll([s]);
    ShownSpec(mark, HistoryOf([s], 1));
    NoPieces();
  }

  lemma NoPieces()
    ensures Pieces("") == [] && Lines("") == []
  {
  }

  lemma ExitLine(mark: string, text: string)
    requires mark != "" && Plain(text)
    ensures ExitOf(mark, mark + (text + "\n")) == Some(Exit("", text))
  {
    var rest := text + "\n";
    Peeled(mark, rest);
    IndexSpec(mark + rest, mark, 0);
    NewlineSpec(rest, |text|);
    Peeled(text, "\n");
    assert (mark + rest)[..0] == "";
  }

  /** A command that fails: its exit line carries a status, and the exit code is 1. */
  lemma FailedCommand(e: Ends, line: string, r: Result, log: seq<Event>, n: nat)
    requires line == "\U{0001}agentic9-exit failed\n" && Outcome(SENTINEL_PREFIX, e, [line], r, log, n)
    ensures r == Exited(1, "failed")
  {
    FailedLine(line);
    Fails(SENTINEL_PREFIX, e, "failed", r, log, n);
  }

  lemma FailedLine(line: string)
    requires line == "\U{0001}agentic9-exit failed\n"
    ensures line == SENTINEL_PREFIX + ("failed" + "\n")
  {
  }

  lemma Fails(mark: string, e: Ends, text: string, r: Result, log: seq<Event>, n: nat)
    requires mark != "" && text == "failed" && Outcome(mark, e, [mark + (text + "\n")], r, log, n)
    ensures r == Exited(1, text)
  {
    StatusLine(mark, e, text, r, log, n);
    FailedIsBare(text);
    TrimSpaceIff(text, text);
    TrimSpaceIff(text, r.status);
    AllSpaces(text);
  }

  lemma FailedIsBare(text: string)
    requires text == "failed"
    ensures Trimmed(text, text)
  {
    NoSpaces();
    assert text == "" + text + "";
  }

  // ----- Handling twice

  function Range(a: nat, b: nat): seq<nat>
    requires a <= b
  {
    seq(b - a, i requires 0 <= i < b - a => a + i)
  }

  /** What handling the pieces in the given order puts in the log. */
  ghost function EventsAt(e: Ends, ps: seq<string>, order: seq<nat>): seq<Event>
    requires forall i :: 0 <= i < |order| ==> order[i] < |ps|
  {
    seq(|order|, i requires 0 <= i < |order| => EventOf(e, ps[order[i]]))
  }

  ghost predicate Repeats(order: seq<nat>) {
    exists a, b :: 0 <= a < b < |order| && order[a] == order[b]
  }

  lemma {:induction false} EventsIndex(e: Ends, ls: seq<string>, i: nat)
    requires i < |ls|
    ensures |Events(e, ls)| == |ls| && Events(e, ls)[i] == EventOf(e, ls[i])
  {
    if i > 0 {
      EventsIndex(e, ls[1..], i - 1);
    } else if |ls| > 1 {
      EventsIndex(e, ls[1..], 0);
    }
  }

  lemma EventsOfRange(e: Ends, ps: seq<string>, a: nat, b: nat)
    requires a <= b <= |ps|
    ensures Events(e, ps[a..b]) == EventsAt(e, ps, Range(a, b))
  {
    if a < b { EventsIndex(e, ps[a..b], 0); }
    forall i | 0 <= i < b - a ensures Events(e, ps[a..b])[i] == EventsAt(e, ps, Range(a, b))[i] {
      EventsIndex(e, ps[a..b], i);
    }
  }

  lemma RangesRepeat(k: nat, j: nat, m: nat)
    requires j <= k
    ensures Repeats(Range(0, k) + Range(j, j + m)) <==> j < k && m > 0
  {
    var order := Range(0, k) + Range(j, j + m);
    if j < k && m > 0 {
      assert order[j] == j && order[k] == j;
    }
  }

  /** The pieces that are visible when the run ends, and the number of lines before the last write. */
  ghost function AtEnd(mark: string, e: Ends, chunks: seq<string>, n: nat): (seq<string>, nat)
    requires mark != ""
  {
    var out := Shown(mark, HistoryOf(chunks, |chunks|));
    if !LineRefused(e, out) || !(1 <= n <= |chunks|) then (Pieces(out), |Lines(out)|)
    else (Pieces(Shown(mark, HistoryOf(chunks, n))), |Lines(Shown(mark, HistoryOf(chunks, n - 1)))|)
  }

  /**
   The order in which a run handles the visible pieces, and when that order has a piece twice: exactly when a line
   is refused, another line came before it in its write, and standard output takes that line when offered it again.
   */
  lemma TwiceIff(mark: string, e: Ends, chunks: seq<string>, r: Result, log: seq<Event>, n: nat) returns (order: seq<nat>)
    requires mark != "" && Outcome(mark, e, chunks, r, log, n)
    ensures var (ps, j) := AtEnd(mark, e, chunks, n);
            var k := Accepted(e, 0, ps);
            (forall i :: 0 <= i < |order| ==> order[i] < |ps|) && log == EventsAt(e, ps, order) &&
            (Repeats(order) <==>
             LineRefused(e, Shown(mark, HistoryOf(chunks, |chunks|))) && j < k && Takes(e, Offers(e, ps[..k]) + 1, ps[j]))
  {
    var out := Shown(mark, HistoryOf(chunks, |chunks|));
    if LineRefused(e, out) {
      order := RetriedOrder(e, Shown(mark, HistoryOf(chunks, n - 1)), Shown(mark, HistoryOf(chunks, n)), log);
    } else {
      order := OnceOrder(e, Pieces(out), Accepted(e, 0, Pieces(out)));
    }
  }

  lemma OnceOrder(e: Ends, ps: seq<string>, k: nat) returns (order: seq<nat>)
    requires k <= |ps|
    ensures (forall i :: 0 <= i < |order| ==> order[i] < |ps|) && Events(e, ps[..k]) == EventsAt(e, ps, order) && !Repeats(order)
  {
    order := Range(0, k);
    assert ps[0..k] == ps[..k];
    EventsOfRange(e, ps, 0, k);
  }

  lemma RetriedOrder(e: Ends, before: string, out: string, log: seq<Event>) returns (order: seq<nat>)
    requires Retried(e, before, out, log)
    ensures var (ps, j) := (Pieces(out), |Lines(before)|);
            var k := Accepted(e, 0, ps);
            (forall i :: 0 <= i < |order| ==> order[i] < |ps|) && log == EventsAt(e, ps, order) &&
            (Repeats(order) <==> j < k && Takes(e, Offers(e, ps[..k]) + 1, ps[j]))
  {
    var (ps, j) := (Pieces(out), |Lines(before)|);
    var (k, m) := (Accepted(e, 0, ps), Again(e, ps, j));
    order := Range(0, k) + Range(j, j + m);
    TwoRanges(e, ps, k, j, m);
    RangesRepeat(k, j, m);
    AgainStarts(e, ps, j);
  }

  lemma TwoRanges(e: Ends, ps: seq<string>, k: nat, j: nat, m: nat)
    requires j <= k <= |ps| && j + m <= |ps|
    ensures var order := Range(0, k) + Range(j, j + m);
            (forall i :: 0 <= i < |order| ==> order[i] < |ps|) &&
            Events(e, ps[..k]) + Events(e, ps[j..][..m]) == EventsAt(e, ps, order)
  {
    assert ps[0..k] == ps[..k] && ps[j..][..m] == ps[j..j + m];
    EventsOfRange(e, ps, 0, k);
    EventsOfRange(e, ps, j, j + m);
  }

  lemma AgainStarts(e: Ends, ps: seq<string>, j: nat)
    requires j < |ps|
    ensures Again(e, ps, j) > 0 <==> Takes(e, Offers(e, ps[..Accepted(e, 0, ps)]) + 1, ps[j])
  {
    assert ps[j..][0] == ps[j];
  }

  /** One chunk of two lines, of which the second is refused at first: the first line is written twice. */
  lemma WrittenTwice()
    ensures var e := Ends(_ => false, i => i != 1);
            RetriedAt(SENTINEL_PREFIX, e, ["a\nb\n"], 1, [Emitted("a\n"), Emitted("a\n"), Emitted("b\n")])
  {
    var e := Ends(_ => false, i => i != 1);
    RetriedTwoLines(e);
    RetriedAtOnce(SENTINEL_PREFIX, e, "a\nb\n", [Emitted("a\n"), Emitted("a\n"), Emitted("b\n")]);
  }

  /** A chunk without the sentinel's first byte is shown at once. */
  lemma ShownAtOnce(mark: string, s: string)
    requires mark != "" && mark[0] !in s
    ensures Shown(mark, Then(Start, s)) == s
  {
    var h := Then(Start, s);
    assert Fed(Start) == "" && Fed(h) == "" + s;
    assert "" + s == s && s[..|s|] == s;
    NeverStarts(mark, s);
  }

  lemma NeverStarts(n: string, s: string)
    requires n != "" && n[0] !in s
    ensures Index(s, n) == -1 && ExitOf(n, s).None? && OverlapLen(s, n) == 0
  {
    IndexSpec(s, n, -1);
    OverlapLenLongest(s, n);
  }

  lemma RetriedAtOnce(mark: string, e: Ends, s: string, log: seq<Event>)
    requires mark != "" && mark[0] !in s && Retried(e, "", s, log)
    ensures RetriedAt(mark, e, [s], 1, log)
  {
    ShownAtOnce(mark, s);
    assert HistoryOf([s], 1) == Then(HistoryOf([s], 0), s);
  }

  lemma RetriedTwoLines(e: Ends)
    requires !e.warns("a\n") && !e.warns("b\n") && e.takes(0) && !e.takes(1) && e.takes(2) && e.takes(3)
    ensures Retried(e, "", "a\nb\n", [Emitted("a\n"), Emitted("a\n"), Emitted("b\n")])
  {
    var (a, b) := ("a\n", "b\n");
    TwoLines();
    var ps := Pieces("a\nb\n");
    assert ps == [a, b];
    assert ps[1..] == [b] && [b][1..] == [];
    assert Accepted(e, 0, ps) == 1 && Accepted(e, 2, ps) == 2;
    assert ps[..1] == [a] && [a][..0] == [] && Offers(e, [a]) == 1;
    assert Events(e, [b]) == [Emitted(b)] && Events(e, ps) == [Emitted(a)] + Events(e, ps[1..]);
    assert Events(e, [a]) == [Emitted(a)] by { assert [a][1..] == []; }
    assert ps[0..][..2] == ps && Lines("") == [];
  }

  lemma TwoLines()
    ensures Lines("a\nb\n") == ["a\n", "b\n"] && Pieces("a\nb\n") == ["a\n", "b\n"]
  {
    var a, b: string := "a\n", "b\n";
    SplitAppend([], "", a, b);
    assert a + b == "a\nb\n" && a == ['a', '\n'] && b == ['b', '\n'];
    OneLine([], 'a');
    OneLine([a], 'b');
    assert [] + [a] == [a] && [a] + [b] == [a, b];
  }

  lemma OneLine(done: seq<string>, c: char)
    requires c != '\n'
    ensures Split(done, "", [c, '\n']) == (done + [[c, '\n']], "")
  {
    var line := [c, '\n'];
    assert line[1..] == "\n" && "" + [line[0]] == "" + [c];
    EndLine(done, [c]);
    assert [c] + "\n" == line;
  }
}
