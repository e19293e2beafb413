/**
 Marshal and Unmarshal of ninep/codec.go for the 23 message types, marshalDir and
 unmarshalDir, and the framing that rpc reads replies with. The layout of each
 message is that of section 5 of the Plan 9 manual (intro(5)).
 */
module Codec {
  import opened Wrappers
  import opened Wire

  // ----- Directory entries

  datatype Dir = Dir(kind: nat, dev: nat, qid: QID, mode: nat, atime: nat, mtime: nat, length: nat,
                     name: Bytes, uid: Bytes, gid: Bytes, muid: Bytes)

  function DirItems(d: Dir, size: nat): seq<Item> {
    [Int(2, size), Int(2, d.kind), Int(4, d.dev), Qid(d.qid), Int(4, d.mode), Int(4, d.atime), Int(4, d.mtime),
     Int(8, d.length), Text(d.name), Text(d.uid), Text(d.gid), Text(d.muid)]
  }

  function DirShapes(): seq<Shape> {
    [IntOf(2), IntOf(2), IntOf(4), QidOf, IntOf(4), IntOf(4), IntOf(4), IntOf(8), TextOf, TextOf, TextOf, TextOf]
  }

  /** marshalDir: the first two bytes are patched with the size of the rest. */
  function MarshalDir(d: Dir): Bytes {
    var n := |WriteAll(DirItems(d, 0))|;
    WriteAll(DirItems(d, if n >= 2 then n - 2 else 0))
  }

  function IntV(i: Item): nat { if i.Int? then i.v else 0 }
  function TextV(i: Item): Bytes { if i.Text? then i.text else [] }
  function TextsV(i: Item): seq<Bytes> { if i.Texts? then i.texts else [] }
  function QidV(i: Item): QID { if i.Qid? then i.qid else QID(0, 0, 0) }
  function QidsV(i: Item): seq<QID> { if i.Qids? then i.qids else [] }
  function BlockV(i: Item): Bytes { if i.Block? then i.data else [] }

  function DirFrom(i: seq<Item>): Dir
    requires |i| == 12
  {
    Dir(IntV(i[1]), IntV(i[2]), QidV(i[3]), IntV(i[4]), IntV(i[5]), IntV(i[6]), IntV(i[7]),
        TextV(i[8]), TextV(i[9]), TextV(i[10]), TextV(i[11]))
  }

  /** unmarshalDir. The size that it reads first is not looked at. */
  function UnmarshalDir(b: Bytes): Dir {
    ReadAllShapes(DirShapes(), b);
    DirFrom(ReadAll(DirShapes(), b).value.0)
  }

  lemma {:induction false} ReadAllShapes(shapes: seq<Shape>, b: Bytes)
    ensures var r := ReadAll(shapes, b); r.Some? ==> |r.value.0| == |shapes|
    ensures (forall k :: 0 <= k < |shapes| ==> !shapes[k].BlockOf?) ==> ReadAll(shapes, b).Some?
  {
    if shapes != [] {
      var first := Read(shapes[0], b);
      if first.Some? {
        ReadAllShapes(shapes[1..], first.value.1);
      }
    }
  }

  /** All fields are within their widths. */
  ghost predicate FieldsFit(d: Dir) {
    forall k :: 1 <= k < 12 ==> Fits(DirItems(d, 0)[k])
  }

  /** And the size that precedes the entry, which does not count its own two bytes. */
  ghost predicate DirFits(d: Dir) {
    FieldsFit(d) && |MarshalDir(d)| - 2 < Pow256(2)
  }

  lemma DirLength(d: Dir, size: nat)
    ensures |WriteAll(DirItems(d, size))| == |WriteAll(DirItems(d, 0))| >= 2
    ensures WriteAll(DirItems(d, size))[..2] == LE(2, size)
    ensures WriteAll(DirItems(d, size)) == LE(2, size) + WriteAll(DirItems(d, 0)[1..])
  {
    var i, j := DirItems(d, size), DirItems(d, 0);
    assert i[1..] == j[1..];
    Peel(LE(2, size), WriteAll(i[1..]));
  }

  /** unmarshalDir undoes marshalDir, and the first two bytes are the size of the rest, as far as 16 bits hold it. */
  lemma DirBack(d: Dir)
    requires FieldsFit(d)
    ensures UnmarshalDir(MarshalDir(d)) == d
    ensures |MarshalDir(d)| >= 2 && Value(MarshalDir(d)[..2]) == (|MarshalDir(d)| - 2) % Pow256(2)
  {
    var size := SizeField(d);
    ValueLE(2, size);
    DirItemsBack(DirItems(d, size), d, size);
  }

  /** The size as 16 bits hold it makes the same entry. */
  lemma SizeField(d: Dir) returns (size: nat)
    requires FieldsFit(d)
    ensures |MarshalDir(d)| >= 2 && size == (|MarshalDir(d)| - 2) % Pow256(2) < Pow256(2)
    ensures MarshalDir(d) == WriteAll(DirItems(d, size)) && MarshalDir(d)[..2] == LE(2, size)
    ensures forall k :: 0 <= k < 12 ==> Fits(DirItems(d, size)[k])
  {
    var n := |WriteAll(DirItems(d, 0))|;
    DirLength(d, 0);
    DirLength(d, n - 2);
    LEWraps(n - 2);
    size := (n - 2) % Pow256(2);
    DirLength(d, size);
    forall k | 0 <= k < 12 ensures Fits(DirItems(d, size)[k]) {
      assert k > 0 ==> DirItems(d, size)[k] == DirItems(d, 0)[k];
    }
  }

  lemma DirItemsBack(items: seq<Item>, d: Dir, size: nat)
    requires items == DirItems(d, size) && forall k :: 0 <= k < 12 ==> Fits(items[k])
    ensures UnmarshalDir(WriteAll(items)) == d
  {
    ItemsBack(items, []);
    assert WriteAll(items) + [] == WriteAll(items);
    ShapesOfDir(d, size);
  }

  lemma ShapesOfDir(d: Dir, size: nat)
    ensures Shapes(DirItems(d, size)) == DirShapes()
  {
    ShapesAt(DirItems(d, size));
  }

  lemma {:induction false} ShapesAt(items: seq<Item>)
    ensures forall k :: 0 <= k < |items| ==> Shapes(items)[k] == ShapeOf(items[k])
  {
    if items != [] { ShapesAt(items[1..]); }
  }

  // ----- Messages

  const TVERSION := 100
  const RVERSION := 101
  const TATTACH := 104
  const RATTACH := 105
  const RERROR := 107
  const TWALK := 110
  const RWALK := 111
  const TOPEN := 112
  const ROPEN := 113
  const TCREATE := 114
  const RCREATE := 115
  const TREAD := 116
  const RREAD := 117
  const TWRITE := 118
  const RWRITE := 119
  const TCLUNK := 120
  const RCLUNK := 121
  const TREMOVE := 122
  const RREMOVE := 123
  const TSTAT := 124
  const RSTAT := 125
  const TWSTAT := 126
  const RWSTAT := 127

  datatype Fcall = Fcall(kind: nat, tag: nat, msize: nat, version: Bytes, fid: nat, newfid: nat, afid: nat,
                         uname: Bytes, aname: Bytes, wnames: seq<Bytes>, wqids: seq<QID>, mode: nat, name: Bytes,
                         perm: nat, offset: nat, count: nat, data: Bytes, qid: QID, iounit: nat, dir: Option<Dir>,
                         ename: Bytes)

  function Empty(kind: nat, tag: nat): Fcall {
    Fcall(kind, tag, 0, [], 0, 0, 0, [], [], [], [], 0, [], 0, 0, 0, [], QID(0, 0, 0), 0, None, [])
  }

  function DirBytes(d: Option<Dir>): Bytes { if d.None? then [] else MarshalDir(d.value) }

  predicate Supported(kind: nat) {
    kind in {TVERSION, RVERSION, TATTACH, RATTACH, RERROR, TWALK, RWALK, TOPEN, ROPEN, TCREATE, RCREATE, TREAD, RREAD,
             TWRITE, RWRITE, TCLUNK, RCLUNK, TREMOVE, RREMOVE, TSTAT, RSTAT, TWSTAT, RWSTAT}
  }

  /** The switch of Marshal: what follows type and tag. */
  function Body(f: Fcall): seq<Item> {
    if f.kind == TVERSION || f.kind == RVERSION then [Int(4, f.msize), Text(f.version)]
    else if f.kind == TATTACH then [Int(4, f.fid), Int(4, f.afid), Text(f.uname), Text(f.aname)]
    else if f.kind == RATTACH then [Qid(f.qid)]
    else if f.kind == TWALK then [Int(4, f.fid), Int(4, f.newfid), Texts(f.wnames)]
    else if f.kind == RWALK then [Qids(f.wqids)]
    else if f.kind == TOPEN then [Int(4, f.fid), Int(1, f.mode)]
    else if f.kind == ROPEN || f.kind == RCREATE then [Qid(f.qid), Int(4, f.iounit)]
    else if f.kind == TCREATE then [Int(4, f.fid), Text(f.name), Int(4, f.perm), Int(1, f.mode)]
    else if f.kind == TREAD then [Int(4, f.fid), Int(8, f.offset), Int(4, f.count)]
    else if f.kind == RREAD then [Block(4, f.data)]
    else if f.kind == TWRITE then [Int(4, f.fid), Int(8, f.offset), Block(4, f.data)]
    else if f.kind == RWRITE then [Int(4, f.count)]
    else if f.kind in {TCLUNK, TREMOVE, TSTAT} then [Int(4, f.fid)]
    else if f.kind == TWSTAT then [Int(4, f.fid), Block(2, DirBytes(f.dir))]
    else if f.kind == RSTAT then [Block(2, DirBytes(f.dir))]
    else if f.kind == RERROR then [Text(f.ename)]
    else []
  }

  function Message(f: Fcall): seq<Item> { [Int(1, f.kind), Int(2, f.tag)] + Body(f) }

  /** Marshal; None is its error for an unsupported type. */
  function Marshal(f: Fcall): Option<Bytes> {
    if !Supported(f.kind) then None
    else
      var body := WriteAll(Message(f));
      Some(LE(4, 4 + |body|) + body)
  }

  /** The reads of Unmarshal for each type. */
  function BodyShapes(kind: nat): seq<Shape> {
    if kind == TVERSION || kind == RVERSION then [IntOf(4), TextOf]
    else if kind == TATTACH then [IntOf(4), IntOf(4), TextOf, TextOf]
    else if kind == RATTACH then [QidOf]
    else if kind == TWALK then [IntOf(4), IntOf(4), TextsOf]
    else if kind == RWALK then [QidsOf]
    else if kind == TOPEN then [IntOf(4), IntOf(1)]
    else if kind == ROPEN || kind == RCREATE then [QidOf, IntOf(4)]
    else if kind == TCREATE then [IntOf(4), TextOf, IntOf(4), IntOf(1)]
    else if kind == TREAD then [IntOf(4), IntOf(8), IntOf(4)]
    else if kind == RREAD then [BlockOf(4)]
    else if kind == TWRITE then [IntOf(4), IntOf(8), BlockOf(4)]
    else if kind == RWRITE then [IntOf(4)]
    else if kind in {TCLUNK, TREMOVE, TSTAT} then [IntOf(4)]
    else if kind == TWSTAT then [IntOf(4), BlockOf(2)]
    else if kind == RSTAT then [BlockOf(2)]
    else if kind == RERROR then [TextOf]
    else []
  }

  /** The assignments of Unmarshal for each type. */
  function Build(kind: nat, tag: nat, i: seq<Item>): Fcall
    requires |i| == |BodyShapes(kind)|
  {
    var e := Empty(kind, tag);
    if kind == TVERSION || kind == RVERSION then e.(msize := IntV(i[0]), version := TextV(i[1]))
    else if kind == TATTACH then e.(fid := IntV(i[0]), afid := IntV(i[1]), uname := TextV(i[2]), aname := TextV(i[3]))
    else if kind == RATTACH then e.(qid := QidV(i[0]))
    else if kind == TWALK then e.(fid := IntV(i[0]), newfid := IntV(i[1]), wnames := TextsV(i[2]))
    else if kind == RWALK then e.(wqids := QidsV(i[0]))
    else if kind == TOPEN then e.(fid := IntV(i[0]), mode := IntV(i[1]))
    else if kind == ROPEN || kind == RCREATE then e.(qid := QidV(i[0]), iounit := IntV(i[1]))
    else if kind == TCREATE then e.(fid := IntV(i[0]), name := TextV(i[1]), perm := IntV(i[2]), mode := IntV(i[3]))
    else if kind == TREAD then e.(fid := IntV(i[0]), offset := IntV(i[1]), count := IntV(i[2]))
    else if kind == RREAD then e.(data := BlockV(i[0]))
    else if kind == TWRITE then e.(fid := IntV(i[0]), offset := IntV(i[1]), data := BlockV(i[2]))
    else if kind == RWRITE then e.(count := IntV(i[0]))
    else if kind in {TCLUNK, TREMOVE, TSTAT} then e.(fid := IntV(i[0]))
    else if kind == TWSTAT then e.(fid := IntV(i[0]), dir := Some(UnmarshalDir(BlockV(i[1]))))
    else if kind == RSTAT then e.(dir := Some(UnmarshalDir(BlockV(i[0]))))
    else if kind == RERROR then e.(ename := TextV(i[0]))
    else e
  }

  /** Unmarshal; None is any of its errors. Bytes after the last field are ignored. */
  function Unmarshal(b: Bytes): Option<Fcall> {
    if |b| < 7 || Value(b[..4]) != |b| then None
    else
      var (kind, r) := ReadInt(1, b[4..]);
      var (tag, r') := ReadInt(2, r);
      if !Supported(kind) then None
      else
        var body := ReadAll(BodyShapes(kind), r');
        ReadAllShapes(BodyShapes(kind), r');
        if body.None? then None else Some(Build(kind, tag, body.value.0))
  }

  // ----- What a message carries

  /** f with every field zeroed that a message of its type does not carry. */
  function Carried(f: Fcall): Fcall {
    var k := f.kind;
    Fcall(k, f.tag,
      if k in {TVERSION, RVERSION} then f.msize else 0,
      if k in {TVERSION, RVERSION} then f.version else [],
      if k in {TATTACH, TWALK, TOPEN, TCREATE, TREAD, TWRITE, TCLUNK, TREMOVE, TSTAT, TWSTAT} then f.fid else 0,
      if k == TWALK then f.newfid else 0,
      if k == TATTACH then f.afid else 0,
      if k == TATTACH then f.uname else [],
      if k == TATTACH then f.aname else [],
      if k == TWALK then f.wnames else [],
      if k == RWALK then f.wqids else [],
      if k in {TOPEN, TCREATE} then f.mode else 0,
      if k == TCREATE then f.name else [],
      if k == TCREATE then f.perm else 0,
      if k in {TREAD, TWRITE} then f.offset else 0,
      if k in {TREAD, RWRITE} then f.count else 0,
      if k in {RREAD, TWRITE} then f.data else [],
      if k in {RATTACH, ROPEN, RCREATE} then f.qid else QID(0, 0, 0),
      if k in {ROPEN, RCREATE} then f.iounit else 0,
      if k in {RSTAT, TWSTAT} then f.dir else None,
      if k == RERROR then f.ename else [])
  }

  /** A supported message within the limits of its length fields, with the entry that a stat message needs. */
  ghost predicate FcallFits(f: Fcall) {
    Supported(f.kind) && f.tag < Pow256(2) &&
    (forall k :: 0 <= k < |Body(f)| ==> Fits(Body(f)[k])) &&
    4 + |WriteAll(Message(f))| < Pow256(4) &&
    (f.kind in {RSTAT, TWSTAT} ==> f.dir.Some? && FieldsFit(f.dir.value))
  }

  lemma BodyShape(f: Fcall)
    ensures |Body(f)| == |BodyShapes(f.kind)|
    ensures forall k :: 0 <= k < |Body(f)| ==> ShapeOf(Body(f)[k]) == BodyShapes(f.kind)[k]
  {
  }

  lemma BodyShapesMatch(f: Fcall)
    ensures Shapes(Body(f)) == BodyShapes(f.kind)
  {
    BodyShape(f);
    ShapesAt(Body(f));
  }

  ghost predicate StatDecodes(f: Fcall) {
    f.kind in {RSTAT, TWSTAT} ==> f.dir.Some? && UnmarshalDir(DirBytes(f.dir)) == f.dir.value
  }

  lemma BuildSession(f: Fcall)
    requires f.kind < TOPEN && |Body(f)| == |BodyShapes(f.kind)|
    ensures Build(f.kind, f.tag, Body(f)) == Carried(f)
  {
  }

  lemma BuildOpen(f: Fcall)
    requires TOPEN <= f.kind < TREAD && |Body(f)| == |BodyShapes(f.kind)|
    ensures Build(f.kind, f.tag, Body(f)) == Carried(f)
  {
  }

  lemma BuildTransfer(f: Fcall)
    requires TREAD <= f.kind < TCLUNK && |Body(f)| == |BodyShapes(f.kind)|
    ensures Build(f.kind, f.tag, Body(f)) == Carried(f)
  {
  }

  lemma BuildStat(f: Fcall)
    requires TCLUNK <= f.kind && |Body(f)| == |BodyShapes(f.kind)| && StatDecodes(f)
    ensures Build(f.kind, f.tag, Body(f)) == Carried(f)
  {
  }

  lemma BuildBack(f: Fcall)
    requires |Body(f)| == |BodyShapes(f.kind)| && StatDecodes(f)
    ensures Build(f.kind, f.tag, Body(f)) == Carried(f)
  {
    if f.kind < TOPEN {
      BuildSession(f);
    } else if f.kind < TREAD {
      BuildOpen(f);
    } else if f.kind < TCLUNK {
      BuildTransfer(f);
    } else {
      BuildStat(f);
    }
  }

  lemma MessageBytes(f: Fcall)
    ensures WriteAll(Message(f)) == LE(1, f.kind) + (LE(2, f.tag) + WriteAll(Body(f)))
    ensures |WriteAll(Message(f))| >= 3
  {
    var m := Message(f);
    assert m[1..][1..] == Body(f);
    assert m[1..][0] == Int(2, f.tag);
  }

  /** Unmarshal(Marshal(f)) is f with the fields zeroed that its message does not carry. */
  lemma MarshalBack(f: Fcall)
    requires FcallFits(f)
    ensures Marshal(f).Some? && Unmarshal(Marshal(f).value) == Some(Carried(f))
  {
    Widths();
    HeaderBack(f);
    BodyBack(f);
    BodyShape(f);
    Assemble(WriteAll(Message(f)), f.kind, f.tag, Body(f), WriteAll(Body(f)));
    StatBack(f);
    BuildBack(f);
  }

  /** What Unmarshal builds, from what its reads give. */
  lemma Assemble(message: Bytes, kind: nat, tag: nat, items: seq<Item>, body: Bytes)
    requires 3 <= |message| && 4 + |message| < Pow256(4) && Supported(kind) && |items| == |BodyShapes(kind)|
    requires var (k, r) := ReadInt(1, message); k == kind && ReadInt(2, r) == (tag, body)
    requires ReadAll(BodyShapes(kind), body) == Some((items, []))
    ensures Unmarshal(LE(4, 4 + |message|) + message) == Some(Build(kind, tag, items))
  {
    Peel(LE(4, 4 + |message|), message);
    ValueLE(4, 4 + |message|);
  }

  lemma HeaderBack(f: Fcall)
    requires f.kind < Pow256(1) && f.tag < Pow256(2)
    ensures var (kind, r) := ReadInt(1, WriteAll(Message(f)));
            kind == f.kind && ReadInt(2, r) == (f.tag, WriteAll(Body(f)))
    ensures |WriteAll(Message(f))| >= 3
  {
    var rest := WriteAll(Body(f));
    MessageBytes(f);
    IntBack(1, f.kind, LE(2, f.tag) + rest);
    IntBack(2, f.tag, rest);
  }

  lemma BodyBack(f: Fcall)
    requires forall k :: 0 <= k < |Body(f)| ==> Fits(Body(f)[k])
    ensures ReadAll(BodyShapes(f.kind), WriteAll(Body(f))) == Some((Body(f), []))
  {
    assert WriteAll(Body(f)) + [] == WriteAll(Body(f));
    ItemsBack(Body(f), []);
    BodyShapesMatch(f);
  }

  lemma StatBack(f: Fcall)
    requires f.kind in {RSTAT, TWSTAT} ==> f.dir.Some? && FieldsFit(f.dir.value)
    ensures StatDecodes(f)
  {
    if f.kind in {RSTAT, TWSTAT} {
      DirBack(f.dir.value);
    }
  }

  // ----- Framing

  /** What reading from the stream comes to. */
  datatype Taken<T> = Took(value: T, rest: Bytes) | Failed | Panicked

  /** How rpc takes a message off the stream: a size, then size - 4 more bytes. A size below 4 makes it panic. */
  function ReadFrame(stream: Bytes): Taken<Bytes> {
    if |stream| < 4 then Failed
    else
      var size := Value(stream[..4]);
      if size < 4 then Panicked else if |stream| < size then Failed else Took(stream[..size], stream[size..])
  }

  lemma FrameBack(f: Fcall, rest: Bytes)
    requires FcallFits(f)
    ensures Marshal(f).Some? && ReadFrame(Marshal(f).value + rest) == Took(Marshal(f).value, rest)
  {
    var body, bytes := WriteAll(Message(f)), Marshal(f).value;
    ValueLE(4, 4 + |body|);
    assert (bytes + rest)[..4] == LE(4, 4 + |body|);
    Peel(bytes, rest);
  }

  /** The bytes of several values, one after the other. */
  function Stream<T>(enc: T -> Bytes, fs: seq<T>): Bytes {
    if fs == [] then [] else enc(fs[0]) + Stream(enc, fs[1..])
  }

  function Each<T>(f: T -> T, s: seq<T>): seq<T> {
    if s == [] then [] else [f(s[0])] + Each(f, s[1..])
  }

  /** One call of rpc takes one message off the stream. */
  function NextReply(stream: Bytes): Taken<Fcall> {
    match ReadFrame(stream)
    case Failed => Failed
    case Panicked => Panicked
    case Took(frame, rest) =>
      var reply := Unmarshal(frame);
      if reply.None? then Failed else Took(reply.value, rest)
  }

  /** When a server makes rpc panic by the size that it announces, which leaves a negative length for the buffer. */
  lemma PanicsIff(stream: Bytes)
    ensures NextReply(stream).Panicked? <==> |stream| >= 4 && Value(stream[..4]) < 4
  {
  }

  lemma PanicsOnZero(rest: Bytes)
    ensures NextReply([0, 0, 0, 0] + rest).Panicked?
  {
    var zero: Bytes := [0, 0, 0, 0];
    Peel(zero, rest);
    assert zero[1..][1..][1..][1..] == [];
    assert Value(zero) == 0;
  }

  /** What n calls that each take something off the stream get, and what they leave. */
  function Replies<T>(take: Bytes -> Taken<T>, n: nat, stream: Bytes): Taken<seq<T>>
    decreases n
  {
    if n == 0 then Took([], stream)
    else
      match take(stream)
      case Failed => Failed
      case Panicked => Panicked
      case Took(x, rest) => Before([x], Replies(take, n - 1, rest))
  }

  function Before<T>(fs: seq<T>, r: Taken<seq<T>>): Taken<seq<T>> {
    match r
    case Took(more, rest) => Took(fs + more, rest)
    case _ => r
  }

  lemma BeforeTwice<T>(a: seq<T>, b: seq<T>, r: Taken<seq<T>>)
    ensures Before(a, Before(b, r)) == Before(a + b, r)
  {
    if r.Took? { assert a + (b + r.value) == a + b + r.value; }
  }

  lemma BeforeNothing<T>(r: Taken<seq<T>>)
    ensures Before([], r) == r
  {
    if r.Took? { assert [] + r.value == r.value; }
  }

  /** Successive calls of rpc on one stream. */
  method ReadReplies<T>(take: Bytes -> Taken<T>, n: nat, stream: Bytes) returns (r: Taken<seq<T>>)
    ensures r == Replies(take, n, stream)
  {
    var got: seq<T>, rest := [], stream;
    BeforeNothing(Replies(take, n, stream));
    for i := 0 to n
      invariant Replies(take, n, stream) == Before(got, Replies(take, n - i, rest))
    {
      match take(rest)
      case Failed => return Failed;
      case Panicked => return Panicked;
      case Took(x, more) =>
        BeforeTwice(got, [x], Replies(take, n - i - 1, more));
        got, rest := got + [x], more;
    }
    assert got + [] == got;
    return Took(got, rest);
  }

  /** take gets x, as back leaves it, off any stream that starts with its bytes. */
  ghost predicate TakesBack<T>(take: Bytes -> Taken<T>, enc: T -> Bytes, back: T -> T, x: T) {
    forall rest: Bytes :: take(enc(x) + rest) == Took(back(x), rest)
  }

  lemma {:induction false} StreamBack<T>(take: Bytes -> Taken<T>, enc: T -> Bytes, back: T -> T, fs: seq<T>, tail: Bytes)
    requires forall k :: 0 <= k < |fs| ==> TakesBack(take, enc, back, fs[k])
    ensures Replies(take, |fs|, Stream(enc, fs) + tail) == Took(Each(back, fs), tail)
  {
    if fs == [] {
      assert [] + tail == tail;
    } else {
      var rest := Stream(enc, fs[1..]) + tail;
      Regroup(enc(fs[0]), Stream(enc, fs[1..]), tail);
      assert TakesBack(take, enc, back, fs[0]);
      StreamBack(take, enc, back, fs[1..], tail);
    }
  }

  function MarshalOf(f: Fcall): Bytes { if Marshal(f).None? then [] else Marshal(f).value }

  /** Any concatenation of marshalled messages is split back into those messages, and what follows them is kept. */
  lemma MessagesBack(fs: seq<Fcall>, tail: Bytes)
    requires forall k :: 0 <= k < |fs| ==> FcallFits(fs[k])
    ensures Replies(NextReply, |fs|, Stream(MarshalOf, fs) + tail) == Took(Each(Carried, fs), tail)
  {
    forall k | 0 <= k < |fs| ensures TakesBack(NextReply, MarshalOf, Carried, fs[k]) {
      ReplyTaken(fs[k]);
    }
    StreamBack(NextReply, MarshalOf, Carried, fs, tail);
  }

  lemma ReplyTaken(f: Fcall)
    requires FcallFits(f)
    ensures TakesBack(NextReply, MarshalOf, Carried, f)
  {
    forall rest: Bytes ensures NextReply(MarshalOf(f) + rest) == Took(Carried(f), rest) {
      ReplyOf(f, rest);
    }
  }

  lemma ReplyOf(f: Fcall, rest: Bytes)
    requires FcallFits(f)
    ensures Marshal(f).Some? && NextReply(Marshal(f).value + rest) == Took(Carried(f), rest)
  {
    FrameBack(f, rest);
    MarshalBack(f);
    Received(Marshal(f).value + rest, Marshal(f).value, rest, Carried(f));
  }

  lemma Received(stream: Bytes, frame: Bytes, rest: Bytes, f: Fcall)
    requires ReadFrame(stream) == Took(frame, rest) && Unmarshal(frame) == Some(f)
    ensures NextReply(stream) == Took(f, rest)
  {
  }
}
