/**
 Where each field of a message stands, byte by byte, as section 5 of the Plan 9
 manual (intro(5), stat(5)) lays it out: a description that is independent of the
 writers and readers of Wire and Codec, and the proof that they meet it.
 */
module Layout {
  import opened Wrappers
  import opened Wire
  import opened Codec

  // ----- Fields

  /** v stands at o in w bytes, least significant first. */
  ghost predicate Num(b: Bytes, o: nat, w: nat, v: nat) {
    o + w <= |b| && forall i: nat :: i < w ==> b[o + i] == v / Pow256(i) % 256
  }

  /** A string: a 16-bit count, and the bytes. */
  ghost predicate Str(b: Bytes, o: nat, t: Bytes) {
    Num(b, o, 2, |t|) && Holds(b, o + 2, t)
  }

  /** The bytes stand at o. */
  ghost predicate Holds(b: Bytes, o: nat, t: Bytes) {
    o + |t| <= |b| && forall i: nat :: i < |t| ==> b[o + i] == t[i]
  }

  /** A qid: type, version and path, in 13 bytes. */
  ghost predicate QidAt(b: Bytes, o: nat, q: QID) {
    Num(b, o, 1, q.kind) && Num(b, o + 1, 4, q.version) && Num(b, o + 5, 8, q.path)
  }

  /** The total length of strings with their counts. */
  ghost function Extent(ts: seq<Bytes>): nat {
    if ts == [] then 0 else 2 + |ts[0]| + Extent(ts[1..])
  }

  /** Strings, one after the other. */
  ghost predicate Strs(b: Bytes, o: nat, ts: seq<Bytes>)
    decreases |ts|
  {
    ts != [] ==> Str(b, o, ts[0]) && Strs(b, o + 2 + |ts[0]|, ts[1..])
  }

  ghost predicate QidsAt(b: Bytes, o: nat, qs: seq<QID>) {
    forall k: nat :: k < |qs| ==> QidAt(b, o + 13 * k, qs[k])
  }

  /** stat(5): size, type, dev and qid. */
  ghost predicate DirHead(b: Bytes, size: nat, d: Dir) {
    Num(b, 0, 2, size) && Num(b, 2, 2, d.kind) && Num(b, 4, 4, d.dev) && QidAt(b, 8, d.qid)
  }

  /** Mode, times and length. */
  ghost predicate DirTimes(b: Bytes, d: Dir) {
    Num(b, 21, 4, d.mode) && Num(b, 25, 4, d.atime) && Num(b, 29, 4, d.mtime) && Num(b, 33, 8, d.length)
  }

  /** The four names, one after the other. */
  ghost predicate DirNames(b: Bytes, d: Dir) {
    Str(b, 41, d.name) && Str(b, 43 + |d.name|, d.uid) && Str(b, 45 + |d.name| + |d.uid|, d.gid) &&
    Str(b, 47 + |d.name| + |d.uid| + |d.gid|, d.muid)
  }

  function DirSize(d: Dir): nat {
    49 + |d.name| + |d.uid| + |d.gid| + |d.muid|
  }

  ghost predicate DirLayout(b: Bytes, d: Dir) {
    |b| == DirSize(d) && DirHead(b, |b| - 2, d) && DirTimes(b, d) && DirNames(b, d)
  }

  /** A counted entry, from o to the end. */
  ghost predicate StatLayout(b: Bytes, o: nat, dir: Option<Dir>) {
    o + 2 <= |b| && Num(b, o, 2, |b| - o - 2) && if dir.None? then |b| == o + 2 else DirLayout(b[o + 2..], dir.value)
  }

  // ----- Messages

  /** The types of the messages that there are: intro(5) leaves out 102, 103 and 106. */
  predicate IsType(kind: nat) {
    kind in {100, 101, 104, 105, 107} || 110 <= kind <= 127
  }

  /** What stands after the seven bytes of size, type and tag. */
  ghost predicate Fields(b: Bytes, f: Fcall) {
    match f.kind
    case 100 | 101 => |b| == 13 + |f.version| && Num(b, 7, 4, f.msize) && Str(b, 11, f.version)
    case 104 => |b| == 19 + |f.uname| + |f.aname| &&
                Num(b, 7, 4, f.fid) && Num(b, 11, 4, f.afid) && Str(b, 15, f.uname) && Str(b, 17 + |f.uname|, f.aname)
    case 105 => |b| == 20 && QidAt(b, 7, f.qid)
    case 107 => |b| == 9 + |f.ename| && Str(b, 7, f.ename)
    case 110 => |b| == 17 + Extent(f.wnames) &&
                Num(b, 7, 4, f.fid) && Num(b, 11, 4, f.newfid) && Num(b, 15, 2, |f.wnames|) && Strs(b, 17, f.wnames)
    case 111 => |b| == 9 + 13 * |f.wqids| && Num(b, 7, 2, |f.wqids|) && QidsAt(b, 9, f.wqids)
    case 112 => |b| == 12 && Num(b, 7, 4, f.fid) && Num(b, 11, 1, f.mode)
    case 113 | 115 => |b| == 24 && QidAt(b, 7, f.qid) && Num(b, 20, 4, f.iounit)
    case 114 => |b| == 18 + |f.name| &&
                Num(b, 7, 4, f.fid) && Str(b, 11, f.name) && Num(b, 13 + |f.name|, 4, f.perm) && Num(b, 17 + |f.name|, 1, f.mode)
    case 116 => |b| == 23 && Num(b, 7, 4, f.fid) && Num(b, 11, 8, f.offset) && Num(b, 19, 4, f.count)
    case 117 => |b| == 11 + |f.data| && Num(b, 7, 4, |f.data|) && Holds(b, 11, f.data)
    case 118 => |b| == 23 + |f.data| &&
                Num(b, 7, 4, f.fid) && Num(b, 11, 8, f.offset) && Num(b, 19, 4, |f.data|) && Holds(b, 23, f.data)
    case 119 => |b| == 11 && Num(b, 7, 4, f.count)
    case 120 | 122 | 124 => |b| == 11 && Num(b, 7, 4, f.fid)
    case 125 => StatLayout(b, 7, f.dir)
    case 126 => Num(b, 7, 4, f.fid) && StatLayout(b, 11, f.dir)
    case _ => |b| == 7
  }

  ghost predicate MessageLayout(b: Bytes, f: Fcall) {
    |b| >= 7 && Num(b, 0, 4, |b|) && b[4] == f.kind && Num(b, 5, 2, f.tag) && Fields(b, f)
  }

  // ----- Writers and places

  /** The divisors that Num takes the bytes of at most eight by. */
  lemma Powers()
    ensures Pow256(0) == 1 && Pow256(1) == 0x100 && Pow256(2) == 0x1_0000 && Pow256(3) == 0x100_0000
    ensures Pow256(4) == 0x1_0000_0000 && Pow256(5) == 0x100_0000_0000 && Pow256(6) == 0x1_0000_0000_0000
    ensures Pow256(7) == 0x100_0000_0000_0000
  {
    Widths();
    assert Pow256(5) == 256 * Pow256(4);
    assert Pow256(6) == 256 * Pow256(5);
  }

  lemma {:induction false} LEByte(n: nat, v: nat, i: nat)
    requires i < n
    ensures LE(n, v)[i] == v / Pow256(i) % 256
  {
    if i > 0 {
      LEByte(n - 1, v / 256, i - 1);
      DivideTwice(v, Pow256(i - 1));
    }
  }

  lemma DivideTwice(v: nat, k: nat)
    requires k > 0
    ensures v / 256 / k == v / (256 * k)
  {
    var (q, r) := (v / 256, v % 256);
    var (a, c) := (q / k, q % k);
    assert v == 256 * (a * k + c) + r;
    assert 256 * c + r < 256 * k;
    QuotientIs(v, 256 * k, a, 256 * c + r);
  }

  lemma QuotientIs(v: nat, m: nat, a: nat, r: nat)
    requires m > 0 && r < m && v == a * m + r
    ensures v / m == a
  {
    var q := v / m;
    if q > a {
      Gap(a, q - a - 1, m);
    } else if q < a {
      Gap(q, a - q - 1, m);
    }
  }

  lemma Gap(a: nat, k: nat, m: nat)
    ensures (a + 1 + k) * m >= a * m + m
  {
    assert (a + 1 + k) * m == a * m + m + k * m;
  }

  /** The integer is what LE writes. */
  lemma NumIff(b: Bytes, o: nat, w: nat, v: nat)
    ensures Num(b, o, w, v) <==> Holds(b, o, LE(w, v))
  {
    forall i: nat | i < w ensures LE(w, v)[i] == v / Pow256(i) % 256 {
      LEByte(w, v, i);
    }
  }

  /** What stands at o is x and then y. */
  lemma HoldsSum(b: Bytes, o: nat, x: Bytes, y: Bytes)
    ensures Holds(b, o, x + y) <==> Holds(b, o, x) && Holds(b, o + |x|, y)
  {
    if Holds(b, o, x + y) {
      forall i: nat | i < |x| ensures b[o + i] == x[i] { assert (x + y)[i] == x[i]; }
      forall i: nat | i < |y| ensures b[o + |x| + i] == y[i] { assert (x + y)[|x| + i] == y[i]; }
    }
    if Holds(b, o, x) && Holds(b, o + |x|, y) {
      forall i: nat | i < |x + y| ensures b[o + i] == (x + y)[i] {
        assert i >= |x| ==> (x + y)[i] == y[i - |x|];
      }
    }
  }

  lemma StrIff(b: Bytes, o: nat, t: Bytes)
    ensures Str(b, o, t) <==> Holds(b, o, WriteText(t))
  {
    NumIff(b, o, 2, |t|);
    HoldsSum(b, o, LE(2, |t|), t);
  }

  lemma QidIff(b: Bytes, o: nat, q: QID)
    ensures QidAt(b, o, q) <==> Holds(b, o, WriteQid(q))
    ensures |WriteQid(q)| == 13
  {
    NumIff(b, o, 1, q.kind);
    NumIff(b, o + 1, 4, q.version);
    NumIff(b, o + 5, 8, q.path);
    HoldsSum(b, o, LE(1, q.kind), LE(4, q.version) + LE(8, q.path));
    HoldsSum(b, o + 1, LE(4, q.version), LE(8, q.path));
  }

  lemma {:induction false} StrsIff(b: Bytes, o: nat, ts: seq<Bytes>)
    ensures o <= |b| && Strs(b, o, ts) <==> Holds(b, o, WriteTexts(ts))
    decreases |ts|
  {
    if ts != [] {
      StrIff(b, o, ts[0]);
      HoldsSum(b, o, WriteText(ts[0]), WriteTexts(ts[1..]));
      StrsIff(b, o + 2 + |ts[0]|, ts[1..]);
    } else {
      HoldsNothing(b, o);
    }
  }

  lemma HoldsNothing(b: Bytes, o: nat)
    ensures Holds(b, o, []) <==> o <= |b|
  {
  }

  lemma {:induction false} WriteTextsExtent(ts: seq<Bytes>)
    ensures |WriteTexts(ts)| == Extent(ts)
  {
    if ts != [] { WriteTextsExtent(ts[1..]); }
  }

  lemma {:induction false} QidsIff(b: Bytes, o: nat, qs: seq<QID>)
    ensures o <= |b| && QidsAt(b, o, qs) <==> Holds(b, o, WriteQids(qs))
    ensures |WriteQids(qs)| == 13 * |qs|
    decreases |qs|
  {
    if qs != [] {
      QidIff(b, o, qs[0]);
      QidsIff(b, o + 13, qs[1..]);
      HoldsSum(b, o, WriteQid(qs[0]), WriteQids(qs[1..]));
      QidsFront(b, o, qs);
    } else {
      HoldsNothing(b, o);
    }
  }

  lemma QidsFront(b: Bytes, o: nat, qs: seq<QID>)
    requires qs != []
    ensures QidsAt(b, o, qs) <==> QidAt(b, o, qs[0]) && QidsAt(b, o + 13, qs[1..])
  {
    var rest := qs[1..];
    if QidsAt(b, o, qs) {
      assert QidAt(b, o + 13 * 0, qs[0]);
      forall k: nat | k < |rest| ensures QidAt(b, o + 13 + 13 * k, rest[k]) {
        assert QidAt(b, o + 13 * (k + 1), qs[k + 1]);
      }
    }
    if QidAt(b, o, qs[0]) && QidsAt(b, o + 13, rest) {
      forall k: nat | k < |qs| ensures QidAt(b, o + 13 * k, qs[k]) {
        if k > 0 { assert QidAt(b, o + 13 + 13 * (k - 1), rest[k - 1]); }
      }
    }
  }

  // ----- Sequences of items

  lemma {:induction false} WriteAllSum(x: seq<Item>, y: seq<Item>)
    ensures WriteAll(x + y) == WriteAll(x) + WriteAll(y)
  {
    if x == [] {
      assert x + y == y;
    } else {
      assert (x + y)[1..] == x[1..] + y;
      WriteAllSum(x[1..], y);
      Regroup(Write(x[0]), WriteAll(x[1..]), WriteAll(y));
    }
  }

  lemma One(x: Item)
    ensures WriteAll([x]) == Write(x)
  {
  }

  lemma WriteTwo(x: Item, y: Item)
    ensures WriteAll([x, y]) == Write(x) + Write(y)
  {
    One(y);
    assert [x, y][1..] == [y];
  }

  lemma WriteThree(x: Item, y: Item, z: Item)
    ensures WriteAll([x, y, z]) == Write(x) + (Write(y) + Write(z))
  {
    WriteTwo(y, z);
    assert [x, y, z][1..] == [y, z];
  }

  lemma WriteFour(x: Item, y: Item, z: Item, w: Item)
    ensures WriteAll([x, y, z, w]) == Write(x) + (Write(y) + (Write(z) + Write(w)))
  {
    WriteThree(y, z, w);
    assert [x, y, z, w][1..] == [y, z, w];
  }

  lemma NumRun(b: Bytes, o: nat, w: nat, v: nat, rest: Bytes)
    ensures Holds(b, o, LE(w, v) + rest) <==> Num(b, o, w, v) && Holds(b, o + w, rest)
  {
    NumIff(b, o, w, v);
    HoldsSum(b, o, LE(w, v), rest);
  }

  lemma StrRun(b: Bytes, o: nat, t: Bytes, rest: Bytes)
    ensures Holds(b, o, WriteText(t) + rest) <==> Str(b, o, t) && Holds(b, o + 2 + |t|, rest)
  {
    StrIff(b, o, t);
    HoldsSum(b, o, WriteText(t), rest);
  }

  lemma TwoStrs(b: Bytes, o: nat, t: Bytes, u: Bytes)
    ensures |WriteText(t) + WriteText(u)| == 4 + |t| + |u|
    ensures Holds(b, o, WriteText(t) + WriteText(u)) <==> Str(b, o, t) && Str(b, o + 2 + |t|, u)
  {
    StrRun(b, o, t, WriteText(u));
    StrIff(b, o + 2 + |t|, u);
  }

  lemma QidRun(b: Bytes, o: nat, q: QID, rest: Bytes)
    ensures Holds(b, o, WriteQid(q) + rest) <==> QidAt(b, o, q) && Holds(b, o + 13, rest)
  {
    QidIff(b, o, q);
    HoldsSum(b, o, WriteQid(q), rest);
  }

  lemma Whole(b: Bytes, x: Bytes)
    ensures b == x <==> |b| == |x| && Holds(b, 0, x)
  {
    if |b| == |x| && Holds(b, 0, x) {
      forall i: nat | i < |b| ensures b[i] == x[i] { assert b[0 + i] == x[i]; }
    }
  }

  // ----- Directory entries

  /** marshalDir writes the layout of stat(5), and nothing else has it. */
  lemma DirLayoutIff(b: Bytes, d: Dir)
    ensures DirLayout(b, d) <==> b == MarshalDir(d)
  {
    var n := |WriteAll(DirItems(d, 0))|;
    DirLength(d, n - 2);
    DirParts(d, n - 2);
    DirPlaced(b, d, n - 2);
    Whole(b, DirWritten(d, n - 2));
  }

  function HeadBytes(d: Dir, size: nat): Bytes { LE(2, size) + (LE(2, d.kind) + (LE(4, d.dev) + WriteQid(d.qid))) }
  function TimesBytes(d: Dir): Bytes { LE(4, d.mode) + (LE(4, d.atime) + (LE(4, d.mtime) + LE(8, d.length))) }
  function NamesBytes(d: Dir): Bytes { (WriteText(d.name) + WriteText(d.uid)) + (WriteText(d.gid) + WriteText(d.muid)) }
  function DirWritten(d: Dir, size: nat): Bytes { HeadBytes(d, size) + (TimesBytes(d) + NamesBytes(d)) }

  lemma DirParts(d: Dir, size: nat)
    ensures WriteAll(DirItems(d, size)) == DirWritten(d, size)
  {
    var (x, y, z) := ([Int(2, size), Int(2, d.kind), Int(4, d.dev), Qid(d.qid)],
                      [Int(4, d.mode), Int(4, d.atime), Int(4, d.mtime), Int(8, d.length)],
                      [Text(d.name), Text(d.uid), Text(d.gid), Text(d.muid)]);
    assert DirItems(d, size) == x + (y + z);
    WriteAllSum(x, y + z);
    WriteAllSum(y, z);
    WriteFour(x[0], x[1], x[2], x[3]);
    WriteFour(y[0], y[1], y[2], y[3]);
    WriteFour(z[0], z[1], z[2], z[3]);
    Regroup(WriteText(d.name), WriteText(d.uid), WriteText(d.gid) + WriteText(d.muid));
  }

  lemma DirPlaced(b: Bytes, d: Dir, size: nat)
    ensures |DirWritten(d, size)| == DirSize(d)
    ensures Holds(b, 0, DirWritten(d, size)) <==> DirHead(b, size, d) && DirTimes(b, d) && DirNames(b, d)
  {
    HeadPlaced(b, d, size);
    TimesPlaced(b, d);
    NamesPlaced(b, d);
    ThreeParts(b, HeadBytes(d, size), TimesBytes(d), NamesBytes(d));
  }

  lemma ThreeParts(b: Bytes, x: Bytes, y: Bytes, z: Bytes)
    ensures Holds(b, 0, x + (y + z)) <==> Holds(b, 0, x) && Holds(b, |x|, y) && Holds(b, |x| + |y|, z)
  {
    HoldsSum(b, 0, x, y + z);
    HoldsSum(b, |x|, y, z);
  }

  lemma HeadPlaced(b: Bytes, d: Dir, size: nat)
    ensures |HeadBytes(d, size)| == 21 && (Holds(b, 0, HeadBytes(d, size)) <==> DirHead(b, size, d))
  {
    NumRun(b, 0, 2, size, LE(2, d.kind) + (LE(4, d.dev) + WriteQid(d.qid)));
    NumRun(b, 2, 2, d.kind, LE(4, d.dev) + WriteQid(d.qid));
    NumRun(b, 4, 4, d.dev, WriteQid(d.qid));
    QidIff(b, 8, d.qid);
  }

  lemma TimesPlaced(b: Bytes, d: Dir)
    ensures |TimesBytes(d)| == 20 && (Holds(b, 21, TimesBytes(d)) <==> DirTimes(b, d))
  {
    NumRun(b, 21, 4, d.mode, LE(4, d.atime) + (LE(4, d.mtime) + LE(8, d.length)));
    NumRun(b, 25, 4, d.atime, LE(4, d.mtime) + LE(8, d.length));
    NumRun(b, 29, 4, d.mtime, LE(8, d.length));
    NumIff(b, 33, 8, d.length);
  }

  lemma NamesPlaced(b: Bytes, d: Dir)
    ensures |NamesBytes(d)| == DirSize(d) - 41 && (Holds(b, 41, NamesBytes(d)) <==> DirNames(b, d))
  {
    var o := 45 + |d.name| + |d.uid|;
    TwoStrs(b, 41, d.name, d.uid);
    TwoStrs(b, o, d.gid, d.muid);
    HoldsSum(b, 41, WriteText(d.name) + WriteText(d.uid), WriteText(d.gid) + WriteText(d.muid));
  }

  // ----- The fields of each message

  /** b ends with what Marshal writes after the tag. */
  ghost predicate BodyAt(b: Bytes, f: Fcall) {
    |b| == 7 + |WriteAll(Body(f))| && Holds(b, 7, WriteAll(Body(f)))
  }

  lemma VersionFields(b: Bytes, f: Fcall)
    requires f.kind in {100, 101}
    ensures Fields(b, f) <==> BodyAt(b, f)
  {
    WriteTwo(Int(4, f.msize), Text(f.version));
    NumRun(b, 7, 4, f.msize, WriteText(f.version));
    StrIff(b, 11, f.version);
  }

  lemma AttachFields(b: Bytes, f: Fcall)
    requires f.kind == 104
    ensures Fields(b, f) <==> BodyAt(b, f)
  {
    WriteFour(Int(4, f.fid), Int(4, f.afid), Text(f.uname), Text(f.aname));
    AttachRun(b, f.fid, f.afid, f.uname, f.aname);
  }

  lemma AttachRun(b: Bytes, fid: nat, afid: nat, uname: Bytes, aname: Bytes)
    ensures var w := LE(4, fid) + (LE(4, afid) + (WriteText(uname) + WriteText(aname)));
            |w| == 12 + |uname| + |aname| &&
            (Holds(b, 7, w) <==> Num(b, 7, 4, fid) && Num(b, 11, 4, afid) && Str(b, 15, uname) && Str(b, 17 + |uname|, aname))
  {
    NumRun(b, 7, 4, fid, LE(4, afid) + (WriteText(uname) + WriteText(aname)));
    NumRun(b, 11, 4, afid, WriteText(uname) + WriteText(aname));
    TwoStrs(b, 15, uname, aname);
  }

  lemma WalkFields(b: Bytes, f: Fcall)
    requires f.kind == 110
    ensures Fields(b, f) <==> BodyAt(b, f)
  {
    WriteThree(Int(4, f.fid), Int(4, f.newfid), Texts(f.wnames));
    WalkRun(b, f.fid, f.newfid, f.wnames);
  }

  lemma WalkRun(b: Bytes, fid: nat, newfid: nat, names: seq<Bytes>)
    ensures var w := LE(4, fid) + (LE(4, newfid) + (LE(2, |names|) + WriteTexts(names)));
            |w| == 10 + Extent(names) &&
            (Holds(b, 7, w) && 17 <= |b| <==>
             17 <= |b| && Num(b, 7, 4, fid) && Num(b, 11, 4, newfid) && Num(b, 15, 2, |names|) && Strs(b, 17, names))
  {
    var rest := LE(2, |names|) + WriteTexts(names);
    WriteTextsExtent(names);
    NumRun(b, 7, 4, fid, LE(4, newfid) + rest);
    NumRun(b, 11, 4, newfid, rest);
    NumRun(b, 15, 2, |names|, WriteTexts(names));
    StrsIff(b, 17, names);
  }

  lemma WalkedFields(b: Bytes, f: Fcall)
    requires f.kind == 111
    ensures Fields(b, f) <==> BodyAt(b, f)
  {
    One(Qids(f.wqids));
    NumRun(b, 7, 2, |f.wqids|, WriteQids(f.wqids));
    QidsIff(b, 9, f.wqids);
  }

  lemma OpenFields(b: Bytes, f: Fcall)
    requires f.kind == 112
    ensures Fields(b, f) <==> BodyAt(b, f)
  {
    WriteTwo(Int(4, f.fid), Int(1, f.mode));
    NumRun(b, 7, 4, f.fid, LE(1, f.mode));
    NumIff(b, 11, 1, f.mode);
  }

  lemma CreateFields(b: Bytes, f: Fcall)
    requires f.kind == 114
    ensures Fields(b, f) <==> BodyAt(b, f)
  {
    WriteFour(Int(4, f.fid), Text(f.name), Int(4, f.perm), Int(1, f.mode));
    CreateRun(b, f.fid, f.name, f.perm, f.mode);
  }

  lemma CreateRun(b: Bytes, fid: nat, name: Bytes, perm: nat, mode: nat)
    ensures var w := LE(4, fid) + (WriteText(name) + (LE(4, perm) + LE(1, mode)));
            |w| == 11 + |name| &&
            (Holds(b, 7, w) <==>
             Num(b, 7, 4, fid) && Str(b, 11, name) && Num(b, 13 + |name|, 4, perm) && Num(b, 17 + |name|, 1, mode))
  {
    NumRun(b, 7, 4, fid, WriteText(name) + (LE(4, perm) + LE(1, mode)));
    StrRun(b, 11, name, LE(4, perm) + LE(1, mode));
    NumRun(b, 13 + |name|, 4, perm, LE(1, mode));
    NumIff(b, 17 + |name|, 1, mode);
  }

  lemma OpenedFields(b: Bytes, f: Fcall)
    requires f.kind in {113, 115}
    ensures Fields(b, f) <==> BodyAt(b, f)
  {
    WriteTwo(Qid(f.qid), Int(4, f.iounit));
    QidRun(b, 7, f.qid, LE(4, f.iounit));
    NumIff(b, 20, 4, f.iounit);
  }

  lemma ReadFields(b: Bytes, f: Fcall)
    requires f.kind == 116
    ensures Fields(b, f) <==> BodyAt(b, f)
  {
    WriteThree(Int(4, f.fid), Int(8, f.offset), Int(4, f.count));
    NumRun(b, 7, 4, f.fid, LE(8, f.offset) + LE(4, f.count));
    NumRun(b, 11, 8, f.offset, LE(4, f.count));
    NumIff(b, 19, 4, f.count);
  }

  lemma WriteFields(b: Bytes, f: Fcall)
    requires f.kind == 118
    ensures Fields(b, f) <==> BodyAt(b, f)
  {
    WriteBody(f);
    WriteRun(b, f.fid, f.offset, f.data);
  }

  lemma WriteBody(f: Fcall)
    requires f.kind == 118
    ensures WriteAll(Body(f)) == LE(4, f.fid) + (LE(8, f.offset) + (LE(4, |f.data|) + f.data))
  {
    WriteThree(Int(4, f.fid), Int(8, f.offset), Block(4, f.data));
  }

  lemma WriteRun(b: Bytes, fid: nat, offset: nat, data: Bytes)
    ensures var w := LE(4, fid) + (LE(8, offset) + (LE(4, |data|) + data));
            |w| == 16 + |data| &&
            (Holds(b, 7, w) <==> Num(b, 7, 4, fid) && Num(b, 11, 8, offset) && Num(b, 19, 4, |data|) && Holds(b, 23, data))
  {
    NumRun(b, 7, 4, fid, LE(8, offset) + (LE(4, |data|) + data));
    NumRun(b, 11, 8, offset, LE(4, |data|) + data);
    NumRun(b, 19, 4, |data|, data);
  }

  lemma WstatFields(b: Bytes, f: Fcall)
    requires f.kind == 126
    ensures Fields(b, f) <==> BodyAt(b, f)
  {
    var e := DirBytes(f.dir);
    WriteTwo(Int(4, f.fid), Block(2, e));
    NumRun(b, 7, 4, f.fid, LE(2, |e|) + e);
    EntryAt(b, 11, f.dir);
  }

  lemma ReplyFields(b: Bytes, f: Fcall)
    requires f.kind in {105, 107, 117, 119}
    ensures Fields(b, f) <==> BodyAt(b, f)
  {
    match f.kind
    case 105 =>
      One(Qid(f.qid));
      QidIff(b, 7, f.qid);
    case 107 =>
      One(Text(f.ename));
      StrIff(b, 7, f.ename);
    case 117 =>
      One(Block(4, f.data));
      NumRun(b, 7, 4, |f.data|, f.data);
    case 119 =>
      One(Int(4, f.count));
      NumIff(b, 7, 4, f.count);
  }

  lemma StatFields(b: Bytes, f: Fcall)
    requires f.kind == 125
    ensures Fields(b, f) <==> BodyAt(b, f)
  {
    One(Block(2, DirBytes(f.dir)));
    EntryAt(b, 7, f.dir);
  }

  lemma FidFields(b: Bytes, f: Fcall)
    requires f.kind in {120, 122, 124}
    ensures Fields(b, f) <==> BodyAt(b, f)
  {
    One(Int(4, f.fid));
    NumIff(b, 7, 4, f.fid);
  }

  lemma NoFields(b: Bytes, f: Fcall)
    requires f.kind in {121, 123, 127} && |b| >= 7
    ensures Fields(b, f) <==> BodyAt(b, f)
  {
    HoldsNothing(b, 7);
  }

  lemma EachFields(b: Bytes, f: Fcall)
    requires IsType(f.kind) && |b| >= 7
    ensures Fields(b, f) <==> BodyAt(b, f)
  {
    match f.kind
    case 100 | 101 => VersionFields(b, f);
    case 104 => AttachFields(b, f);
    case 110 => WalkFields(b, f);
    case 111 => WalkedFields(b, f);
    case 112 => OpenFields(b, f);
    case 113 | 115 => OpenedFields(b, f);
    case 114 => CreateFields(b, f);
    case 116 => ReadFields(b, f);
    case 118 => WriteFields(b, f);
    case 105 | 107 | 117 | 119 => ReplyFields(b, f);
    case 120 | 122 | 124 => FidFields(b, f);
    case 125 => StatFields(b, f);
    case 126 => WstatFields(b, f);
    case _ => NoFields(b, f);
  }

  lemma EntryAt(b: Bytes, o: nat, dir: Option<Dir>)
    ensures var e := DirBytes(dir); StatLayout(b, o, dir) <==> |b| == o + 2 + |e| && Holds(b, o, LE(2, |e|) + e)
  {
    CountedAt(b, o, DirBytes(dir));
    if dir.Some? && o + 2 <= |b| { DirLayoutIff(b[o + 2..], dir.value); }
  }

  /** A 16-bit count and what it counts, up to the end. */
  lemma CountedAt(b: Bytes, o: nat, e: Bytes)
    ensures |b| == o + 2 + |e| && Holds(b, o, LE(2, |e|) + e) <==> o + 2 <= |b| && Num(b, o, 2, |b| - o - 2) && b[o + 2..] == e
  {
    NumRun(b, o, 2, |e|, e);
    if o + 2 <= |b| {
      EndsWith(b, o + 2, e);
    }
  }

  lemma EndsWith(b: Bytes, o: nat, e: Bytes)
    requires o <= |b|
    ensures b[o..] == e <==> |b| == o + |e| && Holds(b, o, e)
  {
  }

  // ----- Whole messages

  /** Marshal writes exactly the layout: a message has it if and only if it is what Marshal returns. */
  lemma MarshalLayout(b: Bytes, f: Fcall)
    ensures Marshal(f) == Some(b) <==> IsType(f.kind) && MessageLayout(b, f)
    ensures Marshal(f).Some? <==> IsType(f.kind)
  {
    if IsType(f.kind) {
      if |b| >= 7 { EachFields(b, f); }
      MessageBytes(f);
      Header(b, f.kind, f.tag, WriteAll(Body(f)));
    }
  }

  lemma Header(b: Bytes, kind: nat, tag: nat, body: Bytes)
    requires kind < 256
    ensures b == LE(4, 7 + |body|) + (LE(1, kind) + (LE(2, tag) + body)) <==>
            |b| == 7 + |body| && Num(b, 0, 4, |b|) && b[4] == kind && Num(b, 5, 2, tag) && Holds(b, 7, body)
  {
    Whole(b, LE(4, 7 + |body|) + (LE(1, kind) + (LE(2, tag) + body)));
    HeaderRun(b, 7 + |body|, kind, tag, body);
  }

  lemma HeaderRun(b: Bytes, size: nat, kind: nat, tag: nat, body: Bytes)
    requires kind < 256
    ensures Holds(b, 0, LE(4, size) + (LE(1, kind) + (LE(2, tag) + body))) <==>
            7 <= |b| && Num(b, 0, 4, size) && b[4] == kind && Num(b, 5, 2, tag) && Holds(b, 7, body)
  {
    NumRun(b, 0, 4, size, LE(1, kind) + (LE(2, tag) + body));
    HoldsSum(b, 4, LE(1, kind), LE(2, tag) + body);
    OneByte(b, 4, kind);
    NumRun(b, 5, 2, tag, body);
  }

  lemma OneByte(b: Bytes, o: nat, v: nat)
    requires v < 256
    ensures Holds(b, o, LE(1, v)) <==> o < |b| && b[o] == v
  {
    assert LE(1, v) == [v];
    assert Holds(b, o, [v]) <==> o < |b| && b[o] == [v][0];
  }

  /** Unmarshal takes each field from where the layout has it. */
  lemma UnmarshalLayout(b: Bytes, f: Fcall)
    requires FcallFits(f) && MessageLayout(b, f)
    ensures Unmarshal(b) == Some(Carried(f)) && MessageLayout(b, Carried(f))
  {
    MarshalLayout(b, f);
    MarshalBack(f);
  }
}
