/**
 The read and write primitives of ninep/codec.go: little-endian integers, counted
 strings, qids and blocks, and sequences of them. A reader that runs out of bytes
 yields zeros and empties itself, as the source's readers do.
 */
module Wire {
  import opened Wrappers

  type byte = x: int | 0 <= x < 256

  type Bytes = seq<byte>

  function Pow256(n: nat): (r: nat)
    ensures r > 0
  {
    if n == 0 then 1 else 256 * Pow256(n - 1)
  }

  /** v in n bytes, least significant first; higher bits are lost. */
  function LE(n: nat, v: nat): (r: Bytes)
    ensures |r| == n
  {
    if n == 0 then [] else [v % 256] + LE(n - 1, v / 256)
  }

  function Value(b: Bytes): nat {
    if b == [] then 0 else b[0] + 256 * Value(b[1..])
  }

  lemma {:induction false} ValueLE(n: nat, v: nat)
    requires v < Pow256(n)
    ensures Value(LE(n, v)) == v
  {
    if n > 0 {
      ValueLE(n - 1, v / 256);
      assert LE(n, v)[1..] == LE(n - 1, v / 256);
    }
  }

  /** A 16-bit integer keeps its value modulo 2^16. */
  lemma LEWraps(v: nat)
    ensures Pow256(2) == 0x1_0000 && LE(2, v) == LE(2, v % Pow256(2))
  {
    Widths();
    var w, k := v % 0x1_0000, v / 0x1_0000;
    ShiftDown(256 * k, w);
    ShiftDown(k, w / 256);
    assert LE(1, v / 256) == LE(1, w / 256);
  }

  lemma ShiftDown(k: nat, w: nat)
    ensures (256 * k + w) / 256 == k + w / 256 && (256 * k + w) % 256 == w % 256
  {
  }

  lemma Widths()
    ensures Pow256(1) == 0x100 && Pow256(2) == 0x1_0000 && Pow256(4) == 0x1_0000_0000
  {
    assert Pow256(2) == 256 * Pow256(1);
    assert Pow256(3) == 256 * Pow256(2);
    assert Pow256(4) == 256 * Pow256(3);
  }

  // ----- What messages are made of

  datatype QID = QID(kind: nat, version: nat, path: nat)

  datatype Item =
    | Int(width: nat, v: nat)
    | Text(text: Bytes)          // 16-bit length
    | Texts(texts: seq<Bytes>)   // 16-bit count
    | Qid(qid: QID)
    | Qids(qids: seq<QID>)       // 16-bit count
    | Block(width: nat, data: Bytes) // length of the given width; reading fails when bytes are missing

  datatype Shape = IntOf(width: nat) | TextOf | TextsOf | QidOf | QidsOf | BlockOf(width: nat)

  function ShapeOf(i: Item): Shape {
    match i
    case Int(w, _) => IntOf(w)
    case Text(_) => TextOf
    case Texts(_) => TextsOf
    case Qid(_) => QidOf
    case Qids(_) => QidsOf
    case Block(w, _) => BlockOf(w)
  }

  ghost predicate QidFits(q: QID) {
    q.kind < Pow256(1) && q.version < Pow256(4) && q.path < Pow256(8)
  }

  ghost predicate TextFits(t: Bytes) {
    |t| < Pow256(2)
  }

  /** The item is within the limits of its length fields. */
  ghost predicate Fits(i: Item) {
    match i
    case Int(w, v) => v < Pow256(w)
    case Text(t) => TextFits(t)
    case Texts(ts) => |ts| < Pow256(2) && forall k :: 0 <= k < |ts| ==> TextFits(ts[k])
    case Qid(q) => QidFits(q)
    case Qids(qs) => |qs| < Pow256(2) && forall k :: 0 <= k < |qs| ==> QidFits(qs[k])
    case Block(w, d) => |d| < Pow256(w)
  }

  // ----- Writing

  function WriteText(t: Bytes): Bytes { LE(2, |t|) + t }

  function WriteTexts(ts: seq<Bytes>): Bytes {
    if ts == [] then [] else WriteText(ts[0]) + WriteTexts(ts[1..])
  }

  function WriteQid(q: QID): Bytes { LE(1, q.kind) + (LE(4, q.version) + LE(8, q.path)) }

  function WriteQids(qs: seq<QID>): Bytes {
    if qs == [] then [] else WriteQid(qs[0]) + WriteQids(qs[1..])
  }

  function Write(i: Item): Bytes {
    match i
    case Int(w, v) => LE(w, v)
    case Text(t) => WriteText(t)
    case Texts(ts) => LE(2, |ts|) + WriteTexts(ts)
    case Qid(q) => WriteQid(q)
    case Qids(qs) => LE(2, |qs|) + WriteQids(qs)
    case Block(w, d) => LE(w, |d|) + d
  }

  function WriteAll(items: seq<Item>): Bytes {
    if items == [] then [] else Write(items[0]) + WriteAll(items[1..])
  }

  // ----- Reading; each reader returns what it read and the bytes that follow

  function ReadInt(w: nat, b: Bytes): (nat, Bytes) {
    if |b| < w then (0, []) else (Value(b[..w]), b[w..])
  }

  function Zeros(n: nat): Bytes { seq(n, _ => 0) }

  function ReadText(b: Bytes): (Bytes, Bytes) {
    var (n, r) := ReadInt(2, b);
    if |r| < n then (r + Zeros(n - |r|), []) else (r[..n], r[n..])
  }

  function ReadTexts(n: nat, b: Bytes): (seq<Bytes>, Bytes) {
    if n == 0 then ([], b)
    else
      var (t, r) := ReadText(b);
      var (ts, r') := ReadTexts(n - 1, r);
      ([t] + ts, r')
  }

  function ReadQid(b: Bytes): (QID, Bytes) {
    var (k, r) := ReadInt(1, b);
    var (v, r') := ReadInt(4, r);
    var (p, r'') := ReadInt(8, r');
    (QID(k, v, p), r'')
  }

  function ReadQids(n: nat, b: Bytes): (seq<QID>, Bytes) {
    if n == 0 then ([], b)
    else
      var (q, r) := ReadQid(b);
      var (qs, r') := ReadQids(n - 1, r);
      ([q] + qs, r')
  }

  function Read(s: Shape, b: Bytes): Option<(Item, Bytes)> {
    match s
    case IntOf(w) => var (v, r) := ReadInt(w, b); Some((Int(w, v), r))
    case TextOf => var (t, r) := ReadText(b); Some((Text(t), r))
    case TextsOf => var (n, r) := ReadInt(2, b); var (ts, r') := ReadTexts(n, r); Some((Texts(ts), r'))
    case QidOf => var (q, r) := ReadQid(b); Some((Qid(q), r))
    case QidsOf => var (n, r) := ReadInt(2, b); var (qs, r') := ReadQids(n, r); Some((Qids(qs), r'))
    case BlockOf(w) => var (n, r) := ReadInt(w, b); if |r| < n then None else Some((Block(w, r[..n]), r[n..]))
  }

  function ReadAll(shapes: seq<Shape>, b: Bytes): Option<(seq<Item>, Bytes)> {
    if shapes == [] then Some(([], b))
    else
      var first := Read(shapes[0], b);
      if first.None? then None
      else
        var rest := ReadAll(shapes[1..], first.value.1);
        if rest.None? then None else Some(([first.value.0] + rest.value.0, rest.value.1))
  }

  // ----- Round trips

  lemma Peel(a: Bytes, b: Bytes)
    ensures (a + b)[..|a|] == a && (a + b)[|a|..] == b
  {
  }

  lemma IntBack(w: nat, v: nat, rest: Bytes)
    requires v < Pow256(w)
    ensures ReadInt(w, LE(w, v) + rest) == (v, rest)
  {
    Peel(LE(w, v), rest);
    ValueLE(w, v);
  }

  lemma Regroup(a: Bytes, b: Bytes, c: Bytes)
    ensures (a + b) + c == a + (b + c)
  {
  }

  lemma TextBack(t: Bytes, rest: Bytes)
    requires TextFits(t)
    ensures ReadText(WriteText(t) + rest) == (t, rest)
  {
    Regroup(LE(2, |t|), t, rest);
    IntBack(2, |t|, t + rest);
    Peel(t, rest);
  }

  lemma {:induction false} TextsBack(ts: seq<Bytes>, rest: Bytes)
    requires forall k :: 0 <= k < |ts| ==> TextFits(ts[k])
    ensures ReadTexts(|ts|, WriteTexts(ts) + rest) == (ts, rest)
  {
    if ts == [] {
      assert [] + rest == rest;
    } else {
      Regroup(WriteText(ts[0]), WriteTexts(ts[1..]), rest);
      TextBack(ts[0], WriteTexts(ts[1..]) + rest);
      TextsBack(ts[1..], rest);
      assert [ts[0]] + ts[1..] == ts;
    }
  }

  lemma QidBack(q: QID, rest: Bytes)
    requires QidFits(q)
    ensures ReadQid(WriteQid(q) + rest) == (q, rest)
  {
    var (a, b, c) := (LE(1, q.kind), LE(4, q.version), LE(8, q.path));
    Regroup(a, b + c, rest);
    Regroup(b, c, rest);
    IntBack(1, q.kind, b + (c + rest));
    IntBack(4, q.version, c + rest);
    IntBack(8, q.path, rest);
  }

  lemma {:induction false} QidsBack(qs: seq<QID>, rest: Bytes)
    requires forall k :: 0 <= k < |qs| ==> QidFits(qs[k])
    ensures ReadQids(|qs|, WriteQids(qs) + rest) == (qs, rest)
  {
    if qs == [] {
      assert [] + rest == rest;
    } else {
      Regroup(WriteQid(qs[0]), WriteQids(qs[1..]), rest);
      QidBack(qs[0], WriteQids(qs[1..]) + rest);
      QidsBack(qs[1..], rest);
      assert [qs[0]] + qs[1..] == qs;
    }
  }

  /** Reading undoes writing, whatever follows. */
  lemma ItemBack(i: Item, rest: Bytes)
    requires Fits(i)
    ensures Read(ShapeOf(i), Write(i) + rest) == Some((i, rest))
  {
    match i
    case Int(w, v) => IntBack(w, v, rest);
    case Text(t) => TextBack(t, rest);
    case Qid(q) => QidBack(q, rest);
    case Texts(ts) =>
      Regroup(LE(2, |ts|), WriteTexts(ts), rest);
      IntBack(2, |ts|, WriteTexts(ts) + rest);
      TextsBack(ts, rest);
    case Qids(qs) =>
      Regroup(LE(2, |qs|), WriteQids(qs), rest);
      IntBack(2, |qs|, WriteQids(qs) + rest);
      QidsBack(qs, rest);
    case Block(w, d) =>
      Regroup(LE(w, |d|), d, rest);
      IntBack(w, |d|, d + rest);
      Peel(d, rest);
  }

  function Shapes(items: seq<Item>): (r: seq<Shape>)
    ensures |r| == |items|
  {
    if items == [] then [] else [ShapeOf(items[0])] + Shapes(items[1..])
  }

  lemma {:induction false} ItemsBack(items: seq<Item>, rest: Bytes)
    requires forall k :: 0 <= k < |items| ==> Fits(items[k])
    ensures ReadAll(Shapes(items), WriteAll(items) + rest) == Some((items, rest))
  {
    if items == [] {
      assert [] + rest == rest;
    } else {
      Regroup(Write(items[0]), WriteAll(items[1..]), rest);
      ItemBack(items[0], WriteAll(items[1..]) + rest);
      ItemsBack(items[1..], rest);
      assert Shapes(items)[1..] == Shapes(items[1..]);
      assert [items[0]] + items[1..] == items;
    }
  }
}
