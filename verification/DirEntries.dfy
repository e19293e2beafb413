/**
 ParseDirEntries of ninep/dir.go and the read loop of List in exportfs/client.go.
 */
module DirEntries {
  import opened Wrappers
  import opened Wire
  import opened Codec

  /** The size that an entry announces, its own two bytes included. */
  function EntrySize(b: Bytes): (n: nat)
    requires |b| >= 2
    ensures n >= 2
  {
    2 + Value(b[..2])
  }

  /** The entries of a block, each read by decode; None is the error for a truncated entry. */
  function ParseBy<T>(decode: Bytes -> T, b: Bytes): Option<seq<T>>
    decreases |b|
  {
    if b == [] then Some([])
    else if |b| < 2 || |b| < EntrySize(b) then None
    else Then([decode(b[..EntrySize(b)])], ParseBy(decode, b[EntrySize(b)..]))
  }

  /** What ParseDirEntries makes of a block. */
  function Parse(b: Bytes): Option<seq<Dir>> { ParseBy(UnmarshalDir, b) }

  function Then<T>(a: seq<T>, b: Option<seq<T>>): Option<seq<T>> {
    if b.None? then None else Some(a + b.value)
  }

  lemma ThenThen<T>(a: seq<T>, b: seq<T>, c: Option<seq<T>>)
    ensures Then(a, Then(b, c)) == Then(a + b, c) && Then([], c) == c
  {
    if c.Some? {
      assert a + (b + c.value) == a + b + c.value;
      assert [] + c.value == c.value;
    }
  }

  method ParseDirEntries<T>(decode: Bytes -> T, data: Bytes) returns (r: Option<seq<T>>)
    ensures r == ParseBy(decode, data)
  {
    var dirs: seq<T> := [];
    var rest := data;
    ThenThen([], [], ParseBy(decode, data));
    while rest != []
      invariant ParseBy(decode, data) == Then(dirs, ParseBy(decode, rest))
      decreases |rest|
    {
      if |rest| < 2 {
        return None;
      }
      var size := EntrySize(rest);
      if |rest| < size {
        return None;
      }
      var dir := decode(rest[..size]);
      ThenThen(dirs, [dir], ParseBy(decode, rest[size..]));
      dirs := dirs + [dir];
      rest := rest[size..];
    }
    assert dirs + [] == dirs;
    return Some(dirs);
  }

  lemma SizeOfSum(a: Bytes, b: Bytes)
    requires |a| >= 2
    ensures EntrySize(a + b) == EntrySize(a)
    ensures |a| >= EntrySize(a) ==>
              (a + b)[..EntrySize(a)] == a[..EntrySize(a)] && (a + b)[EntrySize(a)..] == a[EntrySize(a)..] + b
  {
    assert (a + b)[..2] == a[..2];
  }

  /** Parsing is a homomorphism: a complete block can be parsed on its own. */
  lemma {:induction false} ParseAppend<T>(decode: Bytes -> T, a: Bytes, b: Bytes)
    requires ParseBy(decode, a).Some?
    ensures ParseBy(decode, a + b) == Then(ParseBy(decode, a).value, ParseBy(decode, b))
    decreases |a|
  {
    if a == [] {
      assert a + b == b;
      ThenThen([], [], ParseBy(decode, b));
    } else {
      var size := EntrySize(a);
      SizeOfSum(a, b);
      ParseAppend(decode, a[size..], b);
      ThenThen([decode(a[..size])], ParseBy(decode, a[size..]).value, ParseBy(decode, b));
    }
  }

  // ----- Encoded lists

  /** The encoding of x announces its own length, and decode undoes it. */
  ghost predicate Framed<T>(encode: T -> Bytes, decode: Bytes -> T, x: T) {
    var b := encode(x);
    |b| >= 2 && |b| == EntrySize(b) && decode(b) == x
  }

  ghost predicate AllFramed<T>(encode: T -> Bytes, decode: Bytes -> T, ds: seq<T>) {
    forall k :: 0 <= k < |ds| ==> Framed(encode, decode, ds[k])
  }

  lemma ParseOne<T>(decode: Bytes -> T, b: Bytes, rest: Bytes)
    requires |b| >= 2 && |b| == EntrySize(b)
    ensures ParseBy(decode, b + rest) == Then([decode(b)], ParseBy(decode, rest))
  {
    SizeOfSum(b, rest);
    Peel(b, rest);
  }

  lemma {:induction false} ParseStream<T>(encode: T -> Bytes, decode: Bytes -> T, ds: seq<T>)
    requires AllFramed(encode, decode, ds)
    ensures ParseBy(decode, Stream(encode, ds)) == Some(ds)
  {
    if ds != [] {
      ParseStream(encode, decode, ds[1..]);
      assert Framed(encode, decode, ds[0]);
      ParseOne(decode, encode(ds[0]), Stream(encode, ds[1..]));
      assert [ds[0]] + ds[1..] == ds;
    }
  }

  /** k is where one of the entries of ds ends. */
  ghost predicate Boundary<T>(encode: T -> Bytes, ds: seq<T>, k: nat) {
    exists i :: 0 <= i <= |ds| && k == |Stream(encode, ds[..i])|
  }

  lemma StreamFrom<T>(encode: T -> Bytes, ds: seq<T>, i: nat)
    requires i < |ds|
    ensures |Stream(encode, ds[..i + 1])| == |encode(ds[0])| + |Stream(encode, ds[1..][..i])|
  {
    assert ds[..i + 1][1..] == ds[1..][..i];
  }

  lemma ShiftBoundary<T>(encode: T -> Bytes, ds: seq<T>, k: nat)
    requires ds != [] && k >= |encode(ds[0])| > 0
    ensures Boundary(encode, ds, k) <==> Boundary(encode, ds[1..], k - |encode(ds[0])|)
  {
    var n := |encode(ds[0])|;
    if Boundary(encode, ds, k) {
      var i :| 0 <= i <= |ds| && k == |Stream(encode, ds[..i])|;
      assert i > 0;
      StreamFrom(encode, ds, i - 1);
    }
    if Boundary(encode, ds[1..], k - n) {
      var i :| 0 <= i <= |ds| - 1 && k - n == |Stream(encode, ds[1..][..i])|;
      StreamFrom(encode, ds, i);
    }
  }

  lemma FirstEntry<T>(encode: T -> Bytes, ds: seq<T>, k: nat)
    requires ds != [] && 0 < k < |encode(ds[0])|
    ensures !Boundary(encode, ds, k)
  {
    forall i | 0 <= i <= |ds| ensures k != |Stream(encode, ds[..i])| {
      if i > 0 {
        StreamFrom(encode, ds, i - 1);
      }
    }
  }

  lemma Truncated<T>(decode: Bytes -> T, b: Bytes, k: nat)
    requires |b| >= 2 && |b| == EntrySize(b) && 0 < k < |b|
    ensures ParseBy(decode, b[..k]).None?
  {
    if k >= 2 {
      assert b[..k][..2] == b[..2];
    }
  }

  lemma {:induction false} PrefixOfStream<T>(encode: T -> Bytes, decode: Bytes -> T, ds: seq<T>, k: nat)
    requires AllFramed(encode, decode, ds) && k <= |Stream(encode, ds)|
    ensures ParseBy(decode, Stream(encode, ds)[..k]).Some? <==> Boundary(encode, ds, k)
  {
    if k == 0 {
      assert ds[..0] == [];
      assert k == |Stream(encode, ds[..0])|;
    } else {
      var first, rest := encode(ds[0]), Stream(encode, ds[1..]);
      assert Framed(encode, decode, ds[0]);
      if k < |first| {
        FirstEntry(encode, ds, k);
        assert (first + rest)[..k] == first[..k];
        Truncated(decode, first, k);
      } else {
        PrefixOfStream(encode, decode, ds[1..], k - |first|);
        ShiftBoundary(encode, ds, k);
        assert (first + rest)[..k] == first + rest[..k - |first|];
        ParseOne(decode, first, rest[..k - |first|]);
      }
    }
  }

  /** An encoding of x that announces its length modulo 2^16 is read as x alone exactly when that is its length. */
  lemma ParseAlone<T>(encode: T -> Bytes, decode: Bytes -> T, x: T)
    requires var b := encode(x); |b| >= 2 && Value(b[..2]) == (|b| - 2) % Pow256(2) && decode(b) == x
    ensures ParseBy(decode, encode(x)) == Some([x]) <==> |encode(x)| - 2 < Pow256(2)
  {
    var b := encode(x);
    Widths();
    if |b| - 2 < Pow256(2) {
      ParseOne(decode, b, []);
      assert b + [] == b && [x] + [] == [x];
    } else {
      LongerThanAnnounced(decode, b);
    }
  }

  lemma LongerThanAnnounced<T>(decode: Bytes -> T, b: Bytes)
    requires |b| >= 2 && EntrySize(b) < |b|
    ensures var r := ParseBy(decode, b); r.None? || |r.value| > 1
  {
    var rest := b[EntrySize(b)..];
    var more := ParseBy(decode, rest);
    assert |rest| > 0 && (more.Some? ==> |more.value| > 0);
    assert ParseBy(decode, b) == Then([decode(b[..EntrySize(b)])], more);
  }

  // ----- Directory entries

  ghost predicate AllFit(ds: seq<Dir>) {
    forall k :: 0 <= k < |ds| ==> DirFits(ds[k])
  }

  lemma DirFramed(d: Dir)
    requires DirFits(d)
    ensures Framed(MarshalDir, UnmarshalDir, d)
  {
    DirBack(d);
  }

  lemma DirsFramed(ds: seq<Dir>)
    requires AllFit(ds)
    ensures AllFramed(MarshalDir, UnmarshalDir, ds)
  {
    forall k | 0 <= k < |ds| ensures Framed(MarshalDir, UnmarshalDir, ds[k]) {
      DirFramed(ds[k]);
    }
  }

  /** ParseDirEntries inverts concatenated EncodeDir. */
  lemma ParseEncode(ds: seq<Dir>)
    requires AllFit(ds)
    ensures Parse(Stream(MarshalDir, ds)) == Some(ds)
  {
    DirsFramed(ds);
    ParseStream(MarshalDir, UnmarshalDir, ds);
  }

  /** The bound on the size is needed: an entry is read back exactly when its size field holds its size. */
  lemma ParseEncodeIff(d: Dir)
    requires FieldsFit(d)
    ensures Parse(MarshalDir(d)) == Some([d]) <==> |MarshalDir(d)| - 2 < Pow256(2)
  {
    DirBack(d);
    ParseAlone(MarshalDir, UnmarshalDir, d);
  }

  /** A prefix of encoded entries is accepted exactly when it ends on an entry boundary. */
  lemma PrefixAccepted(ds: seq<Dir>, k: nat)
    requires AllFit(ds) && k <= |Stream(MarshalDir, ds)|
    ensures Parse(Stream(MarshalDir, ds)[..k]).Some? <==> Boundary(MarshalDir, ds, k)
  {
    DirsFramed(ds);
    PrefixOfStream(MarshalDir, UnmarshalDir, ds, k);
  }

  // ----- List

  function Join(blocks: seq<Bytes>): Bytes {
    if blocks == [] then [] else blocks[0] + Join(blocks[1..])
  }

  /**
   The loop of List over the replies to its reads, the last of which is empty. However the server cuts the
   directory into replies, at entry boundaries, the entries are those of the whole.
   */
  method ListEntries<T>(decode: Bytes -> T, replies: seq<Bytes>) returns (entries: Option<seq<T>>)
    requires forall k :: 0 <= k < |replies| ==> replies[k] != []
    ensures entries.Some? ==> entries == ParseBy(decode, Join(replies))
    ensures entries.Some? <==> forall k :: 0 <= k < |replies| ==> ParseBy(decode, replies[k]).Some?
  {
    var got: seq<T> := [];
    for i := 0 to |replies|
      invariant ParseBy(decode, Join(replies[..i])) == Some(got)
      invariant forall k :: 0 <= k < i ==> ParseBy(decode, replies[k]).Some?
    {
      var dirs := ParseDirEntries(decode, replies[i]);
      if dirs.None? {
        return None;
      }
      ListMore(decode, replies, i, got, dirs.value);
      got := got + dirs.value;
    }
    assert replies[..|replies|] == replies;
    return Some(got);
  }

  /** One more reply. */
  lemma ListMore<T>(decode: Bytes -> T, replies: seq<Bytes>, i: nat, got: seq<T>, more: seq<T>)
    requires i < |replies| && ParseBy(decode, Join(replies[..i])) == Some(got) && ParseBy(decode, replies[i]) == Some(more)
    ensures ParseBy(decode, Join(replies[..i + 1])) == Some(got + more)
  {
    JoinLast(replies, i);
    ParseAppend(decode, Join(replies[..i]), replies[i]);
  }

  lemma {:induction false} JoinAppend(a: seq<Bytes>, b: seq<Bytes>)
    ensures Join(a + b) == Join(a) + Join(b)
  {
    if a == [] {
      assert a + b == b;
    } else {
      assert (a + b)[1..] == a[1..] + b;
      JoinAppend(a[1..], b);
    }
  }

  lemma JoinLast(replies: seq<Bytes>, i: nat)
    requires i < |replies|
    ensures Join(replies[..i + 1]) == Join(replies[..i]) + replies[i]
  {
    var last: seq<Bytes> := [replies[i]];
    assert replies[..i + 1] == replies[..i] + last;
    JoinAppend(replies[..i], last);
    assert last[1..] == [];
  }
}
