/**
 Parser of remoteexec/runner.go: it passes a byte stream on until the exit
 sentinel, holding back what may be the start of one, and then reads the status.
 A byte is modelled as the char of that value.
 */
module Sentinel {
  import opened Wrappers

  const SENTINEL_PREFIX: string := "\U{0001}agentic9-exit "

  // ----- bytes.Index and bytes.IndexByte

  predicate At(s: string, n: string, i: int) {
    0 <= i && i + |n| <= |s| && s[i..i + |n|] == n
  }

  /** The first occurrence of n in s from i on, or -1. */
  function IndexFrom(s: string, n: string, i: nat): int
    requires i <= |s|
    decreases |s| - i
  {
    if At(s, n, i) then i else if i == |s| then -1 else IndexFrom(s, n, i + 1)
  }

  function Index(s: string, n: string): int {
    IndexFrom(s, n, 0)
  }

  ghost predicate IsFirst(s: string, n: string, i: nat, r: int) {
    (r == -1 || (i <= r && At(s, n, r))) && forall j :: i <= j && (j < r || r == -1) ==> !At(s, n, j)
  }

  lemma {:induction false} IndexFromFirst(s: string, n: string, i: nat)
    requires i <= |s|
    ensures IsFirst(s, n, i, IndexFrom(s, n, i))
    decreases |s| - i
  {
    if !At(s, n, i) && i < |s| {
      IndexFromFirst(s, n, i + 1);
    }
  }

  /** Index finds the first occurrence, and only the first occurrence qualifies. */
  lemma IndexSpec(s: string, n: string, r: int)
    ensures IsFirst(s, n, 0, r) <==> r == Index(s, n)
  {
    IndexFromFirst(s, n, 0);
    var k := Index(s, n);
    if IsFirst(s, n, 0, r) && r != k {
      assert k == -1 || At(s, n, k);
      assert r == -1 || At(s, n, r);
    }
  }

  function NewlineFrom(s: string, i: nat): (r: int)
    ensures r == -1 || i <= r < |s|
    decreases |s| - i
  {
    if i >= |s| then -1 else if s[i] == '\n' then i else NewlineFrom(s, i + 1)
  }

  /** The index of the first newline, or -1. */
  function IndexNewline(s: string): (r: int)
    ensures r == -1 || 0 <= r < |s|
  {
    NewlineFrom(s, 0)
  }

  ghost predicate FirstNewline(s: string, i: nat, r: int) {
    (r == -1 || (i <= r < |s| && s[r] == '\n')) && forall j :: i <= j < |s| && (j < r || r == -1) ==> s[j] != '\n'
  }

  lemma {:induction false} NewlineFromFirst(s: string, i: nat)
    ensures FirstNewline(s, i, NewlineFrom(s, i))
    decreases |s| - i
  {
    if i < |s| && s[i] != '\n' {
      NewlineFromFirst(s, i + 1);
    }
  }

  lemma NewlineSpec(s: string, r: int)
    ensures FirstNewline(s, 0, r) <==> r == IndexNewline(s)
  {
    NewlineFromFirst(s, 0);
  }

  // ----- strings.TrimSpace

  /** The UTF-8 forms of the characters that unicode.IsSpace takes, one string for each length and leading bytes. */
  predicate IsSpace(s: string) {
    if |s| == 1 then s[0] == ' ' || '\t' <= s[0] <= '\r'
    else if |s| == 2 then s[0] == '\U{C2}' && (s[1] == '\U{85}' || s[1] == '\U{A0}')
    else |s| == 3 && IsSpace3(s[0], s[1], s[2])
  }

  predicate IsSpace3(a: char, b: char, c: char) {
    (a == '\U{E1}' && b == '\U{9A}' && c == '\U{80}') || (a == '\U{E2}' && b == '\U{81}' && c == '\U{9F}') ||
    (a == '\U{E3}' && b == '\U{80}' && c == '\U{80}') ||
    (a == '\U{E2}' && b == '\U{80}' && ('\U{80}' <= c <= '\U{8A}' || c == '\U{A8}' || c == '\U{A9}' || c == '\U{AF}'))
  }

  /** The length of the space that s starts with, or 0. */
  function SpaceBefore(s: string): (n: nat)
    ensures n <= |s|
  {
    if |s| >= 1 && IsSpace(s[..1]) then 1
    else if |s| >= 2 && IsSpace(s[..2]) then 2
    else if |s| >= 3 && IsSpace(s[..3]) then 3
    else 0
  }

  /** The length of the space that s ends with, or 0. */
  function SpaceAfter(s: string): (n: nat)
    ensures n <= |s|
  {
    if |s| >= 1 && IsSpace(s[|s| - 1..]) then 1
    else if |s| >= 2 && IsSpace(s[|s| - 2..]) then 2
    else if |s| >= 3 && IsSpace(s[|s| - 3..]) then 3
    else 0
  }

  function TrimLeft(s: string): string {
    if SpaceBefore(s) > 0 then TrimLeft(s[SpaceBefore(s)..]) else s
  }

  function TrimRight(s: string): string {
    if SpaceAfter(s) > 0 then TrimRight(s[..|s| - SpaceAfter(s)]) else s
  }

  function TrimSpace(s: string): string {
    TrimRight(TrimLeft(s))
  }

  // ----- What TrimSpace returns

  function Concat(ls: seq<string>): string {
    if ls == [] then "" else ls[0] + Concat(ls[1..])
  }

  lemma {:induction false} ConcatAppend(a: seq<string>, b: seq<string>)
    ensures Concat(a + b) == Concat(a) + Concat(b)
  {
    if a == [] {
      assert a + b == b;
    } else {
      assert (a + b)[1..] == a[1..] + b;
      ConcatAppend(a[1..], b);
    }
  }

  lemma ConcatOne(a: string)
    ensures Concat([a]) == a
  {
    assert [a][1..] == [];
  }

  /** The characters of unicode.IsSpace. */
  predicate WhiteSpace(c: nat) {
    9 <= c <= 13 || c == 0x20 || c == 0x85 || c == 0xA0 || c == 0x1680 || 0x2000 <= c <= 0x200A || c == 0x2028 ||
    c == 0x2029 || c == 0x202F || c == 0x205F || c == 0x3000
  }

  /** UTF-8, as section 3 of RFC 3629 has it, for up to three bytes. */
  function Utf8(c: nat): string
    requires c < 0x1_0000
  {
    if c < 0x80 then [c as char]
    else if c < 0x800 then [(0xC0 + c / 64) as char, (0x80 + c % 64) as char]
    else [(0xE0 + c / 4096) as char, (0x80 + c / 64 % 64) as char, (0x80 + c % 64) as char]
  }

  /** IsSpace takes exactly the encodings of the white space characters. */
  lemma IsSpaceIff(s: string)
    ensures IsSpace(s) <==> exists c: nat :: c < 0x1_0000 && WhiteSpace(c) && Utf8(c) == s
  {
    if IsSpace(s) {
      var c := Character(s);
      assert Utf8(c) == s;
    }
    forall c: nat | c < 0x1_0000 && WhiteSpace(c) ensures IsSpace(Utf8(c)) {
      Encoded(c);
    }
  }

  lemma Character(s: string) returns (c: nat)
    requires IsSpace(s)
    ensures c < 0x1_0000 && WhiteSpace(c) && Utf8(c) == s
  {
    c := if |s| == 1 then s[0] as int else if |s| == 2 then s[1] as int
         else (s[0] as int - 0xE0) * 4096 + (s[1] as int - 0x80) * 64 + (s[2] as int - 0x80);
  }

  lemma Encoded(c: nat)
    requires c < 0x1_0000 && WhiteSpace(c)
    ensures IsSpace(Utf8(c))
  {
  }

  ghost predicate EachSpace(ps: seq<string>) {
    forall k :: 0 <= k < |ps| ==> IsSpace(ps[k])
  }

  /** The text is a sequence of spaces. */
  ghost predicate Spaces(s: string) {
    exists ps: seq<string> :: EachSpace(ps) && Concat(ps) == s
  }

  /** The text neither starts nor ends with a space. */
  ghost predicate Bare(s: string) {
    forall k :: 0 <= k <= |s| ==> !IsSpace(s[..k]) && !IsSpace(s[k..])
  }

  /** t is s without the spaces around it. */
  ghost predicate Trimmed(s: string, t: string) {
    Bare(t) && exists a, b :: Spaces(a) && Spaces(b) && s == a + t + b
  }

  lemma NoSpaces()
    ensures Spaces("")
  {
    assert EachSpace([]) && Concat([]) == "";
  }

  lemma SpaceFirst(p: string, s: string)
    requires IsSpace(p) && Spaces(s)
    ensures Spaces(p + s)
  {
    var ps: seq<string> :| EachSpace(ps) && Concat(ps) == s;
    var qs := [p] + ps;
    assert qs[1..] == ps;
    assert EachSpace(qs) && Concat(qs) == p + s;
  }

  lemma SpaceLast(s: string, p: string)
    requires Spaces(s) && IsSpace(p)
    ensures Spaces(s + p)
  {
    var ps: seq<string> :| EachSpace(ps) && Concat(ps) == s;
    var qs := ps + [p];
    ConcatAppend(ps, [p]);
    ConcatOne(p);
    assert EachSpace(qs) && Concat(qs) == s + p;
  }

  lemma SpaceAtFront(s: string, k: nat)
    requires k <= |s| && IsSpace(s[..k])
    ensures SpaceBefore(s) == k
  {
    assert forall i :: 0 <= i <= k ==> s[..k][..i] == s[..i];
  }

  lemma SpaceAtBack(s: string, k: nat)
    requires k <= |s| && IsSpace(s[|s| - k..])
    ensures SpaceAfter(s) == k
  {
    var p := s[|s| - k..];
    assert forall i :: 0 <= i <= k ==> p[i..] == s[|s| - k + i..];
  }

  lemma NoSpaceInFront(s: string)
    requires SpaceBefore(s) == 0
    ensures forall k :: 0 <= k <= |s| ==> !IsSpace(s[..k])
  {
    forall k | 0 <= k <= |s| ensures !IsSpace(s[..k]) {
      if IsSpace(s[..k]) { SpaceAtFront(s, k); }
    }
  }

  lemma NoSpaceAtEnd(s: string)
    requires SpaceAfter(s) == 0
    ensures forall k :: 0 <= k <= |s| ==> !IsSpace(s[k..])
  {
    forall k | 0 <= k <= |s| ensures !IsSpace(s[k..]) {
      if IsSpace(s[k..]) { SpaceAtBack(s, |s| - k); }
    }
  }

  lemma SpaceAfterSpec(s: string)
    ensures var n := SpaceAfter(s); n == 0 || IsSpace(s[|s| - n..])
  {
  }

  lemma {:induction false} TrimLeftSplits(s: string) returns (a: string)
    ensures Spaces(a) && s == a + TrimLeft(s) && forall k :: 0 <= k <= |TrimLeft(s)| ==> !IsSpace(TrimLeft(s)[..k])
    decreases |s|
  {
    var n := SpaceBefore(s);
    SpaceBeforeSpec(s);
    if n == 0 {
      a := "";
      NoSpaces();
      NoSpaceInFront(s);
    } else {
      var b := TrimLeftSplits(s[n..]);
      a := s[..n] + b;
      SpaceFirst(s[..n], b);
      RegroupLeft(s, n, b, TrimLeft(s[n..]));
    }
  }

  lemma {:induction false} TrimRightSplits(s: string) returns (b: string)
    ensures Spaces(b) && s == TrimRight(s) + b && forall k :: 0 <= k <= |TrimRight(s)| ==> !IsSpace(TrimRight(s)[k..])
    decreases |s|
  {
    var n := |s| - SpaceAfter(s);
    SpaceAfterSpec(s);
    if n == |s| {
      b := "";
      NoSpaces();
      NoSpaceAtEnd(s);
    } else {
      var a := TrimRightSplits(s[..n]);
      b := a + s[n..];
      SpaceLast(a, s[n..]);
      RegroupRight(s, n, TrimRight(s[..n]), a);
    }
  }

  lemma RegroupLeft(s: string, n: nat, b: string, t: string)
    requires n <= |s| && s[n..] == b + t
    ensures s == s[..n] + b + t
  {
    assert s == s[..n] + s[n..];
  }

  lemma RegroupRight(s: string, n: nat, t: string, b: string)
    requires n <= |s| && s[..n] == t + b
    ensures s == t + (b + s[n..])
  {
    assert s == s[..n] + s[n..];
  }

  /** TrimSpace takes off spaces at both ends, and all of them. */
  lemma TrimSpaceTrims(s: string)
    ensures Trimmed(s, TrimSpace(s))
  {
    var a, b := TrimSpaceParts(s, TrimLeft(s));
    Around(a, TrimSpace(s), b);
  }

  lemma TrimSpaceParts(s: string, l: string) returns (a: string, b: string)
    requires l == TrimLeft(s)
    ensures Spaces(a) && Spaces(b) && s == a + TrimRight(l) + b && Bare(TrimRight(l))
  {
    a := TrimLeftSplits(s);
    b := TrimRightSplits(l);
    FrontOf(l, TrimRight(l), b);
    assert a + (TrimRight(l) + b) == a + TrimRight(l) + b;
  }

  lemma FrontOf(l: string, t: string, b: string)
    requires l == t + b && forall k :: 0 <= k <= |l| ==> !IsSpace(l[..k])
    ensures forall k :: 0 <= k <= |t| ==> !IsSpace(t[..k])
  {
    forall k | 0 <= k <= |t| ensures !IsSpace(t[..k]) {
      assert t[..k] == l[..k];
    }
  }

  lemma {:induction false} TrimLeftSkips(ps: seq<string>, s: string)
    requires EachSpace(ps)
    ensures TrimLeft(Concat(ps) + s) == TrimLeft(s)
  {
    if ps == [] {
      assert "" + s == s;
    } else {
      var whole := Concat(ps) + s;
      assert whole == ps[0] + (Concat(ps[1..]) + s);
      Peeled(ps[0], Concat(ps[1..]) + s);
      SpaceAtFront(whole, |ps[0]|);
      TrimLeftSkips(ps[1..], s);
    }
  }

  lemma {:induction false} TrimRightSkips(s: string, ps: seq<string>)
    requires EachSpace(ps)
    ensures TrimRight(s + Concat(ps)) == TrimRight(s)
    decreases |ps|
  {
    if ps == [] {
      assert s + "" == s;
    } else {
      var n := |ps| - 1;
      var front, p := s + Concat(ps[..n]), ps[n];
      assert ps == ps[..n] + [p];
      ConcatAppend(ps[..n], [p]);
      ConcatOne(p);
      assert s + Concat(ps) == front + p;
      Peeled(front, p);
      SpaceAtBack(front + p, |p|);
      TrimRightSkips(s, ps[..n]);
    }
  }

  lemma Peeled(a: string, b: string)
    ensures (a + b)[..|a|] == a && (a + b)[|a|..] == b && |a + b| - |b| == |a|
  {
  }

  /** A space starts with a byte that no other byte of a space is. */
  lemma SpaceBytes(p: string)
    requires IsSpace(p)
    ensures p != "" && (p[0] < '\U{80}' || p[0] >= '\U{C2}')
    ensures forall k :: 1 <= k < |p| ==> '\U{80}' <= p[k] < '\U{C0}'
  {
  }

  lemma SpaceBeforeSpec(s: string)
    ensures var n := SpaceBefore(s); n == 0 || IsSpace(s[..n])
  {
  }

  /** Spaces after a text that starts with none do not make it start with one. */
  lemma NoStraddle(t: string, ps: seq<string>)
    requires t != "" && EachSpace(ps) && forall k :: 0 <= k <= |t| ==> !IsSpace(t[..k])
    ensures TrimLeft(t + Concat(ps)) == t + Concat(ps)
  {
    var b := Concat(ps);
    if ps != [] {
      SpaceBytes(ps[0]);
      assert b[0] == ps[0][0];
    }
    NotSpaceFirst(t, b);
  }

  lemma NotSpaceFirst(t: string, b: string)
    requires t != "" && forall k :: 0 <= k <= |t| ==> !IsSpace(t[..k])
    requires b != "" ==> b[0] < '\U{80}' || b[0] >= '\U{C2}'
    ensures SpaceBefore(t + b) == 0
  {
    var s := t + b;
    var n := SpaceBefore(s);
    SpaceBeforeSpec(s);
    if n > 0 { EndsWithin(t, b, n); }
    assert s[..n] == t[..n];
  }

  lemma EndsWithin(t: string, b: string, n: nat)
    requires t != "" && n <= |t + b| && IsSpace((t + b)[..n])
    requires b != "" ==> b[0] < '\U{80}' || b[0] >= '\U{C2}'
    ensures n <= |t|
  {
    SpaceBytes((t + b)[..n]);
    if b != "" {
      assert (t + b)[|t|] == b[0];
    }
  }

  /** Nothing else than what TrimSpace returns has no space at its ends and only spaces missing. */
  lemma TrimSpaceIff(s: string, t: string)
    ensures Trimmed(s, t) <==> t == TrimSpace(s)
  {
    TrimSpaceTrims(s);
    if Trimmed(s, t) {
      var a, b :| Spaces(a) && Spaces(b) && s == a + t + b;
      var ps: seq<string> :| EachSpace(ps) && Concat(ps) == a;
      var qs: seq<string> :| EachSpace(qs) && Concat(qs) == b;
      TrimmedIs(ps, t, qs);
    }
  }

  lemma TrimmedIs(ps: seq<string>, t: string, qs: seq<string>)
    requires EachSpace(ps) && EachSpace(qs) && Bare(t)
    ensures TrimSpace(Concat(ps) + t + Concat(qs)) == t
  {
    var a, b := Concat(ps), Concat(qs);
    assert a + t + b == a + (t + b);
    TrimLeftSkips(ps, t + b);
    BareStays(t);
    if t == "" {
      assert t + b == b + "";
      TrimLeftSkips(qs, "");
    } else {
      NoStraddle(t, qs);
      TrimRightSkips(t, qs);
    }
  }

  lemma BareStays(t: string)
    requires Bare(t)
    ensures TrimLeft(t) == t && TrimRight(t) == t
  {
    BareFront(t);
    BareEnd(t);
  }

  lemma BareFront(t: string)
    requires forall k :: 0 <= k <= |t| ==> !IsSpace(t[..k])
    ensures TrimLeft(t) == t
  {
    SpaceBeforeSpec(t);
  }

  lemma BareEnd(t: string)
    requires forall k :: 0 <= k <= |t| ==> !IsSpace(t[k..])
    ensures TrimRight(t) == t
  {
    SpaceAfterSpec(t);
  }

  lemma SpacesJoin(a: string, b: string)
    requires Spaces(a) && Spaces(b)
    ensures Spaces(a + b)
  {
    var ps: seq<string> :| EachSpace(ps) && Concat(ps) == a;
    var qs: seq<string> :| EachSpace(qs) && Concat(qs) == b;
    ConcatAppend(ps, qs);
    assert EachSpace(ps + qs);
  }

  lemma NothingLeft(s: string)
    requires Spaces(s)
    ensures Trimmed(s, "")
  {
    NoSpaces();
    NothingBare();
    Around(s, "", "");
    assert s == s + "" + "";
  }

  lemma Around(a: string, t: string, b: string)
    requires Bare(t) && Spaces(a) && Spaces(b)
    ensures Trimmed(a + t + b, t)
  {
  }

  lemma OnlySpaces(s: string)
    requires Trimmed(s, "")
    ensures Spaces(s)
  {
    var a, b :| Spaces(a) && Spaces(b) && s == a + "" + b;
    SpacesJoin(a, b);
    assert s == a + b;
  }

  /** Nothing is left exactly of a text that consists of spaces. */
  lemma AllSpaces(s: string)
    ensures TrimSpace(s) == "" <==> Spaces(s)
  {
    TrimSpaceIff(s, "");
    if Spaces(s) {
      NothingLeft(s);
    }
    if Trimmed(s, "") {
      OnlySpaces(s);
    }
  }

  lemma TrimmedEmpty(s: string, t: string)
    requires Trimmed(s, t)
    ensures t == "" <==> Spaces(s)
  {
    TrimSpaceIff(s, t);
    AllSpaces(s);
  }

  lemma NothingBare()
    ensures Bare("")
  {
  }

  // ----- Holding back

  /** The last k bytes of s may be the start of a sentinel. */
  ghost predicate Overlaps(s: string, n: string, k: nat) {
    k <= |s| && k < |n| && s[|s| - k..] == n[..k]
  }

  ghost predicate LongestOverlap(s: string, n: string, k: nat) {
    Overlaps(s, n, k) && forall m: nat :: Overlaps(s, n, m) ==> m <= k
  }

  function OverlapFrom(s: string, n: string, k: nat): nat
    requires k <= |s| && k < |n|
  {
    if k == 0 || s[|s| - k..] == n[..k] then k else OverlapFrom(s, n, k - 1)
  }

  /** The longest suffix of s that is a proper prefix of n. */
  function OverlapLen(s: string, n: string): nat
    requires n != ""
  {
    OverlapFrom(s, n, if |n| - 1 > |s| then |s| else |n| - 1)
  }

  lemma {:induction false} OverlapFromLongest(s: string, n: string, k: nat)
    requires k <= |s| && k < |n| && forall m: nat :: Overlaps(s, n, m) ==> m <= k
    ensures LongestOverlap(s, n, OverlapFrom(s, n, k))
  {
    if k == 0 {
      assert s[|s|..] == n[..0];
    } else if s[|s| - k..] != n[..k] {
      OverlapFromLongest(s, n, k - 1);
    }
  }

  lemma OverlapLenLongest(s: string, n: string)
    requires n != ""
    ensures LongestOverlap(s, n, OverlapLen(s, n))
  {
    OverlapFromLongest(s, n, if |n| - 1 > |s| then |s| else |n| - 1);
  }

  /** overlapSuffix. */
  method OverlapSuffix(data: string, needle: string) returns (k: nat)
    requires needle != ""
    ensures LongestOverlap(data, needle, k) && k == OverlapLen(data, needle)
  {
    OverlapLenLongest(data, needle);
    k := if |needle| - 1 > |data| then |data| else |needle| - 1;
    while k > 0
      invariant k <= |data| && k < |needle|
      invariant forall m: nat :: Overlaps(data, needle, m) ==> m <= k
    {
      if data[|data| - k..] == needle[..k] {
        assert Overlaps(data, needle, k);
        LongestOnce(data, needle, k, OverlapLen(data, needle));
        return;
      }
      k := k - 1;
    }
    assert data[|data|..] == needle[..0];
    assert Overlaps(data, needle, 0);
    LongestOnce(data, needle, k, OverlapLen(data, needle));
  }

  lemma LongestOnce(s: string, n: string, k: nat, l: nat)
    requires LongestOverlap(s, n, k) && LongestOverlap(s, n, l)
    ensures k == l
  {
    assert Overlaps(s, n, k) && Overlaps(s, n, l);
  }

  // ----- What a whole stream means, for a sentinel n

  /** The bytes before a sentinel, and the text between it and the next newline. */
  datatype Exit = Exit(before: string, text: string)

  /** What a stream says once its first sentinel is followed by a newline. */
  function ExitOf(n: string, s: string): Option<Exit> {
    var i := Index(s, n);
    if i < 0 || i + |n| > |s| then None else ExitIn(s[..i], s[i + |n|..])
  }

  /** The exit when rest follows the sentinel. */
  function ExitIn(before: string, rest: string): Option<Exit> {
    var nl := IndexNewline(rest);
    if nl < 0 then None else Some(Exit(before, rest[..nl]))
  }

  /**
   What holds after the bytes fed have come in and the bytes out have gone out. Until the sentinel is complete,
   out and the buffer make up the stream; without a sentinel, only its longest possible start is held back.
   */
  ghost predicate Parsed(n: string, fed: string, out: string, buf: string, done: bool, text: string) {
    if done then ExitOf(n, fed) == Some(Exit(out, text))
    else
      ExitOf(n, fed).None? && out + buf == fed && text == "" &&
      if Index(fed, n) == -1 then LongestOverlap(fed, n, |buf|) else |out| <= Index(fed, n)
  }

  // ----- What has been made visible after some chunks

  /** The chunks fed so far. */
  datatype History = Start | Then(before: History, chunk: string)

  /** All the bytes fed. */
  function Fed(h: History): string {
    match h
    case Start => ""
    case Then(before, chunk) => Fed(before) + chunk
  }

  /** The first i chunks. */
  function HistoryOf(chunks: seq<string>, i: nat): History
    requires i <= |chunks|
  {
    if i == 0 then Start else Then(HistoryOf(chunks, i - 1), chunks[i - 1])
  }

  lemma {:induction false} FedPrefix(chunks: seq<string>, i: nat)
    requires i <= |chunks|
    ensures Fed(HistoryOf(chunks, i)) == Concat(chunks[..i])
  {
    if i > 0 {
      FedPrefix(chunks, i - 1);
      assert chunks[..i] == chunks[..i - 1] + [chunks[i - 1]];
      ConcatAppend(chunks[..i - 1], [chunks[i - 1]]);
      ConcatOne(chunks[i - 1]);
    }
  }

  lemma FedAll(chunks: seq<string>)
    ensures Fed(HistoryOf(chunks, |chunks|)) == Concat(chunks)
  {
    FedPrefix(chunks, |chunks|);
    assert chunks[..|chunks|] == chunks;
  }

  /** All that Feed returns for the chunks. While a sentinel waits for its newline, nothing more is shown. */
  ghost function Shown(n: string, h: History): string
    requires n != ""
  {
    match h
    case Start => ""
    case Then(before, _) =>
      var fed := Fed(h);
      if ExitOf(n, fed).Some? then ExitOf(n, fed).value.before
      else if Index(fed, n) == -1 then
        OverlapLenLongest(fed, n);
        fed[..|fed| - OverlapLen(fed, n)]
      else Shown(n, before)
  }

  // ----- Occurrences in a longer stream

  lemma AtPrefix(s: string, t: string, n: string, j: nat)
    requires j + |n| <= |s|
    ensures At(s + t, n, j) <==> At(s, n, j)
  {
    assert (s + t)[j..j + |n|] == s[j..j + |n|];
  }

  lemma AtShift(s: string, t: string, n: string, k: nat)
    ensures At(s + t, n, |s| + k) <==> At(t, n, k)
  {
    if k + |n| <= |t| {
      assert (s + t)[|s| + k..|s| + k + |n|] == t[k..k + |n|];
    }
  }

  lemma IndexExtends(s: string, t: string, n: string)
    requires Index(s, n) >= 0
    ensures Index(s + t, n) == Index(s, n) && Index(s, n) + |n| <= |s|
  {
    var i := Index(s, n);
    IndexSpec(s, n, i);
    AtPrefix(s, t, n, i);
    forall j: nat | j < i ensures !At(s + t, n, j) {
      AtPrefix(s, t, n, j);
    }
    IndexSpec(s + t, n, i);
  }

  lemma NewlineExtends(s: string, t: string)
    requires IndexNewline(s) >= 0
    ensures IndexNewline(s + t) == IndexNewline(s)
  {
    NewlineSpec(s, IndexNewline(s));
    NewlineSpec(s + t, IndexNewline(s));
  }

  /** Bytes after a complete sentinel change nothing. */
  lemma ExitExtends(n: string, s: string, t: string)
    requires ExitOf(n, s).Some?
    ensures ExitOf(n, s + t) == ExitOf(n, s)
  {
    var i := Index(s, n);
    IndexExtends(s, t, n);
    var rest := s[i + |n|..];
    assert (s + t)[i + |n|..] == rest + t && (s + t)[..i] == s[..i];
    NewlineExtends(rest, t);
    assert (rest + t)[..IndexNewline(rest)] == rest[..IndexNewline(rest)];
  }

  // ----- One call of Feed

  /** A sentinel of the longer stream cannot start in the part that is already out. */
  lemma NotInOutput(n: string, fed: string, out: string, buf: string, chunk: string, j: nat)
    requires Parsed(n, fed, out, buf, false, "") && At(fed + chunk, n, j)
    ensures |out| <= j
  {
    IndexSpec(fed, n, Index(fed, n));
    if Index(fed, n) >= 0 {
      IndexExtends(fed, chunk, n);
      IndexSpec(fed + chunk, n, Index(fed, n));
    } else if j < |out| {
      if j + |n| <= |fed| {
        AtPrefix(fed, chunk, n, j);
      } else {
        assert fed[j..] == (fed + chunk)[j..j + |n|][..|fed| - j];
        assert Overlaps(fed, n, |fed| - j);
      }
    }
  }

  lemma IndexShift(s: string, t: string, n: string)
    requires forall j: nat :: j < |s| ==> !At(s + t, n, j)
    ensures Index(s + t, n) == if Index(t, n) == -1 then -1 else |s| + Index(t, n)
  {
    var k := Index(t, n);
    IndexSpec(t, n, k);
    var r := if k == -1 then -1 else |s| + k;
    if k >= 0 {
      AtShift(s, t, n, k);
    }
    forall j: nat | j < r || r == -1 ensures !At(s + t, n, j) {
      if j >= |s| {
        AtShift(s, t, n, j - |s|);
      }
    }
    IndexSpec(s + t, n, r);
  }

  /** Looking for the sentinel in the buffer finds the first one of the stream. */
  lemma FirstSentinel(n: string, fed: string, out: string, buf: string, chunk: string)
    requires Parsed(n, fed, out, buf, false, "")
    ensures out + (buf + chunk) == fed + chunk
    ensures Index(fed + chunk, n) == if Index(buf + chunk, n) == -1 then -1 else |out| + Index(buf + chunk, n)
  {
    var data := buf + chunk;
    assert out + data == out + buf + chunk;
    forall j: nat | j < |out| ensures !At(out + data, n, j) {
      if At(fed + chunk, n, j) {
        NotInOutput(n, fed, out, buf, chunk, j);
      }
    }
    IndexShift(out, data, n);
  }

  lemma ExitShift(n: string, s: string, t: string)
    requires Index(t, n) >= 0 && Index(s + t, n) == |s| + Index(t, n)
    ensures ExitOf(n, s + t) == if ExitOf(n, t).None? then None else Some(Exit(s + ExitOf(n, t).value.before, ExitOf(n, t).value.text))
  {
    var i := Index(t, n);
    IndexSpec(t, n, i);
    CutBehind(s, t, i + |n|);
    CutBehind(s, t, i);
  }

  lemma CutBehind(s: string, t: string, i: nat)
    requires i <= |t|
    ensures (s + t)[|s| + i..] == t[i..] && (s + t)[..|s| + i] == s + t[..i]
  {
  }

  lemma OverlapShift(s: string, t: string, n: string, m: nat)
    requires m <= |t|
    ensures Overlaps(s + t, n, m) <==> Overlaps(t, n, m)
  {
    assert (s + t)[|s + t| - m..] == t[|t| - m..];
  }

  lemma OverlapCut(s: string, t: string, n: string, m: nat)
    requires Overlaps(s + t, n, m) && m >= |t|
    ensures Overlaps(s, n, m - |t|)
  {
    var k := m - |t|;
    assert s[|s| - k..] == (s + t)[|s + t| - m..][..k];
  }

  /** Without a sentinel, the longest overlap of the buffer is that of the stream. */
  lemma HeldBack(n: string, fed: string, out: string, buf: string, chunk: string, keep: nat)
    requires Parsed(n, fed, out, buf, false, "") && Index(fed + chunk, n) == -1
    requires LongestOverlap(buf + chunk, n, keep)
    ensures LongestOverlap(fed + chunk, n, keep)
  {
    var data := buf + chunk;
    assert fed + chunk == out + data;
    if Index(fed, n) >= 0 {
      IndexExtends(fed, chunk, n);
    }
    OverlapShift(out, data, n, keep);
    forall m: nat | Overlaps(fed + chunk, n, m) ensures m <= keep {
      if m <= |data| {
        OverlapShift(out, data, n, m);
      } else {
        OverlapCut(fed, chunk, n, m);
      }
    }
  }

  /** Feed without a sentinel in the buffer: all but the overlap goes out. */
  lemma FeedPlain(n: string, fed: string, out: string, buf: string, chunk: string, keep: nat)
    requires Parsed(n, fed, out, buf, false, "") && Index(buf + chunk, n) == -1 && LongestOverlap(buf + chunk, n, keep)
    ensures var data := buf + chunk;
            Parsed(n, fed + chunk, out + data[..|data| - keep], data[|data| - keep..], false, "")
  {
    var data := buf + chunk;
    FirstSentinel(n, fed, out, buf, chunk);
    HeldBack(n, fed, out, buf, chunk, keep);
    assert out + data[..|data| - keep] + data[|data| - keep..] == fed + chunk;
  }

  /** Feed with a sentinel in the buffer, complete or not. */
  lemma FeedSentinel(n: string, fed: string, out: string, buf: string, chunk: string)
    requires Parsed(n, fed, out, buf, false, "") && Index(buf + chunk, n) >= 0
    ensures var data := buf + chunk;
            if ExitOf(n, data).Some? then
              var e := ExitOf(n, data).value;
              Parsed(n, fed + chunk, out + e.before, data, true, e.text)
            else Parsed(n, fed + chunk, out, data, false, "")
  {
    FirstSentinel(n, fed, out, buf, chunk);
    ExitShift(n, out, buf + chunk);
  }

  /** The body of Feed, before the parser is done. */
  method FeedBytes(n: string, buf: string, chunk: string, ghost fed: string, ghost out: string)
    returns (visible: string, buf': string, done: bool, text: string)
    requires n != "" && Parsed(n, fed, out, buf, false, "")
    ensures Parsed(n, fed + chunk, out + visible, buf', done, text)
    ensures !done && Index(fed + chunk, n) != -1 ==> visible == ""
  {
    var data := buf + chunk;
    var idx := Index(data, n);
    IndexSpec(data, n, idx);
    if idx < 0 {
      var keep := OverlapSuffix(data, n);
      FirstSentinel(n, fed, out, buf, chunk);
      FeedPlain(n, fed, out, buf, chunk, keep);
      return data[..|data| - keep], data[|data| - keep..], false, "";
    }
    FeedSentinel(n, fed, out, buf, chunk);
    var rest := data[idx + |n|..];
    var nl := IndexNewline(rest);
    if nl >= 0 {
      return data[..idx], data, true, rest[..nl];
    }
    assert out + "" == out;
    return "", data, false, "";
  }

  /** One more chunk: what is visible afterwards is what Shown says. */
  lemma ShownStep(n: string, h: History, chunk: string, out': string, buf': string, done': bool, text': string)
    requires n != "" && Parsed(n, Fed(h) + chunk, out', buf', done', text')
    requires !done' && Index(Fed(h) + chunk, n) != -1 ==> out' == Shown(n, h)
    ensures out' == Shown(n, Then(h, chunk))
  {
    var fed := Fed(h) + chunk;
    OverlapLenLongest(fed, n);
    if !done' && Index(fed, n) == -1 {
      assert out' == fed[..|fed| - |buf'|];
    }
  }

  /** Shown is what a parser shows: it stands in the Parsed relation to the bytes fed, and it only grows. */
  lemma {:induction false} ShownParsed(n: string, h: History) returns (buf: string, done: bool, text: string)
    requires n != ""
    ensures Parsed(n, Fed(h), Shown(n, h), buf, done, text)
    ensures h.Then? ==> Shown(n, h.before) <= Shown(n, h)
    decreases h
  {
    match h
    case Start =>
      NothingYet(n);
      buf, done, text := "", false, "";
    case Then(before, chunk) =>
      var out := Shown(n, before);
      buf, done, text := ShownParsed(n, before);
      var visible := "";
      if done {
        ExitExtends(n, Fed(before), chunk);
      } else {
        visible, buf, done, text := FeedModel(n, buf, chunk, Fed(before), out);
      }
      assert out + visible == out || visible != "";
      ShownStep(n, before, chunk, out + visible, buf, done, text);
  }

  lemma NothingYet(n: string)
    requires n != ""
    ensures Parsed(n, "", "", "", false, "")
  {
    IndexSpec("", n, -1);
    assert Overlaps("", n, 0);
  }

  /** FeedBytes, as a lemma. */
  lemma FeedModel(n: string, buf: string, chunk: string, fed: string, out: string)
    returns (visible: string, buf': string, done: bool, text: string)
    requires n != "" && Parsed(n, fed, out, buf, false, "")
    ensures Parsed(n, fed + chunk, out + visible, buf', done, text)
    ensures !done && Index(fed + chunk, n) != -1 ==> visible == ""
  {
    var data := buf + chunk;
    FirstSentinel(n, fed, out, buf, chunk);
    IndexSpec(data, n, Index(data, n));
    if Index(data, n) == -1 {
      var keep := OverlapLen(data, n);
      OverlapLenLongest(data, n);
      FeedPlain(n, fed, out, buf, chunk, keep);
      visible, buf', done, text := data[..|data| - keep], data[|data| - keep..], false, "";
    } else {
      FeedSentinel(n, fed, out, buf, chunk);
      var exit := ExitOf(n, data);
      assert out + "" == out;
      visible, buf', done, text := "", data, exit.Some?, "";
      if exit.Some? {
        visible, text := exit.value.before, exit.value.text;
      }
    }
  }

  /** Which bytes a stream without a complete sentinel leaves unshown. */
  lemma ShownSpec(n: string, h: History)
    requires n != ""
    ensures var (fed, out) := (Fed(h), Shown(n, h));
            out <= fed &&
            (ExitOf(n, fed).Some? ==> out == ExitOf(n, fed).value.before) &&
            (ExitOf(n, fed).None? && Index(fed, n) == -1 ==> LongestOverlap(fed, n, |fed| - |out|)) &&
            (ExitOf(n, fed).None? && Index(fed, n) != -1 ==> |out| <= Index(fed, n))
  {
    var buf, done, text := ShownParsed(n, h);
  }

  /** A parser that is done stays so. */
  lemma StillDone(n: string, h: History, chunk: string, out: string, buf: string, text: string)
    requires n != "" && Parsed(n, Fed(h), out, buf, true, text) && out == Shown(n, h)
    ensures Parsed(n, Fed(h) + chunk, out + "", buf, true, text) && out + "" == Shown(n, Then(h, chunk))
  {
    ExitExtends(n, Fed(h), chunk);
    assert out + "" == out;
  }

  /** FeedBytes, with the chunks that have been fed. */
  method FeedChunk(n: string, buf: string, chunk: string, ghost h: History, ghost out: string)
    returns (visible: string, buf': string, done: bool, text: string)
    requires n != "" && Parsed(n, Fed(h), out, buf, false, "") && out == Shown(n, h)
    ensures Parsed(n, Fed(h) + chunk, out + visible, buf', done, text)
    ensures out + visible == Shown(n, Then(h, chunk))
  {
    visible, buf', done, text := FeedBytes(n, buf, chunk, Fed(h), out);
    assert visible == "" ==> out + visible == out;
    ShownStep(n, h, chunk, out + visible, buf', done, text);
  }

  class Parser {
    /** SENTINEL_PREFIX, in the program. */
    const sentinel: string
    var buf: string
    var done: bool
    var status: string
    /** The chunks fed, all bytes made visible, and the text that follows the sentinel. */
    ghost var history: History
    ghost var out: string
    ghost var text: string

    ghost predicate Valid()
      reads this
    {
      sentinel != "" && Parsed(sentinel, Fed(history), out, buf, done, text) && out == Shown(sentinel, history) &&
      if done then Trimmed(text, status) else status == ""
    }

    constructor (sentinel: string)
      requires sentinel != ""
      ensures Valid() && this.sentinel == sentinel && history == Start && out == ""
    {
      this.sentinel := sentinel;
      buf, done, status := "", false, "";
      history, out, text := Start, "", "";
      new;
      NothingYet(sentinel);
    }

    /** Feed; its other two results are the fields done and status. */
    method Feed(chunk: string) returns (visible: string)
      requires Valid()
      modifies this
      ensures Valid() && history == Then(old(history), chunk) && out == old(out) + visible
    {
      if done {
        StillDone(sentinel, history, chunk, out, buf, text);
        visible := "";
      } else {
        var read;
        visible, buf, done, read := FeedChunk(sentinel, buf, chunk, history, out);
        text := read;
        if done {
          TrimSpaceTrims(read);
          status := TrimSpace(read);
        }
      }
      history, out := Then(history, chunk), out + visible;
    }
  }

  // ----- Chunk independence

  /** What Parsed determines does not depend on how the bytes were split. */
  lemma ChunkIndependent(n: string, fed: string, out: string, buf: string, done: bool, text: string,
                         out': string, buf': string, done': bool, text': string)
    requires Parsed(n, fed, out, buf, done, text) && Parsed(n, fed, out', buf', done', text')
    ensures done == done' && text == text'
    ensures done || Index(fed, n) == -1 ==> out == out'
    ensures !done && Index(fed, n) == -1 ==> buf == buf' && |buf| < |n|
  {
    if !done && Index(fed, n) == -1 {
      assert |buf| == |buf'|;
      assert out == fed[..|fed| - |buf|] && out' == fed[..|fed| - |buf|];
    }
  }
}
