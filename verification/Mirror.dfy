/**
 Seeding a remote workspace: copyTreeToRemote, copyFileToRemote (as one step) and
 listRemotePaths of main.go, over an abstract remote tree. Paths are lists of
 names; the walk of the seed is the sequence that filepath.WalkDir visits.
 */
module Mirror {

  type Path = seq<string>

  datatype Node = Dir | File(data: string)

  type Tree = map<Path, Node>

  function Parent(p: Path): Path
    requires p != []
  {
    p[..|p| - 1]
  }

  /** The root is implicit; every other parent is a directory of the tree. */
  ghost predicate TreeOk(t: Tree) {
    forall p :: p in t ==> p != [] && (|p| > 1 ==> Parent(p) in t && t[Parent(p)].Dir?)
  }

  predicate HasChild(t: Tree, p: Path) {
    exists q :: q in t && q != [] && Parent(q) == p
  }

  /** The directory that is to hold p is there. */
  predicate Reachable(t: Tree, p: Path)
    requires p != []
  {
    |p| > 1 ==> Parent(p) in t && t[Parent(p)].Dir?
  }

  // ----- The remote tree

  datatype Status = Ok | NotExist | Exist | Failed

  /**
   How the server answers: the requests that it refuses (seeding makes each at most once), and what the client takes
   its answers for when a path is missing. The walk to a path whose first name is missing is an error. A walk that
   gets further is not; it stops short, and what fails is the stat of a fid that was never established.
   */
  datatype Answers = Answers(make: set<Path>, remove: set<Path>, missing: Status, unwalked: Status)

  predicate Proper(a: Answers) {
    a.missing in {NotExist, Failed} && a.unwalked in {NotExist, Failed}
  }

  /** What the client reports of a path that is not there. */
  function Absent(a: Answers, t: Tree, p: Path): Status {
    if |p| > 1 && p[..1] in t then a.unwalked else a.missing
  }

  class Remote {
    var tree: Tree
    const answers: Answers

    ghost predicate Valid()
      reads this
    {
      TreeOk(tree) && Proper(answers)
    }

    /** Mkdir, or Create of a file that is then written; node is what it makes. */
    method Make(p: Path, node: Node) returns (st: Status)
      requires Valid() && p != []
      modifies this`tree
      ensures Valid()
      ensures st == Ok || st == Exist <==> Reachable(old(tree), p) && p !in answers.make
      ensures st == Exist ==> p in old(tree)
      ensures st == Ok ==> p !in old(tree)
      ensures tree == if st == Ok then old(tree)[p := node] else old(tree)
    {
      if |p| > 1 && Parent(p) !in tree {
        return Absent(answers, tree, Parent(p));
      }
      if p in answers.make || (|p| > 1 && tree[Parent(p)].File?) {
        return Failed;
      }
      if p in tree {
        return Exist;
      }
      tree := tree[p := node];
      return Ok;
    }

    /** Remove; a directory must be empty. */
    method Remove(p: Path) returns (st: Status)
      requires Valid()
      modifies this`tree
      ensures Valid()
      ensures p !in old(tree) ==> st == Absent(answers, old(tree), p) && tree == old(tree)
      ensures p in old(tree) ==> st == if Removable(old(tree), answers, p) then Ok else Failed
      ensures p in old(tree) ==> tree == if Removable(old(tree), answers, p) then old(tree) - {p} else old(tree)
    {
      if p !in tree {
        return Absent(answers, tree, p);
      }
      if p in answers.remove || HasChild(tree, p) {
        return Failed;
      }
      tree := tree - {p};
      return Ok;
    }
  }

  predicate Removable(t: Tree, a: Answers, p: Path) {
    p !in a.remove && !HasChild(t, p)
  }

  // ----- The seed

  datatype Kind = SeedDir | SeedFile(data: string) | Symlink | Special

  datatype Entry = Entry(path: Path, kind: Kind)

  /** shouldSkipSeedPath. */
  predicate Skipped(p: Path) {
    p != [] && p[0] == ".git"
  }

  ghost predicate Distinct(w: seq<Entry>) {
    forall i, j :: 0 <= j < i < |w| ==> w[j].path != w[i].path
  }

  /** w[i] lies in a directory that w visits earlier. */
  ghost predicate ParentBefore(w: seq<Entry>, i: nat)
    requires i < |w|
  {
    |w[i].path| > 1 ==> exists j :: 0 <= j < i && w[j] == Entry(Parent(w[i].path), SeedDir)
  }

  /** The order of filepath.WalkDir: distinct paths, each after the directory that holds it. */
  ghost predicate Walk(w: seq<Entry>) {
    Distinct(w) && forall i :: 0 <= i < |w| ==> w[i].path != [] && ParentBefore(w, i)
  }

  /** Directories and regular files only. */
  ghost predicate Regular(w: seq<Entry>) {
    forall e :: e in w ==> e.kind.SeedDir? || e.kind.SeedFile?
  }

  /** The paths that copyTreeToRemote puts in its seen map. */
  ghost function Seen(w: seq<Entry>): set<Path> {
    if w == [] then {} else Seen(w[..|w| - 1]) + (var e := w[|w| - 1]; if Skipped(e.path) then {} else {e.path})
  }

  /** The tree after one entry was copied. An existing node keeps its kind when the seed has a directory there. */
  function Put(t: Tree, e: Entry): Tree {
    if Skipped(e.path) then t
    else match e.kind
      case SeedDir => if e.path in t then t else t[e.path := Dir]
      case SeedFile(data) => t[e.path := File(data)]
      case _ => t
  }

  ghost function PutAll(t: Tree, w: seq<Entry>): Tree {
    if w == [] then t else Put(PutAll(t, w[..|w| - 1]), w[|w| - 1])
  }

  lemma {:induction false} SeenIff(w: seq<Entry>, p: Path)
    ensures p in Seen(w) <==> exists e :: e in w && e.path == p && !Skipped(p)
  {
    if w != [] {
      SeenIff(w[..|w| - 1], p);
      assert w == w[..|w| - 1] + [w[|w| - 1]];
    }
  }

  /** Every seen path's parent is seen. */
  ghost predicate Closed(seen: set<Path>) {
    forall p :: p in seen && |p| > 1 ==> Parent(p) in seen
  }

  lemma SeenClosed(w: seq<Entry>)
    requires Walk(w)
    ensures Closed(Seen(w)) && [] !in Seen(w)
  {
    SeenIff(w, []);
    forall p | p in Seen(w) && |p| > 1 ensures Parent(p) in Seen(w) {
      SeenIff(w, p);
      var i :| 0 <= i < |w| && w[i].path == p;
      assert ParentBefore(w, i);
      var j :| 0 <= j < i && w[j] == Entry(Parent(p), SeedDir);
      assert w[j] in w && Parent(p)[0] == p[0];
      SeenIff(w, Parent(p));
    }
  }

  lemma {:induction false} PutAllKeys(t: Tree, w: seq<Entry>)
    requires Regular(w)
    ensures PutAll(t, w).Keys == t.Keys + Seen(w)
  {
    if w != [] {
      var v, e := w[..|w| - 1], w[|w| - 1];
      assert forall x :: x in v ==> x in w;
      assert e in w;
      PutAllKeys(t, v);
    }
  }

  /** What the copy leaves at a path: the seed's file, the seed's directory unless something was there, or what was there. */
  lemma {:induction false} PutAllAt(t: Tree, w: seq<Entry>, i: nat)
    requires Distinct(w) && i < |w| && !Skipped(w[i].path)
    ensures var p := w[i].path;
            (w[i].kind.SeedFile? ==> p in PutAll(t, w) && PutAll(t, w)[p] == File(w[i].kind.data)) &&
            (w[i].kind.SeedDir? ==> p in PutAll(t, w) && PutAll(t, w)[p] == if p in t then t[p] else Dir)
  {
    var v, e := w[..|w| - 1], w[|w| - 1];
    if i < |w| - 1 {
      PutAllAt(t, v, i);
      assert v[i] == w[i];
    } else {
      Untouched(t, v, e.path);
    }
  }

  lemma {:induction false} Untouched(t: Tree, w: seq<Entry>, p: Path)
    requires forall j :: 0 <= j < |w| ==> w[j].path != p
    ensures p in PutAll(t, w) <==> p in t
    ensures p in t ==> PutAll(t, w)[p] == t[p]
  {
    if w != [] {
      Untouched(t, w[..|w| - 1], p);
      assert w[|w| - 1].path != p;
    }
  }

  /** What is below .git is not seen, and the seed does not touch it; everything else of the seed is seen. */
  lemma GitLeftOut(t: Tree, w: seq<Entry>, p: Path)
    requires p != []
    ensures p in Seen(w) <==> p[0] != ".git" && exists e :: e in w && e.path == p
    ensures p[0] == ".git" ==> (p in PutAll(t, w) <==> p in t) && (p in t ==> PutAll(t, w)[p] == t[p])
  {
    SeenIff(w, p);
    GitUntouched(t, w, p);
  }

  lemma {:induction false} GitUntouched(t: Tree, w: seq<Entry>, p: Path)
    requires p != []
    ensures p[0] == ".git" ==> (p in PutAll(t, w) <==> p in t) && (p in t ==> PutAll(t, w)[p] == t[p])
  {
    if w != [] {
      GitUntouched(t, w[..|w| - 1], p);
    }
  }

  // ----- Copying

  /** Entry e finds nothing in its way on a remote that was t before the copy. */
  ghost predicate Fits(t: Tree, a: Answers, e: Entry)
    requires e.path != []
  {
    Skipped(e.path) || e.kind.Special? ||
    (!e.kind.Symlink? && e.path !in a.make &&
     (|e.path| > 1 && Parent(e.path) in t ==> t[Parent(e.path)].Dir?) &&
     (e.kind.SeedFile? ==> Replaceable(t, a, e.path)))
  }

  /** What is at p can be removed; or nothing is, and the client notices that nothing is. */
  ghost predicate Replaceable(t: Tree, a: Answers, p: Path) {
    if p in t then Removable(t, a, p) else (if |p| == 1 then a.missing else a.unwalked) == NotExist
  }

  /** copyFileToRemote: remove what is there, create, write. */
  method CopyFile(r: Remote, p: Path, data: string) returns (ok: bool)
    requires r.Valid() && p != []
    modifies r`tree
    ensures r.Valid()
    ensures ok <==> Reachable(old(r.tree), p) && p !in r.answers.make &&
                    if p in old(r.tree) then Removable(old(r.tree), r.answers, p) else Absent(r.answers, old(r.tree), p) == NotExist
    ensures ok ==> r.tree == old(r.tree)[p := File(data)]
    ensures !ok ==> r.tree == AfterFailure(old(r.tree), r.answers, p)
  {
    var st := r.Remove(p);
    if st == Failed {
      return false;
    }
    st := r.Make(p, File(data));
    ok := st == Ok;
  }

  /** A copy that fails has removed what was at p, if it could be removed. */
  function AfterFailure(t: Tree, a: Answers, p: Path): Tree {
    if p in t && Removable(t, a, p) then t - {p} else t
  }

  /** The parent of an entry is what the copy made of it: a directory, unless a file stood there. */
  lemma ParentReady(t: Tree, w: seq<Entry>, i: nat)
    requires Walk(w) && i < |w| && !Skipped(w[i].path)
    ensures var p := w[i].path;
            Reachable(PutAll(t, w[..i]), p) <==> (|p| > 1 && Parent(p) in t ==> t[Parent(p)].Dir?)
  {
    var p := w[i].path;
    if |p| > 1 {
      assert ParentBefore(w, i);
      var j :| 0 <= j < i && w[j] == Entry(Parent(p), SeedDir);
      assert w[..i][j] == w[j] && Parent(p)[0] == p[0];
      PutAllAt(t, w[..i], j);
    }
  }

  lemma {:induction false} KeysGrow(t: Tree, w: seq<Entry>, q: Path)
    requires q in PutAll(t, w)
    ensures q in t || exists j :: 0 <= j < |w| && w[j].path == q
  {
    if w != [] && q !in t && w[|w| - 1].path != q {
      KeysGrow(t, w[..|w| - 1], q);
      var j :| 0 <= j < |w| - 1 && w[..|w| - 1][j].path == q;
      assert w[j].path == q;
    }
  }

  lemma {:induction false} KeysStay(t: Tree, w: seq<Entry>, q: Path)
    requires q in t
    ensures q in PutAll(t, w)
  {
    if w != [] { KeysStay(t, w[..|w| - 1], q); }
  }

  lemma NoEntryBelowFile(w: seq<Entry>, i: nat, j: nat)
    requires Walk(w) && i < |w| && j < |w| && w[i].kind.SeedFile?
    ensures Parent(w[j].path) != w[i].path
  {
    assert ParentBefore(w, j);
    if |w[j].path| > 1 {
      var k :| 0 <= k < j && w[k] == Entry(Parent(w[j].path), SeedDir);
      assert k != i;
    }
  }

  /** Nothing that the copy made lies below a seed file. */
  lemma ChildrenOfFile(t: Tree, w: seq<Entry>, i: nat)
    requires Walk(w) && i < |w| && w[i].kind.SeedFile?
    ensures HasChild(PutAll(t, w[..i]), w[i].path) <==> HasChild(t, w[i].path)
  {
    var p, now := w[i].path, PutAll(t, w[..i]);
    if HasChild(now, p) {
      var q :| q in now && q != [] && Parent(q) == p;
      KeysGrow(t, w[..i], q);
      if q !in t {
        var j :| 0 <= j < i && w[..i][j].path == q;
        NoEntryBelowFile(w, i, j);
      }
    }
    if HasChild(t, p) {
      var q :| q in t && q != [] && Parent(q) == p;
      KeysStay(t, w[..i], q);
    }
  }

  lemma {:induction false} FirstName(t: Tree, p: Path)
    requires TreeOk(t) && p in t
    ensures p[..1] in t
    decreases |p|
  {
    if |p| > 1 {
      FirstName(t, Parent(p));
      assert Parent(p)[..1] == p[..1];
    } else {
      assert p[..1] == p;
    }
  }

  /** While the directory of a missing path is there, the walk to it stops short. */
  lemma AbsentBelow(t: Tree, a: Answers, p: Path)
    requires TreeOk(t) && p != [] && Reachable(t, p) && p !in t
    ensures Absent(a, t, p) == if |p| == 1 then a.missing else a.unwalked
  {
    if |p| > 1 {
      FirstName(t, Parent(p));
      assert Parent(p)[..1] == p[..1];
    }
  }

  /** Whether a seed file can be copied does not depend on what was copied before it. */
  lemma FileReady(t: Tree, a: Answers, w: seq<Entry>, i: nat)
    requires Walk(w) && i < |w| && w[i].kind.SeedFile? && !Skipped(w[i].path) && TreeOk(PutAll(t, w[..i]))
    ensures var now, p := PutAll(t, w[..i]), w[i].path;
            Fits(t, a, w[i]) <==>
            Reachable(now, p) && p !in a.make && if p in now then Removable(now, a, p) else Absent(a, now, p) == NotExist
  {
    var now, p := PutAll(t, w[..i]), w[i].path;
    ParentReady(t, w, i);
    ChildrenOfFile(t, w, i);
    Untouched(t, w[..i], p);
    if Reachable(now, p) && p !in now {
      AbsentBelow(now, a, p);
    }
  }

  lemma PutNext(t: Tree, w: seq<Entry>, i: nat)
    requires i < |w|
    ensures PutAll(t, w[..i + 1]) == Put(PutAll(t, w[..i]), w[i])
  {
    assert w[..i + 1][..i] == w[..i];
  }

  /** What an entry that does not fit leaves behind. */
  function Leaves(t: Tree, a: Answers, e: Entry): Tree {
    if e.kind.SeedFile? then AfterFailure(t, a, e.path) else t
  }

  method CopySeedFile(r: Remote, w: seq<Entry>, i: nat, ghost t: Tree) returns (ok: bool)
    requires r.Valid() && Walk(w) && i < |w| && r.tree == PutAll(t, w[..i]) && w[i].kind.SeedFile? && !Skipped(w[i].path)
    modifies r`tree
    ensures r.Valid()
    ensures ok <==> Fits(t, r.answers, w[i])
    ensures r.tree == if ok then PutAll(t, w[..i + 1]) else Leaves(PutAll(t, w[..i]), r.answers, w[i])
  {
    FileReady(t, r.answers, w, i);
    PutNext(t, w, i);
    ok := CopyFile(r, w[i].path, w[i].kind.data);
  }

  method CopySeedDir(r: Remote, w: seq<Entry>, i: nat, ghost t: Tree) returns (ok: bool)
    requires r.Valid() && Walk(w) && i < |w| && r.tree == PutAll(t, w[..i]) && w[i].kind.SeedDir? && !Skipped(w[i].path)
    modifies r`tree
    ensures r.Valid()
    ensures ok <==> Fits(t, r.answers, w[i])
    ensures r.tree == if ok then PutAll(t, w[..i + 1]) else PutAll(t, w[..i])
  {
    ParentReady(t, w, i);
    PutNext(t, w, i);
    var st := r.Make(w[i].path, Dir);
    ok := st == Ok || st == Exist;
  }

  /** One entry of the walk. */
  method CopyEntry(r: Remote, w: seq<Entry>, i: nat, ghost t: Tree) returns (ok: bool)
    requires r.Valid() && Walk(w) && i < |w| && r.tree == PutAll(t, w[..i])
    modifies r`tree
    ensures r.Valid()
    ensures ok <==> Fits(t, r.answers, w[i])
    ensures r.tree == if ok then PutAll(t, w[..i + 1]) else Leaves(PutAll(t, w[..i]), r.answers, w[i])
  {
    PutNext(t, w, i);
    if Skipped(w[i].path) {
      return true;
    }
    match w[i].kind
    case SeedDir =>
      ok := CopySeedDir(r, w, i, t);
    case Symlink =>
      ok := false;
    case SeedFile(_) =>
      ok := CopySeedFile(r, w, i, t);
    case Special =>
      ok := true;
  }

  /** The first entry that does not fit, or |w|. */
  ghost predicate FirstMisfit(t: Tree, a: Answers, w: seq<Entry>, n: nat)
    requires Walk(w)
  {
    n <= |w| && (forall i :: 0 <= i < n ==> Fits(t, a, w[i])) && (n < |w| ==> !Fits(t, a, w[n]))
  }

  /** The walk of copyTreeToRemote: it succeeds exactly when every entry fits, and otherwise stops at the first that does not. */
  method CopyWalk(r: Remote, w: seq<Entry>) returns (ok: bool, seen: set<Path>, ghost n: nat)
    requires r.Valid() && Walk(w)
    modifies r`tree
    ensures r.Valid() && FirstMisfit(old(r.tree), r.answers, w, n)
    ensures ok <==> n == |w|
    ensures ok ==> r.tree == PutAll(old(r.tree), w) && seen == Seen(w)
    ensures !ok ==> r.tree == Leaves(PutAll(old(r.tree), w[..n]), r.answers, w[n])
  {
    seen, n := {}, 0;
    for i := 0 to |w|
      invariant n == i && r.Valid() && r.tree == PutAll(old(r.tree), w[..i]) && seen == Seen(w[..i])
      invariant forall j :: 0 <= j < i ==> Fits(old(r.tree), r.answers, w[j])
    {
      ok := CopyEntry(r, w, i, old(r.tree));
      if !ok {
        return;
      }
      assert w[..i + 1][..i] == w[..i];
      if !Skipped(w[i].path) {
        seen := seen + {w[i].path};
      }
      n := i + 1;
    }
    assert w[..|w|] == w;
    ok := true;
  }

  // ----- Listing

  /** root is a proper prefix of p. */
  predicate Below(root: Path, p: Path) {
    |root| < |p| && p[..|root|] == root
  }

  function Under(t: Tree, root: Path): set<Path> {
    set p | p in t && Below(root, p)
  }

  function Children(t: Tree, root: Path): set<Path> {
    set p | p in t && p != [] && Parent(p) == root
  }

  lemma BelowChild(t: Tree, root: Path, p: Path)
    requires TreeOk(t) && p in Under(t, root)
    ensures p[..|root| + 1] in Children(t, root)
    decreases |p|
  {
    var c := p[..|root| + 1];
    if |p| == |root| + 1 {
      assert c == p && Parent(p) == root;
    } else {
      assert Parent(p)[..|root|] == root;
      BelowChild(t, root, Parent(p));
      assert Parent(p)[..|root| + 1] == c;
    }
  }

  lemma UnderChild(t: Tree, root: Path, c: Path)
    requires c in Children(t, root)
    ensures Under(t, c) < Under(t, root) && c in Under(t, root)
  {
    assert c[..|root|] == root;
    forall p | p in Under(t, c) ensures p in Under(t, root) {
      assert p[..|root|] == p[..|c|][..|root|];
    }
    assert c !in Under(t, c);
  }

  /** The given children of root and everything below them. */
  ghost function Covered(t: Tree, root: Path, done: set<Path>): set<Path> {
    set p | p in t && |root| < |p| && p[..|root| + 1] in done
  }

  lemma CoverMore(t: Tree, root: Path, done: set<Path>, c: Path)
    requires c in Children(t, root) && c !in done
    ensures Covered(t, root, done + {c}) == Covered(t, root, done) + ({c} + Under(t, c))
    ensures Covered(t, root, done) !! {c} + Under(t, c)
  {
    assert |c| == |root| + 1 && c[..|root| + 1] == c;
    forall p | p in t && |root| < |p| ensures p[..|root| + 1] == c <==> p == c || p in Under(t, c) {
      if |p| == |c| { assert p[..|root| + 1] == p; }
    }
  }

  lemma CoverAll(t: Tree, root: Path)
    requires TreeOk(t)
    ensures Covered(t, root, Children(t, root)) == Under(t, root)
  {
    forall p | p in t && |root| < |p| ensures p[..|root| + 1] in Children(t, root) <==> p in Under(t, root) {
      if p in Under(t, root) {
        BelowChild(t, root, p);
      } else {
        assert p[..|root| + 1][..|root|] == p[..|root|];
      }
    }
  }

  lemma ListMore(ps: seq<Path>, more: seq<Path>, a: set<Path>, b: set<Path>)
    requires multiset(ps) == multiset(a) && multiset(more) == multiset(b) && a !! b
    ensures multiset(ps + more) == multiset(a + b)
  {
    assert multiset(ps + more) == multiset(ps) + multiset(more);
  }

  /** listRemotePaths: every path below root, once. Entries come in whatever order the server lists them. */
  method ListPaths(t: Tree, root: Path) returns (ps: seq<Path>)
    requires TreeOk(t)
    ensures multiset(ps) == multiset(Under(t, root))
    decreases Under(t, root), 0
  {
    ps := [];
    var todo := Children(t, root);
    ghost var done: set<Path> := {};
    assert Covered(t, root, {}) == {};
    while todo != {}
      invariant done + todo == Children(t, root) && done !! todo
      invariant multiset(ps) == multiset(Covered(t, root, done))
      decreases todo
    {
      var c :| c in todo;
      UnderChild(t, root, c);
      CoverMore(t, root, done, c);
      var more := ListEntry(t, c);
      ListMore(ps, more, Covered(t, root, done), {c} + Under(t, c));
      ps := ps + more;
      todo, done := todo - {c}, done + {c};
    }
    CoverAll(t, root);
  }

  /** One entry of a listing, with what lies below it if it is a directory. */
  method ListEntry(t: Tree, c: Path) returns (ps: seq<Path>)
    requires TreeOk(t) && c in t
    ensures multiset(ps) == multiset({c} + Under(t, c))
    decreases Under(t, c), 1
  {
    ps := [c];
    if t[c].Dir? {
      var below := ListPaths(t, c);
      ListMore(ps, below, {c}, Under(t, c));
      ps := ps + below;
    } else {
      NothingBelow(t, c);
      assert {c} + Under(t, c) == {c};
    }
  }

  lemma BelowDirectory(t: Tree, c: Path, p: Path)
    requires TreeOk(t) && c in t && p in Under(t, c)
    ensures t[c].Dir?
  {
    BelowChild(t, c, p);
    var q := p[..|c| + 1];
    assert Parent(q) == c && |q| > 1;
  }

  lemma NothingBelow(t: Tree, c: Path)
    requires TreeOk(t) && c in t && t[c].File?
    ensures Under(t, c) == {}
  {
    if p :| p in Under(t, c) {
      BelowDirectory(t, c, p);
    }
  }

  // ----- Removing the extras, deepest first

  ghost predicate DeepestFirst(ps: seq<Path>) {
    forall i, j :: 0 <= i < j < |ps| ==> |ps[i]| >= |ps[j]|
  }

  function Insert(p: Path, ps: seq<Path>): seq<Path> {
    if ps == [] || |p| >= |ps[0]| then [p] + ps else [ps[0]] + Insert(p, ps[1..])
  }

  /** sort.Slice by the number of slashes. */
  function SortByDepth(ps: seq<Path>): seq<Path> {
    if ps == [] then [] else Insert(ps[0], SortByDepth(ps[1..]))
  }

  lemma {:induction false} InsertElements(p: Path, ps: seq<Path>)
    ensures multiset(Insert(p, ps)) == multiset(ps) + multiset{p}
    ensures forall x :: x in Insert(p, ps) ==> x == p || x in ps
  {
    if ps != [] && |p| < |ps[0]| {
      InsertElements(p, ps[1..]);
      assert ps == [ps[0]] + ps[1..];
    }
  }

  lemma {:induction false} InsertSorted(p: Path, ps: seq<Path>)
    requires DeepestFirst(ps)
    ensures DeepestFirst(Insert(p, ps))
  {
    if ps != [] && |p| < |ps[0]| {
      InsertSorted(p, ps[1..]);
      InsertElements(p, ps[1..]);
      var r := Insert(p, ps[1..]);
      forall k | 0 <= k < |r| ensures |r[k]| <= |ps[0]| {
        assert r[k] in r;
      }
    }
  }

  lemma HeadAndTail(ps: seq<Path>)
    requires ps != []
    ensures multiset(ps) == multiset(ps[1..]) + multiset{ps[0]}
  {
    assert ps == [ps[0]] + ps[1..];
  }

  lemma {:induction false} SortSpec(ps: seq<Path>)
    ensures DeepestFirst(SortByDepth(ps)) && multiset(SortByDepth(ps)) == multiset(ps)
  {
    if ps != [] {
      SortSpec(ps[1..]);
      InsertSorted(ps[0], SortByDepth(ps[1..]));
      InsertElements(ps[0], SortByDepth(ps[1..]));
      HeadAndTail(ps);
    }
  }

  /** The part of the tree that is seen. */
  ghost function Kept(t: Tree, seen: set<Path>): Tree {
    map p | p in t && p in seen :: t[p]
  }

  /** The extras among the first i paths. */
  ghost function Extras(ps: seq<Path>, i: nat, seen: set<Path>): set<Path>
    requires i <= |ps|
  {
    set k | 0 <= k < i && ps[k] !in seen :: ps[k]
  }

  /** A child of an extra path is an extra path that was listed, and removed, earlier. */
  lemma ChildGone(ps: seq<Path>, i: nat, seen: set<Path>, q: Path)
    requires DeepestFirst(ps) && i < |ps| && ps[i] !in seen && Closed(seen) && ps[i] != []
    requires q in ps && q != [] && Parent(q) == ps[i]
    ensures q in Extras(ps, i, seen)
  {
    var k :| 0 <= k < |ps| && ps[k] == q;
    assert |q| > |ps[i]|;
    assert k < i && ps[k] !in seen;
  }

  /** When its turn comes, an extra path has no children left. */
  lemma NoChildrenLeft(t: Tree, ps: seq<Path>, i: nat, seen: set<Path>, now: Tree)
    requires DeepestFirst(ps) && i < |ps| && ps[i] !in seen && Closed(seen) && ps[i] != []
    requires (forall p :: p in t ==> p in ps) && now == t - Extras(ps, i, seen)
    ensures !HasChild(now, ps[i])
  {
    forall q | q in t && q != [] && Parent(q) == ps[i] ensures q in Extras(ps, i, seen) {
      ChildGone(ps, i, seen, q);
    }
  }

  lemma ExtrasStep(ps: seq<Path>, i: nat, seen: set<Path>)
    requires i < |ps|
    ensures ps[i] in seen ==> Extras(ps, i + 1, seen) == Extras(ps, i, seen)
    ensures ps[i] !in seen ==> Extras(ps, i + 1, seen) == Extras(ps, i, seen) + {ps[i]}
  {
  }

  lemma ExtrasAll(t: Tree, ps: seq<Path>, seen: set<Path>)
    requires forall p :: p in t ==> p in ps
    ensures t - Extras(ps, |ps|, seen) == Kept(t, seen)
    ensures forall p :: p in t && p !in seen ==> p in Extras(ps, |ps|, seen)
  {
    forall p | p in t ensures p in Extras(ps, |ps|, seen) <==> p !in seen {
      var k :| 0 <= k < |ps| && ps[k] == p;
    }
  }

  /** The paths of t, each once, deepest first. */
  ghost predicate Listing(ps: seq<Path>, t: Tree) {
    DeepestFirst(ps) && (forall p :: p in ps <==> p in t) && forall i, j :: 0 <= i < j < |ps| ==> ps[i] != ps[j]
  }

  lemma {:induction false} NoRepeats(ps: seq<Path>, i: nat, j: nat)
    requires i < j < |ps| && forall p :: multiset(ps)[p] <= 1
    ensures ps[i] != ps[j]
  {
    var (a, b) := (ps[..j], ps[j..]);
    assert ps == a + b && a[i] == ps[i] && b[0] == ps[j];
    assert multiset(ps) == multiset(a) + multiset(b);
    assert ps[i] in multiset(a) && ps[j] in multiset(b);
    assert multiset(ps)[ps[i]] == multiset(a)[ps[i]] + multiset(b)[ps[i]];
  }

  lemma SortedListing(listed: seq<Path>, t: Tree)
    requires TreeOk(t) && multiset(listed) == multiset(Under(t, []))
    ensures Listing(SortByDepth(listed), t)
  {
    var ps := SortByDepth(listed);
    SortSpec(listed);
    forall p ensures p in ps <==> p in t {
      assert p in ps <==> p in multiset(ps);
      assert p in Under(t, []) <==> p in t;
    }
    forall i, j | 0 <= i < j < |ps| ensures ps[i] != ps[j] {
      NoRepeats(ps, i, j);
    }
  }

  /** One turn of the cleanup loop. */
  method RemoveOne(r: Remote, ps: seq<Path>, i: nat, seen: set<Path>, ghost t: Tree) returns (ok: bool)
    requires r.Valid() && Closed(seen) && Listing(ps, t) && TreeOk(t) && i < |ps| && r.tree == t - Extras(ps, i, seen)
    modifies r`tree
    ensures r.Valid()
    ensures ok <==> ps[i] in seen || ps[i] !in r.answers.remove
    ensures r.tree == if ok then t - Extras(ps, i + 1, seen) else t - Extras(ps, i, seen)
  {
    var p := ps[i];
    assert p in ps;
    ExtrasStep(ps, i, seen);
    if p in seen {
      return true;
    }
    StillThere(t, ps, i, seen);
    NoChildrenLeft(t, ps, i, seen, r.tree);
    RemovedOne(t, ps, i, seen);
    var st := r.Remove(p);
    ok := st != Failed;
  }

  lemma StillThere(t: Tree, ps: seq<Path>, i: nat, seen: set<Path>)
    requires Listing(ps, t) && i < |ps|
    ensures ps[i] in t - Extras(ps, i, seen)
  {
    assert ps[i] in ps;
  }

  lemma RemovedOne(t: Tree, ps: seq<Path>, i: nat, seen: set<Path>)
    requires i < |ps| && ps[i] !in seen
    ensures t - Extras(ps, i + 1, seen) == t - Extras(ps, i, seen) - {ps[i]}
  {
    ExtrasStep(ps, i, seen);
  }

  /** What a cleanup that is stuck at a path has removed: extras only, all that are deeper, and none that is less deep. */
  ghost predicate Stuck(t: Tree, a: Answers, seen: set<Path>, p: Path, after: Tree) {
    p in t && p !in seen && p in a.remove && after.Keys <= t.Keys && (forall q :: q in after ==> after[q] == t[q]) &&
    forall q :: q in t ==>
      (q !in after ==> q !in seen && q !in a.remove && |q| >= |p|) && (q !in seen && |q| > |p| ==> q !in after)
  }

  lemma StuckAt(t: Tree, a: Answers, ps: seq<Path>, i: nat, seen: set<Path>)
    requires Listing(ps, t) && i < |ps| && ps[i] !in seen && ps[i] in a.remove
    requires forall k :: 0 <= k < i && ps[k] !in seen ==> ps[k] !in a.remove
    ensures Stuck(t, a, seen, ps[i], t - Extras(ps, i, seen))
  {
    assert ps[i] in ps;
    forall q | q in t && q !in seen && |q| > |ps[i]| ensures q in Extras(ps, i, seen) {
      var k :| 0 <= k < |ps| && ps[k] == q;
      assert k < i;
    }
  }

  /** The cleanup loop, on sorted paths. It fails exactly where the server refuses to remove a path. */
  method RemoveSorted(r: Remote, ps: seq<Path>, seen: set<Path>) returns (ok: bool, ghost p: Path)
    requires r.Valid() && Closed(seen) && Listing(ps, r.tree)
    modifies r`tree
    ensures r.Valid()
    ensures ok ==> r.tree == Kept(old(r.tree), seen) && forall q :: q in old(r.tree) && q !in seen ==> q !in r.answers.remove
    ensures !ok ==> Stuck(old(r.tree), r.answers, seen, p, r.tree)
  {
    ghost var t := r.tree;
    assert Extras(ps, 0, seen) == {};
    p := [];
    for i := 0 to |ps|
      invariant r.Valid() && r.tree == t - Extras(ps, i, seen)
      invariant forall k :: 0 <= k < i && ps[k] !in seen ==> ps[k] !in r.answers.remove
    {
      ok := RemoveOne(r, ps, i, seen, t);
      if !ok {
        p := ps[i];
        StuckAt(t, r.answers, ps, i, seen);
        return;
      }
    }
    ExtrasAll(t, ps, seen);
    forall q | q in t && q !in seen ensures q !in r.answers.remove {
      var k :| 0 <= k < |ps| && ps[k] == q;
    }
    ok := true;
  }

  method RemoveExtras(r: Remote, listed: seq<Path>, seen: set<Path>) returns (ok: bool, ghost p: Path)
    requires r.Valid() && Closed(seen) && multiset(listed) == multiset(Under(r.tree, []))
    modifies r`tree
    ensures r.Valid()
    ensures ok ==> r.tree == Kept(old(r.tree), seen)
    ensures ok <==> forall q :: q in old(r.tree) && q !in seen ==> q !in r.answers.remove
    ensures !ok ==> Stuck(old(r.tree), r.answers, seen, p, r.tree)
  {
    var ps := SortByDepth(listed);
    SortedListing(listed, r.tree);
    ok, p := RemoveSorted(r, ps, seen);
  }

  // ----- The whole seeding

  /** What a completed mirror leaves: the seed's paths, with a file that stood at a seed directory still standing. */
  ghost predicate Mirrored(before: Tree, w: seq<Entry>, after: Tree) {
    after.Keys == Seen(w) &&
    forall i :: 0 <= i < |w| && !Skipped(w[i].path) ==> MirroredAt(before, w[i], after)
  }

  ghost predicate MirroredAt(before: Tree, e: Entry, after: Tree) {
    e.path in after &&
    match e.kind
    case SeedFile(data) => after[e.path] == File(data)
    case SeedDir => after[e.path] == if e.path in before then before[e.path] else Dir
    case _ => true
  }

  /** copyTreeToRemote. Where it fails, n is the entry that it stops at, or p the path that the cleanup is stuck at. */
  method CopyTree(r: Remote, w: seq<Entry>, mirror: bool) returns (ok: bool, ghost n: nat, ghost p: Path)
    requires r.Valid() && Walk(w)
    modifies r`tree
    ensures r.Valid() && FirstMisfit(old(r.tree), r.answers, w, n)
    ensures ok <==> n == |w| && (mirror ==> forall q :: q in PutAll(old(r.tree), w) && q !in Seen(w) ==> q !in r.answers.remove)
    ensures ok && !mirror ==> r.tree == PutAll(old(r.tree), w)
    ensures ok && mirror ==> r.tree == Kept(PutAll(old(r.tree), w), Seen(w))
    ensures ok && mirror && Regular(w) ==> Mirrored(old(r.tree), w, r.tree)
    ensures n < |w| ==> r.tree == Leaves(PutAll(old(r.tree), w[..n]), r.answers, w[n])
    ensures !ok && n == |w| ==> Stuck(PutAll(old(r.tree), w), r.answers, Seen(w), p, r.tree)
  {
    var seen;
    ok, seen, n := CopyWalk(r, w);
    p := [];
    if !ok || !mirror {
      return;
    }
    ghost var before := old(r.tree);
    var listed := ListPaths(r.tree, []);
    SeenClosed(w);
    ok, p := RemoveExtras(r, listed, seen);
    if ok && Regular(w) {
      MirrorDone(before, w, r.tree);
    }
  }

  lemma MirrorDone(before: Tree, w: seq<Entry>, after: Tree)
    requires Walk(w) && Regular(w)
    requires after == Kept(PutAll(before, w), Seen(w))
    ensures Mirrored(before, w, after)
  {
    PutAllKeys(before, w);
    forall i | 0 <= i < |w| && !Skipped(w[i].path) ensures MirroredAt(before, w[i], after) {
      PutAllAt(before, w, i);
      SeenIff(w, w[i].path);
      assert w[i] in w;
    }
  }

  /** The directories of the seed are directories of the remote exactly where the remote had no file before. */
  lemma DirectoriesMirrored(before: Tree, w: seq<Entry>, after: Tree, i: nat)
    requires Mirrored(before, w, after) && i < |w| && !Skipped(w[i].path) && w[i].kind.SeedDir?
    ensures after[w[i].path].Dir? <==> !(w[i].path in before && before[w[i].path].File?)
  {
    assert MirroredAt(before, w[i], after);
  }

  /** A remote file at an empty seed directory: seeding succeeds, and the file stays. */
  lemma FileStays()
    ensures var (t, w) := (map[["d"] := File("x")], [Entry(["d"], SeedDir)]);
            TreeOk(t) && Walk(w) && Regular(w) && Fits(t, Answers({}, {}, NotExist, NotExist), w[0]) &&
            ["d"] in Kept(PutAll(t, w), Seen(w)) && Kept(PutAll(t, w), Seen(w))[["d"]] == File("x")
  {
    var (t, w) := (map[["d"] := File("x")], [Entry(["d"], SeedDir)]);
    assert w[..0] == [];
    PutAllKeys(t, w);
    PutAllAt(t, w, 0);
    SeenIff(w, ["d"]);
    assert w[0] in w;
  }

  /** Seeding a new file below a directory into an empty remote, when a stat of an unestablished fid reads as a failure. */
  lemma NewFileBelowDirectory()
    ensures var w := [Entry(["d"], SeedDir), Entry(["d", "f"], SeedFile("x"))];
            Walk(w) && Regular(w) && FirstMisfit(map[], Answers({}, {}, NotExist, Failed), w, 1)
  {
    var w := [Entry(["d"], SeedDir), Entry(["d", "f"], SeedFile("x"))];
    assert Parent(["d", "f"]) == ["d"];
    assert w[0] == Entry(Parent(w[1].path), SeedDir);
    assert ParentBefore(w, 1) && ParentBefore(w, 0);
  }

  /**
   On a server that refuses nothing, a seed of directories and files is copied to an empty remote exactly when the
   client reads the answers for missing paths as that, for the files at the top and for those below a directory.
   */
  lemma SeedEmptyRemote(a: Answers, w: seq<Entry>)
    requires Walk(w) && Regular(w) && Proper(a) && a.make == {}
    ensures FirstMisfit(map[], a, w, |w|) <==>
            forall i :: 0 <= i < |w| && w[i].kind.SeedFile? && !Skipped(w[i].path) ==>
              (if |w[i].path| == 1 then a.missing else a.unwalked) == NotExist
  {
    forall i | 0 <= i < |w| ensures w[i] in w {
    }
  }
}
