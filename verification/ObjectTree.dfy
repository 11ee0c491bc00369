/**
 * One bucket's directory tree: the file-system calls the store makes on it, the flat map of
 * objects it stands for, and a one-pass description of what storing and removing should do.
 */
module ObjectTree {
  import opened Wrappers
  import opened Files

  type Path = seq<string>

  datatype Node = File(data: Bytes) | Dir(entries: map<string, Node>)

  const EMPTY_DIR := Dir(map[])

  /** The node at a path, as `lstat` finds it. */
  function At(t: Node, p: Path): Option<Node> {
    if p == [] then Some(t)
    else if t.Dir? && p[0] in t.entries then At(t.entries[p[0]], p[1..])
    else None
  }

  /** Some component before the last one is a regular file (`ENOTDIR`). */
  predicate Blocked(t: Node, p: Path) {
    p != [] && (t.File? || (p[0] in t.entries && Blocked(t.entries[p[0]], p[1..])))
  }

  // ---------- the flat map ----------

  function Lookup(t: Node, p: Path): Option<Bytes> {
    match At(t, p)
    case Some(File(data)) => Some(data)
    case _ => None
  }

  ghost function Paths(t: Node): set<Path> {
    match t
    case File(_) => {[]}
    case Dir(entries) => set n, q | n in entries.Keys && q in Paths(entries[n]) :: [n] + q
  }

  lemma {:induction false} PathsAreFiles(t: Node, p: Path)
    ensures p in Paths(t) <==> Lookup(t, p).Some?
    decreases t
  {
    match t
    case File(_) =>
    case Dir(entries) =>
      if p != [] && p[0] in entries {
        PathsAreFiles(entries[p[0]], p[1..]);
        assert p == [p[0]] + p[1..];
      }
      forall n, q | n in entries.Keys && q in Paths(entries[n])
        ensures ([n] + q)[0] == n && ([n] + q)[1..] == q
      {}
  }

  /** The bucket as the API shows it: object path to object bytes. */
  ghost function Contents(t: Node): (m: map<Path, Bytes>)
    ensures forall p :: p in m <==> Lookup(t, p).Some?
    ensures forall p :: p in m ==> Lookup(t, p) == Some(m[p])
  {
    forall p ensures p in Paths(t) <==> Lookup(t, p).Some? { PathsAreFiles(t, p); }
    map p | p in Paths(t) :: Lookup(t, p).value
  }

  /** Trees with the same look-ups have the same contents. */
  lemma ContentsByLookup(t: Node, m: map<Path, Bytes>)
    requires forall p :: Lookup(t, p) == if p in m then Some(m[p]) else None
    ensures Contents(t) == m
  {
    assert Contents(t).Keys == m.Keys;
  }

  ghost predicate PrefixFree(keys: set<Path>) {
    forall p, q :: p in keys && q in keys && p <= q ==> p == q
  }

  lemma {:induction false} AtSplits(t: Node, p: Path, q: Path)
    ensures At(t, p).Some? ==> At(t, p + q) == At(At(t, p).value, q)
    ensures At(t, p).None? ==> At(t, p + q).None?
  {
    if p == [] {
      assert p + q == q;
    } else {
      assert (p + q)[1..] == p[1..] + q;
      if t.Dir? && p[0] in t.entries { AtSplits(t.entries[p[0]], p[1..], q); }
    }
  }

  /** No object's path runs through another object. */
  lemma ContentsPrefixFree(t: Node)
    ensures PrefixFree(Contents(t).Keys)
  {
    forall p, q | p in Contents(t) && q in Contents(t) && p <= q
      ensures p == q
    {
      AtSplits(t, p, q[|p|..]);
      assert p + q[|p|..] == q;
    }
  }

  // ---------- file-system calls ----------

  /** `mkdir(path, { recursive: true })`; None when a file is in the way. */
  function MkdirAll(t: Node, p: Path): Option<Node>
    decreases p
  {
    if t.File? then None
    else if p == [] then Some(t)
    else
      var child := if p[0] in t.entries then t.entries[p[0]] else EMPTY_DIR;
      match MkdirAll(child, p[1..])
      case None => None
      case Some(made) => Some(Dir(t.entries[p[0] := made]))
  }

  predicate ParentIsDir(t: Node, p: Path) {
    p != [] && var parent := At(t, p[..|p| - 1]); parent.Some? && parent.value.Dir?
  }

  /** Makes `p` name `node`; its parent directory exists. */
  function Graft(t: Node, p: Path, node: Node): Node
    requires ParentIsDir(t, p)
    decreases p
  {
    if |p| == 1 then Dir(t.entries[p[0] := node])
    else
      assert p[..|p| - 1][0] == p[0] && p[..|p| - 1][1..] == p[1..][..|p[1..]| - 1];
      Dir(t.entries[p[0] := Graft(t.entries[p[0]], p[1..], node)])
  }

  /** Removes the directory entry at `p`; its parent directory exists. */
  function Cut(t: Node, p: Path): Node
    requires ParentIsDir(t, p)
    decreases p
  {
    if |p| == 1 then Dir(t.entries - {p[0]})
    else
      assert p[..|p| - 1][0] == p[0] && p[..|p| - 1][1..] == p[1..][..|p[1..]| - 1];
      Dir(t.entries[p[0] := Cut(t.entries[p[0]], p[1..])])
  }

  /** `rename(temp, target)` onto a path whose parent should exist. */
  function RenameOnto(t: Node, p: Path, data: Bytes): Result<Node, Errno>
    requires p != []
  {
    if Blocked(t, p) then Failure(ENOTDIR)
    else if !ParentIsDir(t, p) then Failure(ENOENT)
    else if At(t, p).Some? && At(t, p).value.Dir? then Failure(EISDIR)
    else Success(Graft(t, p, File(data)))
  }

  lemma {:induction false} FoundHasParent(t: Node, p: Path)
    requires p != [] && At(t, p).Some?
    ensures ParentIsDir(t, p) && !Blocked(t, p)
  {
    if |p| == 1 {
      assert p[..0] == [];
    } else {
      FoundHasParent(t.entries[p[0]], p[1..]);
      assert p[..|p| - 1][1..] == p[1..][..|p[1..]| - 1];
    }
  }

  lemma {:induction false} ParentNotBlocked(t: Node, p: Path)
    requires ParentIsDir(t, p)
    ensures !Blocked(t, p)
  {
    if |p| == 1 {
      assert p[..0] == [];
    } else {
      assert p[..|p| - 1][0] == p[0] && p[..|p| - 1][1..] == p[1..][..|p[1..]| - 1];
      ParentNotBlocked(t.entries[p[0]], p[1..]);
    }
  }

  /** A file in the way of making a directory is in the way of everything below. */
  lemma {:induction false} BlockedBelow(t: Node, p: Path, k: nat)
    requires k < |p| && Blocked(t, p[..k] + ["x"])
    ensures Blocked(t, p)
    decreases k
  {
    var q := p[..k] + ["x"];
    if k == 0 || t.File? {
    } else {
      assert q[0] == p[0] && q[1..] == p[1..][..k - 1] + ["x"];
      BlockedBelow(t.entries[p[0]], p[1..], k - 1);
    }
  }

  /** `rm(path)` without `recursive`. */
  function Unlink(t: Node, p: Path): Result<Node, Errno>
    requires p != []
  {
    if Blocked(t, p) then Failure(ENOTDIR)
    else if At(t, p).None? then Failure(ENOENT)
    else if At(t, p).value.Dir? then Failure(EISDIR)
    else FoundHasParent(t, p); Success(Cut(t, p))
  }

  /** `rmdir(path)`. */
  function Rmdir(t: Node, p: Path): Result<Node, Errno>
    requires p != []
  {
    if At(t, p).None? then Failure(ENOENT)
    else if At(t, p).value.File? then Failure(ENOTDIR)
    else if At(t, p).value != EMPTY_DIR then Failure(ENOTEMPTY)
    else FoundHasParent(t, p); Success(Cut(t, p))
  }

  // ---------- what the calls do to look-ups ----------

  lemma {:induction false} MkdirAllKeepsLookups(t: Node, p: Path, q: Path)
    requires MkdirAll(t, p).Some?
    ensures Lookup(MkdirAll(t, p).value, q) == Lookup(t, q)
    decreases p
  {
    if p == [] {
    } else {
      var child := if p[0] in t.entries then t.entries[p[0]] else EMPTY_DIR;
      if q != [] && q[0] == p[0] {
        MkdirAllKeepsLookups(child, p[1..], q[1..]);
      }
    }
  }

  lemma {:induction false} MkdirAllMakes(t: Node, p: Path)
    ensures MkdirAll(t, p).None? <==> Blocked(t, p + ["x"])
    ensures MkdirAll(t, p).Some? ==> At(MkdirAll(t, p).value, p).Some? && At(MkdirAll(t, p).value, p).value.Dir?
    decreases p
  {
    assert (p + ["x"])[1..] == if p == [] then [] else p[1..] + ["x"];
    if t.Dir? && p != [] {
      var child := if p[0] in t.entries then t.entries[p[0]] else EMPTY_DIR;
      MkdirAllMakes(child, p[1..]);
      if p[0] !in t.entries { NothingBlocksEmpty(p[1..] + ["x"]); }
    }
  }

  lemma NothingBlocksEmpty(p: Path)
    ensures !Blocked(EMPTY_DIR, p)
  {}

  lemma {:induction false} GraftLookup(t: Node, p: Path, data: Bytes, q: Path)
    requires ParentIsDir(t, p)
    requires At(t, p).Some? ==> At(t, p).value.File?
    ensures Lookup(Graft(t, p, File(data)), q) == if q == p then Some(data) else Lookup(t, q)
    decreases p
  {
    if |p| > 1 {
      assert p[..|p| - 1][0] == p[0] && p[..|p| - 1][1..] == p[1..][..|p[1..]| - 1];
      if q != [] && q[0] == p[0] {
        GraftLookup(t.entries[p[0]], p[1..], data, q[1..]);
        assert q == p <==> q[1..] == p[1..] by { assert q == [q[0]] + q[1..] && p == [p[0]] + p[1..]; }
      }
    } else if q != [] && q[0] == p[0] {
      OneStep(t, p, q);
      assert At(Graft(t, p, File(data)), q) == At(File(data), q[1..]);
      assert At(t, q) == if p[0] in t.entries then At(t.entries[p[0]], q[1..]) else None;
    }
  }

  /** Looking below the only component of a one-component path. */
  lemma OneStep(t: Node, p: Path, q: Path)
    requires |p| == 1 && ParentIsDir(t, p) && q != [] && q[0] == p[0]
    ensures t.Dir? && (q == p <==> q[1..] == [])
    ensures At(t, p) == if p[0] in t.entries then Some(t.entries[p[0]]) else None
  {
    assert p[..0] == [] && p[1..] == [];
    assert q == [q[0]] + q[1..];
  }

  lemma {:induction false} CutLookup(t: Node, p: Path, q: Path)
    requires p != [] && At(t, p).Some? && ParentIsDir(t, p)
    requires At(t, p).value.File? || At(t, p).value == EMPTY_DIR
    ensures Lookup(Cut(t, p), q) == if q == p then None else Lookup(t, q)
    decreases p
  {
    if |p| > 1 {
      assert p[..|p| - 1][0] == p[0] && p[..|p| - 1][1..] == p[1..][..|p[1..]| - 1];
      if q != [] && q[0] == p[0] {
        CutLookup(t.entries[p[0]], p[1..], q[1..]);
        assert q == p <==> q[1..] == p[1..] by { assert q == [q[0]] + q[1..] && p == [p[0]] + p[1..]; }
      }
    } else if q != [] && q[0] == p[0] {
      OneStep(t, p, q);
      assert At(Cut(t, p), q) == None;
      assert At(t, q) == At(t.entries[p[0]], q[1..]);
    }
  }
}
