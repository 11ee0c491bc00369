/**
 * The directory tree behaves like the flat map of its objects: storing and removing in one pass,
 * how the store's system calls and its parent-pruning loop amount to them, and the trees
 * without empty directories, which the map determines completely.
 */
module TreeRefinement {
  import opened Wrappers
  import opened Files
  import opened ObjectTree

  // ---------- one-pass specifications ----------

  /** Stores an object, creating the directories above it; None when the tree has no room for the path. */
  function Insert(t: Node, p: Path, data: Bytes): Option<Node>
    requires p != []
    decreases p
  {
    if t.File? then None
    else if |p| == 1 then
      if p[0] in t.entries && t.entries[p[0]].Dir? then None
      else Some(Dir(t.entries[p[0] := File(data)]))
    else
      var child := if p[0] in t.entries then t.entries[p[0]] else EMPTY_DIR;
      match Insert(child, p[1..], data)
      case None => None
      case Some(made) => Some(Dir(t.entries[p[0] := made]))
  }

  /** Removes an object together with every directory this leaves empty. */
  function Remove(t: Node, p: Path): Node
    requires p != [] && Lookup(t, p).Some?
    decreases p
  {
    if |p| == 1 then Dir(t.entries - {p[0]})
    else
      var child := Remove(t.entries[p[0]], p[1..]);
      if child == EMPTY_DIR then Dir(t.entries - {p[0]}) else Dir(t.entries[p[0] := child])
  }

  /** Every directory below the bucket's own holds something. */
  ghost predicate Tidy(t: Node) {
    t.Dir? ==> forall n :: n in t.entries ==> t.entries[n] != EMPTY_DIR && Tidy(t.entries[n])
  }

  // ---------- storing ----------

  lemma InsertUnfold(t: Node, p: Path, data: Bytes)
    requires |p| > 1
    ensures p[..|p| - 1] == [p[0]] + p[1..][..|p[1..]| - 1]
    ensures p[..|p| - 1][1..] == p[1..][..|p[1..]| - 1]
  {}

  /** `mkdir -p` of the parent followed by the rename is exactly the one-pass insertion. */
  lemma {:induction false} MkdirThenRenameInserts(t: Node, p: Path, data: Bytes)
    requires p != []
    ensures MkdirAll(t, p[..|p| - 1]).None? ==> Insert(t, p, data).None?
    ensures MkdirAll(t, p[..|p| - 1]).Some? ==>
              var renamed := RenameOnto(MkdirAll(t, p[..|p| - 1]).value, p, data);
              Insert(t, p, data) == if renamed.Success? then Some(renamed.value) else None
    decreases p
  {
    if |p| == 1 {
      assert p[..|p| - 1] == [] && p[1..] == [];
      assert t.Dir? ==> !Blocked(t, p) && ParentIsDir(t, p);
      assert At(t, p) == if t.Dir? && p[0] in t.entries then Some(t.entries[p[0]]) else None;
    } else if t.Dir? {
      InsertUnfold(t, p, data);
      var child := if p[0] in t.entries then t.entries[p[0]] else EMPTY_DIR;
      MkdirThenRenameInserts(child, p[1..], data);
      if MkdirAll(t, p[..|p| - 1]).Some? {
        var made := MkdirAll(t, p[..|p| - 1]).value;
        assert made.entries[p[0]] == MkdirAll(child, p[1..][..|p[1..]| - 1]).value;
        assert At(made, p) == At(made.entries[p[0]], p[1..]);
        assert At(made, p[..|p| - 1]) == At(made.entries[p[0]], p[1..][..|p[1..]| - 1]);
        var below := RenameOnto(made.entries[p[0]], p[1..], data);
        assert RenameOnto(made, p, data).Success? == below.Success?;
        if below.Success? {
          assert Graft(made, p, File(data)) == Dir(made.entries[p[0] := below.value]);
          assert made.entries[p[0] := below.value] == t.entries[p[0] := below.value];
        }
      }
    }
  }

  lemma {:induction false} InsertLookup(t: Node, p: Path, data: Bytes, q: Path)
    requires p != [] && Insert(t, p, data).Some?
    ensures Lookup(Insert(t, p, data).value, q) == if q == p then Some(data) else Lookup(t, q)
  {
    MkdirThenRenameInserts(t, p, data);
    var made := MkdirAll(t, p[..|p| - 1]).value;
    MkdirAllKeepsLookups(t, p[..|p| - 1], q);
    GraftLookup(made, p, data, q);
  }

  /** A stored object changes exactly its own entry of the flat map. */
  lemma InsertContents(t: Node, p: Path, data: Bytes)
    requires p != [] && Insert(t, p, data).Some?
    ensures Contents(Insert(t, p, data).value) == Contents(t)[p := data]
  {
    forall q ensures Lookup(Insert(t, p, data).value, q) == if q == p then Some(data) else Lookup(t, q) {
      InsertLookup(t, p, data, q);
    }
    ContentsByLookup(Insert(t, p, data).value, Contents(t)[p := data]);
  }

  lemma {:induction false} InsertTidy(t: Node, p: Path, data: Bytes)
    requires p != [] && Insert(t, p, data).Some? && Tidy(t)
    ensures Tidy(Insert(t, p, data).value)
    ensures Insert(t, p, data).value != EMPTY_DIR
    decreases p
  {
    var result := Insert(t, p, data).value;
    assert p[0] in result.entries;
    if |p| == 1 {
    } else {
      var child := if p[0] in t.entries then t.entries[p[0]] else EMPTY_DIR;
      InsertTidy(child, p[1..], data);
    }
  }

  // ---------- removing ----------

  lemma {:induction false} RemoveLookup(t: Node, p: Path, q: Path)
    requires p != [] && Lookup(t, p).Some?
    ensures Lookup(Remove(t, p), q) == if q == p then None else Lookup(t, q)
    decreases p
  {
    FoundHasParent(t, p);
    if |p| == 1 {
      CutLookup(t, p, q);
    } else if q != [] && q[0] == p[0] {
      RemoveLookup(t.entries[p[0]], p[1..], q[1..]);
      assert q == p <==> q[1..] == p[1..] by { assert q == [q[0]] + q[1..] && p == [p[0]] + p[1..]; }
      var child := Remove(t.entries[p[0]], p[1..]);
      assert child == EMPTY_DIR ==> Lookup(child, q[1..]).None?;
    }
  }

  /** A removed object leaves every other entry of the flat map alone. */
  lemma RemoveContents(t: Node, p: Path)
    requires p != [] && Lookup(t, p).Some?
    ensures Contents(Remove(t, p)) == Contents(t) - {p}
  {
    forall q ensures Lookup(Remove(t, p), q) == if q == p then None else Lookup(t, q) {
      RemoveLookup(t, p, q);
    }
    ContentsByLookup(Remove(t, p), Contents(t) - {p});
  }

  lemma {:induction false} RemoveTidy(t: Node, p: Path)
    requires p != [] && Lookup(t, p).Some? && Tidy(t)
    ensures Tidy(Remove(t, p))
    decreases p
  {
    if |p| == 1 {
    } else {
      RemoveTidy(t.entries[p[0]], p[1..]);
    }
  }

  // ---------- the parent-pruning loop ----------

  /** What the loop does from the ancestor `p[..n]` upwards when every `rmdir` may run. */
  function PruneFrom(t: Node, p: Path, n: nat): Node
    requires n <= |p|
    decreases n
  {
    if n == 0 then t
    else
      match Rmdir(t, p[..n])
      case Failure(_) => t
      case Success(cut) => PruneFrom(cut, p, n - 1)
  }

  /** The same when the `rmdir` at some levels fails. */
  function PruneWhile(t: Node, p: Path, n: nat, rmdirFails: nat -> bool): Node
    requires n <= |p|
    decreases n
  {
    if n == 0 || rmdirFails(n) then t
    else
      match Rmdir(t, p[..n])
      case Failure(_) => t
      case Success(cut) => PruneWhile(cut, p, n - 1, rmdirFails)
  }

  lemma {:induction false} UnhinderedPrune(t: Node, p: Path, n: nat, rmdirFails: nat -> bool)
    requires n <= |p| && forall k :: !rmdirFails(k)
    ensures PruneWhile(t, p, n, rmdirFails) == PruneFrom(t, p, n)
    decreases n
  {
    if n == 0 {
    } else {
      match Rmdir(t, p[..n])
      case Failure(_) =>
      case Success(cut) => UnhinderedPrune(cut, p, n - 1, rmdirFails);
    }
  }

  lemma {:induction false} CutKeepsParent(t: Node, p: Path)
    requires ParentIsDir(t, p)
    ensures At(Cut(t, p), p[..|p| - 1]).Some?
    decreases p
  {
    if |p| == 1 {
      assert p[..0] == [];
    } else {
      assert p[..|p| - 1][0] == p[0] && p[..|p| - 1][1..] == p[1..][..|p[1..]| - 1];
      CutKeepsParent(t.entries[p[0]], p[1..]);
    }
  }

  lemma {:induction false} PruneBelow(t: Node, p: Path, n: nat)
    requires n < |p| && At(t, p[..n + 1]).Some?
    ensures PruneFrom(t, p, n + 1) ==
            var child := PruneFrom(t.entries[p[0]], p[1..], n);
            if child == EMPTY_DIR then Dir(t.entries - {p[0]}) else Dir(t.entries[p[0] := child])
    decreases n
  {
    assert p[..n + 1][1..] == p[1..][..n];
    assert p[..n + 1][0] == p[0];
    var c := t.entries[p[0]];
    assert At(t, p[..n + 1]) == At(c, p[1..][..n]);
    if n == 0 {
      assert p[..1] == [p[0]];
      assert PruneFrom(c, p[1..], 0) == c;
      if c == EMPTY_DIR {
        FoundHasParent(t, p[..1]);
        assert Rmdir(t, p[..1]) == Success(Dir(t.entries - {p[0]}));
        assert PruneFrom(Dir(t.entries - {p[0]}), p, 0) == Dir(t.entries - {p[0]});
      } else {
        assert t.entries[p[0] := c] == t.entries;
      }
    } else {
      match Rmdir(c, p[1..][..n])
      case Failure(_) =>
        assert c != EMPTY_DIR;
        assert t.entries[p[0] := c] == t.entries;
      case Success(cut) =>
        FoundHasParent(t, p[..n + 1]);
        FoundHasParent(c, p[1..][..n]);
        var above := Cut(t, p[..n + 1]);
        assert above == Dir(t.entries[p[0] := cut]) by {
          assert |p[..n + 1]| == n + 1 > 1;
        }
        CutKeepsParent(t, p[..n + 1]);
        assert p[..n + 1][..n] == p[..n];
        PruneBelow(above, p, n - 1);
        assert above.entries - {p[0]} == t.entries - {p[0]};
    }
  }

  /** Unlinking the file and pruning its parents is exactly the one-pass removal. */
  lemma {:induction false} UnlinkThenPruneRemoves(t: Node, p: Path)
    requires p != [] && Lookup(t, p).Some?
    ensures Unlink(t, p).Success?
    ensures PruneFrom(Unlink(t, p).value, p, |p| - 1) == Remove(t, p)
    decreases p
  {
    FoundHasParent(t, p);
    if |p| == 1 {
    } else {
      var c := t.entries[p[0]];
      UnlinkThenPruneRemoves(c, p[1..]);
      FoundHasParent(c, p[1..]);
      var cut := Cut(t, p);
      assert cut == Dir(t.entries[p[0] := Cut(c, p[1..])]);
      CutKeepsParent(t, p);
      PruneBelow(cut, p, |p| - 2);
      assert cut.entries - {p[0]} == t.entries - {p[0]};
      var pruned := PruneFrom(Cut(c, p[1..]), p[1..], |p| - 2);
      assert cut.entries[p[0] := pruned] == t.entries[p[0] := pruned];
    }
  }

  lemma RmdirLookup(t: Node, p: Path, q: Path)
    requires p != [] && Rmdir(t, p).Success?
    ensures Lookup(Rmdir(t, p).value, q) == Lookup(t, q)
  {
    FoundHasParent(t, p);
    CutLookup(t, p, q);
  }

  /** Removing an empty directory is invisible in the flat map. */
  lemma RmdirContents(t: Node, p: Path)
    requires p != [] && Rmdir(t, p).Success?
    ensures Contents(Rmdir(t, p).value) == Contents(t)
  {
    forall q ensures Lookup(Rmdir(t, p).value, q) == Lookup(t, q) { RmdirLookup(t, p, q); }
    ContentsByLookup(Rmdir(t, p).value, Contents(t));
  }

  // ---------- trees without empty directories ----------

  lemma {:induction false} TidyHasObject(t: Node) returns (p: Path)
    requires Tidy(t) && t != EMPTY_DIR
    ensures Lookup(t, p).Some?
    decreases t
  {
    match t
    case File(_) => p := [];
    case Dir(entries) =>
      assert entries.Keys != {};
      var n :| n in entries;
      var q := TidyHasObject(entries[n]);
      p := [n] + q;
  }

  /** A tidy tree is determined by the flat map it stands for. */
  lemma {:induction false} TidyUnique(t: Node, u: Node)
    requires Tidy(t) && Tidy(u) && (t.Dir? <==> u.Dir?)
    requires forall p :: Lookup(t, p) == Lookup(u, p)
    ensures t == u
    decreases t
  {
    if t.File? {
      assert Lookup(t, []) == Lookup(u, []);
    } else {
      TidySameNames(t, u);
      TidySameNames(u, t);
      forall n | n in t.entries
        ensures t.entries[n] == u.entries[n]
      {
        forall p ensures Lookup(t.entries[n], p) == Lookup(u.entries[n], p) {
          assert ([n] + p)[1..] == p;
          assert Lookup(t, [n] + p) == Lookup(u, [n] + p);
        }
        assert Lookup(t.entries[n], []) == Lookup(u.entries[n], []);
        TidyUnique(t.entries[n], u.entries[n]);
      }
      assert t.entries == u.entries;
    }
  }

  lemma TidySameNames(t: Node, u: Node)
    requires t.Dir? && u.Dir? && Tidy(t)
    requires forall p :: Lookup(t, p) == Lookup(u, p)
    ensures forall n :: n in t.entries ==> n in u.entries
  {
    forall n | n in t.entries
      ensures n in u.entries
    {
      var p := TidyHasObject(t.entries[n]);
      assert ([n] + p)[1..] == p;
      assert Lookup(t, [n] + p) == Lookup(u, [n] + p);
    }
  }

  /** Why an insertion fails: the path runs through an object, or it names a directory. */
  lemma {:induction false} InsertFailsWhen(t: Node, p: Path, data: Bytes)
    requires p != []
    ensures Insert(t, p, data).None? <==> Blocked(t, p) || (At(t, p).Some? && At(t, p).value.Dir?)
    decreases p
  {
    if |p| == 1 {
      assert p[1..] == [];
    } else if t.Dir? {
      var child := if p[0] in t.entries then t.entries[p[0]] else EMPTY_DIR;
      InsertFailsWhen(child, p[1..], data);
      if p[0] !in t.entries { NothingBlocksEmpty(p[1..]); }
    }
  }

  lemma {:induction false} BlockedByObject(t: Node, p: Path) returns (q: Path)
    requires Blocked(t, p)
    ensures q < p && Lookup(t, q).Some?
    decreases p
  {
    if t.File? {
      q := [];
    } else {
      var rest := BlockedByObject(t.entries[p[0]], p[1..]);
      q := [p[0]] + rest;
      assert p == [p[0]] + p[1..];
      assert q[1..] == rest;
    }
  }

  lemma {:induction false} ObjectBlocks(t: Node, p: Path, q: Path)
    requires q < p && Lookup(t, q).Some?
    ensures Blocked(t, p)
    decreases p
  {
    if q == [] {
    } else {
      ObjectBlocks(t.entries[p[0]], p[1..], q[1..]);
    }
  }

  /**
   * An object can be stored exactly when the flat map stays prefix-free and no directory
   * without objects has been left behind under its name.
   */
  lemma InsertIff(t: Node, p: Path, data: Bytes)
    requires p != [] && t.Dir?
    ensures Insert(t, p, data).Some? <==>
            && PrefixFree(Contents(t).Keys + {p})
            && !(At(t, p).Some? && At(t, p).value.Dir? && Contents(At(t, p).value) == map[])
  {
    InsertFailsWhen(t, p, data);
    ContentsPrefixFree(t);
    if Blocked(t, p) {
      var q := BlockedByObject(t, p);
      assert q in Contents(t).Keys + {p} && q <= p && q != p;
    } else if At(t, p).Some? && At(t, p).value.Dir? {
      var below := Contents(At(t, p).value);
      if below != map[] {
        var q :| q in below.Keys;
        AtSplits(t, p, q);
        assert Lookup(t, p + q).Some? && q != [];
        assert p + q in Contents(t).Keys + {p} && p <= p + q && p != p + q;
      }
    } else {
      forall a, b | a in Contents(t).Keys + {p} && b in Contents(t).Keys + {p} && a <= b
        ensures a == b
      {
        if a != b && b == p { ObjectBlocks(t, p, a); }
        if a != b && a == p {
          var rest := b[|p|..];
          assert b == p + rest;
          AtSplits(t, p, rest);
        }
      }
    }
  }

  /** On a tidy tree whether a put succeeds depends on the flat map alone. */
  lemma TidyInsertIff(t: Node, p: Path, data: Bytes)
    requires p != [] && t.Dir? && Tidy(t)
    ensures Insert(t, p, data).Some? <==> PrefixFree(Contents(t).Keys + {p})
  {
    InsertIff(t, p, data);
    if At(t, p).Some? && At(t, p).value.Dir? {
      TidyAt(t, p);
      var q := TidyHasObject(At(t, p).value);
      assert q in Contents(At(t, p).value);
    }
  }

  /**
   * Without tidiness it does not: a put that fails after creating its directories leaves the map
   * empty, yet the directory's own name can no longer be stored.
   */
  lemma LeftoverDirectoryBlocks(p: Path, data: Bytes)
    requires p != []
    ensures MkdirAll(EMPTY_DIR, p).Some?
    ensures Contents(MkdirAll(EMPTY_DIR, p).value) == map[] == Contents(EMPTY_DIR)
    ensures Insert(MkdirAll(EMPTY_DIR, p).value, p, data).None?
    ensures Insert(EMPTY_DIR, p, data).Some?
  {
    NothingBlocksEmpty(p + ["x"]);
    NothingBlocksEmpty(p);
    MkdirAllMakes(EMPTY_DIR, p);
    var made := MkdirAll(EMPTY_DIR, p).value;
    forall q ensures Lookup(EMPTY_DIR, q).None? && Lookup(made, q).None? { MkdirAllKeepsLookups(EMPTY_DIR, p, q); }
    ContentsByLookup(made, map[]);
    ContentsByLookup(EMPTY_DIR, map[]);
    InsertFailsWhen(made, p, data);
    InsertFailsWhen(EMPTY_DIR, p, data);
  }

  lemma {:induction false} MkdirAllExisting(t: Node, p: Path, k: nat)
    requires At(t, p).Some? && At(t, p).value.Dir? && k <= |p|
    ensures MkdirAll(t, p[..k]) == Some(t)
    decreases p
  {
    if k == 0 {
    } else {
      assert p[..k][1..] == p[1..][..k - 1];
      MkdirAllExisting(t.entries[p[0]], p[1..], k - 1);
      assert t.entries[p[0] := t.entries[p[0]]] == t.entries;
    }
  }

  lemma {:induction false} TidyAt(t: Node, p: Path)
    requires Tidy(t) && p != [] && At(t, p).Some?
    ensures Tidy(At(t, p).value) && At(t, p).value != EMPTY_DIR
    decreases p
  {
    if |p| == 1 {
      assert p[1..] == [];
    } else {
      TidyAt(t.entries[p[0]], p[1..]);
    }
  }

  /** Deleting a freshly stored object gives back the very tree there was, directories included. */
  lemma RemoveUndoesInsert(t: Node, p: Path, data: Bytes)
    requires p != [] && t.Dir? && Tidy(t) && Lookup(t, p).None? && Insert(t, p, data).Some?
    ensures Lookup(Insert(t, p, data).value, p).Some?
    ensures Remove(Insert(t, p, data).value, p) == t
  {
    var stored := Insert(t, p, data).value;
    InsertLookup(t, p, data, p);
    InsertTidy(t, p, data);
    RemoveTidy(stored, p);
    forall q ensures Lookup(Remove(stored, p), q) == Lookup(t, q) {
      RemoveLookup(stored, p, q);
      InsertLookup(t, p, data, q);
    }
    TidyUnique(Remove(stored, p), t);
  }

  // ---------- whole runs ----------

  datatype Operation = Put(path: Path, data: Bytes) | Delete(path: Path)

  ghost predicate Proper(ops: seq<Operation>) {
    forall i :: 0 <= i < |ops| ==> ops[i].path != []
  }

  /** The tree after a run of puts and deletes that meet no input/output failure. */
  function RunTree(t: Node, ops: seq<Operation>): Node
    requires Proper(ops)
    decreases |ops|
  {
    if ops == [] then t
    else
      var op := ops[|ops| - 1];
      var before := RunTree(t, ops[..|ops| - 1]);
      match op
      case Put(p, data) => (match Insert(before, p, data) case None => before case Some(after) => after)
      case Delete(p) => if Lookup(before, p).Some? then Remove(before, p) else before
  }

  /** The same run on a plain map: a put is refused only when the keys would not stay prefix-free. */
  ghost function RunMap(m: map<Path, Bytes>, ops: seq<Operation>): map<Path, Bytes>
    decreases |ops|
  {
    if ops == [] then m
    else
      var op := ops[|ops| - 1];
      var before := RunMap(m, ops[..|ops| - 1]);
      match op
      case Put(p, data) => if PrefixFree(before.Keys + {p}) then before[p := data] else before
      case Delete(p) => before - {p}
  }

  /** From a tidy bucket the directory tree and the flat map stay in step over every run. */
  lemma {:induction false} RunRefinesMap(t: Node, ops: seq<Operation>)
    requires t.Dir? && Tidy(t) && Proper(ops)
    ensures RunTree(t, ops).Dir? && Tidy(RunTree(t, ops))
    ensures Contents(RunTree(t, ops)) == RunMap(Contents(t), ops)
    decreases |ops|
  {
    if ops == [] {
    } else {
      var before := RunTree(t, ops[..|ops| - 1]);
      RunRefinesMap(t, ops[..|ops| - 1]);
      match ops[|ops| - 1]
      case Put(p, data) =>
        TidyInsertIff(before, p, data);
        if Insert(before, p, data).Some? {
          InsertContents(before, p, data);
          InsertTidy(before, p, data);
        }
      case Delete(p) =>
        if Lookup(before, p).Some? {
          RemoveContents(before, p);
          RemoveTidy(before, p);
        } else {
          assert Contents(before) - {p} == Contents(before);
        }
    }
  }

  /** Two runs that leave the same objects leave the same directories. */
  lemma RunsAgree(t: Node, ops: seq<Operation>, others: seq<Operation>)
    requires t.Dir? && Tidy(t) && Proper(ops) && Proper(others)
    requires RunMap(Contents(t), ops) == RunMap(Contents(t), others)
    ensures RunTree(t, ops) == RunTree(t, others)
  {
    RunRefinesMap(t, ops);
    RunRefinesMap(t, others);
    var u, v := RunTree(t, ops), RunTree(t, others);
    forall p ensures Lookup(u, p) == Lookup(v, p) {
      assert p in Contents(u) <==> p in Contents(v);
    }
    TidyUnique(u, v);
  }

  // ---------- runs in which anything may fail ----------

  /**
   * A put creates `reach` directories and then may stop before its rename; a delete may fail to
   * remove the file, and each `rmdir` of its pruning may fail.
   */
  datatype Attempt =
    | TryPut(path: Path, data: Bytes, reach: nat, renames: bool)
    | TryDelete(path: Path, removes: bool, rmdirFails: nat -> bool)

  /** The tree afterwards, and whether the operation took effect. */
  datatype Outcome = Outcome(tree: Node, tookEffect: bool)

  function Reached(parent: Path, reach: nat): (n: nat)
    ensures n <= |parent| && (reach >= |parent| ==> n == |parent|)
  {
    if reach < |parent| then reach else |parent|
  }

  function TryPutOn(t: Node, p: Path, data: Bytes, reach: nat, renames: bool): Outcome
    requires p != []
  {
    var parent := p[..|p| - 1];
    if Blocked(t, p) then Outcome(t, false)
    else
      match MkdirAll(t, parent[..Reached(parent, reach)])
      case None => Outcome(t, false)
      case Some(made) =>
        if reach < |parent| || !renames then Outcome(made, false)
        else
          match RenameOnto(made, p, data)
          case Failure(_) => Outcome(made, false)
          case Success(stored) => Outcome(stored, true)
  }

  function TryOn(t: Node, attempt: Attempt): Outcome
    requires attempt.path != []
  {
    match attempt
    case TryPut(p, data, reach, renames) => TryPutOn(t, p, data, reach, renames)
    case TryDelete(p, removes, rmdirFails) =>
      if !removes then Outcome(t, false)
      else
        match Unlink(t, p)
        case Failure(_) => Outcome(t, false)
        case Success(cut) => Outcome(PruneWhile(cut, p, |p| - 1, rmdirFails), true)
  }

  ghost predicate Sound(attempts: seq<Attempt>) {
    forall i :: 0 <= i < |attempts| ==> attempts[i].path != []
  }

  function TryAll(t: Node, attempts: seq<Attempt>): Node
    requires Sound(attempts)
    decreases |attempts|
  {
    if attempts == [] then t
    else TryOn(TryAll(t, attempts[..|attempts| - 1]), attempts[|attempts| - 1]).tree
  }

  /** The attempts of a run that took effect, as operations, in order. */
  function TookEffect(t: Node, attempts: seq<Attempt>): seq<Operation>
    requires Sound(attempts)
    decreases |attempts|
  {
    if attempts == [] then []
    else
      var init, last := attempts[..|attempts| - 1], attempts[|attempts| - 1];
      if TryOn(TryAll(t, init), last).tookEffect
      then TookEffect(t, init) + [OperationOf(last)]
      else TookEffect(t, init)
  }

  function Applied(m: map<Path, Bytes>, op: Operation): map<Path, Bytes> {
    match op
    case Put(p, data) => m[p := data]
    case Delete(p) => m - {p}
  }

  /** The operations applied to a plain map, none of them refused. */
  function FoldMap(m: map<Path, Bytes>, ops: seq<Operation>): map<Path, Bytes>
    decreases |ops|
  {
    if ops == [] then m else Applied(FoldMap(m, ops[..|ops| - 1]), ops[|ops| - 1])
  }

  function OperationOf(attempt: Attempt): Operation {
    if attempt.TryPut? then Put(attempt.path, attempt.data) else Delete(attempt.path)
  }

  lemma {:induction false} PruneWhileContents(t: Node, p: Path, n: nat, rmdirFails: nat -> bool)
    requires n <= |p|
    ensures Contents(PruneWhile(t, p, n, rmdirFails)) == Contents(t)
    decreases n
  {
    if n == 0 || rmdirFails(n) {
    } else {
      match Rmdir(t, p[..n])
      case Failure(_) =>
      case Success(cut) =>
        RmdirContents(t, p[..n]);
        PruneWhileContents(cut, p, n - 1, rmdirFails);
    }
  }

  /** Where no file is in the way the parents can be made, as far as one likes. */
  lemma ParentsCanBeMade(t: Node, p: Path, k: nat)
    requires p != [] && !Blocked(t, p) && k < |p|
    ensures MkdirAll(t, p[..|p| - 1][..k]).Some?
  {
    assert p[..|p| - 1][..k] == p[..k];
    MkdirAllMakes(t, p[..k]);
    if Blocked(t, p[..k] + ["x"]) { BlockedBelow(t, p, k); }
  }

  lemma MkdirAllContents(t: Node, p: Path)
    requires MkdirAll(t, p).Some?
    ensures Contents(MkdirAll(t, p).value) == Contents(t)
  {
    var made := MkdirAll(t, p).value;
    forall q ensures Lookup(made, q) == Lookup(t, q) { MkdirAllKeepsLookups(t, p, q); }
    ContentsByLookup(made, Contents(t));
  }

  lemma UnlinkTakesOut(t: Node, p: Path)
    requires p != [] && Unlink(t, p).Success?
    ensures Lookup(t, p).Some? && Contents(Unlink(t, p).value) == Contents(t) - {p}
  {
    FoundHasParent(t, p);
    var cut := Unlink(t, p).value;
    forall q ensures Lookup(cut, q) == if q == p then None else Lookup(t, q) { CutLookup(t, p, q); }
    ContentsByLookup(cut, Contents(t) - {p});
  }

  lemma TryPutContents(t: Node, p: Path, data: Bytes, reach: nat, renames: bool)
    requires p != []
    ensures var after := TryPutOn(t, p, data, reach, renames);
            Contents(after.tree) == if after.tookEffect then Contents(t)[p := data] else Contents(t)
  {
    var parent := p[..|p| - 1];
    var reached := parent[..Reached(parent, reach)];
    if MkdirAll(t, reached).Some? {
      MkdirAllContents(t, reached);
      assert parent[..|parent|] == parent;
      MkdirThenRenameInserts(t, p, data);
      if Insert(t, p, data).Some? { InsertContents(t, p, data); }
    }
  }

  /** One attempt changes the flat map by its operation if it took effect, and not at all otherwise. */
  lemma TryContents(t: Node, attempt: Attempt)
    requires attempt.path != []
    ensures var after := TryOn(t, attempt);
            Contents(after.tree) ==
            if after.tookEffect then Applied(Contents(t), OperationOf(attempt)) else Contents(t)
  {
    match attempt
    case TryPut(p, data, reach, renames) => TryPutContents(t, p, data, reach, renames);
    case TryDelete(p, removes, rmdirFails) =>
      if removes && Unlink(t, p).Success? {
        UnlinkTakesOut(t, p);
        PruneWhileContents(Unlink(t, p).value, p, |p| - 1, rmdirFails);
      }
  }

  lemma FoldOneMore(m: map<Path, Bytes>, ops: seq<Operation>, op: Operation)
    ensures FoldMap(m, ops + [op]) == Applied(FoldMap(m, ops), op)
  {
    assert (ops + [op])[..|ops|] == ops;
  }

  /**
   * Over every run in which any put or delete may fail at any step and leave directories behind,
   * the flat map is what the operations that took effect make of a plain map.
   */
  lemma {:induction false} FailingRunRefinesMap(t: Node, attempts: seq<Attempt>)
    requires Sound(attempts)
    ensures Contents(TryAll(t, attempts)) == FoldMap(Contents(t), TookEffect(t, attempts))
    decreases |attempts|
  {
    if attempts == [] {
    } else {
      var init, last := attempts[..|attempts| - 1], attempts[|attempts| - 1];
      FailingRunRefinesMap(t, init);
      TryContents(TryAll(t, init), last);
      if TryOn(TryAll(t, init), last).tookEffect {
        FoldOneMore(Contents(t), TookEffect(t, init), OperationOf(last));
      }
    }
  }

  /**
   * A put takes effect exactly if its directories are all made, it comes to its rename, the keys
   * stay prefix-free and no leftover directory has its name.
   */
  lemma PutTakesEffectIff(t: Node, p: Path, data: Bytes, reach: nat, renames: bool)
    requires p != [] && t.Dir?
    ensures TryPutOn(t, p, data, reach, renames).tookEffect <==>
            && reach >= |p| - 1 && renames
            && PrefixFree(Contents(t).Keys + {p})
            && !(At(t, p).Some? && At(t, p).value.Dir? && Contents(At(t, p).value) == map[])
  {
    var parent := p[..|p| - 1];
    assert parent[..|parent|] == parent;
    MkdirThenRenameInserts(t, p, data);
    InsertFailsWhen(t, p, data);
    InsertIff(t, p, data);
  }
}
