/** The object operations of the store, step by step over the bucket directories. */
module DiskStore {
  import opened Wrappers
  import opened Text
  import opened ObjectKeys
  import opened Files
  import opened StoreErrors
  import opened ObjectTree
  import opened TreeRefinement
  import Sorting

  datatype ObjectRecord = ObjectRecord(key: string, size: nat, etag: string)

  /** The input/output failures a put may meet: after creating `mkdir` directories, at the rename, at the final stat. */
  datatype PutFaults = PutFaults(mkdir: Option<nat>, rename: bool, stat: bool)

  const NO_FAULTS := PutFaults(None, false, false)

  /** A digest was declared and it is not that of the body. */
  ghost predicate WrongDigest(expected: Option<string>, digest: string) {
    match expected
    case None => false
    case Some(declared) => declared != "" && declared != "UNSIGNED-PAYLOAD" && Lower(declared) != digest
  }

  /** What a put reports for a valid key in an existing bucket; None is success. */
  ghost function PutAnswer(t: Node, p: Path, body: Option<Bytes>, wrongDigest: bool, faults: PutFaults)
    : Option<StoreError>
    requires p != []
  {
    if Blocked(t, p) then Some(FileSystem(ENOTDIR))
    else if faults.mkdir.Some? then Some(FileSystem(EIO))
    else if body.None? then Some(StreamFailed)
    else if wrongDigest then Some(ChecksumMismatch)
    else if faults.rename then Some(FileSystem(EIO))
    else if Insert(t, p, body.value).None? then Some(FileSystem(EISDIR))
    else if faults.stat then Some(StatFailed)
    else None
  }

  /** The bucket's tree after it. */
  ghost function PutTree(t: Node, p: Path, body: Option<Bytes>, wrongDigest: bool, faults: PutFaults): Node
    requires p != []
  {
    TryPutOn(t, p, if body.Some? then body.value else [], if faults.mkdir.Some? then faults.mkdir.value else |p|,
             faults.mkdir.None? && body.Some? && !wrongDigest && !faults.rename).tree
  }

  /** Objects found below `parts` whose key starts with `prefix`. */
  ghost predicate Listed(t: Node, parts: Path, prefix: string, md5: Bytes -> string, r: ObjectRecord) {
    IsPrefix(prefix, r.key) && exists q :: IsRecordOf(t, parts, q, md5, r)
  }

  ghost predicate IsRecordOf(t: Node, parts: Path, q: Path, md5: Bytes -> string, r: ObjectRecord) {
    Lookup(t, q).Some? && r == ObjectRecord(PathKey(parts + q), |Lookup(t, q).value|, md5(Lookup(t, q).value))
  }

  /** Directory entries are non-empty names without a slash. */
  ghost predicate WellNamed(t: Node) {
    t.Dir? ==> forall n :: n in t.entries ==> '/' !in n && WellNamed(t.entries[n])
  }

  ghost predicate DistinctKeys(found: seq<ObjectRecord>) {
    forall i, j :: 0 <= i < j < |found| ==> found[i].key != found[j].key
  }

  class DiskStore {
    const md5: Bytes -> string
    const sha256: Bytes -> string
    var buckets: set<string>     // the catalogue's bucket names
    var disk: map<string, Node>  // the entries of the storage root

    constructor (md5: Bytes -> string, sha256: Bytes -> string, buckets: set<string>, disk: map<string, Node>)
      ensures this.md5 == md5 && this.sha256 == sha256 && this.buckets == buckets && this.disk == disk
    {
      this.md5, this.sha256, this.buckets, this.disk := md5, sha256, buckets, disk;
    }

    function RequireBucket(name: string): (error: Option<StoreError>)
      reads this
      ensures error.None? <==> ValidBucketName(name) && name in buckets && name in disk && disk[name].Dir?
    {
      BucketRefusal(name, name in buckets, name in disk, name in disk && disk[name].Dir?)
    }

    /** The bucket as a flat map. */
    ghost function Objects(bucket: string): map<Path, Bytes>
      requires bucket in disk
      reads this
    {
      Contents(disk[bucket])
    }

    ghost predicate SameObjects(before: map<string, Node>)
      reads this
    {
      disk.Keys == before.Keys && forall b :: b in disk ==> Contents(disk[b]) == Contents(before[b])
    }

    /**
     * The answer and the tree are exactly the stated ones: a put stores precisely this object when
     * the bucket and key are good, the body arrives and is the declared one, the tree has room and
     * nothing fails. A failed put changes no object, unless all that failed was reading the stored
     * file back.
     */
    method PutObject(bucket: string, key: string, body: Option<Bytes>, expected: Option<string>, faults: PutFaults)
      returns (r: Result<ObjectRecord, StoreError>)
      modifies this`disk
      ensures old(RequireBucket(bucket)).Some? ==> r == Failure(old(RequireBucket(bucket)).value)
      ensures old(RequireBucket(bucket)).None? && !ValidKey(key) ==> r == Failure(InvalidObjectName)
      ensures old(RequireBucket(bucket)).Some? || !ValidKey(key) ==> disk == old(disk)
      ensures old(RequireBucket(bucket)).None? && ValidKey(key) ==>
                var wrong := body.Some? && WrongDigest(expected, sha256(body.value));
                && disk == old(disk)[bucket := PutTree(old(disk)[bucket], KeyPath(key), body, wrong, faults)]
                && match PutAnswer(old(disk)[bucket], KeyPath(key), body, wrong, faults)
                   case Some(error) => r == Failure(error)
                   case None => r == Success(ObjectRecord(key, |body.value|, md5(body.value)))
      ensures r.Success? && expected.Some? && expected.value != "" && expected.value != "UNSIGNED-PAYLOAD" ==>
                Lower(expected.value) == sha256(body.value)
      ensures && old(RequireBucket(bucket)).None? && ValidKey(key) && !Blocked(old(disk)[bucket], KeyPath(key))
              && faults.mkdir.None? && body.Some? && expected.Some? && expected.value != ""
              && expected.value != "UNSIGNED-PAYLOAD" && Lower(expected.value) != sha256(body.value) ==>
                r == Failure(ChecksumMismatch)
      ensures r.Success? || r == Failure(StatFailed) ==>
                && bucket in old(disk) && bucket in disk && body.Some?
                && Objects(bucket) == Contents(old(disk)[bucket])[KeyPath(key) := body.value]
                && forall b :: b in disk && b != bucket ==> b in old(disk) && disk[b] == old(disk)[b]
      ensures r.Failure? && r != Failure(StatFailed) ==> SameObjects(old(disk))
    {
      var refusal := RequireBucket(bucket);
      if refusal.Some? { return Failure(refusal.value); }
      if !ValidKey(key) { return Failure(InvalidObjectName); }
      PutIsAttempt(disk[bucket], KeyPath(key), body, body.Some? && WrongDigest(expected, sha256(body.value)), faults);
      var failed := StoreBody(bucket, KeyPath(key), body, expected, faults);
      if failed.Some? { return Failure(failed.value); }
      return Success(ObjectRecord(key, |body.value|, md5(body.value)));
    }

    /** A put from its path check on, in an existing bucket. */
    method StoreBody(bucket: string, path: Path, body: Option<Bytes>, expected: Option<string>, faults: PutFaults)
      returns (error: Option<StoreError>)
      requires bucket in disk && path != []
      modifies this`disk
      ensures var wrong := body.Some? && WrongDigest(expected, sha256(body.value));
              && error == PutAnswer(old(disk)[bucket], path, body, wrong, faults)
              && disk == old(disk)[bucket := PutTree(old(disk)[bucket], path, body, wrong, faults)]
      ensures error.None? && expected.Some? && expected.value != "" && expected.value != "UNSIGNED-PAYLOAD" ==>
                Lower(expected.value) == sha256(body.value)
    {
      ghost var tree, wrong := disk[bucket], body.Some? && WrongDigest(expected, sha256(body.value));
      PutIsAttempt(tree, path, body, wrong, faults);
      if Blocked(disk[bucket], path) {
        assert disk == old(disk)[bucket := tree];
        return Some(FileSystem(ENOTDIR));
      }
      error := MakeParents(bucket, path, faults.mkdir);
      if error.Some? { return; }
      // stream the body to a temporary file outside the bucket, then check it
      if body.None? { return Some(StreamFailed); }
      if && expected.Some? && expected.value != "" && expected.value != "UNSIGNED-PAYLOAD"
         && sha256(body.value) != Lower(expected.value)
      {
        return Some(ChecksumMismatch);
      }
      error := PlaceFile(bucket, tree, path, body.value, faults);
    }

    /** The rename onto the target, whose parents have been made in `tree`, and the final stat. */
    method PlaceFile(bucket: string, ghost tree: Node, path: Path, data: Bytes, faults: PutFaults)
      returns (error: Option<StoreError>)
      requires bucket in disk && path != [] && MkdirAll(tree, path[..|path| - 1]) == Some(disk[bucket])
      modifies this`disk
      ensures error == if faults.rename then Some(FileSystem(EIO))
                       else if Insert(tree, path, data).None? then Some(FileSystem(EISDIR))
                       else if faults.stat then Some(StatFailed) else None
      ensures disk == if faults.rename || Insert(tree, path, data).None? then old(disk)
                      else old(disk)[bucket := Insert(tree, path, data).value]
    {
      MkdirThenRenameInserts(tree, path, data);
      MkdirAllMakes(tree, path[..|path| - 1]);
      ParentNotBlocked(disk[bucket], path);
      if faults.rename { return Some(FileSystem(EIO)); }
      var renamed := RenameOnto(disk[bucket], path, data);
      if renamed.Failure? { return Some(FileSystem(renamed.error)); }
      disk := disk[bucket := renamed.value];
      return if faults.stat then Some(StatFailed) else None;
    }

    /** `mkdir(dirname(target), { recursive: true })`, which may fail after creating some directories. */
    method MakeParents(bucket: string, path: Path, fault: Option<nat>) returns (error: Option<StoreError>)
      requires bucket in disk && path != [] && !Blocked(disk[bucket], path)
      modifies this`disk
      ensures var parent := path[..|path| - 1];
              var reached := Reached(parent, if fault.Some? then fault.value else |path|);
              var made := MkdirAll(old(disk)[bucket], parent[..reached]);
              made.Some? && disk == old(disk)[bucket := made.value]
      ensures error == if fault.Some? then Some(FileSystem(EIO)) else None
      ensures fault.None? ==> MkdirAll(old(disk)[bucket], path[..|path| - 1]) == Some(disk[bucket])
      ensures SameObjects(old(disk))
    {
      var parent := path[..|path| - 1];
      var reach := Reached(parent, if fault.Some? then fault.value else |path|);
      ParentsCanBeMade(disk[bucket], path, reach);
      assert parent[..|parent|] == parent;
      var made := MkdirAll(disk[bucket], parent[..reach]);
      MkdirAllContents(disk[bucket], parent[..reach]);
      disk := disk[bucket := made.value];
      return if fault.Some? then Some(FileSystem(EIO)) else None;
    }

    /**
     * True exactly when the object existed and was removed, false when the name is free, an error
     * otherwise. Removing takes exactly this object out of the map, even when pruning its parents
     * stops early; when no `rmdir` fails, it also leaves no directory it emptied.
     */
    method DeleteObject(bucket: string, key: string, rmFails: bool, rmdirFails: nat -> bool)
      returns (r: Result<bool, StoreError>)
      modifies this`disk
      ensures r == Success(true) <==>
              && old(RequireBucket(bucket)).None? && ValidKey(key)
              && Lookup(old(disk)[bucket], KeyPath(key)).Some? && !rmFails
      ensures r == Success(false) <==>
              && old(RequireBucket(bucket)).None? && ValidKey(key)
              && At(old(disk)[bucket], KeyPath(key)).None? && !Blocked(old(disk)[bucket], KeyPath(key))
      ensures r == Success(true) ==>
                && bucket in disk && disk == old(disk)[bucket := disk[bucket]]
                && Objects(bucket) == Contents(old(disk)[bucket]) - {KeyPath(key)}
      ensures r == Success(true) ==>
                disk == old(disk)[bucket := TryOn(old(disk)[bucket], TryDelete(KeyPath(key), true, rmdirFails)).tree]
      ensures r == Success(true) && (forall n :: !rmdirFails(n)) ==>
                disk == old(disk)[bucket := Remove(old(disk)[bucket], KeyPath(key))]
      ensures r != Success(true) ==> disk == old(disk)
      ensures old(RequireBucket(bucket)).Some? ==> r == Failure(old(RequireBucket(bucket)).value)
      ensures old(RequireBucket(bucket)).None? && !ValidKey(key) ==> r == Failure(InvalidObjectName)
      ensures old(RequireBucket(bucket)).None? && ValidKey(key) && r.Failure? ==>
                r == Failure(FileSystem(
                       if Blocked(old(disk)[bucket], KeyPath(key)) then ENOTDIR else if rmFails then EIO else EISDIR))
    {
      var refusal := RequireBucket(bucket);
      if refusal.Some? { return Failure(refusal.value); }
      if !ValidKey(key) { return Failure(InvalidObjectName); }
      var path := KeyPath(key);
      ghost var tree := disk[bucket];
      if Blocked(disk[bucket], path) {
        if At(tree, path).Some? { FoundHasParent(tree, path); }
        return Failure(FileSystem(ENOTDIR));
      }
      if At(disk[bucket], path).None? { return Success(false); }
      if rmFails { return Failure(FileSystem(EIO)); }
      if At(disk[bucket], path).value.Dir? { return Failure(FileSystem(EISDIR)); }
      RemoveFile(bucket, path, rmdirFails);
      return Success(true);
    }

    /** A deletion once its `rm` goes through. */
    method RemoveFile(bucket: string, path: Path, rmdirFails: nat -> bool)
      requires bucket in disk && path != [] && Lookup(disk[bucket], path).Some?
      modifies this`disk
      ensures Unlink(old(disk)[bucket], path).Success?
      ensures disk ==
              old(disk)[bucket := PruneWhile(Unlink(old(disk)[bucket], path).value, path, |path| - 1, rmdirFails)]
      ensures Objects(bucket) == Contents(old(disk)[bucket]) - {path}
      ensures (forall n :: !rmdirFails(n)) ==> disk == old(disk)[bucket := Remove(old(disk)[bucket], path)]
    {
      ghost var tree := disk[bucket];
      UnlinkThenPruneRemoves(tree, path);
      UnlinkTakesOut(tree, path);
      var removed := Unlink(disk[bucket], path);
      disk := disk[bucket := removed.value];
      PruneParents(bucket, path, rmdirFails);
      if forall n :: !rmdirFails(n) { UnhinderedPrune(removed.value, path, |path| - 1, rmdirFails); }
    }

    /** Removes the directories a deletion left empty, upwards, never the bucket itself. */
    method PruneParents(bucket: string, path: Path, rmdirFails: nat -> bool)
      requires bucket in disk && path != []
      modifies this`disk
      ensures bucket in disk && disk == old(disk)[bucket := disk[bucket]]
      ensures Objects(bucket) == Contents(old(disk)[bucket])
      ensures disk[bucket] == PruneWhile(old(disk)[bucket], path, |path| - 1, rmdirFails)
    {
      var n := |path| - 1;
      while n > 0
        invariant 0 <= n < |path|
        invariant bucket in disk && disk == old(disk)[bucket := disk[bucket]]
        invariant Objects(bucket) == Contents(old(disk)[bucket])
        invariant PruneWhile(disk[bucket], path, n, rmdirFails) ==
                  PruneWhile(old(disk)[bucket], path, |path| - 1, rmdirFails)
      {
        var pruned := Rmdir(disk[bucket], path[..n]);
        if rmdirFails(n) || pruned.Failure? { break; }
        RmdirContents(disk[bucket], path[..n]);
        disk := disk[bucket := pruned.value];
        n := n - 1;
      }
    }

    /** The recursive directory walk of `listObjects`, in whatever order the directories are read. */
    method Visit(t: Node, parts: Path, prefix: string) returns (found: seq<ObjectRecord>)
      requires t.Dir? && WellNamed(t) && (forall i :: 0 <= i < |parts| ==> '/' !in parts[i])
      ensures forall r :: r in found <==> Listed(t, parts, prefix, md5, r)
      ensures DistinctKeys(found)
      decreases t
    {
      found := [];
      var left := t.entries.Keys;
      while left != {}
        invariant left <= t.entries.Keys
        invariant forall r :: r in found <==> Listed(Dir(t.entries - left), parts, prefix, md5, r)
        invariant DistinctKeys(found)
        decreases |left|
      {
        var name :| name in left;
        ghost var seen := found;
        ghost var before := t.entries - left;
        var nextParts := parts + [name];
        var below: seq<ObjectRecord>;
        if t.entries[name].Dir? {
          below := Visit(t.entries[name], nextParts, prefix);
        } else {
          var key := PathKey(nextParts);
          below := if IsPrefix(prefix, key)
          then [ObjectRecord(key, |t.entries[name].data|, md5(t.entries[name].data))] else [];
          FileListed(t.entries[name], nextParts, prefix, md5);
        }
        forall r ensures r in found + below <==> Listed(Dir(t.entries - (left - {name})), parts, prefix, md5, r) {
          ListedStep(t, parts, prefix, md5, left, name, r);
        }
        forall a, b | a in found && b in below ensures a.key != b.key {
          ListedApart(t, parts, prefix, md5, left, name, a, b);
        }
        found := found + below;
        left := left - {name};
      }
      assert t.entries - {} == t.entries;
    }

    /** Every object under the prefix exactly once, whatever the collation order `le`. */
    method ListObjects(bucket: string, prefix: string, le: (string, string) -> bool)
      returns (r: Result<seq<ObjectRecord>, StoreError>)
      requires bucket in disk ==> WellNamed(disk[bucket])
      ensures r.Success? <==> RequireBucket(bucket).None? && !RefusedPrefix(prefix)
      ensures r.Failure? ==>
                r.error == if RequireBucket(bucket).Some? then RequireBucket(bucket).value else InvalidPrefix
      ensures r.Success? ==> DistinctKeys(r.value)
      ensures r.Success? ==>
                forall key :: ListsKey(r.value, key) <==> KeyPath(key) in Objects(bucket) && IsPrefix(prefix, key)
      ensures r.Success? ==> forall e :: e in r.value ==>
                && KeyPath(e.key) in Objects(bucket)
                && e.size == |Objects(bucket)[KeyPath(e.key)]| && e.etag == md5(Objects(bucket)[KeyPath(e.key)])
      ensures r.Success? && Sorting.TotalPreorder(le) ==>
                forall i, j :: 0 <= i < j < |r.value| ==> le(r.value[i].key, r.value[j].key)
    {
      var refusal := RequireBucket(bucket);
      if refusal.Some? { return Failure(refusal.value); }
      if RefusedPrefix(prefix) { return Failure(InvalidPrefix); }
      var found := Visit(disk[bucket], [], prefix);
      var byKey := (a: ObjectRecord, b: ObjectRecord) => le(a.key, b.key);
      var sorted := Sorting.Sort(found, byKey);
      SameMembers(found, sorted);
      Sorting.DistinctByPermutes(found, sorted, (e: ObjectRecord) => e.key);
      ListedAreObjects(disk[bucket], prefix, md5, sorted);
      if Sorting.TotalPreorder(le) { Sorting.SortSorts(found, byKey); }
      return Success(sorted);
    }
  }

  // ---------- lemmas about one step of each operation ----------

  lemma SameMembers(s: seq<ObjectRecord>, t: seq<ObjectRecord>)
    requires multiset(s) == multiset(t)
    ensures forall e :: e in t <==> e in s
  {
    forall e ensures e in t <==> e in s {
      Sorting.InMultiset(t, e);
      Sorting.InMultiset(s, e);
    }
  }

  ghost predicate ListsKey(records: seq<ObjectRecord>, key: string) {
    exists e :: e in records && e.key == key
  }

  lemma ListedRecord(t: Node, prefix: string, md5: Bytes -> string, e: ObjectRecord)
    requires t.Dir? && WellNamed(t) && Listed(t, [], prefix, md5, e)
    ensures var objects := Contents(t);
            && KeyPath(e.key) in objects && IsPrefix(prefix, e.key)
            && e.size == |objects[KeyPath(e.key)]| && e.etag == md5(objects[KeyPath(e.key)])
  {
    var q :| IsRecordOf(t, [], q, md5, e);
    assert [] + q == q;
    LookupNames(t, q);
    KeysArePaths(e.key, q);
  }

  lemma ObjectIsListed(t: Node, prefix: string, md5: Bytes -> string, key: string)
    requires KeyPath(key) in Contents(t) && IsPrefix(prefix, key)
    ensures exists e :: Listed(t, [], prefix, md5, e) && e.key == key
  {
    var p := KeyPath(key);
    KeysArePaths(key, p);
    assert [] + p == p;
    var e := ObjectRecord(key, |Contents(t)[p]|, md5(Contents(t)[p]));
    assert IsRecordOf(t, [], p, md5, e);
    assert Listed(t, [], prefix, md5, e);
  }

  lemma ListedAreObjects(t: Node, prefix: string, md5: Bytes -> string, records: seq<ObjectRecord>)
    requires t.Dir? && WellNamed(t) && forall e :: e in records <==> Listed(t, [], prefix, md5, e)
    ensures forall key :: ListsKey(records, key) <==> KeyPath(key) in Contents(t) && IsPrefix(prefix, key)
    ensures forall e :: e in records ==>
              && KeyPath(e.key) in Contents(t)
              && e.size == |Contents(t)[KeyPath(e.key)]| && e.etag == md5(Contents(t)[KeyPath(e.key)])
  {
    forall e | e in records
      ensures KeyPath(e.key) in Contents(t) && IsPrefix(prefix, e.key)
      ensures e.size == |Contents(t)[KeyPath(e.key)]| && e.etag == md5(Contents(t)[KeyPath(e.key)])
    {
      ListedRecord(t, prefix, md5, e);
    }
    forall key | KeyPath(key) in Contents(t) && IsPrefix(prefix, key) ensures ListsKey(records, key) {
      ObjectIsListed(t, prefix, md5, key);
    }
  }

  ghost function MadeParents(t: Node, p: Path, faults: PutFaults): Option<Node>
    requires p != []
  {
    var parent := p[..|p| - 1];
    MkdirAll(t, parent[..Reached(parent, if faults.mkdir.Some? then faults.mkdir.value else |p|)])
  }

  /** The tree and its flat map after a put, from its answer. */
  lemma PutIsAttempt(t: Node, p: Path, body: Option<Bytes>, wrongDigest: bool, faults: PutFaults)
    requires p != []
    ensures var answer, after := PutAnswer(t, p, body, wrongDigest, faults), PutTree(t, p, body, wrongDigest, faults);
            && (Blocked(t, p) ==> after == t)
            && (answer.Some? && answer != Some(StatFailed) && !Blocked(t, p) ==>
                  MadeParents(t, p, faults) == Some(after))
            && (answer == None || answer == Some(StatFailed) ==>
                  && body.Some? && Insert(t, p, body.value) == Some(after)
                  && Contents(after) == Contents(t)[p := body.value])
            && (answer.Some? && answer != Some(StatFailed) ==> Contents(after) == Contents(t))
  {
    var parent := p[..|p| - 1];
    assert parent[..|parent|] == parent;
    var data := if body.Some? then body.value else [];
    TryPutContents(t, p, data, if faults.mkdir.Some? then faults.mkdir.value else |p|,
                   faults.mkdir.None? && body.Some? && !wrongDigest && !faults.rename);
    MkdirThenRenameInserts(t, p, data);
    var reach := Reached(parent, if faults.mkdir.Some? then faults.mkdir.value else |p|);
    if !Blocked(t, p) { ParentsCanBeMade(t, p, reach); }
  }

  /** A put that declares its own body's digest ends exactly as the same put without a declared digest. */
  lemma OwnDigestChangesNothing(t: Node, p: Path, body: Bytes, declared: string, digest: string, faults: PutFaults)
    requires p != [] && Lower(declared) == digest
    ensures PutAnswer(t, p, Some(body), WrongDigest(Some(declared), digest), faults) ==
            PutAnswer(t, p, Some(body), WrongDigest(None, digest), faults)
    ensures PutTree(t, p, Some(body), WrongDigest(Some(declared), digest), faults) ==
            PutTree(t, p, Some(body), WrongDigest(None, digest), faults)
  {}

  lemma FileListed(t: Node, parts: Path, prefix: string, md5: Bytes -> string)
    requires t.File?
    ensures forall r :: Listed(t, parts, prefix, md5, r) <==>
                        IsPrefix(prefix, r.key) && r == ObjectRecord(PathKey(parts), |t.data|, md5(t.data))
  {
    assert parts + [] == parts;
    forall r: ObjectRecord | IsPrefix(prefix, r.key) && r == ObjectRecord(PathKey(parts), |t.data|, md5(t.data))
      ensures Listed(t, parts, prefix, md5, r)
    {
      assert IsRecordOf(t, parts, [], md5, r);
    }
  }

  lemma ListedStep(t: Node, parts: Path, prefix: string, md5: Bytes -> string, left: set<string>, name: string,
                   r: ObjectRecord)
    requires t.Dir? && left <= t.entries.Keys && name in left
    ensures Listed(Dir(t.entries - (left - {name})), parts, prefix, md5, r) <==>
            || Listed(Dir(t.entries - left), parts, prefix, md5, r)
            || Listed(t.entries[name], parts + [name], prefix, md5, r)
  {
    var before, after := Dir(t.entries - left), Dir(t.entries - (left - {name}));
    forall q | IsRecordOf(after, parts, q, md5, r)
      ensures IsRecordOf(before, parts, q, md5, r) || IsRecordOf(t.entries[name], parts + [name], q[1..], md5, r)
    {
      assert q != [] && q == [q[0]] + q[1..];
      assert q[0] == name ==> parts + [name] + q[1..] == parts + q;
    }
    forall q | IsRecordOf(before, parts, q, md5, r)
      ensures IsRecordOf(after, parts, q, md5, r)
    {}
    forall q | IsRecordOf(t.entries[name], parts + [name], q, md5, r)
      ensures IsRecordOf(after, parts, [name] + q, md5, r)
    {
      assert parts + [name] + q == parts + ([name] + q);
      assert ([name] + q)[1..] == q;
    }
  }

  lemma {:induction false} LookupNames(t: Node, q: Path)
    requires WellNamed(t) && Lookup(t, q).Some?
    ensures forall i :: 0 <= i < |q| ==> '/' !in q[i]
    ensures t.Dir? ==> q != []
    decreases q
  {
    if q == [] {
    } else {
      LookupNames(t.entries[q[0]], q[1..]);
      forall i | 0 <= i < |q| ensures '/' !in q[i] {
        if i > 0 { assert q[i] == q[1..][i - 1]; }
      }
    }
  }

  /** Keys found under different entries of one directory differ. */
  lemma ListedApart(t: Node, parts: Path, prefix: string, md5: Bytes -> string, left: set<string>, name: string,
                    a: ObjectRecord, b: ObjectRecord)
    requires t.Dir? && WellNamed(t) && left <= t.entries.Keys && name in left
    requires forall i :: 0 <= i < |parts| ==> '/' !in parts[i]
    requires Listed(Dir(t.entries - left), parts, prefix, md5, a)
    requires Listed(t.entries[name], parts + [name], prefix, md5, b)
    ensures a.key != b.key
  {
    var before := Dir(t.entries - left);
    var p :| IsRecordOf(before, parts, p, md5, a);
    var q :| IsRecordOf(t.entries[name], parts + [name], q, md5, b);
    LookupNames(before, p);
    LookupNames(t.entries[name], q);
    var whole := parts + [name] + q;
    assert (parts + p)[|parts|] == p[0] && whole[|parts|] == name;
    if a.key == b.key {
      JoinInjective(parts + p, whole, '/');
      assert false;
    }
  }
}
