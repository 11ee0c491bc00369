/**
 * The store's catalogue: buckets and credentials in memory, their saved copy, and the bucket
 * directories under the root. Which saves and file-system calls fail is a parameter of each
 * operation, and every state of the disk is kept in a history, so that a crash is stopping at one
 * of them.
 */
module Catalogue {
  import opened Wrappers
  import opened Files
  import opened ObjectKeys
  import opened StoreErrors

  datatype BucketRecord = BucketRecord(createdAt: int, public: bool)
  datatype Credential = Credential(id: string, name: string, readOnly: bool, bucket: Option<string>)
  datatype State = State(nodeName: string, buckets: map<string, BucketRecord>, credentials: seq<Credential>)

  /** An entry of the storage root; `.openbucket` is not among them. */
  datatype Entry = Directory(birthtime: int, isEmpty: bool) | Other

  datatype Disk = Disk(saved: State, root: map<string, Entry>)

  predicate IsBucket(root: map<string, Entry>, name: string) {
    name in root && root[name].Directory? && ValidBucketName(name)
  }

  /** What discovery makes of the saved buckets: exactly the valid directories, known ones with their record. */
  function Discovered(buckets: map<string, BucketRecord>, root: map<string, Entry>): map<string, BucketRecord> {
    map name | name in root && IsBucket(root, name) ::
      if name in buckets then buckets[name] else BucketRecord(root[name].birthtime, false)
  }

  /**
   * What becomes of one name when looking at it may fail: a record whose `lstat` fails is
   * forgotten, and its directory is then adopted like an unknown one, unless its `stat` fails too.
   */
  function Finding(buckets: map<string, BucketRecord>, root: map<string, Entry>, name: string,
                   lstatFails: bool, statFails: bool): Option<BucketRecord>
  {
    if !IsBucket(root, name) then None
    else if name in buckets && !lstatFails then Some(buckets[name])
    else if !statFails then Some(BucketRecord(root[name].birthtime, false))
    else None
  }

  function DiscoveredDespite(buckets: map<string, BucketRecord>, root: map<string, Entry>,
                             lstatFails: string -> bool, statFails: string -> bool): map<string, BucketRecord>
  {
    map name | name in root && Finding(buckets, root, name, lstatFails(name), statFails(name)).Some? ::
      Finding(buckets, root, name, lstatFails(name), statFails(name)).value
  }

  /** The buckets the next open of the store finds. */
  function Reopened(d: Disk): map<string, BucketRecord> {
    Discovered(d.saved.buckets, d.root)
  }

  /** Wherever the store stopped, the next open finds `before`, except perhaps for one bucket. */
  ghost predicate OnlyDiffersAt(after: map<string, BucketRecord>, before: map<string, BucketRecord>, name: string) {
    after - {name} == before - {name}
  }

  predicate HasId(credentials: seq<Credential>, id: string) {
    exists k :: 0 <= k < |credentials| && credentials[k].id == id
  }

  /** `after` lacks exactly the first credential with this id. */
  ghost predicate RemovedFirst(before: seq<Credential>, after: seq<Credential>, id: string) {
    exists i: nat :: i < |before| && before[i].id == id && (forall k :: 0 <= k < i ==> before[k].id != id)
      && after == before[..i] + before[i + 1..]
  }

  ghost predicate Extends(history: seq<Disk>, before: seq<Disk>) {
    |before| <= |history| && history[..|before|] == before
  }

  /** Discovery forgets nothing and adopts nothing. */
  ghost predicate NothingNew(buckets: map<string, BucketRecord>, root: map<string, Entry>,
                             lstatFails: string -> bool, statFails: string -> bool)
  {
    && (forall n :: n in buckets ==> IsBucket(root, n) && !lstatFails(n))
    && forall n :: IsBucket(root, n) && !statFails(n) ==> n in buckets
  }

  /** The calls of a creation that fail. */
  datatype CreateFaults = CreateFaults(mkdir: bool, save: bool, rmdir: bool)

  /** The calls of a deletion that fail; `restore` is the rename that puts the directory back. */
  datatype DeleteFaults = DeleteFaults(opendir: bool, rename: bool, save: bool, restore: bool)

  class Catalogue {
    var state: State
    var saved: State
    var root: map<string, Entry>
    ghost var history: seq<Disk>

    /** Memory and state.json agree and a credential is left. */
    ghost predicate Agrees()
      reads this
    {
      state == saved && state.credentials != []
    }

    constructor (state: State, root: map<string, Entry>)
      ensures this.state == this.saved == state && this.root == root && history == [Disk(state, root)]
    {
      this.state, this.saved, this.root := state, state, root;
      history := [Disk(state, root)];
    }

    /** What has been recorded since ends with the disk as it is. */
    ghost predicate Witnessed(before: seq<Disk>)
      reads this
    {
      |history| > |before| ==> history[|history| - 1] == Disk(saved, root)
    }

    method Record()
      modifies this`history
      ensures history == old(history) + [Disk(saved, root)]
    {
      history := history + [Disk(saved, root)];
    }

    /** `save`: the state file is replaced whole or not at all. */
    method Save(fails: bool) returns (ok: bool)
      modifies this`saved, this`history
      ensures ok == !fails && saved == if ok then state else old(saved)
      ensures history == old(history) + [Disk(saved, root)]
    {
      if !fails { saved := state; }
      Record();
      return !fails;
    }

    function RequireBucket(name: string): (error: Option<StoreError>)
      reads this
      ensures error.None? <==> ValidBucketName(name) && name in state.buckets && name in root && root[name].Directory?
    {
      BucketRefusal(name, name in state.buckets, name in root, name in root && root[name].Directory?)
    }

    /**
     * Memory and file agree afterwards, also when saving failed; a crash on the way leaves the old
     * buckets, with or without the new one.
     */
    method CreateBucket(name: string, isPublic: bool, now: int, faults: CreateFaults)
      returns (r: Result<BucketRecord, StoreError>)
      requires Agrees()
      modifies this
      ensures Agrees() && state.credentials == old(state.credentials) && state.nodeName == old(state.nodeName)
      ensures r.Success? <==>
                && ValidBucketName(name) && name !in old(state.buckets) && name !in old(root)
                && !faults.mkdir && !faults.save
      ensures r.Success? ==>
                && state.buckets == old(state.buckets)[name := r.value] && r.value == BucketRecord(now, isPublic)
                && root == old(root)[name := Directory(now, true)]
      ensures r.Failure? ==>
                r.error == if !ValidBucketName(name) then InvalidBucketName
                           else if name in old(state.buckets) || name in old(root) then BucketAlreadyExists
                           else FileSystem(EIO)
      ensures r.Failure? ==>
                && state == old(state)
                && root == if r.error.FileSystem? && !faults.mkdir && faults.rmdir
                           then old(root)[name := Directory(now, true)] else old(root)
      ensures Extends(history, old(history)) && Witnessed(old(history))
      ensures ValidBucketName(name) && name !in old(state.buckets) && name !in old(root) && !faults.mkdir ==>
                && |history| > |old(history)|
                && history[|old(history)|] == Disk(old(saved), old(root)[name := Directory(now, true)])
      ensures forall k :: |old(history)| <= k < |history| ==>
                CreateStates(old(state).buckets, old(root), history[k], name, now, isPublic)
    {
      if !ValidBucketName(name) { return Failure(InvalidBucketName); }
      if name in state.buckets || name in root { return Failure(BucketAlreadyExists); }
      if faults.mkdir { return Failure(FileSystem(EIO)); }
      root := root[name := Directory(now, true)];
      Record();
      var record := BucketRecord(now, isPublic);
      var added := AddRecord(name, record, faults);
      if !added { return Failure(FileSystem(EIO)); }
      return Success(record);
    }

    /** The second half of a creation, once the directory exists. */
    method AddRecord(name: string, record: BucketRecord, faults: CreateFaults) returns (ok: bool)
      requires Agrees() && name !in state.buckets && name in root
      modifies this
      ensures ok == !faults.save && state == saved
      ensures saved == if ok then old(state).(buckets := old(state.buckets)[name := record]) else old(state)
      ensures root == if ok || faults.rmdir then old(root) else old(root) - {name}
      ensures Extends(history, old(history)) && |history| > |old(history)| && Witnessed(old(history))
      ensures forall k :: |old(history)| <= k < |history| ==>
                || history[k] == Disk(old(saved).(buckets := old(state.buckets)[name := record]), old(root))
                || history[k] == Disk(old(saved), old(root)) || history[k] == Disk(old(saved), old(root) - {name})
    {
      state := state.(buckets := state.buckets[name := record]);
      ok := Save(faults.save);
      if ok { return true; }
      state := state.(buckets := state.buckets - {name});
      assert state.buckets == old(state.buckets);
      if !faults.rmdir {
        root := root - {name};
        Record();
      }
    }

    /** Memory and file agree afterwards; a crash on the way leaves the old buckets, with or without this one. */
    method DeleteBucket(name: string, force: bool, faults: DeleteFaults) returns (error: Option<StoreError>)
      requires Agrees()
      modifies this
      ensures Agrees() && state.credentials == old(state.credentials) && state.nodeName == old(state.nodeName)
      ensures error == if old(RequireBucket(name)).Some? then old(RequireBucket(name))
                       else if !force && faults.opendir then Some(FileSystem(EIO))
                       else if !force && !old(root)[name].isEmpty then Some(BucketNotEmpty)
                       else if faults.rename || faults.save then Some(FileSystem(EIO))
                       else None
      ensures error.None? ==> state.buckets == old(state.buckets) - {name} && root == old(root) - {name}
      ensures error.Some? ==>
                && state == old(state)
                && root == if && old(RequireBucket(name)).None?
                              && (force || (!faults.opendir && old(root)[name].isEmpty))
                              && !faults.rename && faults.restore
                           then old(root) - {name} else old(root)
      ensures Extends(history, old(history)) && Witnessed(old(history))
      ensures error.None? ==>
                |history| > |old(history)| && history[|old(history)|] == Disk(old(saved), old(root) - {name})
      ensures forall k :: |old(history)| <= k < |history| ==>
                DeleteStates(old(state).buckets, old(root), history[k], name)
    {
      error := RequireBucket(name);
      if error.Some? { return error; }
      if !force {
        if faults.opendir { return Some(FileSystem(EIO)); }
        if !root[name].isEmpty { return Some(BucketNotEmpty); }
      }
      if faults.rename { return Some(FileSystem(EIO)); }
      var entry := root[name];
      root := root - {name};
      Record();
      error := ForgetBucket(name, entry, faults);
    }

    /** The second half of a deletion, once the directory is in the trash. */
    method ForgetBucket(name: string, entry: Entry, faults: DeleteFaults) returns (error: Option<StoreError>)
      requires Agrees() && name in state.buckets && name !in root
      modifies this
      ensures error == (if faults.save then Some(FileSystem(EIO)) else None) && state == saved
      ensures saved == if error.None? then old(state).(buckets := old(state.buckets) - {name}) else old(state)
      ensures root == if error.None? || faults.restore then old(root) else old(root)[name := entry]
      ensures Extends(history, old(history)) && |history| > |old(history)| && Witnessed(old(history))
      ensures forall k :: |old(history)| <= k < |history| ==>
                || history[k] == Disk(old(saved).(buckets := old(state.buckets) - {name}), old(root))
                || history[k] == Disk(old(saved), old(root)) || history[k] == Disk(old(saved), old(root)[name := entry])
    {
      var previous := state.buckets[name];
      state := state.(buckets := state.buckets - {name});
      var ok := Save(faults.save);
      if ok { return None; }
      state := state.(buckets := state.buckets[name := previous]);
      assert state.buckets == old(state.buckets);
      if !faults.restore {
        root := root[name := entry];
        Record();
      }
      return Some(FileSystem(EIO));
    }

    method SetBucketPublic(name: string, isPublic: bool, saveFails: bool) returns (error: Option<StoreError>)
      requires Agrees()
      modifies this
      ensures Agrees() && root == old(root)
      ensures error == if old(RequireBucket(name)).Some? then old(RequireBucket(name))
                       else if saveFails then Some(FileSystem(EIO)) else None
      ensures error.Some? ==> state == old(state)
      ensures error.None? ==>
                && name in old(state.buckets)
                && state == old(state).(buckets := state.buckets)
                && state.buckets == old(state.buckets)[name := old(state.buckets)[name].(public := isPublic)]
    {
      error := RequireBucket(name);
      if error.Some? { return error; }
      var previous := state.buckets[name].public;
      state := state.(buckets := state.buckets[name := state.buckets[name].(public := isPublic)]);
      var ok := Save(saveFails);
      if !ok {
        state := state.(buckets := state.buckets[name := state.buckets[name].(public := previous)]);
        assert state.buckets == old(state.buckets);
        return Some(FileSystem(EIO));
      }
      return None;
    }

    method SetNodeName(name: string, saveFails: bool) returns (error: Option<StoreError>)
      requires Agrees()
      modifies this
      ensures Agrees() && root == old(root)
      ensures error == if saveFails then Some(FileSystem(EIO)) else None
      ensures state == if error.None? then old(state).(nodeName := name) else old(state)
    {
      var previous := state.nodeName;
      state := state.(nodeName := name);
      var ok := Save(saveFails);
      if !ok {
        state := state.(nodeName := previous);
        return Some(FileSystem(EIO));
      }
      return None;
    }

    method CreateCredential(credential: Credential, saveFails: bool) returns (error: Option<StoreError>)
      requires Agrees()
      modifies this
      ensures Agrees() && root == old(root)
      ensures error == if && credential.bucket.Some? && credential.bucket.value != ""
                          && old(RequireBucket(credential.bucket.value)).Some?
                       then old(RequireBucket(credential.bucket.value))
                       else if saveFails then Some(FileSystem(EIO)) else None
      ensures state == if error.None? then old(state).(credentials := old(state.credentials) + [credential])
                       else old(state)
    {
      if credential.bucket.Some? && credential.bucket.value != "" {
        error := RequireBucket(credential.bucket.value);
        if error.Some? { return error; }
      }
      state := state.(credentials := state.credentials + [credential]);
      var ok := Save(saveFails);
      if !ok {
        state := state.(credentials := state.credentials[..|state.credentials| - 1]);
        return Some(FileSystem(EIO));
      }
      return None;
    }

    /** Removes exactly one credential and never the last; a failed save puts it back where it was. */
    method DeleteCredential(id: string, saveFails: bool) returns (error: Option<StoreError>)
      requires Agrees()
      modifies this
      ensures Agrees() && root == old(root)
      ensures error.Some? ==> state == old(state)
      ensures error.None? ==>
                && state == old(state).(credentials := state.credentials)
                && RemovedFirst(old(state.credentials), state.credentials, id)
      ensures error == if !HasId(old(state.credentials), id) then Some(NoSuchAccessKey)
                       else if |old(state.credentials)| == 1 then Some(LastAccessKey)
                       else if saveFails then Some(FileSystem(EIO)) else None
    {
      var index := 0;
      while index < |state.credentials| && state.credentials[index].id != id
        invariant 0 <= index <= |state.credentials| && state == old(state) && history == old(history)
        invariant forall k :: 0 <= k < index ==> state.credentials[k].id != id
      {
        index := index + 1;
      }
      if index == |state.credentials| { return Some(NoSuchAccessKey); }
      if |state.credentials| == 1 { return Some(LastAccessKey); }
      var removed := state.credentials[index];
      state := state.(credentials := state.credentials[..index] + state.credentials[index + 1..]);
      var ok := Save(saveFails);
      if !ok {
        state := state.(credentials := state.credentials[..index] + [removed] + state.credentials[index..]);
        assert state.credentials == old(state.credentials);
        return Some(FileSystem(EIO));
      }
      return None;
    }

    /** The first loop of `discoverBuckets`: forget records without a valid directory, or whose `lstat` fails. */
    method ForgetMissing(lstatFails: string -> bool) returns (changed: bool)
      modifies this`state
      ensures state == old(state).(buckets := state.buckets)
      ensures forall n :: n in state.buckets <==> n in old(state.buckets) && IsBucket(root, n) && !lstatFails(n)
      ensures forall n :: n in state.buckets ==> state.buckets[n] == old(state.buckets)[n]
      ensures changed <==> exists n :: n in old(state.buckets) && !(IsBucket(root, n) && !lstatFails(n))
      ensures !changed ==> state == old(state)
    {
      changed := false;
      ghost var gone := "";
      var names := state.buckets.Keys;
      while names != {}
        invariant names <= state.buckets.Keys
        invariant state == old(state).(buckets := state.buckets)
        invariant forall n :: n in state.buckets <==>
                    n in old(state.buckets) && (n in names || (IsBucket(root, n) && !lstatFails(n)))
        invariant forall n :: n in state.buckets ==> state.buckets[n] == old(state.buckets)[n]
        invariant changed ==> gone in old(state.buckets) && !(IsBucket(root, gone) && !lstatFails(gone))
        invariant !changed ==>
                    forall n :: n in old(state.buckets) && n !in names ==> IsBucket(root, n) && !lstatFails(n)
        invariant !changed ==> state == old(state)
        decreases |names|
      {
        var name :| name in names;
        if !IsBucket(root, name) || lstatFails(name) {
          state := state.(buckets := state.buckets - {name});
          changed, gone := true, name;
        }
        names := names - {name};
      }
    }

    /** The second loop: adopt valid directories without a record, as private buckets, unless their `stat` fails. */
    method AdoptFound(statFails: string -> bool) returns (changed: bool)
      modifies this`state
      ensures state == old(state).(buckets := state.buckets)
      ensures forall n :: n in state.buckets <==> n in old(state.buckets) || (IsBucket(root, n) && !statFails(n))
      ensures forall n :: n in old(state.buckets) ==> state.buckets[n] == old(state.buckets)[n]
      ensures forall n :: n in state.buckets && n !in old(state.buckets) && IsBucket(root, n) ==>
                state.buckets[n] == BucketRecord(root[n].birthtime, false)
      ensures changed <==> exists n :: IsBucket(root, n) && !statFails(n) && n !in old(state.buckets)
      ensures !changed ==> state == old(state)
    {
      changed := false;
      ghost var found := "";
      var entries := root.Keys;
      while entries != {}
        invariant entries <= root.Keys
        invariant state == old(state).(buckets := state.buckets)
        invariant forall n :: n in state.buckets <==>
                    n in old(state.buckets) || (n !in entries && IsBucket(root, n) && !statFails(n))
        invariant forall n :: n in old(state.buckets) ==> state.buckets[n] == old(state.buckets)[n]
        invariant forall n :: n in state.buckets && n !in old(state.buckets) && IsBucket(root, n) ==>
                    state.buckets[n] == BucketRecord(root[n].birthtime, false)
        invariant changed ==> IsBucket(root, found) && !statFails(found) && found !in old(state.buckets)
        invariant !changed ==> state == old(state)
        decreases |entries|
      {
        var name :| name in entries;
        if name !in state.buckets && IsBucket(root, name) && !statFails(name) {
          state := state.(buckets := state.buckets[name := BucketRecord(root[name].birthtime, false)]);
          changed, found := true, name;
        }
        entries := entries - {name};
      }
    }

    /** `discoverBuckets`, as the store runs it when it opens: forget what is gone, adopt what is there. */
    method DiscoverBuckets(lstatFails: string -> bool, statFails: string -> bool, saveFails: bool)
      returns (ok: bool)
      requires state == saved
      modifies this
      ensures state == old(state).(buckets := DiscoveredDespite(old(state.buckets), root, lstatFails, statFails))
      ensures root == old(root)
      ensures (forall n :: !lstatFails(n) && !statFails(n)) ==> Matches(state.buckets, root)
      ensures ok ==> state == saved
      ensures ok <==> !saveFails || NothingNew(old(state.buckets), root, lstatFails, statFails)
    {
      var changed := FindBuckets(lstatFails, statFails);
      ok := true;
      if changed {
        ok := Save(saveFails);
      }
    }

    /** Its two loops. */
    method FindBuckets(lstatFails: string -> bool, statFails: string -> bool) returns (changed: bool)
      modifies this`state
      ensures state == old(state).(buckets := DiscoveredDespite(old(state.buckets), root, lstatFails, statFails))
      ensures !changed <==> NothingNew(old(state.buckets), root, lstatFails, statFails)
      ensures !changed ==> state == old(state)
    {
      var forgot := ForgetMissing(lstatFails);
      ghost var kept := state.buckets;
      var adopted := AdoptFound(statFails);
      FindingsMakeUp(kept, state.buckets, old(state.buckets), root, lstatFails, statFails);
      changed := forgot || adopted;
    }
  }

  // ---------- failing look-ups ----------

  /** Forgetting and then adopting makes of each name what is found for it. */
  lemma FindingsMakeUp(kept: map<string, BucketRecord>, found: map<string, BucketRecord>,
                       buckets: map<string, BucketRecord>, root: map<string, Entry>,
                       lstatFails: string -> bool, statFails: string -> bool)
    requires forall n :: n in kept <==> n in buckets && IsBucket(root, n) && !lstatFails(n)
    requires forall n :: n in kept ==> kept[n] == buckets[n]
    requires forall n :: n in found <==> n in kept || (IsBucket(root, n) && !statFails(n))
    requires forall n :: n in kept ==> found[n] == kept[n]
    requires forall n :: n in found && n !in kept && IsBucket(root, n) ==>
               found[n] == BucketRecord(root[n].birthtime, false)
    ensures found == DiscoveredDespite(buckets, root, lstatFails, statFails)
  {
    var despite := DiscoveredDespite(buckets, root, lstatFails, statFails);
    forall n ensures (n in found <==> n in despite) && (n in found ==> found[n] == despite[n]) {
      var finding := Finding(buckets, root, n, lstatFails(n), statFails(n));
    }
  }

  /** No failure changes what becomes of this name. */
  predicate Untroubled(buckets: map<string, BucketRecord>, root: map<string, Entry>, name: string,
                       lstatFails: bool, statFails: bool)
  {
    IsBucket(root, name) ==>
      if name !in buckets then !statFails
      else lstatFails ==> !statFails && buckets[name] == BucketRecord(root[name].birthtime, false)
  }

  lemma UntroubledIff(buckets: map<string, BucketRecord>, root: map<string, Entry>, name: string,
                      lstatFails: bool, statFails: bool)
    ensures Finding(buckets, root, name, lstatFails, statFails) == Finding(buckets, root, name, false, false) <==>
            Untroubled(buckets, root, name, lstatFails, statFails)
  {}

  /**
   * Whatever fails, discovery finds only valid directories. It finds exactly all of them with their
   * known records if and only if no `stat` of an unknown one fails, and no `lstat` of a known one,
   * save where the directory is adopted again with the very same record.
   */
  lemma DiscoveryExactIff(buckets: map<string, BucketRecord>, root: map<string, Entry>,
                          lstatFails: string -> bool, statFails: string -> bool)
    ensures forall name :: name in DiscoveredDespite(buckets, root, lstatFails, statFails) ==> IsBucket(root, name)
    ensures DiscoveredDespite(buckets, root, lstatFails, statFails) == Discovered(buckets, root) <==>
            forall name :: Untroubled(buckets, root, name, lstatFails(name), statFails(name))
  {
    var despite, found := DiscoveredDespite(buckets, root, lstatFails, statFails), Discovered(buckets, root);
    forall name
      ensures MapsTo(despite, name) == Finding(buckets, root, name, lstatFails(name), statFails(name))
      ensures MapsTo(found, name) == Finding(buckets, root, name, false, false)
      ensures MapsTo(despite, name) == MapsTo(found, name) <==>
              Untroubled(buckets, root, name, lstatFails(name), statFails(name))
    {
      UntroubledIff(buckets, root, name, lstatFails(name), statFails(name));
    }
    SameMaps(despite, found);
  }

  function MapsTo(m: map<string, BucketRecord>, name: string): Option<BucketRecord> {
    if name in m then Some(m[name]) else None
  }

  lemma SameMaps(m: map<string, BucketRecord>, n: map<string, BucketRecord>)
    ensures m == n <==> forall name :: MapsTo(m, name) == MapsTo(n, name)
  {
    if forall name :: MapsTo(m, name) == MapsTo(n, name) {
      forall name ensures (name in m <==> name in n) && (name in m ==> m[name] == n[name]) {
        assert MapsTo(m, name) == MapsTo(n, name);
      }
    }
  }

  // ---------- crashing on the way ----------

  /** The states of the disk a creation passes through. */
  ghost predicate CreateStates(buckets: map<string, BucketRecord>, root: map<string, Entry>, d: Disk, name: string,
                               now: int, isPublic: bool)
  {
    var record := BucketRecord(now, isPublic);
    || (d.saved.buckets == buckets && (d.root == root || d.root == root[name := Directory(now, true)]))
    || (d.saved.buckets == buckets[name := record] && d.root == root[name := Directory(now, true)])
  }

  ghost predicate DeleteStates(buckets: map<string, BucketRecord>, root: map<string, Entry>, d: Disk, name: string) {
    || (d.saved.buckets == buckets && (d.root == root || d.root == root - {name}))
    || (d.saved.buckets == buckets - {name} && d.root == root - {name})
  }

  ghost predicate Matches(buckets: map<string, BucketRecord>, root: map<string, Entry>) {
    forall name :: name in buckets <==> IsBucket(root, name)
  }

  /** Completed creations and deletions keep the catalogue in step with the directories. */
  lemma CompletedKeepsMatch(buckets: map<string, BucketRecord>, root: map<string, Entry>, name: string, now: int,
                            record: BucketRecord)
    requires Matches(buckets, root) && ValidBucketName(name)
    ensures Matches(buckets[name := record], root[name := Directory(now, true)])
    ensures Matches(buckets - {name}, root - {name})
  {
    var made := root[name := Directory(now, true)];
    forall n ensures n in buckets[name := record] <==> IsBucket(made, n) {
      assert n != name ==> (IsBucket(made, n) <==> IsBucket(root, n));
    }
    forall n ensures n in buckets - {name} <==> IsBucket(root - {name}, n) {
      assert n != name ==> (IsBucket(root - {name}, n) <==> IsBucket(root, n));
    }
  }

  /** Reopening always yields exactly the valid directories under the root. */
  lemma ReopenedIsDirectories(d: Disk)
    ensures Matches(Reopened(d), d.root)
    ensures forall name :: name in Reopened(d) && name in d.saved.buckets ==> Reopened(d)[name] == d.saved.buckets[name]
  {}

  /** What reopening makes of a name depends on that name's record and directory entry alone. */
  lemma ReopenedElsewhere(d: Disk, buckets: map<string, BucketRecord>, root: map<string, Entry>, name: string)
    requires Matches(buckets, root)
    requires forall n :: n != name ==> (n in d.saved.buckets <==> n in buckets) && (n in d.root <==> n in root)
    requires forall n :: n != name && n in buckets ==> d.saved.buckets[n] == buckets[n]
    requires forall n :: n != name && n in root ==> d.root[n] == root[n]
    ensures OnlyDiffersAt(Reopened(d), buckets, name)
  {
    forall n | n != name
      ensures n in Reopened(d) <==> n in buckets
      ensures n in buckets ==> Reopened(d)[n] == buckets[n]
    {
      assert IsBucket(d.root, n) <==> IsBucket(root, n);
    }
  }

  /**
   * A creation interrupted anywhere: the next open finds every other bucket as it was, and the new
   * one either not at all, or as requested, or as a private bucket.
   */
  lemma CrashedCreate(buckets: map<string, BucketRecord>, root: map<string, Entry>, d: Disk, name: string, now: int,
                      isPublic: bool)
    requires Matches(buckets, root) && ValidBucketName(name) && name !in buckets && name !in root
    requires CreateStates(buckets, root, d, name, now, isPublic)
    ensures OnlyDiffersAt(Reopened(d), buckets, name)
    ensures name in Reopened(d) ==>
              Reopened(d)[name] == BucketRecord(now, isPublic) || Reopened(d)[name] == BucketRecord(now, false)
  {
    ReopenedElsewhere(d, buckets, root, name);
  }

  /**
   * A deletion interrupted anywhere: the next open finds every other bucket as it was, and this one
   * unchanged or gone.
   */
  lemma CrashedDelete(buckets: map<string, BucketRecord>, root: map<string, Entry>, d: Disk, name: string)
    requires Matches(buckets, root) && name in buckets
    requires DeleteStates(buckets, root, d, name)
    ensures OnlyDiffersAt(Reopened(d), buckets, name)
    ensures name in Reopened(d) ==> Reopened(d)[name] == buckets[name]
  {
    ReopenedElsewhere(d, buckets, root, name);
  }
}
