/**
 * The upload client against the multipart store, over a network that may lose a request, lose a
 * response after the request took effect, or deliver a copy of an earlier part late.
 */
module UploadClient {
  import opened Wrappers
  import opened Sorting
  import opened Files
  import opened StoreErrors
  import opened MultipartStore
  import opened Tiling

  datatype UploadError = Aborted | Failed

  /** What becomes of a request: whether it and its response arrive, and whether the caller cancels it first. */
  datatype Exchange = Exchange(arrives: bool, answered: bool, cancelled: bool) {
    predicate GoesThrough() {
      arrives && answered && !cancelled
    }

    /** What the caller sees when the request did not go through. */
    function Error(): UploadError {
      if cancelled then Aborted else Failed
    }
  }

  /** A copy of a request for an earlier slice, held up in the network. */
  datatype LateCopy = LateCopy(index: nat, fault: PartFault)

  /** One attempt to store a part, the progress last reported for it, and a copy that arrives before it. */
  datatype Attempt = Attempt(exchange: Exchange, fault: PartFault, loaded: nat, late: Option<LateCopy>) {
    predicate GoesThrough() {
      exchange.GoesThrough() && fault == NoFault
    }
  }

  /** Everything the network and the server's disk do to one upload; attempts are given by part and count from 1. */
  datatype Network = Network(
    start: Exchange,
    attempts: nat -> int -> Attempt,
    completion: Exchange,
    fault: CompletionFault,
    cleanupArrives: bool)
  {
    /** Attempt `k` for this part stores it and says so; the server takes 10000 parts. */
    predicate Stores(index: nat, k: int) {
      index < 10000 && attempts(index)(k).GoesThrough()
    }

    /** What one part ends with from attempt `k` on; None once it got through. */
    function PartEnd(index: nat, k: int, maxRetries: int): Option<UploadError>
      decreases maxRetries - k
    {
      if k > maxRetries then Some(Failed)
      else if Stores(index, k) then None
      else if attempts(index)(k).exchange.cancelled then Some(Aborted)
      else PartEnd(index, k + 1, maxRetries)
    }

    /** What the parts from `index` on end with. */
    function PartsEnd(index: nat, count: nat, maxRetries: int): Option<UploadError>
      decreases count - index
    {
      if index >= count then None
      else if PartEnd(index, 1, maxRetries).Some? then PartEnd(index, 1, maxRetries)
      else PartsEnd(index + 1, count, maxRetries)
    }

    /** What the upload ends with; None is success. */
    function End(count: nat, maxRetries: int): Option<UploadError> {
      if !start.GoesThrough() then Some(start.Error())
      else if PartsEnd(0, count, maxRetries).Some? then PartsEnd(0, count, maxRetries)
      else if !completion.GoesThrough() then Some(completion.Error())
      else if fault != NoFailure then Some(Failed)
      else None
    }

    /** One attempt within the limit stores the part, and none before it was cancelled. */
    ghost predicate PartGetsThrough(index: nat, maxRetries: int) {
      exists k :: 1 <= k <= maxRetries && GetsThroughAt(index, 1, k)
    }

    predicate GetsThroughAt(index: nat, first: int, k: int) {
      Stores(index, k) && forall j :: first <= j < k ==> !attempts(index)(j).exchange.cancelled
    }
  }

  lemma {:induction false} PartEndIff(network: Network, index: nat, first: int, maxRetries: int)
    ensures network.PartEnd(index, first, maxRetries).None? <==>
            exists k :: first <= k <= maxRetries && network.GetsThroughAt(index, first, k)
    decreases maxRetries - first
  {
    if first > maxRetries {
    } else {
      var next := first + 1;
      PartEndIff(network, index, next, maxRetries);
      forall k | first <= k <= maxRetries
        ensures network.GetsThroughAt(index, first, k) <==>
                if k == first then network.Stores(index, k)
                else !network.attempts(index)(first).exchange.cancelled && network.GetsThroughAt(index, next, k)
      {}
      if network.Stores(index, first) { assert network.GetsThroughAt(index, first, first); }
      if k :| next <= k <= maxRetries && network.GetsThroughAt(index, next, k) {
        assert network.GetsThroughAt(index, first, k) <==> !network.attempts(index)(first).exchange.cancelled;
      }
    }
  }

  lemma {:induction false} PartsEndIff(network: Network, index: nat, count: nat, maxRetries: int)
    ensures network.PartsEnd(index, count, maxRetries).None? <==>
            forall i :: index <= i < count ==> network.PartGetsThrough(i, maxRetries)
    decreases count - index
  {
    if index >= count {
    } else {
      PartEndIff(network, index, 1, maxRetries);
      PartsEndIff(network, index + 1, count, maxRetries);
      assert network.PartEnd(index, 1, maxRetries).None? <==> network.PartGetsThrough(index, maxRetries);
    }
  }

  /** The parts numbered beyond 10000 never get through. */
  lemma TooManyParts(network: Network, index: nat, maxRetries: int)
    requires index >= 10000
    ensures !network.PartGetsThrough(index, maxRetries)
  {}

  /** An upload works exactly if its start, each of its at most 10000 parts and its completion get through. */
  lemma WorksIff(network: Network, count: nat, maxRetries: int)
    ensures network.End(count, maxRetries).None? <==>
            && network.start.GoesThrough() && network.completion.GoesThrough() && network.fault == NoFailure
            && count <= 10000
            && forall index: nat :: index < count ==> network.PartGetsThrough(index, maxRetries)
  {
    PartsEndIff(network, 0, count, maxRetries);
    if count > 10000 { TooManyParts(network, 10000, maxRetries); }
  }

  /** Every stored part holds its slice of the file, and a recorded etag is that slice's. */
  ghost predicate PartsMatch(u: Upload, target: Target, tiles: seq<Bytes>, md5: Bytes -> string) {
    && u.target == target
    && (forall n :: n in u.parts ==> 1 <= n <= |tiles| && u.parts[n] == tiles[n - 1])
    && (forall n :: n in u.etags ==> 1 <= n <= |tiles| && u.etags[n] == md5(tiles[n - 1]))
  }

  /** The list of parts `1..n` sent with the completion request. */
  function PartList(tiles: seq<Bytes>, n: nat, md5: Bytes -> string): (r: seq<PartRef>)
    requires n <= |tiles|
    ensures |r| == n && forall i :: 0 <= i < n ==> r[i] == PartRef(i + 1, Some(md5(tiles[i])))
  {
    if n == 0 then [] else PartList(tiles, n - 1, md5) + [PartRef(n, Some(md5(tiles[n - 1])))]
  }

  lemma {:induction false} SortSorted(parts: seq<PartRef>)
    requires forall i, j :: 0 <= i < j < |parts| ==> ByNumber(parts[i], parts[j])
    ensures Sort(parts, ByNumber) == parts
  {
    if parts == [] {
    } else {
      SortSorted(parts[1..]);
      assert parts == [parts[0]] + parts[1..];
    }
  }

  ghost predicate HoldsTiles(u: Upload, tiles: seq<Bytes>, n: nat)
    requires n <= |tiles|
  {
    forall p :: 1 <= p <= n ==> p in u.parts && u.parts[p] == tiles[p - 1]
  }

  lemma {:induction false} ConcatList(u: Upload, tiles: seq<Bytes>, n: nat, md5: Bytes -> string)
    requires n <= |tiles| && HoldsTiles(u, tiles, n)
    ensures forall p :: p in PartList(tiles, n, md5) ==> p.partNumber in u.parts
    ensures ConcatParts(u, PartList(tiles, n, md5)) == Concat(tiles[..n])
  {
    ListedPresent(u, tiles, n, md5);
    if n == 0 {
      assert tiles[..0] == [];
    } else {
      ConcatList(u, tiles, n - 1, md5);
      ConcatOneMore(u, PartList(tiles, n - 1, md5), PartRef(n, Some(md5(tiles[n - 1]))));
      ConcatUpTo(tiles, n);
    }
  }

  lemma ConcatUpTo(tiles: seq<Bytes>, n: nat)
    requires 0 < n <= |tiles|
    ensures Concat(tiles[..n]) == Concat(tiles[..n - 1]) + tiles[n - 1]
  {
    var front := tiles[..n - 1];
    assert tiles[..n] == front + [tiles[n - 1]];
    ConcatSnoc(front, tiles[n - 1]);
  }

  lemma ListedPresent(u: Upload, tiles: seq<Bytes>, n: nat, md5: Bytes -> string)
    requires n <= |tiles| && HoldsTiles(u, tiles, n)
    ensures forall p :: p in PartList(tiles, n, md5) ==> p.partNumber in u.parts
  {
    var list := PartList(tiles, n, md5);
    forall p | p in list ensures p.partNumber in u.parts {
      var i :| 0 <= i < |list| && list[i] == p;
      assert list[i].partNumber == i + 1;
    }
  }

  lemma ConcatOneMore(u: Upload, init: seq<PartRef>, last: PartRef)
    requires forall p :: p in init ==> p.partNumber in u.parts
    requires last.partNumber in u.parts
    ensures forall p :: p in init + [last] ==> p.partNumber in u.parts
    ensures ConcatParts(u, init + [last]) == ConcatParts(u, init) + u.parts[last.partNumber]
  {
    assert (init + [last])[..|init|] == init;
  }

  lemma {:induction false} ConcatSnoc(tiles: seq<Bytes>, last: Bytes)
    ensures Concat(tiles + [last]) == Concat(tiles) + last
  {
    if tiles == [] {
      assert [last][1..] == [];
    } else {
      assert (tiles + [last])[1..] == tiles[1..] + [last];
      ConcatSnoc(tiles[1..], last);
    }
  }

  lemma FullListOk(u: Upload, target: Target, tiles: seq<Bytes>, md5: Bytes -> string)
    requires PartsMatch(u, target, tiles, md5)
    requires forall k :: 1 <= k <= |tiles| ==> k in u.parts && k in u.etags
    ensures HoldsTiles(u, tiles, |tiles|)
    ensures forall p :: p in PartList(tiles, |tiles|, md5) ==> PartOk(u, p)
  {
    var list := PartList(tiles, |tiles|, md5);
    forall p | p in list ensures PartOk(u, p) {
      var i :| 0 <= i < |list| && list[i] == p;
      var n := i + 1;
      assert 1 <= n <= |tiles| && n in u.parts && n in u.etags;
      assert p == PartRef(n, Some(md5(tiles[n - 1])));
    }
  }

  /** Completing with the full list assembles exactly the file. */
  lemma FullListCompletes(uploads: map<UploadId, Upload>, id: UploadId, target: Target, file: Bytes, partSize: nat,
                          md5: Bytes -> string)
    requires partSize > 0 && id in uploads && PartsMatch(uploads[id], target, Tiles(file, partSize), md5)
    requires forall k :: 1 <= k <= |Tiles(file, partSize)| ==> k in uploads[id].parts && k in uploads[id].etags
    ensures var tiles := Tiles(file, partSize);
            Completed(uploads, id, target, PartList(tiles, |tiles|, md5)) == Success(file)
  {
    var tiles := Tiles(file, partSize);
    var list := PartList(tiles, |tiles|, md5);
    var u := uploads[id];
    FullListOk(u, target, tiles, md5);
    ListInOrder(tiles, |tiles|, md5);
    assert Completed(uploads, id, target, list) == Success(ConcatParts(u, list));
    ConcatList(u, tiles, |tiles|, md5);
    WholeConcat(tiles);
    TilesConcat(file, partSize);
  }

  /** The server puts the list in order itself: however the full part list is arranged, it completes to the file. */
  lemma AnyOrderCompletes(uploads: map<UploadId, Upload>, id: UploadId, target: Target, file: Bytes, partSize: nat,
                          md5: Bytes -> string, parts: seq<PartRef>)
    requires partSize > 0 && id in uploads && PartsMatch(uploads[id], target, Tiles(file, partSize), md5)
    requires forall k :: 1 <= k <= |Tiles(file, partSize)| ==> k in uploads[id].parts && k in uploads[id].etags
    requires var tiles := Tiles(file, partSize); multiset(parts) == multiset(PartList(tiles, |tiles|, md5))
    ensures Completed(uploads, id, target, parts) == Success(file)
  {
    var tiles := Tiles(file, partSize);
    var list := PartList(tiles, |tiles|, md5);
    FullListCompletes(uploads, id, target, file, partSize, md5);
    SameOrdered(parts, list);
    SameOutcome(uploads, id, target, parts, list);
  }

  /** The outcome depends on the listed parts and on the order they are put in. */
  lemma SameOutcome(uploads: map<UploadId, Upload>, id: UploadId, target: Target, parts: seq<PartRef>,
                    list: seq<PartRef>)
    requires multiset(parts) == multiset(list) && Sort(parts, ByNumber) == Sort(list, ByNumber)
    ensures Completed(uploads, id, target, parts) == Completed(uploads, id, target, list)
  {
    SortKeepsMembers(parts);
    SortKeepsMembers(list);
    assert |multiset(parts)| == |multiset(list)|;
  }

  /** Arrangements of parts with different numbers are put in the same order. */
  lemma SameOrdered(parts: seq<PartRef>, list: seq<PartRef>)
    requires multiset(parts) == multiset(list)
    requires forall i :: 0 <= i < |list| ==> list[i].partNumber == i + 1
    ensures Sort(parts, ByNumber) == Sort(list, ByNumber)
  {
    ByNumberOrders();
    SortSorts(parts, ByNumber);
    SortSorts(list, ByNumber);
    SortKeepsMembers(list);
    SortedUnique(Sort(list, ByNumber), Sort(parts, ByNumber), ByNumber);
  }

  lemma ListInOrder(tiles: seq<Bytes>, n: nat, md5: Bytes -> string)
    requires n <= |tiles|
    ensures Sort(PartList(tiles, n, md5), ByNumber) == PartList(tiles, n, md5)
  {
    SortSorted(PartList(tiles, n, md5));
  }

  lemma WholeConcat(tiles: seq<Bytes>)
    ensures Concat(tiles[..|tiles|]) == Concat(tiles)
  {
    assert tiles[..|tiles|] == tiles;
  }

  class UploadClient {
    const server: MultipartStore
    const target: Target
    const file: Bytes
    const partSize: nat
    const progress: array<nat>

    ghost predicate Valid()
      reads this, server, progress
    {
      && server.Valid() && partSize > 0
      && progress.Length == PartCount(|file|, partSize)
      && forall i :: 0 <= i < progress.Length ==> progress[i] <= |Slice(i)|
    }

    /** The bytes of part `index + 1`. */
    function Slice(index: nat): Bytes
      requires partSize > 0
    {
      var tiles := Tiles(file, partSize);
      if index < |tiles| then tiles[index] else []
    }

    constructor (server: MultipartStore, target: Target, file: Bytes, partSize: nat)
      requires server.Valid() && partSize > 0
      ensures Valid() && fresh(progress)
      ensures this.server == server && this.target == target && this.file == file && this.partSize == partSize
    {
      this.server, this.target, this.file, this.partSize := server, target, file, partSize;
      var count := PartCount(|file|, partSize);
      progress := new nat[count](_ => 0);
    }

    /** The total reported to the caller never exceeds the file's size. */
    method ReportProgress() returns (loaded: nat)
      requires Valid()
      ensures loaded == Sum(progress[..]) <= |file|
    {
      loaded := 0;
      for i := 0 to progress.Length
        invariant loaded == Sum(progress[..i])
      {
        assert progress[..i + 1][..i] == progress[..i];
        loaded := loaded + progress[i];
      }
      assert progress[..progress.Length] == progress[..];
      TilesCount(file, partSize);
      var lengths := Lengths(Tiles(file, partSize));
      forall i | 0 <= i < progress.Length ensures progress[i] <= lengths[i] {
        assert progress[i] <= |Slice(i)|;
      }
      SumMonotone(progress[..], lengths);
      SumLengths(Tiles(file, partSize));
      TilesConcat(file, partSize);
    }

    /** The server's record of this upload while parts are being sent. */
    ghost predicate InProgress(id: UploadId)
      requires partSize > 0
      reads this, server
    {
      id in server.uploads && PartsMatch(server.uploads[id], target, Tiles(file, partSize), server.md5)
    }

    /** Nothing but this upload changes. */
    twostate predicate ChangesOnly(id: UploadId)
      reads server
    {
      server.objects == old(server.objects) && server.uploads - {id} == old(server.uploads) - {id}
    }

    /** Everything recorded about this upload so far stays recorded. */
    twostate predicate KeepsRecords(id: UploadId)
      reads server
    {
      && id in old(server.uploads) && id in server.uploads && ChangesOnly(id)
      && forall n :: n in old(server.uploads[id].etags) && n in old(server.uploads[id].parts) ==>
           n in server.uploads[id].etags && n in server.uploads[id].parts
    }

    /** One request to store slice `index` reaches the server. */
    method Deliver(id: UploadId, index: nat, fault: PartFault) returns (stored: Result<string, StoreError>)
      requires server.Valid() && partSize > 0 && InProgress(id) && index < PartCount(|file|, partSize)
      modifies server
      ensures server.Valid() && InProgress(id) && KeepsRecords(id)
      ensures stored.Success? <==> fault == NoFault && index < 10000
      ensures stored.Success? ==>
                && index + 1 in server.uploads[id].parts && index + 1 in server.uploads[id].etags
                && stored.value == server.md5(Slice(index))
    {
      TilesCount(file, partSize);
      TileAt(file, partSize, index);
      var start := index * partSize;
      var chunk := file[start..if start + partSize < |file| then start + partSize else |file|];
      stored := server.PutPart(id, target, index + 1, chunk, fault);
    }

    /** Sends one part over the network; a network failure looks the same whether or not it was stored. */
    method SendPart(id: UploadId, index: nat, attempt: Attempt) returns (response: Result<string, UploadError>)
      requires Valid() && InProgress(id) && index < PartCount(|file|, partSize)
      modifies server, progress
      ensures Valid() && InProgress(id) && KeepsRecords(id)
      ensures response.Success? <==> attempt.GoesThrough() && index < 10000
      ensures response.Failure? ==> response.error == attempt.exchange.Error()
      ensures progress[index] ==
              if && attempt.exchange.GoesThrough() && response.Failure? then 0
              else if attempt.loaded <= |Slice(index)| then attempt.loaded else old(progress[index])
      ensures response.Success? ==>
                && index + 1 in server.uploads[id].parts && index + 1 in server.uploads[id].etags
                && response.value == server.md5(Slice(index))
      ensures forall i :: 0 <= i < progress.Length && i != index ==> progress[i] == old(progress[i])
    {
      if attempt.loaded <= |Slice(index)| { progress[index] := attempt.loaded; }
      if attempt.late.Some? && attempt.late.value.index <= index {
        var _ := Deliver(id, attempt.late.value.index, attempt.late.value.fault);
      }
      if !attempt.exchange.arrives { return Failure(attempt.exchange.Error()); }
      var stored := Deliver(id, index, attempt.fault);
      if attempt.exchange.cancelled || !attempt.exchange.answered { return Failure(attempt.exchange.Error()); }
      if stored.Failure? {
        progress[index] := 0;
        return Failure(Failed);
      }
      return Success(stored.value);
    }

    /** The server holds the first `count` slices and the progress array shows them as sent. */
    ghost predicate Sent(id: UploadId, count: nat)
      requires partSize > 0 && id in server.uploads && count <= progress.Length
      reads this, server, progress
    {
      && (forall k :: 1 <= k <= count ==> k in server.uploads[id].parts && k in server.uploads[id].etags)
      && forall i :: 0 <= i < count ==> progress[i] == |Slice(i)|
    }

    /** `withRetries` around one part: attempts are made until one goes through or is cancelled. */
    method SendWithRetries(id: UploadId, index: nat, attempts: int, network: Network)
      returns (etag: Result<string, UploadError>)
      requires Valid() && InProgress(id) && index < PartCount(|file|, partSize)
      modifies server, progress
      ensures Valid() && InProgress(id) && KeepsRecords(id)
      ensures network.PartEnd(index, 1, attempts) == if etag.Success? then None else Some(etag.error)
      ensures etag.Success? ==>
                && index + 1 in server.uploads[id].parts && index + 1 in server.uploads[id].etags
                && etag.value == server.md5(Slice(index)) && progress[index] == |Slice(index)|
      ensures etag.Success? && old(Sent(id, index)) ==> Sent(id, index + 1)
      ensures forall i :: 0 <= i < progress.Length && i != index ==> progress[i] == old(progress[i])
    {
      var attempt := 1;
      while attempt <= attempts
        invariant attempt >= 1 && Valid() && InProgress(id) && KeepsRecords(id)
        invariant network.PartEnd(index, attempt, attempts) == network.PartEnd(index, 1, attempts)
        invariant forall i :: 0 <= i < progress.Length && i != index ==> progress[i] == old(progress[i])
      {
        var response := SendPart(id, index, network.attempts(index)(attempt));
        if response.Success? {
          progress[index] := |Slice(index)|;
          return Success(response.value);
        }
        if response.error == Aborted { return Failure(Aborted); }
        attempt := attempt + 1;
      }
      return Failure(Failed);
    }

    /** The loop over the parts: on success every slice is stored and listed. */
    method SendAllParts(id: UploadId, maxRetries: int, network: Network) returns (r: Result<seq<PartRef>, UploadError>)
      requires Valid() && InProgress(id)
      modifies server, progress
      ensures Valid() && InProgress(id) && ChangesOnly(id)
      ensures network.PartsEnd(0, PartCount(|file|, partSize), maxRetries) ==
              if r.Success? then None else Some(r.error)
      ensures r.Success? ==>
                && r.value == PartList(Tiles(file, partSize), |Tiles(file, partSize)|, server.md5)
                && Sent(id, progress.Length)
    {
      var tiles := Tiles(file, partSize);
      TilesCount(file, partSize);
      var parts: seq<PartRef> := [];
      var partCount := PartCount(|file|, partSize);
      for index := 0 to partCount
        invariant Valid() && InProgress(id) && ChangesOnly(id)
        invariant parts == PartList(tiles, index, server.md5)
        invariant network.PartsEnd(index, partCount, maxRetries) == network.PartsEnd(0, partCount, maxRetries)
        invariant Sent(id, index)
      {
        var etag := SendWithRetries(id, index, maxRetries, network);
        if etag.Failure? { return Failure(etag.error); }
        parts := parts + [PartRef(index + 1, Some(etag.value))];
      }
      return Success(parts);
    }

    /**
     * The upload succeeds exactly when every step gets through, and then the stored object is the
     * file, byte for byte, and no upload is left behind. When it fails, the object is the complete
     * file if the completion request took effect and untouched otherwise: no mixture of parts is
     * ever visible.
     */
    method UploadMultipart(maxRetries: int, network: Network) returns (r: Result<nat, UploadError>)
      requires Valid()
      modifies server, progress
      ensures server.Valid()
      ensures network.End(PartCount(|file|, partSize), maxRetries) == if r.Success? then None else Some(r.error)
      ensures server.objects ==
              if && network.start.GoesThrough() && network.PartsEnd(0, PartCount(|file|, partSize), maxRetries).None?
                 && network.completion.arrives && network.fault != PutFails
              then old(server.objects)[target := file] else old(server.objects)
      ensures r.Success? ==> r.value == |file| && Sum(progress[..]) == |file|
      ensures || r.Success? || !network.start.arrives
              || (r.error != Aborted && network.start.GoesThrough() && network.cleanupArrives) ==>
                server.uploads == old(server.uploads)
    {
      if !network.start.arrives { return Failure(network.start.Error()); }
      var id := server.CreateMultipart(target);
      if !network.start.GoesThrough() { return Failure(network.start.Error()); }
      assert server.uploads - {id} == old(server.uploads);
      var parts := SendAllParts(id, maxRetries, network);
      if parts.Failure? {
        if parts.error != Aborted { AbortUpload(id, network.cleanupArrives); }
        return Failure(parts.error);
      }
      SentCompletes(id);
      r := Complete(id, parts.value, network);
    }

    /** The completion request, whose list the server would assemble into the file. */
    method Complete(id: UploadId, parts: seq<PartRef>, network: Network) returns (r: Result<nat, UploadError>)
      requires server.Valid() && Completed(server.uploads, id, target, parts) == Success(file)
      modifies server
      ensures server.Valid()
      ensures r.Success? <==> network.completion.GoesThrough() && network.fault == NoFailure
      ensures r.Success? ==> r.value == |file|
      ensures r.Failure? ==> r.error == network.completion.Error()
      ensures server.objects == if network.completion.arrives && network.fault != PutFails
                                then old(server.objects)[target := file] else old(server.objects)
      ensures r.Success? || (r.error != Aborted && network.cleanupArrives) ==>
                server.uploads == old(server.uploads) - {id}
    {
      var answer: Result<Bytes, UploadError> := Failure(network.completion.Error());
      if network.completion.arrives {
        var completed := server.CompleteMultipart(id, target, parts, network.fault);
        if network.completion.GoesThrough() {
          answer := if completed.Success? then Success(completed.value) else Failure(Failed);
        }
      }
      if answer.Success? { return Success(|answer.value|); }
      if answer.error != Aborted { AbortUpload(id, network.cleanupArrives); }
      return Failure(answer.error);
    }

    /** Once every slice is sent, the full list completes to the file and the progress to its size. */
    lemma SentCompletes(id: UploadId)
      requires Valid() && InProgress(id) && Sent(id, progress.Length)
      ensures var tiles := Tiles(file, partSize);
              Completed(server.uploads, id, target, PartList(tiles, |tiles|, server.md5)) == Success(file)
      ensures Sum(progress[..]) == |file|
    {
      TilesCount(file, partSize);
      FullListCompletes(server.uploads, id, target, file, partSize, server.md5);
      ProgressComplete();
    }

    lemma ProgressComplete()
      requires Valid() && forall i :: 0 <= i < progress.Length ==> progress[i] == |Slice(i)|
      ensures Sum(progress[..]) == |file|
    {
      TilesCount(file, partSize);
      var lengths := Lengths(Tiles(file, partSize));
      assert progress[..] == lengths by {
        forall i | 0 <= i < progress.Length ensures progress[i] == lengths[i] { assert progress[i] == |Slice(i)|; }
      }
      SumLengths(Tiles(file, partSize));
      TilesConcat(file, partSize);
    }

    /** Best effort: the request may be lost. */
    method AbortUpload(id: UploadId, arrives: bool)
      requires server.Valid()
      modifies server
      ensures server.Valid() && server.objects == old(server.objects)
      ensures arrives && (id in old(server.uploads) ==> old(server.uploads)[id].target == target) ==>
                server.uploads == old(server.uploads) - {id}
    {
      if arrives { server.AbortMultipart(id, target); }
    }
  }
}
