/** The server side of multipart uploads: parts, their recorded etags, and completion. */
module MultipartStore {
  import opened Wrappers
  import opened Files
  import opened StoreErrors
  import opened Sorting

  type UploadId = nat
  type Target = (string, string) // bucket and key

  datatype Upload = Upload(target: Target, parts: map<int, Bytes>, etags: map<int, string>)

  datatype PartRef = PartRef(partNumber: int, etag: Option<string>)

  /** Where storing a part may fail: before the part is in place, or when recording its etag. */
  datatype PartFault = NoFault | BeforeRename | AtEtag

  /** Where completion may fail: putting the object, or afterwards, when it is read back or the parts are cleared. */
  datatype CompletionFault = NoFailure | PutFails | CleanupFails

  function ByNumber(a: PartRef, b: PartRef): bool {
    a.partNumber <= b.partNumber
  }

  /** A listed part is present and, when an etag is given, it is the recorded one. */
  predicate PartOk(u: Upload, p: PartRef) {
    && p.partNumber in u.parts
    && (p.etag.Some? && p.etag.value != "" ==> p.partNumber in u.etags && u.etags[p.partNumber] == p.etag.value)
  }

  predicate AllOk(u: Upload, parts: seq<PartRef>) {
    forall p :: p in parts ==> PartOk(u, p)
  }

  function ConcatParts(u: Upload, ordered: seq<PartRef>): Bytes
    requires forall p :: p in ordered ==> p.partNumber in u.parts
  {
    if ordered == [] then []
    else ConcatParts(u, ordered[..|ordered| - 1]) + u.parts[ordered[|ordered| - 1].partNumber]
  }

  lemma ByNumberOrders()
    ensures TotalPreorder(ByNumber)
  {}

  lemma SortKeepsMembers(parts: seq<PartRef>)
    ensures forall p :: p in Sort(parts, ByNumber) <==> p in parts
  {
    forall p ensures p in Sort(parts, ByNumber) <==> p in parts {
      InMultiset(Sort(parts, ByNumber), p);
      InMultiset(parts, p);
    }
  }

  /** `ordered` is the list arranged by ascending part number. */
  ghost predicate InNumberOrder(ordered: seq<PartRef>, parts: seq<PartRef>) {
    && multiset(ordered) == multiset(parts)
    && forall i, j :: 0 <= i < j < |ordered| ==> ordered[i].partNumber <= ordered[j].partNumber
  }

  lemma SortPutsInOrder(parts: seq<PartRef>)
    ensures InNumberOrder(Sort(parts, ByNumber), parts)
  {
    ByNumberOrders();
    SortSorts(parts, ByNumber);
    var ordered := Sort(parts, ByNumber);
    forall i, j | 0 <= i < j < |ordered| ensures ordered[i].partNumber <= ordered[j].partNumber {
      assert ByNumber(ordered[i], ordered[j]);
    }
  }

  /** The outcome of a completion request, from the recorded state alone. */
  function Completed(uploads: map<UploadId, Upload>, id: UploadId, target: Target, parts: seq<PartRef>)
    : Result<Bytes, StoreError>
  {
    if id !in uploads || uploads[id].target != target then Failure(NoSuchUpload)
    else if parts == [] || !AllOk(uploads[id], parts) then Failure(InvalidPart)
    else
      SortKeepsMembers(parts);
      Success(ConcatParts(uploads[id], Sort(parts, ByNumber)))
  }

  class MultipartStore {
    const md5: Bytes -> string
    var uploads: map<UploadId, Upload>
    var objects: map<Target, Bytes>
    var nextId: UploadId

    ghost predicate Valid()
      reads this
    {
      forall id :: id in uploads ==> id < nextId
    }

    constructor (md5: Bytes -> string, objects: map<Target, Bytes>)
      ensures Valid() && this.md5 == md5 && this.objects == objects && uploads == map[]
    {
      this.md5, this.objects, this.uploads, this.nextId := md5, objects, map[], 0;
    }

    method CreateMultipart(target: Target) returns (id: UploadId)
      requires Valid()
      modifies this
      ensures Valid() && id !in old(uploads)
      ensures uploads == old(uploads)[id := Upload(target, map[], map[])] && objects == old(objects)
    {
      id := nextId;
      uploads, nextId := uploads[id := Upload(target, map[], map[])], nextId + 1;
    }

    /** A part replaces what was stored under its number; only a recorded etag is reported as success. */
    method PutPart(id: UploadId, target: Target, partNumber: int, data: Bytes, fault: PartFault)
      returns (r: Result<string, StoreError>)
      requires Valid()
      modifies this
      ensures Valid() && objects == old(objects)
      ensures r.Success? <==>
                1 <= partNumber <= 10000 && id in old(uploads) && old(uploads)[id].target == target && fault == NoFault
      ensures r.Success? ==> r.value == md5(data)
      ensures r.Failure? ==>
                r.error == if !(1 <= partNumber <= 10000) then InvalidPart
                           else if id !in old(uploads) || old(uploads)[id].target != target then NoSuchUpload
                           else FileSystem(EIO)
      ensures uploads ==
              if && 1 <= partNumber <= 10000 && id in old(uploads) && old(uploads)[id].target == target
                 && fault != BeforeRename
              then old(uploads)[id := Stored(old(uploads)[id], partNumber, data, fault == NoFault)]
              else old(uploads)
    {
      if partNumber < 1 || partNumber > 10000 { return Failure(InvalidPart); }
      if id !in uploads || uploads[id].target != target { return Failure(NoSuchUpload); }
      if fault == BeforeRename { return Failure(FileSystem(EIO)); }
      var u := uploads[id];
      u := u.(parts := u.parts[partNumber := data]);
      uploads := uploads[id := u];
      if fault == AtEtag { return Failure(FileSystem(EIO)); }
      var etag := md5(data);
      u := u.(etags := u.etags[partNumber := etag]);
      uploads := uploads[id := u];
      return Success(etag);
    }

    function Stored(u: Upload, partNumber: int, data: Bytes, recorded: bool): Upload {
      Upload(u.target, u.parts[partNumber := data], if recorded then u.etags[partNumber := md5(data)] else u.etags)
    }

    /**
     * The object becomes the listed parts in part-number order and the upload disappears, or
     * nothing changes, unless all that failed came after the object was in place.
     */
    method CompleteMultipart(id: UploadId, target: Target, parts: seq<PartRef>, fault: CompletionFault)
      returns (r: Result<Bytes, StoreError>)
      requires Valid()
      modifies this
      ensures Valid()
      ensures r.Success? <==> Completed(old(uploads), id, target, parts).Success? && fault == NoFailure
      ensures r.Success? ==>
                && r == Completed(old(uploads), id, target, parts)
                && objects == old(objects)[target := r.value] && uploads == old(uploads) - {id}
      ensures r.Failure? ==>
                r.error == if id !in old(uploads) || old(uploads)[id].target != target then NoSuchUpload
                           else if parts == [] || !AllOk(old(uploads)[id], parts) then InvalidPart
                           else FileSystem(EIO)
      ensures Completed(old(uploads), id, target, parts).Failure? ==> r == Completed(old(uploads), id, target, parts)
      ensures r.Failure? ==>
                && uploads == old(uploads)
                && objects == if Completed(old(uploads), id, target, parts).Success? && fault == CleanupFails
                              then old(objects)[target := Completed(old(uploads), id, target, parts).value]
                              else old(objects)
    {
      if id !in uploads || uploads[id].target != target { return Failure(NoSuchUpload); }
      if parts == [] { return Failure(InvalidPart); }
      var data := Assemble(uploads[id], parts);
      if data.None? { return Failure(InvalidPart); }
      if fault == PutFails { return Failure(FileSystem(EIO)); }
      objects := objects[target := data.value];
      if fault == CleanupFails { return Failure(FileSystem(EIO)); }
      uploads := uploads - {id};
      return Success(data.value);
    }

    /** Checks the listed parts in part-number order and reads them one after another. */
    method Assemble(u: Upload, parts: seq<PartRef>) returns (data: Option<Bytes>)
      ensures data.Some? <==> forall p :: p in parts ==> PartOk(u, p)
      ensures data.Some? ==>
                && (forall p :: p in Sort(parts, ByNumber) ==> p.partNumber in u.parts)
                && data.value == ConcatParts(u, Sort(parts, ByNumber))
      ensures InNumberOrder(Sort(parts, ByNumber), parts)
    {
      var ordered := Sort(parts, ByNumber);
      SortKeepsMembers(parts);
      SortPutsInOrder(parts);
      var read: Bytes := [];
      for i := 0 to |ordered|
        invariant forall k :: 0 <= k < i ==> PartOk(u, ordered[k])
        invariant read == ConcatParts(u, ordered[..i])
      {
        var part := ordered[i];
        if part.partNumber !in u.parts {
          assert part in parts && !PartOk(u, part);
          return None;
        }
        if part.etag.Some? && part.etag.value != "" {
          if part.partNumber !in u.etags || u.etags[part.partNumber] != part.etag.value {
            assert part in parts && !PartOk(u, part);
            return None;
          }
        }
        assert ordered[..i + 1][..i] == ordered[..i];
        read := read + u.parts[part.partNumber];
      }
      assert ordered[..|ordered|] == ordered;
      return Some(read);
    }

    method AbortMultipart(id: UploadId, target: Target)
      requires Valid()
      modifies this
      ensures Valid() && objects == old(objects)
      ensures uploads == if id in old(uploads) && old(uploads)[id].target == target then old(uploads) - {id}
                         else old(uploads)
    {
      if id in uploads && uploads[id].target == target { uploads := uploads - {id}; }
    }
  }

  // ---------- upload history does not matter ----------

  datatype PartWrite = PartWrite(partNumber: int, data: Bytes)

  /** The data last stored under a number. */
  function LastWrite(history: seq<PartWrite>, n: int): Option<Bytes> {
    if history == [] then None
    else if history[|history| - 1].partNumber == n then Some(history[|history| - 1].data)
    else LastWrite(history[..|history| - 1], n)
  }

  function Replay(history: seq<PartWrite>): map<int, Bytes> {
    if history == [] then map[]
    else Replay(history[..|history| - 1])[history[|history| - 1].partNumber := history[|history| - 1].data]
  }

  lemma {:induction false} ReplayIsLastWrite(history: seq<PartWrite>, n: int)
    ensures (n in Replay(history) <==> LastWrite(history, n).Some?)
    ensures n in Replay(history) ==> LastWrite(history, n) == Some(Replay(history)[n])
    decreases |history|
  {
    if history == [] {
    } else {
      ReplayIsLastWrite(history[..|history| - 1], n);
    }
  }

  lemma {:induction false} ConcatDependsOnParts(u: Upload, v: Upload, ordered: seq<PartRef>)
    requires forall p :: p in ordered ==> p.partNumber in u.parts && p.partNumber in v.parts
    requires forall p :: p in ordered ==> u.parts[p.partNumber] == v.parts[p.partNumber]
    ensures ConcatParts(u, ordered) == ConcatParts(v, ordered)
    decreases |ordered|
  {
    if ordered == [] {
    } else {
      assert ordered[|ordered| - 1] in ordered;
      ConcatDependsOnParts(u, v, ordered[..|ordered| - 1]);
    }
  }

  /**
   * What completion assembles depends only on the last data stored under each listed number and
   * not on the order, the number or the repetition of the uploads.
   */
  lemma HistoryIrrelevant(a: seq<PartWrite>, b: seq<PartWrite>, target: Target, etags: map<int, string>,
                          parts: seq<PartRef>)
    requires forall p :: p in parts ==> LastWrite(a, p.partNumber) == LastWrite(b, p.partNumber)
    ensures Completed(map[0 := Upload(target, Replay(a), etags)], 0, target, parts) ==
            Completed(map[0 := Upload(target, Replay(b), etags)], 0, target, parts)
  {
    var u, v := Upload(target, Replay(a), etags), Upload(target, Replay(b), etags);
    forall p | p in parts ensures SamePart(u, v, p.partNumber) { SameLastWrite(a, b, target, etags, p.partNumber); }
    SamePartsSameOutcome(u, v, parts);
  }

  /** Both uploads hold the same under this number, or nothing. */
  predicate SamePart(u: Upload, v: Upload, n: int) {
    (n in u.parts <==> n in v.parts) && (n in u.parts ==> u.parts[n] == v.parts[n])
  }

  lemma SameLastWrite(a: seq<PartWrite>, b: seq<PartWrite>, target: Target, etags: map<int, string>, n: int)
    requires LastWrite(a, n) == LastWrite(b, n)
    ensures SamePart(Upload(target, Replay(a), etags), Upload(target, Replay(b), etags), n)
  {
    ReplayIsLastWrite(a, n);
    ReplayIsLastWrite(b, n);
  }

  lemma SamePartsOk(u: Upload, v: Upload, parts: seq<PartRef>)
    requires u.etags == v.etags && forall p :: p in parts ==> SamePart(u, v, p.partNumber)
    ensures AllOk(u, parts) <==> AllOk(v, parts)
  {
    forall p | p in parts ensures PartOk(u, p) <==> PartOk(v, p) { assert SamePart(u, v, p.partNumber); }
  }

  lemma SamePartsConcat(u: Upload, v: Upload, parts: seq<PartRef>, ordered: seq<PartRef>)
    requires AllOk(u, parts) && AllOk(v, parts) && forall p :: p in ordered ==> p in parts
    requires forall p :: p in parts ==> SamePart(u, v, p.partNumber)
    ensures forall p :: p in ordered ==> p.partNumber in u.parts && p.partNumber in v.parts
    ensures ConcatParts(u, ordered) == ConcatParts(v, ordered)
  {
    forall p | p in ordered
      ensures p.partNumber in u.parts && p.partNumber in v.parts && u.parts[p.partNumber] == v.parts[p.partNumber]
    {
      assert PartOk(u, p) && PartOk(v, p) && SamePart(u, v, p.partNumber);
    }
    ConcatDependsOnParts(u, v, ordered);
  }

  lemma SamePartsSameOutcome(u: Upload, v: Upload, parts: seq<PartRef>)
    requires u.target == v.target && u.etags == v.etags
    requires forall p :: p in parts ==> SamePart(u, v, p.partNumber)
    ensures Completed(map[0 := u], 0, u.target, parts) == Completed(map[0 := v], 0, u.target, parts)
  {
    SamePartsOk(u, v, parts);
    SortKeepsMembers(parts);
    if AllOk(u, parts) { SamePartsConcat(u, v, parts, Sort(parts, ByNumber)); }
  }
}
