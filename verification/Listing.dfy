/** The whole of a ListObjectsV2 request: group, merge, sort, page. */
module Listing {
  import opened Wrappers
  import opened Sorting
  import opened Text
  import opened Grouping
  import opened Pagination
  import opened CodeOrder

  function Objects(keys: seq<string>): (r: seq<Entry>)
    ensures |r| == |keys| && forall i :: 0 <= i < |keys| ==> r[i] == Object(keys[i])
  {
    seq(|keys|, i requires 0 <= i < |keys| => Object(keys[i]))
  }

  function Prefixes(keys: seq<string>): (r: seq<Entry>)
    ensures |r| == |keys| && forall i :: 0 <= i < |keys| ==> r[i] == Prefix(keys[i])
  {
    seq(|keys|, i requires 0 <= i < |keys| => Prefix(keys[i]))
  }

  function BySortKey(le: (string, string) -> bool): (Entry, Entry) -> bool {
    (a: Entry, b: Entry) => le(a.sortKey, b.sortKey)
  }

  /** Contents and CommonPrefixes as one keyspace, in collation order. */
  function Merge(objects: seq<string>, commons: seq<string>, le: (string, string) -> bool): seq<Entry> {
    Sort(Objects(objects) + Prefixes(commons), BySortKey(le))
  }

  function DirectObjects(keys: seq<string>, prefix: string, delimiter: string): seq<string> {
    if delimiter == "" then ListUnder(keys, prefix)
    else Filter(ListUnder(keys, prefix), GroupsInto(prefix, delimiter, None))
  }

  function Folders(keys: seq<string>, prefix: string, delimiter: string): seq<string> {
    if delimiter == "" then [] else CommonPrefixes(ListUnder(keys, prefix), prefix, delimiter)
  }

  function Entries(keys: seq<string>, prefix: string, delimiter: string, le: (string, string) -> bool): seq<Entry> {
    Merge(DirectObjects(keys, prefix, delimiter), Folders(keys, prefix, delimiter), le)
  }

  ghost predicate BucketKeys(keys: seq<string>) {
    Distinct(keys) && forall key :: key in keys ==> key != ""
  }

  lemma DirectlyListed(keys: seq<string>, prefix: string, delimiter: string, o: string)
    requires o in DirectObjects(keys, prefix, delimiter)
    ensures IsPrefix(prefix, o) && (delimiter != "" ==> CommonPrefixOf(o, prefix, delimiter).None?)
  {}

  /** An object is never listed under the same sort key as a common prefix. */
  lemma ObjectsApartFromFolders(keys: seq<string>, prefix: string, delimiter: string, o: string, c: string)
    requires o in DirectObjects(keys, prefix, delimiter) && c in Folders(keys, prefix, delimiter)
    ensures o != c && c != ""
  {
    var flat := ListUnder(keys, prefix);
    CommonPrefixesAre(flat, prefix, delimiter);
    var sample :| sample in flat && IsPrefix(prefix, sample) && CommonPrefixOf(sample, prefix, delimiter) == Some(c);
    CommonPrefixShape(sample, prefix, delimiter);
    DirectlyListed(keys, prefix, delimiter, o);
    UnderCommonPrefix(sample, o, prefix, delimiter);
  }

  lemma FoldersNotEmpty(keys: seq<string>, prefix: string, delimiter: string, c: string)
    requires c in Folders(keys, prefix, delimiter)
    ensures c != ""
  {
    var flat := ListUnder(keys, prefix);
    CommonPrefixesAre(flat, prefix, delimiter);
    var sample :| sample in flat && IsPrefix(prefix, sample) && CommonPrefixOf(sample, prefix, delimiter) == Some(c);
    CommonPrefixShape(sample, prefix, delimiter);
  }

  lemma UnsortedWellKeyed(keys: seq<string>, prefix: string, delimiter: string)
    requires BucketKeys(keys)
    ensures WellKeyed(Objects(DirectObjects(keys, prefix, delimiter)) + Prefixes(Folders(keys, prefix, delimiter)))
  {
    var objects, folders := DirectObjects(keys, prefix, delimiter), Folders(keys, prefix, delimiter);
    FilterDistinct(keys, StartsWith(prefix));
    if delimiter != "" { FilterDistinct(ListUnder(keys, prefix), GroupsInto(prefix, delimiter, None)); }
    var all := Objects(objects) + Prefixes(folders);
    forall e | e in all ensures e.sortKey != "" {
      if e in Prefixes(folders) {
        var k :| 0 <= k < |folders| && e == Prefix(folders[k]);
        FoldersNotEmpty(keys, prefix, delimiter, e.sortKey);
      } else {
        assert e in Objects(objects);
        var k :| 0 <= k < |objects| && e == Object(objects[k]);
        assert objects[k] in keys;
      }
    }
    forall i, j | 0 <= i < |objects| && 0 <= j < |folders| ensures objects[i] != folders[j] {
      ObjectsApartFromFolders(keys, prefix, delimiter, objects[i], folders[j]);
    }
  }

  lemma EntriesWellKeyed(keys: seq<string>, prefix: string, delimiter: string, le: (string, string) -> bool)
    requires BucketKeys(keys)
    ensures WellKeyed(Entries(keys, prefix, delimiter, le))
  {
    UnsortedWellKeyed(keys, prefix, delimiter);
    var all := Objects(DirectObjects(keys, prefix, delimiter)) + Prefixes(Folders(keys, prefix, delimiter));
    var sorted := Entries(keys, prefix, delimiter, le);
    DistinctByPermutes(all, sorted, (e: Entry) => e.sortKey);
    forall e | e in sorted ensures e.sortKey != "" {
      InMultiset(sorted, e);
      InMultiset(all, e);
    }
  }

  /** The collation and the resuming comparison are the same total order. */
  ghost predicate Agree(le: (string, string) -> bool, after: (string, string) -> bool) {
    TotalOrder(le) && StrictOrder(after) && forall x, y :: le(x, y) <==> !after(x, y)
  }

  lemma BySortKeyOrders(le: (string, string) -> bool)
    requires TotalPreorder(le)
    ensures TotalPreorder(BySortKey(le))
  {
    var byKey := BySortKey(le);
    forall x: Entry, y: Entry ensures byKey(x, y) || byKey(y, x) {
      assert le(x.sortKey, y.sortKey) || le(y.sortKey, x.sortKey);
    }
    forall x: Entry, y: Entry, z: Entry | byKey(x, y) && byKey(y, z) ensures byKey(x, z) {
      assert le(x.sortKey, y.sortKey) && le(y.sortKey, z.sortKey);
    }
  }

  lemma EntriesAscend(keys: seq<string>, prefix: string, delimiter: string,
                      le: (string, string) -> bool, after: (string, string) -> bool)
    requires BucketKeys(keys) && Agree(le, after)
    ensures Ascending(Entries(keys, prefix, delimiter, le), after)
  {
    var sorted := Entries(keys, prefix, delimiter, le);
    BySortKeyOrders(le);
    SortSorts(Objects(DirectObjects(keys, prefix, delimiter)) + Prefixes(Folders(keys, prefix, delimiter)),
              BySortKey(le));
    EntriesWellKeyed(keys, prefix, delimiter, le);
    forall i, j | 0 <= i < j < |sorted| ensures after(sorted[j].sortKey, sorted[i].sortKey) {
      assert BySortKey(le)(sorted[i], sorted[j]);
    }
  }

  /**
   * When the two orders agree, a client that follows the tokens of a fixed bucket is given every
   * object listed directly and every common prefix, each exactly once, for every page size.
   */
  lemma ListingExactlyOnce(keys: seq<string>, prefix: string, delimiter: string, n: nat,
                           le: (string, string) -> bool, after: (string, string) -> bool)
    requires BucketKeys(keys) && Agree(le, after) && n >= 1
    ensures WellKeyed(Entries(keys, prefix, delimiter, le))
    ensures multiset(FollowTokens(Entries(keys, prefix, delimiter, le), "", n, after)) ==
            multiset(Objects(DirectObjects(keys, prefix, delimiter))) +
              multiset(Prefixes(Folders(keys, prefix, delimiter)))
  {
    EntriesWellKeyed(keys, prefix, delimiter, le);
    EntriesAscend(keys, prefix, delimiter, le, after);
    EveryPageSizeIff(Entries(keys, prefix, delimiter, le), after);
    assert PagesComplete(Entries(keys, prefix, delimiter, le), n, after);
  }

  datatype Moment = Moment(keys: seq<string>, maxKeys: nat)

  /** The requests of a client paging through a bucket whose keys change between requests. */
  function Requests(moments: seq<Moment>, prefix: string, delimiter: string, le: (string, string) -> bool)
    : (r: seq<Request>)
    ensures |r| == |moments|
    ensures forall i :: 0 <= i < |moments| ==>
              r[i] == Request(Entries(moments[i].keys, prefix, delimiter, le), moments[i].maxKeys)
  {
    seq(|moments|, i requires 0 <= i < |moments| =>
      Request(Entries(moments[i].keys, prefix, delimiter, le), moments[i].maxKeys))
  }

  lemma RequestsServed(moments: seq<Moment>, prefix: string, delimiter: string,
                       le: (string, string) -> bool, after: (string, string) -> bool)
    requires Agree(le, after)
    requires forall i :: 0 <= i < |moments| ==> BucketKeys(moments[i].keys) && moments[i].maxKeys >= 1
    ensures WellServed(Requests(moments, prefix, delimiter, le), after)
  {
    var requests := Requests(moments, prefix, delimiter, le);
    forall i | 0 <= i < |requests|
      ensures WellKeyed(requests[i].entries) && Ascending(requests[i].entries, after)
    {
      EntriesWellKeyed(moments[i].keys, prefix, delimiter, le);
      EntriesAscend(moments[i].keys, prefix, delimiter, le, after);
    }
  }

  lemma MergedEntry(objects: seq<string>, commons: seq<string>, le: (string, string) -> bool, key: string)
    requires key in objects || key in commons
    ensures Present(Merge(objects, commons, le), key)
  {
    var all := Objects(objects) + Prefixes(commons);
    var e := if key in objects then Object(key) else Prefix(key);
    if key in objects {
      var at :| 0 <= at < |objects| && objects[at] == key;
      assert all[at] == e;
    } else {
      var at :| 0 <= at < |commons| && commons[at] == key;
      assert all[|objects| + at] == e;
    }
    InMultiset(all, e);
    InMultiset(Merge(objects, commons, le), e);
    assert e in Merge(objects, commons, le);
  }

  /** A key that at every request of a finished run is listed directly, or is a common prefix, is shown exactly once. */
  lemma StableEntryShownOnce(moments: seq<Moment>, prefix: string, delimiter: string, key: string,
                             le: (string, string) -> bool, after: (string, string) -> bool)
    requires Agree(le, after)
    requires forall i :: 0 <= i < |moments| ==> BucketKeys(moments[i].keys) && moments[i].maxKeys >= 1
    requires forall i :: 0 <= i < |moments| ==>
               || key in DirectObjects(moments[i].keys, prefix, delimiter)
               || key in Folders(moments[i].keys, prefix, delimiter)
    requires Finished(Requests(moments, prefix, delimiter, le), "", after)
    ensures multiset(ShownKeys(Requests(moments, prefix, delimiter, le), "", after))[key] == 1
  {
    var requests := Requests(moments, prefix, delimiter, le);
    RequestsServed(moments, prefix, delimiter, le, after);
    forall i | 0 <= i < |requests| ensures Present(requests[i].entries, key) {
      var keys := moments[i].keys;
      MergedEntry(DirectObjects(keys, prefix, delimiter), Folders(keys, prefix, delimiter), le, key);
    }
    ChangingBucketExactlyOnce(requests, "", after, key);
  }

  // ---------- the two orders of the code disagree ----------

  lemma TwoSorted(a: Entry, b: Entry, le: (Entry, Entry) -> bool)
    requires le(a, b) && !le(b, a)
    ensures Sort([a, b], le) == [a, b] && Sort([b, a], le) == [a, b]
  {
    assert [a, b][1..] == [b] && [b, a][1..] == [a] && [a][1..] == [] && [b][1..] == [];
    assert Sort([b], le) == [b] && Sort([a], le) == [a];
  }

  lemma TwoKeysMerged(le: (string, string) -> bool)
    requires le("a", "B") && !le("B", "a")
    ensures Merge(["a", "B"], [], le) == [Object("a"), Object("B")]
    ensures Merge(["B", "a"], [], le) == [Object("a"), Object("B")]
  {
    var a, b := Object("a"), Object("B");
    assert Objects(["a", "B"]) + Prefixes([]) == [a, b] && Objects(["B", "a"]) + Prefixes([]) == [b, a];
    TwoSorted(a, b, BySortKey(le));
  }

  lemma EverythingListed(keys: seq<string>, le: (string, string) -> bool)
    ensures Entries(keys, "", "", le) == Merge(keys, [], le)
  {
    FilterAll(keys, StartsWith(""));
  }

  lemma TwoKeys(keys: seq<string>)
    requires keys == ["a", "B"] || keys == ["B", "a"]
    ensures BucketKeys(keys)
  {
    assert |keys| == 2 && keys[0] != keys[1] && keys[0] != "" && keys[1] != "";
  }

  /**
   * A bucket holding `a` and `B`, listed with any collation that puts `a` first, in whichever
   * order the keys come from the store: with a page size of one `B` is never shown.
   */
  lemma CollationLosesKeys(keys: seq<string>, le: (string, string) -> bool)
    requires keys == ["a", "B"] || keys == ["B", "a"]
    requires le("a", "B") && !le("B", "a")
    ensures StrictOrder(CodeAfter) && BucketKeys(keys) && WellKeyed(Entries(keys, "", "", le))
    ensures FollowTokens(Entries(keys, "", "", le), "", 1, CodeAfter) == [Object("a")]
    ensures Object("B") in Entries(keys, "", "", le)
  {
    TwoKeys(keys);
    EverythingListed(keys, le);
    TwoKeysMerged(le);
    PageOfOneLosesB(Entries(keys, "", "", le));
  }
}
