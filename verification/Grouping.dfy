/** Delimiter grouping: how a listing is folded into direct objects and common prefixes. */
module Grouping {
  import opened Wrappers
  import opened Text
  import opened ObjectKeys
  import opened Sorting

  function StartsWith(prefix: string): string -> bool {
    key => IsPrefix(prefix, key)
  }

  /** The common prefix a key collapses into, None when it is listed itself. */
  function CommonPrefixOf(key: string, prefix: string, delimiter: string): Option<string>
    requires IsPrefix(prefix, key)
  {
    var rest := key[|prefix|..];
    var boundary := IndexOf(rest, delimiter);
    if boundary == -1 then None else Some(prefix + rest[..boundary + |delimiter|])
  }

  function GroupsInto(prefix: string, delimiter: string, group: Option<string>): string -> bool {
    key => IsPrefix(prefix, key) && CommonPrefixOf(key, prefix, delimiter) == group
  }

  ghost predicate AllUnder(flat: seq<string>, prefix: string) {
    forall key :: key in flat ==> IsPrefix(prefix, key)
  }

  /** The distinct common prefixes, in the order the listing first meets them. */
  function CommonPrefixes(flat: seq<string>, prefix: string, delimiter: string): (r: seq<string>)
    requires AllUnder(flat, prefix)
    ensures Distinct(r)
    decreases |flat|
  {
    if flat == [] then []
    else
      var init, key := flat[..|flat| - 1], flat[|flat| - 1];
      assert flat == init + [key];
      var before := CommonPrefixes(init, prefix, delimiter);
      match CommonPrefixOf(key, prefix, delimiter)
      case None => before
      case Some(c) => if c in before then before else before + [c]
  }

  ghost predicate CommonOf(keys: seq<string>, prefix: string, delimiter: string, c: string) {
    exists key :: key in keys && IsPrefix(prefix, key) && CommonPrefixOf(key, prefix, delimiter) == Some(c)
  }

  lemma {:induction false} CommonPrefixesAre(flat: seq<string>, prefix: string, delimiter: string)
    requires AllUnder(flat, prefix)
    ensures forall c :: c in CommonPrefixes(flat, prefix, delimiter) <==> CommonOf(flat, prefix, delimiter, c)
    decreases |flat|
  {
    if flat == [] {
    } else {
      var init, key := flat[..|flat| - 1], flat[|flat| - 1];
      assert flat == init + [key];
      CommonPrefixesAre(init, prefix, delimiter);
      forall c ensures CommonOf(flat, prefix, delimiter, c) <==>
                       CommonOf(init, prefix, delimiter, c) || CommonPrefixOf(key, prefix, delimiter) == Some(c) {
        if CommonOf(init, prefix, delimiter, c) {
          var k :| k in init && IsPrefix(prefix, k) && CommonPrefixOf(k, prefix, delimiter) == Some(c);
          assert k in flat;
        }
        assert key in flat;
      }
    }
  }

  datatype Groups = Groups(objects: seq<string>, commons: seq<string>)

  /** The two lists after one more key. */
  function AddKey(g: Groups, key: string, prefix: string, delimiter: string): Groups
    requires IsPrefix(prefix, key)
  {
    match CommonPrefixOf(key, prefix, delimiter)
    case None => Groups(g.objects + [key], g.commons)
    case Some(c) => if c in g.commons then g else Groups(g.objects, g.commons + [c])
  }

  ghost function GroupsOf(flat: seq<string>, prefix: string, delimiter: string): Groups
    requires AllUnder(flat, prefix)
  {
    Groups(Filter(flat, GroupsInto(prefix, delimiter, None)), CommonPrefixes(flat, prefix, delimiter))
  }

  lemma GroupsOneMore(flat: seq<string>, i: nat, prefix: string, delimiter: string)
    requires i < |flat| && AllUnder(flat, prefix)
    ensures GroupsOf(flat[..i + 1], prefix, delimiter) ==
            AddKey(GroupsOf(flat[..i], prefix, delimiter), flat[i], prefix, delimiter)
  {
    assert flat[..i + 1][..i] == flat[..i];
    assert flat[..i + 1] == flat[..i] + [flat[i]];
    FilterSplits(flat[..i], [flat[i]], GroupsInto(prefix, delimiter, None));
    assert Filter([flat[i]], GroupsInto(prefix, delimiter, None)) ==
           if CommonPrefixOf(flat[i], prefix, delimiter).None? then [flat[i]] else [];
  }

  /**
   * `listObjectsGrouped`: the keys listed themselves keep their order, and the common prefixes
   * are those of the remaining keys, once each.
   */
  method GroupObjects(flat: seq<string>, prefix: string, delimiter: string, le: (string, string) -> bool)
    returns (objects: seq<string>, commonPrefixes: seq<string>)
    requires AllUnder(flat, prefix)
    ensures delimiter == "" ==> objects == flat && commonPrefixes == []
    ensures delimiter != "" ==> objects == Filter(flat, GroupsInto(prefix, delimiter, None))
    ensures delimiter != "" ==> multiset(commonPrefixes) == multiset(CommonPrefixes(flat, prefix, delimiter))
    ensures TotalOrder(le) ==> Sorted(commonPrefixes, le)
  {
    if delimiter == "" { return flat, []; }
    objects := [];
    var found: seq<string> := [];
    for i := 0 to |flat|
      invariant Groups(objects, found) == GroupsOf(flat[..i], prefix, delimiter)
    {
      var key := flat[i];
      GroupsOneMore(flat, i, prefix, delimiter);
      var rest := key[|prefix|..];
      var boundary := IndexOf(rest, delimiter);
      if boundary == -1 {
        objects := objects + [key];
      } else {
        var c := prefix + rest[..boundary + |delimiter|];
        if c !in found { found := found + [c]; }
      }
    }
    assert flat[..|flat|] == flat;
    commonPrefixes := Sort(found, le);
    if TotalOrder(le) { SortSorts(found, le); }
  }

  // ---------- grouping partitions the listing ----------

  lemma CommonPrefixShape(key: string, prefix: string, delimiter: string)
    requires IsPrefix(prefix, key) && delimiter != "" && CommonPrefixOf(key, prefix, delimiter).Some?
    ensures var c := CommonPrefixOf(key, prefix, delimiter).value;
            && IsPrefix(c, key) && IsPrefix(prefix, c) && |c| > |prefix|
            && c == c[..|c| - |delimiter|] + delimiter
  {
    var rest := key[|prefix|..];
    var boundary := IndexOf(rest, delimiter);
    PrefixShape(key, prefix, boundary, delimiter);
  }

  lemma PrefixShape(key: string, prefix: string, boundary: nat, delimiter: string)
    requires IsPrefix(prefix, key) && OccursAt(delimiter, key[|prefix|..], boundary) && delimiter != ""
    ensures var c := prefix + key[|prefix|..][..boundary + |delimiter|];
            && IsPrefix(c, key) && IsPrefix(prefix, c) && |c| > |prefix|
            && c == c[..|c| - |delimiter|] + delimiter
  {
    var rest := key[|prefix|..];
    var c := prefix + rest[..boundary + |delimiter|];
    assert key == prefix + rest;
    assert rest[..boundary + |delimiter|] == rest[..boundary] + delimiter;
    assert c == prefix + rest[..boundary] + delimiter;
  }

  lemma OccursLocally(pattern: string, s: string, t: string, n: nat, i: nat)
    requires n <= |s| && n <= |t| && s[..n] == t[..n] && i + |pattern| <= n
    ensures OccursAt(pattern, s, i) <==> OccursAt(pattern, t, i)
  {
    assert s[i..i + |pattern|] == s[..n][i..i + |pattern|];
    assert t[i..i + |pattern|] == t[..n][i..i + |pattern|];
  }

  /** The first occurrence depends only on the text up to its end. */
  lemma FirstOccurrenceLocal(pattern: string, s: string, t: string, at: nat)
    requires IndexOf(s, pattern) == at && pattern != ""
    requires at + |pattern| <= |s| && at + |pattern| <= |t| && s[..at + |pattern|] == t[..at + |pattern|]
    ensures IndexOf(t, pattern) == at
  {
    NotBefore(pattern, s, t, at);
    FirstAt(t, pattern, at);
  }

  lemma NotBefore(pattern: string, s: string, t: string, at: nat)
    requires OccursAt(pattern, s, at) && forall i: nat :: i < at ==> !OccursAt(pattern, s, i)
    requires at + |pattern| <= |t| && s[..at + |pattern|] == t[..at + |pattern|]
    ensures OccursAt(pattern, t, at) && forall i: nat :: i < at ==> !OccursAt(pattern, t, i)
  {
    forall i: nat | i <= at ensures OccursAt(pattern, s, i) <==> OccursAt(pattern, t, i) {
      OccursLocally(pattern, s, t, at + |pattern|, i);
    }
  }

  lemma RestsAgree(prefix: string, w: string, key: string, n: nat)
    requires n <= |w| && IsPrefix(prefix + w[..n], key)
    ensures |prefix| + n <= |key| && key[|prefix|..][..n] == w[..n]
  {
    assert (prefix + w[..n])[|prefix|..] == w[..n];
    assert key[|prefix|..][..n] == key[..|prefix| + n][|prefix|..];
  }

  lemma CollapsesAlike(sample: string, key: string, prefix: string, delimiter: string)
    requires delimiter != "" && IsPrefix(prefix, sample) && IsPrefix(prefix, key)
    requires CommonPrefixOf(sample, prefix, delimiter).Some?
    requires IsPrefix(CommonPrefixOf(sample, prefix, delimiter).value, key)
    ensures CommonPrefixOf(key, prefix, delimiter) == CommonPrefixOf(sample, prefix, delimiter)
  {
    var w := sample[|prefix|..];
    var at := IndexOf(w, delimiter);
    RestsAgree(prefix, w, key, at + |delimiter|);
    FirstOccurrenceLocal(delimiter, w, key[|prefix|..], at);
  }

  /** A key collapses into `c` exactly when it starts with `c`, for any `c` that is a common prefix at all. */
  lemma UnderCommonPrefix(sample: string, key: string, prefix: string, delimiter: string)
    requires delimiter != "" && IsPrefix(prefix, sample) && IsPrefix(prefix, key)
    requires CommonPrefixOf(sample, prefix, delimiter).Some?
    ensures var c := CommonPrefixOf(sample, prefix, delimiter).value;
            IsPrefix(c, key) <==> CommonPrefixOf(key, prefix, delimiter) == Some(c)
  {
    var c := CommonPrefixOf(sample, prefix, delimiter).value;
    if IsPrefix(c, key) { CollapsesAlike(sample, key, prefix, delimiter); }
    if CommonPrefixOf(key, prefix, delimiter) == Some(c) { CommonPrefixShape(key, prefix, delimiter); }
  }

  /**
   * Each key under the prefix is either listed itself and under no common prefix, or not listed
   * and under exactly one.
   */
  lemma GroupingPartitions(flat: seq<string>, prefix: string, delimiter: string, key: string)
    requires AllUnder(flat, prefix) && delimiter != "" && key in flat
    ensures var objects := Filter(flat, GroupsInto(prefix, delimiter, None));
            var commons := CommonPrefixes(flat, prefix, delimiter);
            && (key in objects <==> !exists c :: c in commons && IsPrefix(c, key))
            && (forall c, d :: c in commons && d in commons && IsPrefix(c, key) && IsPrefix(d, key) ==> c == d)
  {
    var commons := CommonPrefixes(flat, prefix, delimiter);
    CommonPrefixesAre(flat, prefix, delimiter);
    forall c | c in commons
      ensures IsPrefix(c, key) <==> CommonPrefixOf(key, prefix, delimiter) == Some(c)
    {
      var sample :| sample in flat && CommonPrefixOf(sample, prefix, delimiter) == Some(c);
      UnderCommonPrefix(sample, key, prefix, delimiter);
    }
    if CommonPrefixOf(key, prefix, delimiter).Some? {
      var c := CommonPrefixOf(key, prefix, delimiter).value;
      assert CommonOf(flat, prefix, delimiter, c);
    }
  }

  /** No common prefix starts with another one. */
  lemma CommonPrefixesIncomparable(flat: seq<string>, prefix: string, delimiter: string, c: string, d: string)
    requires AllUnder(flat, prefix) && delimiter != ""
    requires c in CommonPrefixes(flat, prefix, delimiter) && d in CommonPrefixes(flat, prefix, delimiter)
    requires IsPrefix(c, d)
    ensures c == d
  {
    CommonPrefixesAre(flat, prefix, delimiter);
    var key :| key in flat && CommonPrefixOf(key, prefix, delimiter) == Some(d);
    CommonPrefixShape(key, prefix, delimiter);
    var other :| other in flat && CommonPrefixOf(other, prefix, delimiter) == Some(c);
    assert key[..|c|] == d[..|c|];
    UnderCommonPrefix(other, key, prefix, delimiter);
  }

  // ---------- recursive listing ----------

  function MaxLength(keys: seq<string>): (n: nat)
    ensures forall key :: key in keys ==> |key| <= n
  {
    if keys == [] then 0
    else
      var rest := MaxLength(keys[1..]);
      if |keys[0]| > rest then |keys[0]| else rest
  }

  /** What `listObjects(prefix)` lists of a bucket holding `keys`. */
  function ListUnder(keys: seq<string>, prefix: string): (flat: seq<string>)
    ensures AllUnder(flat, prefix)
  {
    Filter(keys, StartsWith(prefix))
  }

  function Deepening(keys: seq<string>, prefix: string): nat {
    if |prefix| <= MaxLength(keys) then MaxLength(keys) - |prefix| else 0
  }

  /** A client that lists a prefix and then every common prefix it is shown, until nothing collapses. */
  function ListRecursively(keys: seq<string>, prefix: string, delimiter: string): Result<seq<string>, string>
    requires delimiter != ""
    decreases Deepening(keys, prefix), 1, 0
  {
    if RefusedPrefix(prefix) then Failure(prefix)
    else
      var flat := ListUnder(keys, prefix);
      var commons := CommonPrefixes(flat, prefix, delimiter);
      CommonPrefixesAre(flat, prefix, delimiter);
      forall c | c in commons ensures IsPrefix(prefix, c) && |prefix| < |c| <= MaxLength(keys) {
        var key :| key in flat && CommonPrefixOf(key, prefix, delimiter) == Some(c);
        CommonPrefixShape(key, prefix, delimiter);
      }
      var deeper :- ListEach(keys, prefix, commons, delimiter);
      Success(Filter(flat, GroupsInto(prefix, delimiter, None)) + deeper)
  }

  function ListEach(keys: seq<string>, prefix: string, commons: seq<string>, delimiter: string)
    : Result<seq<string>, string>
    requires delimiter != ""
    requires forall c :: c in commons ==> |prefix| < |c| <= MaxLength(keys)
    decreases Deepening(keys, prefix), 0, |commons|
  {
    if commons == [] then Success([])
    else
      var first :- ListRecursively(keys, commons[0], delimiter);
      var rest :- ListEach(keys, prefix, commons[1..], delimiter);
      Success(first + rest)
  }

  function GroupsIntoOne(prefix: string, delimiter: string, commons: seq<string>): string -> bool {
    key =>
      && IsPrefix(prefix, key)
      && CommonPrefixOf(key, prefix, delimiter).Some? && CommonPrefixOf(key, prefix, delimiter).value in commons
  }

  /** Whenever the client is not refused, it visits the flat listing with each key exactly once. */
  lemma {:induction false} RecursiveListingComplete(keys: seq<string>, prefix: string, delimiter: string)
    requires delimiter != "" && ListRecursively(keys, prefix, delimiter).Success?
    ensures multiset(ListRecursively(keys, prefix, delimiter).value) == multiset(ListUnder(keys, prefix))
    decreases Deepening(keys, prefix), 1, 0
  {
    var flat := ListUnder(keys, prefix);
    var commons := CommonPrefixes(flat, prefix, delimiter);
    CommonPrefixesAre(flat, prefix, delimiter);
    forall c | c in commons ensures CommonOf(keys, prefix, delimiter, c) && |prefix| < |c| <= MaxLength(keys) {
      var key :| key in flat && CommonPrefixOf(key, prefix, delimiter) == Some(c);
      CommonPrefixShape(key, prefix, delimiter);
    }
    EachComplete(keys, prefix, commons, delimiter);
    var direct, grouped := GroupsInto(prefix, delimiter, None), GroupsIntoOne(prefix, delimiter, commons);
    FilterShares(flat, direct, grouped, StartsWith(prefix));
    FilterAll(flat, StartsWith(prefix));
  }

  /** Listing a common prefix lists exactly the keys that collapsed into it. */
  lemma ListUnderCommonPrefix(keys: seq<string>, prefix: string, delimiter: string, c: string)
    requires delimiter != "" && CommonOf(keys, prefix, delimiter, c)
    ensures ListUnder(keys, c) == Filter(ListUnder(keys, prefix), GroupsInto(prefix, delimiter, Some(c)))
  {
    var one := GroupsInto(prefix, delimiter, Some(c));
    var sample :| sample in keys && IsPrefix(prefix, sample) && CommonPrefixOf(sample, prefix, delimiter) == Some(c);
    CommonPrefixShape(sample, prefix, delimiter);
    forall key | key in keys
      ensures StartsWith(c)(key) == (StartsWith(prefix)(key) && one(key))
    {
      if IsPrefix(c, key) { assert key[..|prefix|] == c[..|prefix|]; }
      if IsPrefix(prefix, key) { UnderCommonPrefix(sample, key, prefix, delimiter); }
    }
    FilterTwice(keys, StartsWith(prefix), one, StartsWith(c));
  }

  lemma {:induction false} EachComplete(keys: seq<string>, prefix: string, commons: seq<string>, delimiter: string)
    requires delimiter != "" && Distinct(commons)
    requires forall c :: c in commons ==> |prefix| < |c| <= MaxLength(keys) && CommonOf(keys, prefix, delimiter, c)
    requires ListEach(keys, prefix, commons, delimiter).Success?
    ensures multiset(ListEach(keys, prefix, commons, delimiter).value) ==
            multiset(Filter(ListUnder(keys, prefix), GroupsIntoOne(prefix, delimiter, commons)))
    decreases Deepening(keys, prefix), 0, |commons|
  {
    var flat := ListUnder(keys, prefix);
    if commons != [] {
      var c := commons[0];
      RecursiveListingComplete(keys, c, delimiter);
      EachComplete(keys, prefix, commons[1..], delimiter);
      var one := GroupsInto(prefix, delimiter, Some(c));
      ListUnderCommonPrefix(keys, prefix, delimiter, c);
      assert c !in commons[1..];
      FilterShares(flat, one, GroupsIntoOne(prefix, delimiter, commons[1..]),
                   GroupsIntoOne(prefix, delimiter, commons));
    } else {
      FilterNone(flat, GroupsIntoOne(prefix, delimiter, commons));
    }
  }
}
