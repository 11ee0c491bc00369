/**
 * ListObjectsV2: objects and common prefixes merged into one sorted listing, served in pages that
 * resume after the last sort key shown. The listing is sorted with one order (`localeCompare`)
 * and resumed with another (`>` on strings); both are parameters.
 */
module Pagination {
  import opened Wrappers
  import opened Sorting
  import opened CodeOrder

  datatype Entry = Object(sortKey: string) | Prefix(sortKey: string)

  datatype Page = Page(items: seq<Entry>, truncated: bool, nextToken: Option<string>)

  ghost predicate StrictOrder(after: (string, string) -> bool) {
    && (forall x :: !after(x, x))
    && (forall x, y, z :: after(x, y) && after(y, z) ==> after(x, z))
    && (forall x, y :: x != y ==> after(x, y) || after(y, x))
  }

  function Beyond(cursor: string, after: (string, string) -> bool): Entry -> bool {
    (e: Entry) => cursor == "" || after(e.sortKey, cursor)
  }

  /** One request: an empty cursor means none was given. */
  function ServePage(entries: seq<Entry>, cursor: string, maxKeys: nat, after: (string, string) -> bool): Page {
    var filtered := Filter(entries, Beyond(cursor, after));
    var items := if |filtered| <= maxKeys then filtered else filtered[..maxKeys];
    var truncated := |filtered| > |items|;
    Page(items, truncated, if truncated && items != [] then Some(items[|items| - 1].sortKey) else None)
  }

  /** The two entries are listed in this order. */
  ghost predicate Precedes(entries: seq<Entry>, x: Entry, y: Entry) {
    exists i, j :: 0 <= i < j < |entries| && entries[i] == x && entries[j] == y
  }

  /**
   * A page holds the first entries beyond the cursor, in the order of the listing and as many as
   * asked for; it is truncated exactly when an entry beyond the cursor is not on it, and then it
   * is full.
   */
  lemma PageIs(entries: seq<Entry>, cursor: string, maxKeys: nat, after: (string, string) -> bool, page: Page)
    requires WellKeyed(entries) && page == ServePage(entries, cursor, maxKeys, after)
    ensures page.truncated <==>
            exists e :: e in entries && (cursor == "" || after(e.sortKey, cursor)) && e !in page.items
    ensures |page.items| <= maxKeys && (page.truncated ==> |page.items| == maxKeys)
    ensures forall e :: e in page.items ==> e in entries && (cursor == "" || after(e.sortKey, cursor))
    ensures forall a, b :: 0 <= a < b < |page.items| ==> Precedes(entries, page.items[a], page.items[b])
    ensures forall i, j ::
              0 <= i < j < |entries| && entries[j] in page.items ==>
                entries[i] in page.items || !(cursor == "" || after(entries[i].sortKey, cursor))
  {
    var filtered := Filter(entries, Beyond(cursor, after));
    PageTruncated(entries, cursor, maxKeys, after, page);
    assert page.items == filtered[..|page.items|];
    forall e | e in page.items ensures e in entries && (cursor == "" || after(e.sortKey, cursor)) {
      assert e in filtered && Beyond(cursor, after)(e);
    }
    forall a, b | 0 <= a < b < |page.items| ensures Precedes(entries, page.items[a], page.items[b]) {
      FilterKeepsOrder(entries, Beyond(cursor, after), a, b);
    }
    forall i, j | && 0 <= i < j < |entries| && entries[j] in page.items
                  && (cursor == "" || after(entries[i].sortKey, cursor))
      ensures entries[i] in page.items
    {
      FirstOnPage(entries, Beyond(cursor, after), i, j, |page.items|);
    }
  }

  lemma PageTruncated(entries: seq<Entry>, cursor: string, maxKeys: nat, after: (string, string) -> bool, page: Page)
    requires WellKeyed(entries) && page == ServePage(entries, cursor, maxKeys, after)
    ensures page.truncated <==>
            exists e :: e in entries && (cursor == "" || after(e.sortKey, cursor)) && e !in page.items
  {
    var filtered := Filter(entries, Beyond(cursor, after));
    if |filtered| > maxKeys {
      var next := filtered[maxKeys];
      assert next in filtered;
      forall k | 0 <= k < maxKeys ensures page.items[k] != next {
        FilterKeepsOrder(entries, Beyond(cursor, after), k, maxKeys);
      }
    }
  }

  /** Filtering keeps the order, and the entries apart. */
  lemma {:induction false} FilterKeepsOrder(entries: seq<Entry>, keep: Entry -> bool, a: nat, b: nat)
    requires WellKeyed(entries) && a < b < |Filter(entries, keep)|
    ensures Filter(entries, keep)[a] != Filter(entries, keep)[b]
    ensures Precedes(entries, Filter(entries, keep)[a], Filter(entries, keep)[b])
  {
    var rest := entries[1..];
    FilterUnfold(entries, keep);
    if !keep(entries[0]) {
      FilterKeepsOrder(rest, keep, a, b);
      LaterPrecedes(entries, Filter(rest, keep)[a], Filter(rest, keep)[b]);
    } else if a > 0 {
      FilterKeepsOrder(rest, keep, a - 1, b - 1);
      LaterPrecedes(entries, Filter(rest, keep)[a - 1], Filter(rest, keep)[b - 1]);
    } else {
      assert Filter(rest, keep)[b - 1] in Filter(rest, keep);
      FirstPrecedes(entries, Filter(rest, keep)[b - 1]);
    }
  }

  lemma FilterUnfold(entries: seq<Entry>, keep: Entry -> bool)
    requires WellKeyed(entries) && entries != []
    ensures WellKeyed(entries[1..])
    ensures Filter(entries, keep) == (if keep(entries[0]) then [entries[0]] else []) + Filter(entries[1..], keep)
  {}

  lemma LaterPrecedes(entries: seq<Entry>, x: Entry, y: Entry)
    requires entries != [] && Precedes(entries[1..], x, y)
    ensures Precedes(entries, x, y)
  {
    var i, j :| 0 <= i < j < |entries[1..]| && entries[1..][i] == x && entries[1..][j] == y;
    assert entries[i + 1] == x && entries[j + 1] == y;
  }

  lemma FirstPrecedes(entries: seq<Entry>, y: Entry)
    requires WellKeyed(entries) && entries != [] && y in entries[1..]
    ensures Precedes(entries, entries[0], y) && entries[0] != y
  {
    var j :| 0 <= j < |entries[1..]| && entries[1..][j] == y;
    assert entries[j + 1] == y;
  }

  /** What precedes an entry among the first `n` kept ones is among them too. */
  lemma FirstOnPage(entries: seq<Entry>, keep: Entry -> bool, i: nat, j: nat, n: nat)
    requires WellKeyed(entries) && i < j < |entries| && keep(entries[i]) && n <= |Filter(entries, keep)|
    requires entries[j] in Filter(entries, keep)[..n]
    ensures entries[i] in Filter(entries, keep)[..n]
  {
    var kept := Filter(entries, keep);
    var b :| 0 <= b < n && kept[b] == entries[j];
    assert entries[i] in kept;
    var a :| 0 <= a < |kept| && kept[a] == entries[i];
    if a >= n {
      FilterKeepsOrder(entries, keep, b, a);
      OnlyInOrder(entries, i, j);
      assert false;
    }
  }

  lemma OnlyInOrder(entries: seq<Entry>, i: nat, j: nat)
    requires WellKeyed(entries) && i < j < |entries|
    ensures !Precedes(entries, entries[j], entries[i])
  {}

  /** Sort keys identify entries and are never empty. */
  ghost predicate WellKeyed(entries: seq<Entry>) {
    && (forall e :: e in entries ==> e.sortKey != "")
    && (forall i, j :: 0 <= i < j < |entries| ==> entries[i].sortKey != entries[j].sortKey)
  }

  ghost predicate Ascending(entries: seq<Entry>, after: (string, string) -> bool) {
    forall i, j :: 0 <= i < j < |entries| ==> after(entries[j].sortKey, entries[i].sortKey)
  }

  // ---------- a fixed bucket ----------

  lemma {:induction false} FewerBeyond(entries: seq<Entry>, weak: Entry -> bool, strong: Entry -> bool, dropped: Entry)
    requires forall e :: e in entries && strong(e) ==> weak(e)
    requires dropped in entries && weak(dropped) && !strong(dropped)
    ensures |Filter(entries, strong)| < |Filter(entries, weak)|
  {
    if entries[0] == dropped {
      NotMoreBeyond(entries[1..], weak, strong);
    } else {
      FewerBeyond(entries[1..], weak, strong, dropped);
    }
  }

  lemma {:induction false} NotMoreBeyond(entries: seq<Entry>, weak: Entry -> bool, strong: Entry -> bool)
    requires forall e :: e in entries && strong(e) ==> weak(e)
    ensures |Filter(entries, strong)| <= |Filter(entries, weak)|
  {
    if entries == [] {
    } else {
      NotMoreBeyond(entries[1..], weak, strong);
    }
  }

  lemma TokenAdvances(entries: seq<Entry>, cursor: string, n: nat, after: (string, string) -> bool)
    requires StrictOrder(after) && WellKeyed(entries) && n >= 1
    requires ServePage(entries, cursor, n, after).nextToken.Some?
    ensures var token := ServePage(entries, cursor, n, after).nextToken.value;
            && token != ""
            && |Filter(entries, Beyond(token, after))| < |Filter(entries, Beyond(cursor, after))|
            && (cursor != "" ==> after(token, cursor))
  {
    var page := ServePage(entries, cursor, n, after);
    var last := page.items[|page.items| - 1];
    assert last in page.items;
    assert last in Filter(entries, Beyond(cursor, after));
    FewerBeyond(entries, Beyond(cursor, after), Beyond(last.sortKey, after), last);
  }

  /** Everything a client receives by following continuation tokens; it always comes to an end. */
  ghost function FollowTokens(entries: seq<Entry>, cursor: string, n: nat, after: (string, string) -> bool): seq<Entry>
    requires StrictOrder(after) && WellKeyed(entries) && n >= 1
    decreases |Filter(entries, Beyond(cursor, after))|
  {
    var page := ServePage(entries, cursor, n, after);
    match page.nextToken
    case None => page.items
    case Some(token) =>
      TokenAdvances(entries, cursor, n, after);
      page.items + FollowTokens(entries, token, n, after)
  }

  /** The key before position `i` separates the listing there, as the resuming order sees it. */
  ghost predicate SplitsAt(entries: seq<Entry>, i: nat, after: (string, string) -> bool)
    requires 0 < i <= |entries|
  {
    && (forall j :: 0 <= j < i ==> !after(entries[j].sortKey, entries[i - 1].sortKey))
    && (forall j :: i <= j < |entries| ==> after(entries[j].sortKey, entries[i - 1].sortKey))
  }

  /** Position `i` ends a number of full pages. */
  predicate PageBoundary(i: nat, n: nat)
    requires n >= 1
  {
    i == 0 || (i >= n && PageBoundary(i - n, n))
  }

  /** The listing splits at every page boundary. */
  ghost predicate BoundariesSplit(entries: seq<Entry>, n: nat, after: (string, string) -> bool)
    requires n >= 1
  {
    forall i :: 0 < i < |entries| && PageBoundary(i, n) ==> SplitsAt(entries, i, after)
  }

  lemma {:induction false} FilterIsTail(entries: seq<Entry>, i: nat, keep: Entry -> bool)
    requires i <= |entries|
    requires forall j :: 0 <= j < i ==> !keep(entries[j])
    requires forall j :: i <= j < |entries| ==> keep(entries[j])
    ensures Filter(entries, keep) == entries[i..]
  {
    forall e | e in entries[..i] ensures !keep(e) {}
    forall e | e in entries[i..] ensures keep(e) {}
    FilterIsBack(entries[..i], entries[i..], keep);
    assert entries == entries[..i] + entries[i..];
  }

  lemma FilterIsBack(front: seq<Entry>, back: seq<Entry>, keep: Entry -> bool)
    requires (forall e :: e in front ==> !keep(e)) && (forall e :: e in back ==> keep(e))
    ensures Filter(front + back, keep) == back
  {
    FilterNone(front, keep);
    FilterAll(back, keep);
    FilterSplits(front, back, keep);
  }

  /** Resuming behind the first `i` entries returns exactly the others. */
  ghost predicate ResumesAt(entries: seq<Entry>, i: nat, n: nat, after: (string, string) -> bool)
    requires StrictOrder(after) && WellKeyed(entries) && n >= 1 && 0 < i < |entries|
  {
    FollowTokens(entries, entries[i - 1].sortKey, n, after) == entries[i..]
  }

  /** One request that finds the tail of the listing, and the requests after it. */
  lemma FollowTail(entries: seq<Entry>, i: nat, next: nat, n: nat, after: (string, string) -> bool)
    requires StrictOrder(after) && WellKeyed(entries) && n >= 1 && 0 < i < |entries| && next == i + n
    requires Filter(entries, Beyond(entries[i - 1].sortKey, after)) == entries[i..]
    ensures FollowTokens(entries, entries[i - 1].sortKey, n, after) ==
            if next < |entries| then entries[i..next] + FollowTokens(entries, entries[next - 1].sortKey, n, after)
            else entries[i..]
  {
    var cursor := entries[i - 1].sortKey;
    var page := ServePage(entries, cursor, n, after);
    if next < |entries| {
      assert page.items == entries[i..next];
      assert page.items[|page.items| - 1] == entries[next - 1];
    }
  }

  lemma TailBeyond(entries: seq<Entry>, i: nat, after: (string, string) -> bool)
    requires WellKeyed(entries) && 0 < i < |entries| && SplitsAt(entries, i, after)
    ensures Filter(entries, Beyond(entries[i - 1].sortKey, after)) == entries[i..]
  {
    assert entries[i - 1] in entries;
    FilterIsTail(entries, i, Beyond(entries[i - 1].sortKey, after));
  }

  /** A request that finds the tail leads to the whole tail exactly when its successor does. */
  lemma FollowStep(entries: seq<Entry>, i: nat, next: nat, n: nat, after: (string, string) -> bool)
    requires StrictOrder(after) && WellKeyed(entries) && n >= 1 && 0 < i < |entries| && next == i + n
    requires Filter(entries, Beyond(entries[i - 1].sortKey, after)) == entries[i..]
    ensures ResumesAt(entries, i, n, after) <==> (next < |entries| ==> ResumesAt(entries, next, n, after))
  {
    FollowTail(entries, i, next, n, after);
    if next < |entries| {
      SameRest(entries, i, next, FollowTokens(entries, entries[next - 1].sortKey, n, after));
    }
  }

  lemma SameRest(entries: seq<Entry>, i: nat, next: nat, rest: seq<Entry>)
    requires i <= next < |entries|
    ensures entries[i..next] + rest == entries[i..] <==> rest == entries[next..]
  {
    assert entries[i..][..next - i] == entries[i..next];
    assert entries[i..][next - i..] == entries[next..];
    SameTail(entries[i..next], rest, entries[i..]);
  }

  lemma {:induction false} FollowFromBoundary(entries: seq<Entry>, i: nat, n: nat, after: (string, string) -> bool)
    requires StrictOrder(after) && WellKeyed(entries) && n >= 1 && 0 < i < |entries|
    requires BoundariesSplit(entries, n, after) && PageBoundary(i, n)
    ensures ResumesAt(entries, i, n, after)
    decreases |entries| - i
  {
    var next := i + n;
    if next < |entries| { FollowFromBoundary(entries, next, n, after); }
    TailBeyond(entries, i, after);
    FollowStep(entries, i, next, n, after);
  }

  lemma {:induction false} FollowOnlyBeyond(entries: seq<Entry>, cursor: string, n: nat,
                                            after: (string, string) -> bool)
    requires StrictOrder(after) && WellKeyed(entries) && n >= 1
    ensures forall e :: e in FollowTokens(entries, cursor, n, after) ==> e in entries && Beyond(cursor, after)(e)
    decreases |Filter(entries, Beyond(cursor, after))|
  {
    var page := ServePage(entries, cursor, n, after);
    if page.nextToken.None? {
    } else {
      TokenAdvances(entries, cursor, n, after);
      FollowOnlyBeyond(entries, page.nextToken.value, n, after);
    }
  }

  lemma {:induction false} FilterKeepsFirst(entries: seq<Entry>, keep: Entry -> bool, j: nat)
    requires j < |entries| && keep(entries[j])
    ensures Filter(entries, keep) != [] && Filter(entries, keep)[0] in entries[..j + 1]
  {
    if keep(entries[0]) {
    } else {
      FilterKeepsFirst(entries[1..], keep, j - 1);
      assert entries[..j + 1] == [entries[0]] + entries[1..][..j];
    }
  }

  lemma FirstServed(entries: seq<Entry>, cursor: string, n: nat, after: (string, string) -> bool)
    requires StrictOrder(after) && WellKeyed(entries) && n >= 1
    requires Filter(entries, Beyond(cursor, after)) != []
    ensures FollowTokens(entries, cursor, n, after) != []
    ensures FollowTokens(entries, cursor, n, after)[0] == Filter(entries, Beyond(cursor, after))[0]
  {}

  /** The client got the whole rest of the listing, so the listing splits where it resumed. */
  lemma CompleteSplits(entries: seq<Entry>, i: nat, n: nat, after: (string, string) -> bool)
    requires StrictOrder(after) && WellKeyed(entries) && n >= 1 && 0 < i < |entries|
    requires ResumesAt(entries, i, n, after)
    ensures SplitsAt(entries, i, after)
  {
    var cursor := entries[i - 1].sortKey;
    assert entries[i - 1] in entries;
    FollowOnlyBeyond(entries, cursor, n, after);
    forall j | i <= j < |entries| ensures after(entries[j].sortKey, cursor) {
      assert entries[j] in entries[i..];
    }
    var beyond := Filter(entries, Beyond(cursor, after));
    assert entries[i] in beyond;
    FirstServed(entries, cursor, n, after);
    assert entries[i..][0] == entries[i] == beyond[0];
    forall j | 0 <= j < i ensures !after(entries[j].sortKey, cursor) {
      if after(entries[j].sortKey, cursor) {
        FilterKeepsFirst(entries, Beyond(cursor, after), j);
        assert false;
      }
    }
  }

  lemma NextBoundary(entries: seq<Entry>, i: nat, next: nat, n: nat, after: (string, string) -> bool)
    requires StrictOrder(after) && WellKeyed(entries) && n >= 1 && 0 < i && next == i + n < |entries|
    requires ResumesAt(entries, i, n, after)
    ensures ResumesAt(entries, next, n, after)
  {
    CompleteSplits(entries, i, n, after);
    TailBeyond(entries, i, after);
    FollowStep(entries, i, next, n, after);
  }

  lemma OnePageBack(ahead: nat, less: int, n: nat)
    requires n >= 1 && ahead > 0 && less == ahead - n && PageBoundary(ahead, n)
    ensures less >= 0 && PageBoundary(less, n)
  {}

  /** Completeness carries over any number of full pages. */
  lemma {:induction false} CompleteFurtherOn(entries: seq<Entry>, i: nat, k: nat, n: nat,
                                             after: (string, string) -> bool)
    requires StrictOrder(after) && WellKeyed(entries) && n >= 1 && 0 < i <= k < |entries|
    requires PageBoundary(k - i, n) && ResumesAt(entries, i, n, after)
    ensures ResumesAt(entries, k, n, after)
    decreases k - i
  {
    if i == k {
    } else {
      var last := k - n;
      OnePageBack(k - i, last - i, n);
      CompleteFurtherOn(entries, i, last, n, after);
      NextBoundary(entries, last, k, n, after);
    }
  }

  lemma SameTail(front: seq<Entry>, back: seq<Entry>, whole: seq<Entry>)
    requires |front| <= |whole| && whole[..|front|] == front
    ensures front + back == whole <==> back == whole[|front|..]
  {
    if front + back == whole { assert back == (front + back)[|front|..]; }
    assert whole == whole[..|front|] + whole[|front|..];
  }

  /** Following tokens with this page size returns the whole listing in order. */
  ghost predicate PagesComplete(entries: seq<Entry>, n: nat, after: (string, string) -> bool)
    requires StrictOrder(after) && WellKeyed(entries) && n >= 1
  {
    FollowTokens(entries, "", n, after) == entries
  }

  /**
   * Following continuation tokens from the start returns the whole listing in order exactly when
   * the listing splits, in the resuming order, at each page boundary.
   */
  lemma PagesCompleteIff(entries: seq<Entry>, n: nat, after: (string, string) -> bool)
    requires StrictOrder(after) && WellKeyed(entries) && n >= 1
    ensures PagesComplete(entries, n, after) <==> BoundariesSplit(entries, n, after)
  {
    FirstPage(entries, n, after);
    assert PageBoundary(n - n, n) && PageBoundary(n, n);
    forall k | 0 < k < n ensures !PageBoundary(k, n) {}
    if n < |entries| {
      if BoundariesSplit(entries, n, after) { FollowFromBoundary(entries, n, n, after); }
      if PagesComplete(entries, n, after) {
        forall k | 0 < k < |entries| && PageBoundary(k, n) ensures SplitsAt(entries, k, after) {
          CompleteFurtherOn(entries, n, k, n, after);
          CompleteSplits(entries, k, n, after);
        }
      }
    }
  }

  /** The first request shows the first page, so the rest decides. */
  lemma FirstPage(entries: seq<Entry>, n: nat, after: (string, string) -> bool)
    requires StrictOrder(after) && WellKeyed(entries) && n >= 1
    ensures PagesComplete(entries, n, after) <==>
            (n < |entries| ==> ResumesAt(entries, n, n, after))
  {
    FilterAll(entries, Beyond("", after));
    if n < |entries| {
      assert entries[..n][n - 1] == entries[n - 1];
      var rest := FollowTokens(entries, entries[n - 1].sortKey, n, after);
      assert FollowTokens(entries, "", n, after) == entries[..n] + rest;
      SameTail(entries[..n], rest, entries);
    }
  }

  lemma {:induction false} SinglesAreBoundaries(i: nat)
    ensures PageBoundary(i, 1)
  {
    if i == 0 {
    } else {
      SinglesAreBoundaries(i - 1);
    }
  }

  /** Paging works for every page size exactly when the two orders agree on the listing. */
  lemma EveryPageSizeIff(entries: seq<Entry>, after: (string, string) -> bool)
    requires StrictOrder(after) && WellKeyed(entries)
    ensures (forall n: nat :: n >= 1 ==> PagesComplete(entries, n, after)) <==> Ascending(entries, after)
  {
    if Ascending(entries, after) {
      forall n: nat | n >= 1 ensures PagesComplete(entries, n, after) { PagesCompleteIff(entries, n, after); }
    }
    if PagesComplete(entries, 1, after) {
      PagesCompleteIff(entries, 1, after);
      forall i, j | 0 <= i < j < |entries| ensures after(entries[j].sortKey, entries[i].sortKey) {
        SinglesAreBoundaries(i + 1);
        assert SplitsAt(entries, i + 1, after);
      }
    }
  }

  // ---------- a bucket that changes between requests ----------

  datatype Request = Request(entries: seq<Entry>, maxKeys: nat)

  ghost predicate WellServed(requests: seq<Request>, after: (string, string) -> bool) {
    forall i :: 0 <= i < |requests| ==>
      requests[i].maxKeys >= 1 && WellKeyed(requests[i].entries) && Ascending(requests[i].entries, after)
  }

  /** The sort keys shown over a run of requests, each against the bucket as it then is. */
  function ShownKeys(requests: seq<Request>, cursor: string, after: (string, string) -> bool): seq<string> {
    if requests == [] then []
    else
      var page := ServePage(requests[0].entries, cursor, requests[0].maxKeys, after);
      SortKeys(page.items)
      + match page.nextToken case None => [] case Some(token) => ShownKeys(requests[1..], token, after)
  }

  function SortKeys(items: seq<Entry>): (keys: seq<string>)
    ensures |keys| == |items| && forall i :: 0 <= i < |items| ==> keys[i] == items[i].sortKey
  {
    if items == [] then [] else [items[0].sortKey] + SortKeys(items[1..])
  }

  /** Some request of the run was answered without a continuation token. */
  predicate Finished(requests: seq<Request>, cursor: string, after: (string, string) -> bool) {
    && requests != []
    && var page := ServePage(requests[0].entries, cursor, requests[0].maxKeys, after);
       page.nextToken.Some? ==> Finished(requests[1..], page.nextToken.value, after)
  }

  ghost predicate Rising(keys: seq<string>, cursor: string, after: (string, string) -> bool) {
    && (forall i :: 0 <= i < |keys| ==> cursor == "" || after(keys[i], cursor))
    && (forall i, j :: 0 <= i < j < |keys| ==> after(keys[j], keys[i]))
  }

  lemma {:induction false} FilterRises(entries: seq<Entry>, cursor: string, after: (string, string) -> bool)
    requires Ascending(entries, after)
    ensures Ascending(Filter(entries, Beyond(cursor, after)), after)
  {
    if entries == [] {
    } else {
      FilterRises(entries[1..], cursor, after);
      var rest := Filter(entries[1..], Beyond(cursor, after));
      forall j | 0 <= j < |rest| ensures after(rest[j].sortKey, entries[0].sortKey) {
        assert rest[j] in rest;
        var k :| 0 <= k < |entries[1..]| && entries[1..][k] == rest[j];
        assert entries[k + 1] == rest[j];
      }
    }
  }

  lemma PageRises(request: Request, cursor: string, after: (string, string) -> bool)
    requires StrictOrder(after) && request.maxKeys >= 1
    requires WellKeyed(request.entries) && Ascending(request.entries, after)
    ensures var page := ServePage(request.entries, cursor, request.maxKeys, after);
            var keys := SortKeys(page.items);
            && Rising(keys, cursor, after)
            && (page.nextToken.Some? ==> keys != [] && page.nextToken.value == keys[|keys| - 1] != "")
  {
    FilterRises(request.entries, cursor, after);
    var filtered := Filter(request.entries, Beyond(cursor, after));
    var page := ServePage(request.entries, cursor, request.maxKeys, after);
    var keys := SortKeys(page.items);
    forall i | 0 <= i < |keys| ensures (cursor == "" || after(keys[i], cursor)) && keys[i] != "" {
      assert filtered[i] in filtered;
    }
  }

  lemma RisingConcat(front: seq<string>, back: seq<string>, cursor: string, after: (string, string) -> bool)
    requires StrictOrder(after) && front != [] && front[|front| - 1] != ""
    requires Rising(front, cursor, after) && Rising(back, front[|front| - 1], after)
    ensures Rising(front + back, cursor, after)
  {}

  /** Whatever happens to the bucket between requests, no key is ever shown twice. */
  lemma {:induction false} ShownRise(requests: seq<Request>, cursor: string, after: (string, string) -> bool)
    requires StrictOrder(after) && WellServed(requests, after)
    ensures Rising(ShownKeys(requests, cursor, after), cursor, after)
    decreases |requests|
  {
    if requests == [] {
    } else {
      PageRises(requests[0], cursor, after);
      var page := ServePage(requests[0].entries, cursor, requests[0].maxKeys, after);
      if page.nextToken.Some? {
        ShownRise(requests[1..], page.nextToken.value, after);
        RisingConcat(SortKeys(page.items), ShownKeys(requests[1..], page.nextToken.value, after), cursor, after);
      }
    }
  }

  /** A listed key beyond the cursor is on the page, or the page's token has not passed it. */
  lemma OnPageOrLater(request: Request, cursor: string, after: (string, string) -> bool, e: Entry)
    requires StrictOrder(after) && request.maxKeys >= 1 && e in request.entries && Beyond(cursor, after)(e)
    requires WellKeyed(request.entries) && Ascending(request.entries, after)
    ensures var page := ServePage(request.entries, cursor, request.maxKeys, after);
            || e.sortKey in SortKeys(page.items)
            || (page.nextToken.Some? && after(e.sortKey, page.nextToken.value))
  {
    FilterRises(request.entries, cursor, after);
    var filtered := Filter(request.entries, Beyond(cursor, after));
    assert e in filtered;
    var at :| 0 <= at < |filtered| && filtered[at] == e;
    var page := ServePage(request.entries, cursor, request.maxKeys, after);
    if at < |page.items| {
      assert SortKeys(page.items)[at] == e.sortKey;
    } else {
      assert page.items[|page.items| - 1] == filtered[|page.items| - 1];
    }
  }

  ghost predicate Present(entries: seq<Entry>, key: string) {
    exists e :: e in entries && e.sortKey == key
  }

  lemma {:induction false} PresentIsShown(requests: seq<Request>, cursor: string, after: (string, string) -> bool,
                                          key: string)
    requires StrictOrder(after) && WellServed(requests, after) && Finished(requests, cursor, after)
    requires cursor == "" || after(key, cursor)
    requires forall i :: 0 <= i < |requests| ==> Present(requests[i].entries, key)
    ensures key in ShownKeys(requests, cursor, after)
    decreases |requests|
  {
    assert Present(requests[0].entries, key);
    var e :| e in requests[0].entries && e.sortKey == key;
    OnPageOrLater(requests[0], cursor, after, e);
    var page := ServePage(requests[0].entries, cursor, requests[0].maxKeys, after);
    if key !in SortKeys(page.items) {
      PresentIsShown(requests[1..], page.nextToken.value, after, key);
    }
  }

  /**
   * An entry that is in the bucket at every request of a finished run is shown exactly once, and
   * no other key more than once, whatever was put or deleted in between.
   */
  lemma ChangingBucketExactlyOnce(requests: seq<Request>, startAfter: string, after: (string, string) -> bool,
                                  key: string)
    requires StrictOrder(after) && WellServed(requests, after) && Finished(requests, startAfter, after)
    requires startAfter == "" || after(key, startAfter)
    ensures multiset(ShownKeys(requests, startAfter, after))[key] <= 1
    ensures (forall i :: 0 <= i < |requests| ==> Present(requests[i].entries, key)) ==>
              multiset(ShownKeys(requests, startAfter, after))[key] == 1
  {
    var shown := ShownKeys(requests, startAfter, after);
    ShownRise(requests, startAfter, after);
    assert Distinct(shown);
    DistinctAtMostOnce(shown, key);
    if forall i :: 0 <= i < |requests| ==> Present(requests[i].entries, key) {
      PresentIsShown(requests, startAfter, after, key);
      assert key in multiset(shown);
    }
  }

  lemma {:induction false} DistinctAtMostOnce(keys: seq<string>, key: string)
    requires Distinct(keys)
    ensures multiset(keys)[key] <= 1
  {
    if keys == [] {
    } else {
      DistinctAtMostOnce(keys[1..], key);
      assert keys == [keys[0]] + keys[1..];
      assert keys[0] !in keys[1..];
    }
  }

  // ---------- the two orders of the code disagree ----------

  lemma CodeAfterIsStrict()
    ensures StrictOrder(CodeAfter)
  {
    forall x, y, z | CodeAfter(x, y) && CodeAfter(y, z) ensures CodeAfter(x, z) { CodeAfterTransitive(x, y, z); }
    forall x, y ensures !CodeAfter(x, x) && (x != y ==> CodeAfter(x, y) || CodeAfter(y, x)) { CodeAfterTotal(x, y); }
  }

  /** Collation puts `a` before `B`, character codes put it after: a page size of one loses `B`. */
  lemma PageOfOneLosesB(entries: seq<Entry>)
    requires entries == [Object("a"), Object("B")]
    ensures StrictOrder(CodeAfter) && WellKeyed(entries) && Object("B") in entries
    ensures FollowTokens(entries, "", 1, CodeAfter) == [Object("a")]
  {
    CodeAfterIsStrict();
    FilterAll(entries, Beyond("", CodeAfter));
    FilterNone(entries, Beyond("a", CodeAfter));
    assert ServePage(entries, "", 1, CodeAfter) == Page([Object("a")], true, Some("a"));
    assert ServePage(entries, "a", 1, CodeAfter) == Page([], false, None);
  }
}
