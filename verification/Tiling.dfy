/** How the upload client cuts a file into parts. */
module Tiling {
  import opened Files
  import opened Arithmetic

  /** `Math.max(1, Math.ceil(size / partSize))`. */
  function PartCount(size: nat, partSize: nat): (n: nat)
    requires partSize > 0
    ensures n >= 1
  {
    if size == 0 then 1
    else
      assert size + partSize - 1 >= partSize;
      QuotientPositive(size + partSize - 1, partSize);
      (size + partSize - 1) / partSize
  }

  lemma QuotientPositive(x: nat, d: nat)
    requires 0 < d <= x
    ensures x / d >= 1
  {}

  /** Cutting from the front: the reference for the slices taken by index. */
  function Tiles(file: Bytes, partSize: nat): (tiles: seq<Bytes>)
    requires partSize > 0
    ensures tiles != []
    decreases |file|
  {
    if |file| <= partSize then [file] else [file[..partSize]] + Tiles(file[partSize..], partSize)
  }

  function Concat(tiles: seq<Bytes>): Bytes {
    if tiles == [] then [] else tiles[0] + Concat(tiles[1..])
  }

  lemma {:induction false} TilesConcat(file: Bytes, partSize: nat)
    requires partSize > 0
    ensures Concat(Tiles(file, partSize)) == file
    decreases |file|
  {
    var tiles := Tiles(file, partSize);
    if |file| <= partSize {
      assert tiles[1..] == [];
    } else {
      TilesConcat(file[partSize..], partSize);
      assert tiles[1..] == Tiles(file[partSize..], partSize);
    }
  }

  lemma DivideOneLess(x: nat, d: nat)
    requires 0 < d <= x
    ensures (x - d) / d == x / d - 1
  {
    var q := x / d;
    assert x == q * d + x % d;
    assert x - d == (q - 1) * d + x % d;
    QuotientIs(x - d, d, q - 1, x % d);
  }

  lemma QuotientIs(x: nat, d: nat, q: int, r: nat)
    requires 0 < d && r < d && x == q * d + r
    ensures x / d == q
  {
    var p := x / d;
    assert x == p * d + x % d;
    if p < q {
      ProductMonotone(p + 1, q, d);
      assert false;
    } else if p > q {
      ProductMonotone(q + 1, p, d);
      assert false;
    }
  }

  /** There are as many slices as the client counts. */
  lemma {:induction false} TilesCount(file: Bytes, partSize: nat)
    requires partSize > 0
    ensures |Tiles(file, partSize)| == PartCount(|file|, partSize)
    decreases |file|
  {
    if |file| <= partSize {
      if |file| > 0 { QuotientIs(|file| + partSize - 1, partSize, 1, |file| - 1); }
    } else {
      TilesCount(file[partSize..], partSize);
      DivideOneLess(|file| + partSize - 1, partSize);
    }
  }

  /** The slice `file.slice(start, min(start + partSize, size))` at `start = index * partSize` is tile `index`. */
  lemma {:induction false} TileAt(file: Bytes, partSize: nat, index: nat)
    requires partSize > 0 && index < |Tiles(file, partSize)|
    ensures index * partSize <= |file|
    ensures var start := index * partSize;
            Tiles(file, partSize)[index] == file[start..if start + partSize < |file| then start + partSize else |file|]
    decreases |file|
  {
    if index == 0 {
    } else {
      var rest := file[partSize..];
      TileAt(rest, partSize, index - 1);
      var start := (index - 1) * partSize;
      assert index * partSize == start + partSize;
      var end := if start + partSize < |rest| then start + partSize else |rest|;
      SliceOfRest(file, partSize, start, end);
    }
  }

  lemma SliceOfRest(file: Bytes, skipped: nat, from: nat, to: nat)
    requires skipped <= |file| && from <= to <= |file| - skipped
    ensures file[skipped..][from..to] == file[from + skipped..to + skipped]
  {}

  function Sum(values: seq<nat>): nat {
    if values == [] then 0 else Sum(values[..|values| - 1]) + values[|values| - 1]
  }

  function Lengths(tiles: seq<Bytes>): (lengths: seq<nat>)
    ensures |lengths| == |tiles| && forall i :: 0 <= i < |tiles| ==> lengths[i] == |tiles[i]|
  {
    if tiles == [] then [] else [|tiles[0]|] + Lengths(tiles[1..])
  }

  lemma {:induction false} SumPrepend(x: nat, values: seq<nat>)
    ensures Sum([x] + values) == x + Sum(values)
  {
    if values == [] {
      assert ([x] + values)[..0] == [];
    } else {
      SumPrepend(x, values[..|values| - 1]);
      assert ([x] + values)[..|values|] == [x] + values[..|values| - 1];
    }
  }

  lemma {:induction false} SumLengths(tiles: seq<Bytes>)
    ensures Sum(Lengths(tiles)) == |Concat(tiles)|
  {
    if tiles == [] {
    } else {
      SumLengths(tiles[1..]);
      SumPrepend(|tiles[0]|, Lengths(tiles[1..]));
    }
  }

  lemma {:induction false} SumMonotone(a: seq<nat>, b: seq<nat>)
    requires |a| == |b| && forall i :: 0 <= i < |a| ==> a[i] <= b[i]
    ensures Sum(a) <= Sum(b)
  {
    if a == [] {
    } else {
      SumMonotone(a[..|a| - 1], b[..|b| - 1]);
    }
  }
}
