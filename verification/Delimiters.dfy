/**
 * A common prefix is offered to the client as a prefix to list next, but a prefix with an unsafe
 * last segment is refused. Which delimiters can never lead a client into that refusal.
 */
module Delimiters {
  import opened Wrappers
  import opened Text
  import opened ObjectKeys
  import opened Grouping

  function Last(parts: seq<string>): string
    requires parts != []
  {
    parts[|parts| - 1]
  }

  predicate IsSuffix(suffix: string, s: string) {
    |suffix| <= |s| && forall i :: 0 <= i < |suffix| ==> suffix[i] == s[|s| - |suffix| + i]
  }

  /** No reserved segment can end with the delimiter, or with what follows its last slash. */
  predicate SafeDelimiter(delimiter: string) {
    if '/' in delimiter then !ReservedSegment(Last(Split(delimiter, '/')))
    else delimiter != "." && delimiter != ".." && !IsSuffix(Lower(delimiter), ".openbucket")
  }

  /** The parts of two texts written one after the other: the parts that meet are joined. */
  function Glued(left: seq<string>, right: seq<string>): (r: seq<string>)
    requires left != [] && right != []
    ensures r != []
  {
    left[..|left| - 1] + [Last(left) + right[0]] + right[1..]
  }

  lemma GluedAfterSlash(rest: seq<string>, right: seq<string>)
    requires rest != [] && right != []
    ensures Glued([""] + rest, right) == [""] + Glued(rest, right)
  {}

  lemma GluedLonger(c: char, rest: seq<string>, right: seq<string>)
    requires rest != [] && right != []
    ensures Glued([[c] + rest[0]] + rest[1..], right) == [[c] + Glued(rest, right)[0]] + Glued(rest, right)[1..]
  {
    if |rest| == 1 { assert [c] + rest[0] + right[0] == [c] + (rest[0] + right[0]); }
  }

  lemma {:induction false} SplitConcat(a: string, b: string)
    ensures Split(a + b, '/') == Glued(Split(a, '/'), Split(b, '/'))
  {
    var right := Split(b, '/');
    if a == "" {
      assert a + b == b;
      assert "" + right[0] == right[0];
    } else {
      assert (a + b)[1..] == a[1..] + b;
      SplitConcat(a[1..], b);
      var rest := Split(a[1..], '/');
      if a[0] == '/' { GluedAfterSlash(rest, right); } else { GluedLonger(a[0], rest, right); }
    }
  }

  lemma {:induction false} NoSlashOnePart(s: string)
    requires '/' !in s
    ensures Split(s, '/') == [s]
  {
    SplitSingle(s, '/');
  }

  lemma {:induction false} LowerConcat(a: string, b: string)
    ensures Lower(a + b) == Lower(a) + Lower(b)
  {
    forall i | 0 <= i < |a + b| ensures Lower(a + b)[i] == (Lower(a) + Lower(b))[i] {
      assert (a + b)[i] == if i < |a| then a[i] else b[i - |a|];
    }
  }

  lemma {:induction false} ManySlashes(s: string)
    ensures |Split(s, '/')| > 1 <==> '/' in s
  {
    if s == "" {
    } else {
      ManySlashes(s[1..]);
      assert s == [s[0]] + s[1..];
    }
  }

  /** With a safe delimiter every common prefix of valid keys is a prefix the store accepts. */
  lemma SafeDelimiterAccepted(key: string, prefix: string, delimiter: string)
    requires ValidKey(key) && IsPrefix(prefix, key) && delimiter != "" && SafeDelimiter(delimiter)
    requires CommonPrefixOf(key, prefix, delimiter).Some?
    ensures !RefusedPrefix(CommonPrefixOf(key, prefix, delimiter).value)
  {
    CommonPrefixShape(key, prefix, delimiter);
    var c := CommonPrefixOf(key, prefix, delimiter).value;
    var rest := key[|c|..];
    assert key == c + rest;
    SplitConcat(c, rest);
    var parts := Split(c, '/');
    forall part | part in parts
      ensures !ReservedSegment(part)
    {
      var i :| 0 <= i < |parts| && parts[i] == part;
      if i < |parts| - 1 {
        assert Split(key, '/')[i] == part;
      } else {
        LastPartSafe(c[..|c| - |delimiter|], delimiter);
      }
    }
    assert forall x :: x in c ==> x in key;
  }

  lemma LastPartSafe(before: string, delimiter: string)
    requires SafeDelimiter(delimiter)
    ensures !ReservedSegment(Last(Split(before + delimiter, '/')))
  {
    SplitConcat(before, delimiter);
    var left := Split(before, '/');
    var last := Last(Split(before + delimiter, '/'));
    ManySlashes(delimiter);
    if '/' in delimiter {
      assert last == Last(Split(delimiter, '/'));
    } else {
      NoSlashOnePart(delimiter);
      assert last == Last(left) + delimiter;
      assert last[|last| - |delimiter|..] == delimiter;
      LowerConcat(Last(left), delimiter);
      assert Lower(last)[|last| - |delimiter|..] == Lower(delimiter);
    }
  }

  ghost predicate AllValid(keys: seq<string>) {
    forall key :: key in keys ==> ValidKey(key)
  }

  /** A safe delimiter lets the client list everything it is shown, from any acceptable prefix. */
  lemma {:induction false} SafeRecursionSucceeds(keys: seq<string>, prefix: string, delimiter: string)
    requires AllValid(keys) && delimiter != "" && SafeDelimiter(delimiter) && !RefusedPrefix(prefix)
    ensures ListRecursively(keys, prefix, delimiter).Success?
    ensures multiset(ListRecursively(keys, prefix, delimiter).value) == multiset(ListUnder(keys, prefix))
    decreases Deepening(keys, prefix), 1, 0
  {
    var flat := ListUnder(keys, prefix);
    var commons := CommonPrefixes(flat, prefix, delimiter);
    CommonPrefixesAre(flat, prefix, delimiter);
    forall c | c in commons ensures !RefusedPrefix(c) && |prefix| < |c| <= MaxLength(keys) {
      var key :| key in flat && IsPrefix(prefix, key) && CommonPrefixOf(key, prefix, delimiter) == Some(c);
      CommonPrefixShape(key, prefix, delimiter);
      SafeDelimiterAccepted(key, prefix, delimiter);
    }
    SafeEachSucceeds(keys, prefix, commons, delimiter);
    RecursiveListingComplete(keys, prefix, delimiter);
  }

  lemma {:induction false} SafeEachSucceeds(keys: seq<string>, prefix: string, commons: seq<string>, delimiter: string)
    requires AllValid(keys) && delimiter != "" && SafeDelimiter(delimiter)
    requires forall c :: c in commons ==> |prefix| < |c| <= MaxLength(keys) && !RefusedPrefix(c)
    ensures ListEach(keys, prefix, commons, delimiter).Success?
    decreases Deepening(keys, prefix), 0, |commons|
  {
    if commons == [] {
    } else {
      SafeRecursionSucceeds(keys, commons[0], delimiter);
      SafeEachSucceeds(keys, prefix, commons[1..], delimiter);
    }
  }

  // ---------- the other direction ----------

  lemma {:induction false} EachFails(keys: seq<string>, prefix: string, commons: seq<string>, delimiter: string,
                                     c: string)
    requires delimiter != "" && c in commons && RefusedPrefix(c)
    requires forall d :: d in commons ==> |prefix| < |d| <= MaxLength(keys)
    ensures ListEach(keys, prefix, commons, delimiter).Failure?
    decreases |commons|
  {
    if commons[0] == c {
    } else {
      EachFails(keys, prefix, commons[1..], delimiter, c);
    }
  }

  /** With a slash in it, an unsafe delimiter makes every common prefix end in a reserved segment. */
  lemma EndsReserved(before: string, delimiter: string)
    requires '/' in delimiter && !SafeDelimiter(delimiter)
    ensures RefusedPrefix(before + delimiter)
  {
    SplitConcat(before, delimiter);
    ManySlashes(delimiter);
    var parts := Split(before + delimiter, '/');
    assert Last(parts) == Last(Split(delimiter, '/'));
    assert Last(parts) in parts;
  }

  /**
   * With a slash in the delimiter the condition is exact for every bucket and prefix: the client
   * is refused exactly when the delimiter is unsafe and some key below the prefix contains it.
   */
  lemma SlashDelimiterIff(keys: seq<string>, prefix: string, delimiter: string)
    requires AllValid(keys) && '/' in delimiter && !RefusedPrefix(prefix)
    ensures ListRecursively(keys, prefix, delimiter).Success? <==>
            || SafeDelimiter(delimiter)
            || forall key :: key in keys && IsPrefix(prefix, key) ==> CommonPrefixOf(key, prefix, delimiter).None?
  {
    var flat := ListUnder(keys, prefix);
    var commons := CommonPrefixes(flat, prefix, delimiter);
    CommonPrefixesAre(flat, prefix, delimiter);
    assert commons != [] ==> commons[0] in commons && CommonOf(flat, prefix, delimiter, commons[0]);
    forall c | c in commons ensures |prefix| < |c| <= MaxLength(keys) {
      var key :| key in flat && IsPrefix(prefix, key) && CommonPrefixOf(key, prefix, delimiter) == Some(c);
      CommonPrefixShape(key, prefix, delimiter);
    }
    if SafeDelimiter(delimiter) {
      SafeRecursionSucceeds(keys, prefix, delimiter);
    } else if key :| key in keys && IsPrefix(prefix, key) && CommonPrefixOf(key, prefix, delimiter).Some? {
      var c := CommonPrefixOf(key, prefix, delimiter).value;
      CommonPrefixShape(key, prefix, delimiter);
      EndsReserved(c[..|c| - |delimiter|], delimiter);
      assert CommonOf(flat, prefix, delimiter, c);
      EachFails(keys, prefix, commons, delimiter, c);
    }
  }

  /** A lower-case word whose last character occurs only there, and which is an ordinary name. */
  ghost predicate Word(word: string) {
    && word != ""
    && (forall i :: 0 <= i < |word| ==> LowerChar(word[i]) == word[i])
    && (forall i :: 0 <= i < |word| - 1 ==> word[i] != word[|word| - 1])
    && Plain(word)
  }

  predicate Plain(s: string) {
    '/' !in s && '\\' !in s && '\0' !in s
  }

  lemma OpenbucketIsWord()
    ensures Word(".openbucket") && |".openbucket"| == 11
  {}

  /** `word` with its end replaced by the delimiter, which spells the same letters. */
  function Completed(word: string, delimiter: string): string
    requires |delimiter| <= |word|
  {
    word[..|word| - |delimiter|] + delimiter
  }

  lemma {:induction false} Utf8Bound(s: string)
    ensures Utf8Length(s) <= 4 * |s|
  {
    if s == "" {
    } else {
      Utf8Bound(s[1..]);
    }
  }

  lemma CompletedSpelling(word: string, delimiter: string)
    requires Word(word) && delimiter != "" && IsSuffix(Lower(delimiter), word)
    ensures Lower(Completed(word, delimiter)) == word && |Completed(word, delimiter)| == |word|
  {
    var w := Completed(word, delimiter);
    var at := |word| - |delimiter|;
    assert forall i :: at <= i < |word| ==> word[at..][i - at] == word[i];
    assert forall i :: 0 <= i < |word| ==> LowerChar(w[i]) == word[i];
  }

  ghost predicate EndsUniquely(w: string) {
    w != "" && forall k :: 0 <= k < |w| - 1 ==> w[k] != w[|w| - 1]
  }

  lemma NotEarlier(w: string, x: string, pattern: string, i: nat)
    requires EndsUniquely(w) && pattern != "" && i + |pattern| < |w|
    requires pattern[|pattern| - 1] == w[|w| - 1]
    ensures !OccursAt(pattern, w + x, i)
  {
    var end := i + |pattern| - 1;
    var s := w + x;
    assert s[end] == w[end];
    assert s[i..i + |pattern|][|pattern| - 1] == s[end];
  }

  lemma SpellingEndsUniquely(word: string, w: string)
    requires Word(word) && Lower(w) == word
    ensures EndsUniquely(w)
  {
    forall k | 0 <= k < |w| - 1 ensures w[k] != w[|w| - 1] {
      assert LowerChar(w[k]) == word[k] && LowerChar(w[|w| - 1]) == word[|w| - 1];
    }
  }

  lemma CompletedIndex(word: string, delimiter: string, x: string)
    requires Word(word) && delimiter != "" && IsSuffix(Lower(delimiter), word)
    ensures IndexOf(Completed(word, delimiter) + x, delimiter) == |word| - |delimiter|
  {
    CompletedSpelling(word, delimiter);
    var w := Completed(word, delimiter);
    var at := |word| - |delimiter|;
    CompletedEnd(word, delimiter);
    SpellingEndsUniquely(word, w);
    SuffixOccurs(w, x, delimiter);
    forall i: nat | i < at ensures !OccursAt(delimiter, w + x, i) {
      NotEarlier(w, x, delimiter, i);
    }
    FirstAt(w + x, delimiter, at);
  }

  lemma CompletedEnd(word: string, delimiter: string)
    requires delimiter != "" && |delimiter| <= |word|
    ensures IsSuffix(delimiter, Completed(word, delimiter))
    ensures Completed(word, delimiter)[|word| - 1] == delimiter[|delimiter| - 1]
  {}

  lemma SuffixOccurs(w: string, x: string, pattern: string)
    requires IsSuffix(pattern, w)
    ensures OccursAt(pattern, w + x, |w| - |pattern|)
  {
    assert (w + x)[|w| - |pattern|..|w|] == w[|w| - |pattern|..];
  }

  lemma PlainSpelling(word: string, w: string)
    requires Plain(word) && Lower(w) == word
    ensures Plain(w)
  {
    forall i | 0 <= i < |w| ensures w[i] != '/' && w[i] != '\\' && w[i] != '\0' {
      assert word[i] == LowerChar(w[i]) && word[i] in word;
    }
  }

  lemma CompletedPlain(word: string, delimiter: string)
    requires Word(word) && delimiter != "" && IsSuffix(Lower(delimiter), word)
    ensures Plain(Completed(word, delimiter))
  {
    CompletedSpelling(word, delimiter);
    var w := Completed(word, delimiter);
    PlainSpelling(word, w);
  }

  /** A reserved segment that a delimiter without a slash completes, and that traps the client. */
  ghost predicate Trap(w: string, delimiter: string) {
    && ReservedSegment(w) && 1 <= |w| <= 11 && Plain(w) && !ReservedSegment(w + "x")
    && |delimiter| <= |w| && IndexOf(w + "x", delimiter) == |w| - |delimiter|
  }

  lemma DotsTrap(delimiter: string)
    requires delimiter == "." || delimiter == ".."
    ensures Trap(delimiter, delimiter)
  {
    SuffixOccurs(delimiter, "x", delimiter);
    assert Lower(delimiter + "x")[0] == '.';
    assert |delimiter + "x"| <= 3;
    assert (delimiter + "x")[|delimiter|] == 'x';
  }

  lemma SpellsReserved(w: string)
    requires Lower(w) == ".openbucket"
    ensures ReservedSegment(w)
  {}

  lemma LongNotReserved(s: string)
    requires |s| == 12
    ensures !ReservedSegment(s)
  {
    assert |Lower(s)| == 12;
  }

  lemma WordTrap(word: string, delimiter: string)
    requires Word(word) && |word| == 11 && word == ".openbucket"
    requires delimiter != "" && IsSuffix(Lower(delimiter), word)
    ensures Trap(Completed(word, delimiter), delimiter)
  {
    CompletedSpelling(word, delimiter);
    CompletedIndex(word, delimiter, "x");
    CompletedPlain(word, delimiter);
    SpellsReserved(Completed(word, delimiter));
    LongNotReserved(Completed(word, delimiter) + "x");
  }

  lemma UnsafeCompletes(delimiter: string) returns (w: string)
    requires delimiter != "" && '/' !in delimiter && !SafeDelimiter(delimiter)
    ensures Trap(w, delimiter)
  {
    if delimiter == "." || delimiter == ".." {
      w := delimiter;
      DotsTrap(delimiter);
    } else {
      OpenbucketIsWord();
      w := Completed(".openbucket", delimiter);
      WordTrap(".openbucket", delimiter);
    }
  }

  lemma TrapKey(w: string, delimiter: string)
    requires Trap(w, delimiter) && delimiter != ""
    ensures ValidKey(w + "x") && RefusedPrefix(w)
    ensures CommonPrefixOf(w + "x", "", delimiter) == Some(w)
  {
    var key := w + "x";
    NoSlashOnePart(key);
    NoSlashOnePart(w);
    Utf8Bound(key);
    assert w in Split(w, '/');
    assert key[|""|..] == key && key[..|w|] == w && "" + w == w;
  }

  lemma OneKeyRefused(key: string, c: string, delimiter: string)
    requires delimiter != "" && CommonPrefixOf(key, "", delimiter) == Some(c) && RefusedPrefix(c)
    ensures ListRecursively([key], "", delimiter).Failure?
  {
    var flat := ListUnder([key], "");
    assert flat == [key];
    assert flat[..0] == [];
    assert CommonPrefixes(flat, "", delimiter) == [c];
    CommonPrefixShape(key, "", delimiter);
    assert ListEach([key], "", [c], delimiter).Failure?;
  }

  /**
   * Without a slash the condition is exact: an unsafe delimiter turns some valid key into a common
   * prefix that cannot be listed.
   */
  lemma UnsafeDelimiterRefused(delimiter: string)
    requires delimiter != "" && '/' !in delimiter && !SafeDelimiter(delimiter)
    ensures exists key :: ValidKey(key) && ListRecursively([key], "", delimiter).Failure?
  {
    var w := UnsafeCompletes(delimiter);
    TrapKey(w, delimiter);
    OneKeyRefused(w + "x", w, delimiter);
  }

  /** A delimiter without a slash lets every client list every bucket exactly when it is safe. */
  lemma PlainDelimiterIff(delimiter: string)
    requires delimiter != "" && '/' !in delimiter
    ensures (forall keys :: AllValid(keys) ==> ListRecursively(keys, "", delimiter).Success?) <==>
            SafeDelimiter(delimiter)
  {
    if SafeDelimiter(delimiter) {
      forall keys | AllValid(keys) ensures ListRecursively(keys, "", delimiter).Success? {
        SafeRecursionSucceeds(keys, "", delimiter);
      }
    } else {
      UnsafeDelimiterRefused(delimiter);
      var key :| ValidKey(key) && ListRecursively([key], "", delimiter).Failure?;
      assert AllValid([key]);
    }
  }
}
