/** The string operations the repository relies on: split, join, search and lower-casing. */
module Text {

  /** `parts.join(separator)`. */
  function Join(parts: seq<string>, separator: char): string {
    if |parts| == 0 then ""
    else if |parts| == 1 then parts[0]
    else parts[0] + [separator] + Join(parts[1..], separator)
  }

  /** `s.split(separator)`: always at least one part. */
  function Split(s: string, separator: char): (parts: seq<string>)
    ensures |parts| >= 1
    ensures forall i :: 0 <= i < |parts| ==> separator !in parts[i]
  {
    if s == "" then [""]
    else
      var rest := Split(s[1..], separator);
      if s[0] == separator then [""] + rest
      else [[s[0]] + rest[0]] + rest[1..]
  }

  lemma {:induction false} JoinOfSplit(s: string, separator: char)
    ensures Join(Split(s, separator), separator) == s
  {
    if s == "" {
    } else {
      var rest := Split(s[1..], separator);
      JoinOfSplit(s[1..], separator);
      var parts := Split(s, separator);
      if s[0] == separator {
        assert parts[1..] == rest;
        assert s == [separator] + s[1..];
      } else {
        assert parts[0] == [s[0]] + rest[0];
        assert parts[1..] == rest[1..];
        assert s == [s[0]] + s[1..];
      }
    }
  }

  lemma {:induction false} SplitPrepend(part: string, s: string, separator: char)
    requires separator !in part
    ensures Split(part + [separator] + s, separator) == [part] + Split(s, separator)
  {
    var whole := part + [separator] + s;
    if part == "" {
      assert whole[1..] == s;
    } else {
      assert whole[1..] == part[1..] + [separator] + s;
      SplitPrepend(part[1..], s, separator);
      assert part == [part[0]] + part[1..];
    }
  }

  lemma {:induction false} SplitSingle(part: string, separator: char)
    requires separator !in part
    ensures Split(part, separator) == [part]
  {
    if part == "" {
    } else {
      SplitSingle(part[1..], separator);
      assert part == [part[0]] + part[1..];
    }
  }

  lemma {:induction false} SplitOfJoin(parts: seq<string>, separator: char)
    requires |parts| >= 1
    requires forall i :: 0 <= i < |parts| ==> separator !in parts[i]
    ensures Split(Join(parts, separator), separator) == parts
  {
    if |parts| == 1 {
      SplitSingle(parts[0], separator);
    } else {
      SplitOfJoin(parts[1..], separator);
      SplitPrepend(parts[0], Join(parts[1..], separator), separator);
    }
  }

  /** Joining parts that do not contain the separator loses nothing. */
  lemma JoinInjective(left: seq<string>, right: seq<string>, separator: char)
    requires |left| >= 1 && |right| >= 1
    requires forall i :: 0 <= i < |left| ==> separator !in left[i]
    requires forall i :: 0 <= i < |right| ==> separator !in right[i]
    requires Join(left, separator) == Join(right, separator)
    ensures left == right
  {
    SplitOfJoin(left, separator);
    SplitOfJoin(right, separator);
  }

  /** A character of the joined text comes from a part or is the separator. */
  lemma {:induction false} JoinCharacters(parts: seq<string>, separator: char, c: char)
    requires c in Join(parts, separator)
    ensures c == separator || exists i :: 0 <= i < |parts| && c in parts[i]
  {
    if |parts| > 1 {
      if c in parts[0] {
      } else if c != separator {
        JoinCharacters(parts[1..], separator, c);
        var i :| 0 <= i < |parts[1..]| && c in parts[1..][i];
        assert c in parts[i + 1];
      }
    } else if |parts| == 1 {
      assert c in parts[0];
    }
  }

  lemma ConcatAssociates(a: string, b: string, c: string)
    ensures a + b + c == a + (b + c)
  {}

  /** `s.startsWith(prefix)`. */
  predicate IsPrefix(prefix: string, s: string) {
    prefix <= s
  }

  predicate OccursAt(pattern: string, s: string, i: nat) {
    i + |pattern| <= |s| && s[i..i + |pattern|] == pattern
  }

  lemma OccursInRest(pattern: string, s: string, i: nat)
    requires i > 0 && s != ""
    ensures OccursAt(pattern, s, i) <==> OccursAt(pattern, s[1..], i - 1)
  {
    if i + |pattern| <= |s| { assert s[1..][i - 1..i - 1 + |pattern|] == s[i..i + |pattern|]; }
  }

  /** The first occurrence, unless it is at the start, is the first one in the rest. */
  lemma IndexInRest(pattern: string, s: string, rest: int)
    requires s != "" && !OccursAt(pattern, s, 0) && rest >= -1
    requires rest >= 0 ==> OccursAt(pattern, s[1..], rest)
    requires forall i: nat :: OccursAt(pattern, s[1..], i) ==> 0 <= rest <= i
    ensures rest >= 0 ==> OccursAt(pattern, s, rest + 1)
    ensures forall i: nat :: OccursAt(pattern, s, i) ==> rest >= 0 && rest + 1 <= i
  {
    forall i: nat | OccursAt(pattern, s, i) ensures rest >= 0 && rest + 1 <= i {
      if i > 0 { OccursInRest(pattern, s, i); }
    }
    if rest >= 0 { OccursInRest(pattern, s, rest + 1); }
  }

  /** `s.indexOf(pattern)`, with -1 when the pattern does not occur. */
  function IndexOf(s: string, pattern: string): (index: int)
    ensures index == -1 || (0 <= index && OccursAt(pattern, s, index))
    ensures forall i: nat :: OccursAt(pattern, s, i) ==> 0 <= index <= i
  {
    if |s| < |pattern| then -1
    else if s[..|pattern|] == pattern then
      assert OccursAt(pattern, s, 0);
      0
    else
      var rest := IndexOf(s[1..], pattern);
      IndexInRest(pattern, s, rest);
      if rest == -1 then -1 else rest + 1
  }

  lemma CharacterAt(s: string, pattern: string, i: nat)
    requires |pattern| == 1 && i < |s| && s[i] == pattern[0]
    ensures 0 <= IndexOf(s, pattern) <= i
  {
    assert s[i..i + 1] == pattern;
    assert OccursAt(pattern, s, i);
  }

  lemma FirstAt(s: string, pattern: string, at: nat)
    requires OccursAt(pattern, s, at)
    requires forall i: nat :: i < at ==> !OccursAt(pattern, s, i)
    ensures IndexOf(s, pattern) == at
  {}

  /**
   * `toLowerCase`, exact for every character that can lower-case into ASCII one-to-one:
   * the capital letters and the Kelvin sign. Other characters are kept, which cannot change
   * a comparison with an ASCII word.
   */
  function LowerChar(c: char): char {
    if 'A' <= c <= 'Z' then (c as int + 32) as char
    else if c == '\U{212A}' then 'k'
    else c
  }

  function Lower(s: string): (r: string)
    ensures |r| == |s|
    ensures forall i :: 0 <= i < |s| ==> r[i] == LowerChar(s[i])
  {
    if s == "" then "" else [LowerChar(s[0])] + Lower(s[1..])
  }

  /** `Buffer.byteLength(s, "utf8")`. */
  function Utf8Length(s: string): nat {
    if s == "" then 0
    else
      var c := s[0] as int;
      (if c < 0x80 then 1 else if c < 0x800 then 2 else if c < 0x10000 then 3 else 4) + Utf8Length(s[1..])
  }

  // ---------- alphabets ----------

  lemma LetterIff(c: char)
    ensures 'a' <= c <= 'z' <==> c in "abcdefghijklmnopqrstuvwxyz"
  {
    if 'a' <= c <= 'z' {
      assert "abcdefghijklmnopqrstuvwxyz"[c as int - 'a' as int] == c;
    }
  }

  lemma DigitIff(c: char)
    ensures '0' <= c <= '9' <==> c in "0123456789"
  {
    if '0' <= c <= '9' {
      assert "0123456789"[c as int - '0' as int] == c;
    }
  }

  /** Lower-casing letter by letter; the Kelvin sign becomes a `k` and every other character stays. */
  lemma LowerIs(s: string, i: nat)
    requires i < |s|
    ensures forall k: nat :: k < 26 && s[i] == "ABCDEFGHIJKLMNOPQRSTUVWXYZ"[k] ==>
              Lower(s)[i] == "abcdefghijklmnopqrstuvwxyz"[k]
    ensures s[i] !in "ABCDEFGHIJKLMNOPQRSTUVWXYZ" ==> Lower(s)[i] == if s[i] == '\U{212A}' then 'k' else s[i]
  {
    CapitalIs(s[i]);
  }

  lemma CapitalIs(c: char)
    ensures forall k: nat :: k < 26 && c == "ABCDEFGHIJKLMNOPQRSTUVWXYZ"[k] ==>
              LowerChar(c) == "abcdefghijklmnopqrstuvwxyz"[k]
    ensures c !in "ABCDEFGHIJKLMNOPQRSTUVWXYZ" ==> LowerChar(c) == if c == '\U{212A}' then 'k' else c
  {
    if 'A' <= c <= 'Z' {
      assert "ABCDEFGHIJKLMNOPQRSTUVWXYZ"[c as int - 'A' as int] == c;
    }
  }

  // ---------- UTF-8 ----------

  function Power2(n: nat): nat {
    if n == 0 then 1 else 2 * Power2(n - 1)
  }

  /** The payload bits of a character encoded in so many bytes, by section 3 of RFC 3629. */
  function PayloadBits(bytes: nat): nat {
    if bytes == 0 then 0 else if bytes == 1 then 7 else if bytes == 2 then 11 else if bytes == 3 then 16 else 21
  }

  /** A character takes as many bytes as it needs for its bits and no more. */
  lemma Utf8Shortest(c: char)
    ensures 1 <= Utf8Length([c]) <= 4
    ensures (c as int) < Power2(PayloadBits(Utf8Length([c])))
    ensures Utf8Length([c]) > 1 ==> (c as int) >= Power2(PayloadBits(Utf8Length([c]) - 1))
  {
    Powers();
    assert [c][1..] == "";
    assert Utf8Length([c]) == Utf8Length([c][1..]) + (
        if (c as int) < 0x80 then 1 else if (c as int) < 0x800 then 2 else if (c as int) < 0x10000 then 3 else 4);
  }

  lemma Powers()
    ensures Power2(7) == 0x80 && Power2(11) == 0x800 && Power2(16) == 0x10000 && Power2(21) == 0x200000
  {}

  lemma {:induction false} Utf8Adds(s: string, t: string)
    ensures Utf8Length(s + t) == Utf8Length(s) + Utf8Length(t)
  {
    if s == "" {
      assert s + t == t;
    } else {
      assert (s + t)[1..] == s[1..] + t;
      Utf8Adds(s[1..], t);
    }
  }
}
