/** Which names the store accepts, and how an object key names a path in its bucket. */
module ObjectKeys {
  import opened Text

  predicate ReservedSegment(part: string) {
    part == "." || part == ".." || Lower(part) == ".openbucket"
  }

  /** Accepted by `validateObjectKey` outside Windows. */
  predicate ValidKey(key: string) {
    && key != "" && Utf8Length(key) <= 1024
    && '\\' !in key && '\0' !in key
    && forall part :: part in Split(key, '/') ==> part != "" && !ReservedSegment(part)
  }

  /** A prefix `listObjects` refuses with InvalidPrefix. */
  predicate RefusedPrefix(prefix: string) {
    && prefix != ""
    && ('\\' in prefix || '\0' in prefix || exists part :: part in Split(prefix, '/') && ReservedSegment(part))
  }

  function KeyPath(key: string): (path: seq<string>)
    ensures path != []
  {
    Split(key, '/')
  }

  function PathKey(path: seq<string>): string {
    Join(path, '/')
  }

  /** A path a directory walk can produce. */
  predicate WellNamedPath(path: seq<string>) {
    path != [] && forall i :: 0 <= i < |path| ==> '/' !in path[i]
  }

  /** Keys and paths correspond one to one, so a flat map of paths is a flat map of keys. */
  lemma KeysArePaths(key: string, path: seq<string>)
    ensures PathKey(KeyPath(key)) == key
    ensures WellNamedPath(path) ==> KeyPath(PathKey(path)) == path
  {
    JoinOfSplit(key, '/');
    if WellNamedPath(path) { SplitOfJoin(path, '/'); }
  }

  predicate LowerOrDigit(c: char) {
    'a' <= c <= 'z' || '0' <= c <= '9'
  }

  predicate IsDigits(s: string) {
    1 <= |s| <= 3 && forall i :: 0 <= i < |s| ==> '0' <= s[i] <= '9'
  }

  predicate LooksLikeIPv4(name: string) {
    var parts := Split(name, '.');
    |parts| == 4 && forall i :: 0 <= i < 4 ==> IsDigits(parts[i])
  }

  /** Accepted by `validateBucketName`. */
  predicate ValidBucketName(name: string) {
    && 3 <= |name| <= 63
    && (forall i :: 0 <= i < |name| ==> LowerOrDigit(name[i]) || name[i] == '.' || name[i] == '-')
    && LowerOrDigit(name[0]) && LowerOrDigit(name[|name| - 1])
    && IndexOf(name, "..") == -1 && IndexOf(name, ".-") == -1 && IndexOf(name, "-.") == -1
    && !LooksLikeIPv4(name)
  }

  // ---------- the rules, character by character ----------

  /** One to three digits. */
  predicate Octet(s: string) {
    1 <= |s| <= 3 && forall i :: 0 <= i < |s| ==> s[i] in "0123456789"
  }

  lemma OctetIff(s: string)
    ensures IsDigits(s) <==> Octet(s)
  {
    forall i | 0 <= i < |s| ensures '0' <= s[i] <= '9' <==> s[i] in "0123456789" { DigitIff(s[i]); }
  }

  lemma NoDots(s: string)
    requires Octet(s)
    ensures '.' !in s
  {
    forall i | 0 <= i < |s| ensures s[i] != '.' { DigitIff(s[i]); }
  }

  lemma IPv4Parts(a: string, b: string, c: string, d: string)
    requires Octet(a) && Octet(b) && Octet(c) && Octet(d)
    ensures LooksLikeIPv4(a + "." + b + "." + c + "." + d)
  {
    var parts := [a, b, c, d];
    forall i | 0 <= i < 4 ensures '.' !in parts[i] && IsDigits(parts[i]) {
      NoDots(parts[i]);
      OctetIff(parts[i]);
    }
    SplitOfJoin(parts, '.');
    JoinFour(a, b, c, d);
  }

  lemma JoinFour(a: string, b: string, c: string, d: string)
    ensures Join([a, b, c, d], '.') == a + "." + b + "." + c + "." + d
  {
    assert [a, b, c, d][1..] == [b, c, d] && [b, c, d][1..] == [c, d] && [c, d][1..] == [d];
    assert Join([c, d], '.') == c + "." + d;
    assert Join([b, c, d], '.') == b + "." + (c + "." + d);
  }

  /** An IPv4 address in its usual form. */
  lemma IPv4Iff(name: string)
    ensures LooksLikeIPv4(name) <==>
            exists a, b, c, d :: && Octet(a) && Octet(b) && Octet(c) && Octet(d)
                                 && name == a + "." + b + "." + c + "." + d
  {
    if LooksLikeIPv4(name) {
      var p := Split(name, '.');
      forall i | 0 <= i < 4 ensures Octet(p[i]) { OctetIff(p[i]); }
      JoinOfSplit(name, '.');
      assert p == [p[0], p[1], p[2], p[3]];
      JoinFour(p[0], p[1], p[2], p[3]);
    }
    if a, b, c, d :| Octet(a) && Octet(b) && Octet(c) && Octet(d) && name == a + "." + b + "." + c + "." + d {
      IPv4Parts(a, b, c, d);
    }
  }

  /** The two characters stand next to each other somewhere. */
  predicate Adjacent(s: string, x: char, y: char) {
    exists i :: 0 <= i < |s| - 1 && s[i] == x && s[i + 1] == y
  }

  lemma AdjacentIff(s: string, pair: string)
    requires |pair| == 2
    ensures IndexOf(s, pair) != -1 <==> Adjacent(s, pair[0], pair[1])
  {
    var at := IndexOf(s, pair);
    if at != -1 {
      assert s[at..at + 2][0] == s[at] && s[at..at + 2][1] == s[at + 1];
    }
    if Adjacent(s, pair[0], pair[1]) {
      var i :| 0 <= i < |s| - 1 && s[i] == pair[0] && s[i + 1] == pair[1];
      assert s[i..i + 2] == pair;
      assert OccursAt(pair, s, i);
    }
  }

  predicate NameCharacter(c: char) {
    c in "abcdefghijklmnopqrstuvwxyz" || c in "0123456789"
  }

  lemma NameCharacterIff(c: char)
    ensures LowerOrDigit(c) <==> NameCharacter(c)
  {
    LetterIff(c);
    DigitIff(c);
  }

  /**
   * The bucket names: 3 to 63 lower-case letters, digits, dots and hyphens, with a letter or digit
   * at both ends, no dot beside another dot or a hyphen, and not in the form of an IPv4 address.
   */
  lemma ValidBucketNameIff(name: string)
    ensures ValidBucketName(name) <==>
            && 3 <= |name| <= 63
            && (forall i :: 0 <= i < |name| ==> NameCharacter(name[i]) || name[i] in ".-")
            && NameCharacter(name[0]) && NameCharacter(name[|name| - 1])
            && !Adjacent(name, '.', '.') && !Adjacent(name, '.', '-') && !Adjacent(name, '-', '.')
            && !exists a, b, c, d :: && Octet(a) && Octet(b) && Octet(c) && Octet(d)
                                     && name == a + "." + b + "." + c + "." + d
  {
    IPv4Iff(name);
    AdjacentIff(name, "..");
    AdjacentIff(name, ".-");
    AdjacentIff(name, "-.");
    forall i | 0 <= i < |name| ensures LowerOrDigit(name[i]) <==> NameCharacter(name[i]) { NameCharacterIff(name[i]); }
  }

  lemma {:induction false} PlainLength(key: string)
    requires forall i :: 0 <= i < |key| ==> key[i] as int < 0x80
    ensures Utf8Length(key) == |key|
  {
    if key == "" {
    } else {
      PlainLength(key[1..]);
    }
  }

  /** A key of letters and digits is valid exactly if it has 1 to 1024 of them. */
  lemma PlainKeyIff(key: string)
    requires forall i :: 0 <= i < |key| ==> LowerOrDigit(key[i])
    ensures ValidKey(key) <==> 1 <= |key| <= 1024
  {
    PlainLength(key);
    assert '/' !in key && '\\' !in key && '\0' !in key && '.' !in key;
    SplitSingle(key, '/');
    if key != "" {
      assert Lower(key)[0] == key[0];
    }
  }
}
