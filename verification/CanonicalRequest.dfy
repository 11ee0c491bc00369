/**
 * The SigV4 canonical request: it determines, and is determined by, what the signature is meant
 * to cover.
 */
module CanonicalRequest {
  import opened Wrappers
  import opened Text
  import opened Sorting
  import opened CodeOrder
  import opened PercentEncoding

  // ---------- the path ----------

  function NormalizedPath(pathname: string): string {
    if pathname == "" then "/" else if pathname[0] == '/' then pathname else "/" + pathname
  }

  function DecodeAll(segments: seq<string>): Option<seq<Bytes>> {
    if segments == [] then Some([])
    else
      match (Decode(segments[0]), DecodeAll(segments[1..]))
      case (Some(first), Some(rest)) => Some([first] + rest)
      case _ => None
  }

  /** The decoded path segments; None when an escape is malformed. */
  function Segments(pathname: string): Option<seq<Bytes>> {
    DecodeAll(Split(NormalizedPath(pathname), '/'))
  }

  function EncodeAll(segments: seq<Bytes>): (r: seq<string>)
    ensures |r| == |segments| && forall i :: 0 <= i < |segments| ==> r[i] == Encode(segments[i])
  {
    if segments == [] then [] else [Encode(segments[0])] + EncodeAll(segments[1..])
  }

  /** `canonicalizePath`. */
  function CanonicalizePath(pathname: string): Option<string> {
    match Segments(pathname)
    case None => None
    case Some(segments) => Some(Join(EncodeAll(segments), '/'))
  }

  lemma {:induction false} DecodeAllLength(segments: seq<string>)
    requires DecodeAll(segments).Some?
    ensures |DecodeAll(segments).value| == |segments|
  {
    if segments == [] {
    } else {
      DecodeAllLength(segments[1..]);
    }
  }

  /** Two paths have the same canonical form exactly when their decoded segments agree. */
  lemma CanonicalPathIff(p: string, q: string)
    requires CanonicalizePath(p).Some? && CanonicalizePath(q).Some?
    ensures CanonicalizePath(p) == CanonicalizePath(q) <==> Segments(p) == Segments(q)
  {
    var a, b := Segments(p).value, Segments(q).value;
    DecodeAllLength(Split(NormalizedPath(p), '/'));
    DecodeAllLength(Split(NormalizedPath(q), '/'));
    if CanonicalizePath(p) == CanonicalizePath(q) {
      forall i | 0 <= i < |a| ensures '/' !in EncodeAll(a)[i] { EncodeAlphabet(a[i]); }
      forall i | 0 <= i < |b| ensures '/' !in EncodeAll(b)[i] { EncodeAlphabet(b[i]); }
      JoinInjective(EncodeAll(a), EncodeAll(b), '/');
      forall i | 0 <= i < |a| ensures a[i] == b[i] {
        assert EncodeAll(a)[i] == EncodeAll(b)[i];
        EncodeInjective(a[i], b[i]);
      }
      assert a == b;
    }
  }

  lemma CanonicalPathOneLine(p: string)
    requires CanonicalizePath(p).Some?
    ensures '\n' !in CanonicalizePath(p).value
  {
    var a := Segments(p).value;
    forall i | 0 <= i < |a| ensures '\n' !in EncodeAll(a)[i] { EncodeAlphabet(a[i]); }
    if '\n' in Join(EncodeAll(a), '/') {
      JoinCharacters(EncodeAll(a), '/', '\n');
      assert false;
    }
  }

  // ---------- the query ----------

  datatype Param = Param(name: Bytes, value: Bytes)
  datatype EncodedParam = EncodedParam(name: string, value: string)

  function Ascii(s: string): Bytes
    requires forall i :: 0 <= i < |s| ==> s[i] as int < 128
  {
    seq(|s|, i requires 0 <= i < |s| => s[i] as int)
  }

  const SIGNATURE := Ascii("X-Amz-Signature")

  function IsCovered(): Param -> bool {
    (p: Param) => p.name != SIGNATURE
  }

  /** The parameters the signature covers. */
  function Covered(params: seq<Param>): seq<Param> {
    Filter(params, IsCovered())
  }

  function EncodeParam(p: Param): EncodedParam {
    EncodedParam(Encode(p.name), Encode(p.value))
  }

  function DecodeParam(e: EncodedParam): Param {
    Param(DecodeOr(e.name), DecodeOr(e.value))
  }

  function DecodeOr(s: string): Bytes {
    match Decode(s) case Some(bytes) => bytes case None => []
  }

  /** The comparison `canonicalizeQuery` sorts by: name first, then value. */
  function ParamLe(a: EncodedParam, b: EncodedParam): bool {
    if a.name != b.name then CodeLe(a.name, b.name) else CodeLe(a.value, b.value)
  }

  function Pair(e: EncodedParam): string {
    e.name + "=" + e.value
  }

  function Mapped<S, T>(f: S -> T, s: seq<S>): (r: seq<T>)
    ensures |r| == |s| && forall i :: 0 <= i < |s| ==> r[i] == f(s[i])
  {
    if s == [] then [] else [f(s[0])] + Mapped(f, s[1..])
  }

  function CanonicalQuery(params: seq<Param>): string {
    Join(Mapped(Pair, Sort(Mapped(EncodeParam, Covered(params)), ParamLe)), '&')
  }

  lemma CoveredOneMore(front: seq<Param>, p: Param)
    ensures Covered(front + [p]) == Covered(front) + if p.name != SIGNATURE then [p] else []
  {
    FilterSplits(front, [p], IsCovered());
    assert Filter([p], IsCovered()) == if p.name != SIGNATURE then [p] else [];
  }

  lemma EncodeOneMore(front: seq<Param>, p: Param)
    ensures Mapped(EncodeParam, Covered(front + [p])) ==
            Mapped(EncodeParam, Covered(front)) + if p.name != SIGNATURE then [EncodeParam(p)] else []
  {
    CoveredOneMore(front, p);
    if p.name != SIGNATURE {
      MappedSplits(EncodeParam, Covered(front), [p]);
      assert Mapped(EncodeParam, [p]) == [EncodeParam(p)];
    }
  }

  /** `canonicalizeQuery` as it fills its list of pairs, sorts it and joins it. */
  method CanonicalizeQuery(params: seq<Param>) returns (query: string)
    ensures query == CanonicalQuery(params)
  {
    var pairs: seq<EncodedParam> := [];
    for i := 0 to |params|
      invariant pairs == Mapped(EncodeParam, Covered(params[..i]))
    {
      EncodeOneMore(params[..i], params[i]);
      assert params[..i + 1] == params[..i] + [params[i]];
      if params[i].name != SIGNATURE {
        pairs := pairs + [EncodedParam(Encode(params[i].name), Encode(params[i].value))];
      }
    }
    assert params[..|params|] == params;
    query := Join(Mapped(Pair, Sort(pairs, ParamLe)), '&');
  }

  lemma {:induction false} MappedSplits<S, T>(f: S -> T, s: seq<S>, t: seq<S>)
    ensures Mapped(f, s + t) == Mapped(f, s) + Mapped(f, t)
  {
    assert forall i :: 0 <= i < |s + t| ==> Mapped(f, s + t)[i] == (Mapped(f, s) + Mapped(f, t))[i];
  }

  lemma TakeOut<T>(t: seq<T>, x: T) returns (front: seq<T>, back: seq<T>)
    requires x in t
    ensures t == front + ([x] + back)
    ensures multiset(front + back) == multiset(t) - multiset{x}
  {
    var k :| 0 <= k < |t| && t[k] == x;
    front, back := t[..k], t[k + 1..];
    assert t == front + ([x] + back);
  }

  lemma MappedMiddle<S, T>(f: S -> T, front: seq<S>, x: S, back: seq<S>, whole: seq<S>)
    requires whole == front + ([x] + back)
    ensures multiset(Mapped(f, whole)) == multiset(Mapped(f, front + back)) + multiset{f(x)}
  {
    MappedSplits(f, front, [x] + back);
    MappedSplits(f, [x], back);
    MappedSplits(f, front, back);
    assert Mapped(f, [x]) == [f(x)];
  }

  lemma MappedHead<S, T>(f: S -> T, s: seq<S>)
    requires s != []
    ensures multiset(s[1..]) == multiset(s) - multiset{s[0]}
    ensures multiset(Mapped(f, s)) == multiset{f(s[0])} + multiset(Mapped(f, s[1..]))
  {
    assert s == [s[0]] + s[1..];
    assert Mapped(f, s) == [f(s[0])] + Mapped(f, s[1..]);
  }

  lemma {:induction false} MappedMultiset<S, T>(f: S -> T, s: seq<S>, t: seq<S>)
    requires multiset(s) == multiset(t)
    ensures multiset(Mapped(f, s)) == multiset(Mapped(f, t))
  {
    if s == [] {
      assert |multiset(t)| == 0;
    } else {
      InMultiset(t, s[0]);
      var front, back := TakeOut(t, s[0]);
      MappedMiddle(f, front, s[0], back, t);
      MappedHead(f, s);
      MappedMultiset(f, s[1..], front + back);
    }
  }

  lemma ParamLeIsOrder()
    ensures TotalOrder(ParamLe)
  {
    CodeLeIsOrder();
    forall x, y, z | ParamLe(x, y) && ParamLe(y, z) ensures ParamLe(x, z) {
      assert CodeLe(x.name, y.name) && CodeLe(y.name, z.name) ==> CodeLe(x.name, z.name);
    }
  }

  lemma {:induction false} FirstSplit(a: string, x: string, b: string, y: string, c: char)
    requires c !in a && c !in b && a + [c] + x == b + [c] + y
    ensures a == b && x == y
  {
    var s := a + [c] + x;
    assert s[|a|] == c && s[|b|] == c;
    assert |a| == |b|;
    assert a == s[..|a|] && x == s[|a| + 1..];
  }

  lemma {:induction false} LastSplit(a: string, x: string, b: string, y: string, c: char)
    requires c !in x && c !in y && a + [c] + x == b + [c] + y
    ensures a == b && x == y
  {
    var s := a + [c] + x;
    assert s[|a|] == c && s[|b|] == c;
    assert s[|a| + 1..] == x && s[|b| + 1..] == y;
    assert |a| == |b|;
    assert a == s[..|a|] && x == s[|a| + 1..];
  }

  ghost predicate Encoded(e: EncodedParam) {
    && '=' !in e.name && '&' !in e.name && '&' !in e.value
    && '\n' !in e.name && '\n' !in e.value
  }

  lemma {:induction false} PairsInjective(s: seq<EncodedParam>, t: seq<EncodedParam>)
    requires |s| == |t| && Mapped(Pair, s) == Mapped(Pair, t)
    requires forall e :: e in s || e in t ==> Encoded(e)
    ensures s == t
  {
    forall i | 0 <= i < |s| ensures s[i] == t[i] {
      assert Mapped(Pair, s)[i] == Mapped(Pair, t)[i];
      assert s[i] in s && t[i] in t;
      FirstSplit(s[i].name, s[i].value, t[i].name, t[i].value, '=');
    }
  }

  lemma {:induction false} JoinedNotEmpty(s: seq<EncodedParam>)
    requires s != []
    ensures Join(Mapped(Pair, s), '&') != ""
  {
    assert Mapped(Pair, s)[0] == Pair(s[0]);
  }

  lemma JoinedPairsInjective(s: seq<EncodedParam>, t: seq<EncodedParam>)
    requires forall e :: e in s || e in t ==> Encoded(e)
    requires Join(Mapped(Pair, s), '&') == Join(Mapped(Pair, t), '&')
    ensures s == t
  {
    if s != [] { JoinedNotEmpty(s); }
    if t != [] { JoinedNotEmpty(t); }
    if s != [] && t != [] {
      forall i | 0 <= i < |s| ensures '&' !in Mapped(Pair, s)[i] { assert s[i] in s; }
      forall i | 0 <= i < |t| ensures '&' !in Mapped(Pair, t)[i] { assert t[i] in t; }
      JoinInjective(Mapped(Pair, s), Mapped(Pair, t), '&');
      PairsInjective(s, t);
    }
  }

  function SortedParams(params: seq<Param>): seq<EncodedParam> {
    Sort(Mapped(EncodeParam, Covered(params)), ParamLe)
  }

  lemma SortedParamsEncoded(params: seq<Param>)
    ensures forall e :: e in SortedParams(params) ==> Encoded(e)
  {
    var encoded := Mapped(EncodeParam, Covered(params));
    forall e | e in SortedParams(params) ensures Encoded(e) {
      InMultiset(SortedParams(params), e);
      InMultiset(encoded, e);
      var i :| 0 <= i < |encoded| && encoded[i] == e;
      EncodeAlphabet(Covered(params)[i].name);
      EncodeAlphabet(Covered(params)[i].value);
    }
  }

  lemma DecodeEncodedParams(params: seq<Param>)
    ensures Mapped(DecodeParam, Mapped(EncodeParam, params)) == params
  {
    var there := Mapped(EncodeParam, params);
    var back := Mapped(DecodeParam, there);
    forall i | 0 <= i < |params| ensures back[i] == params[i] {
      assert back[i] == DecodeParam(there[i]) && there[i] == EncodeParam(params[i]);
      DecodeEncode(params[i].name);
      DecodeEncode(params[i].value);
    }
  }

  /** Two queries have the same canonical form exactly when they carry the same parameters, each as often. */
  lemma CanonicalQueryIff(p: seq<Param>, q: seq<Param>)
    ensures CanonicalQuery(p) == CanonicalQuery(q) <==> multiset(Covered(p)) == multiset(Covered(q))
  {
    ParamLeIsOrder();
    var ep, eq := Mapped(EncodeParam, Covered(p)), Mapped(EncodeParam, Covered(q));
    if multiset(Covered(p)) == multiset(Covered(q)) {
      MappedMultiset(EncodeParam, Covered(p), Covered(q));
      SortSorts(ep, ParamLe);
      SortSorts(eq, ParamLe);
      SortedUnique(SortedParams(p), SortedParams(q), ParamLe);
    }
    if CanonicalQuery(p) == CanonicalQuery(q) {
      SortedParamsEncoded(p);
      SortedParamsEncoded(q);
      JoinedPairsInjective(SortedParams(p), SortedParams(q));
      assert multiset(ep) == multiset(eq);
      MappedMultiset(DecodeParam, ep, eq);
      DecodeEncodedParams(Covered(p));
      DecodeEncodedParams(Covered(q));
    }
  }

  lemma CanonicalQueryOneLine(p: seq<Param>)
    ensures '\n' !in CanonicalQuery(p)
  {
    var s := SortedParams(p);
    SortedParamsEncoded(p);
    forall i | 0 <= i < |s| ensures '\n' !in Mapped(Pair, s)[i] { assert s[i] in s; }
    if '\n' in CanonicalQuery(p) {
      JoinCharacters(Mapped(Pair, s), '&', '\n');
      assert false;
    }
  }

  // ---------- signed headers ----------

  function LowerAscii(s: string): (r: string)
    ensures |r| == |s|
    ensures forall i :: 0 <= i < |s| ==> r[i] == if 'A' <= s[i] <= 'Z' then (s[i] as int + 32) as char else s[i]
  {
    if s == "" then ""
    else [if 'A' <= s[0] <= 'Z' then (s[0] as int + 32) as char else s[0]] + LowerAscii(s[1..])
  }

  function UpperAscii(s: string): (r: string)
    ensures |r| == |s|
    ensures forall i :: 0 <= i < |s| ==> r[i] == if 'a' <= s[i] <= 'z' then (s[i] as int - 32) as char else s[i]
  {
    if s == "" then ""
    else [if 'a' <= s[0] <= 'z' then (s[0] as int - 32) as char else s[0]] + UpperAscii(s[1..])
  }

  predicate HeaderName(name: string) {
    name != "" && forall i :: 0 <= i < |name| ==> 'a' <= name[i] <= 'z' || '0' <= name[i] <= '9' || name[i] == '-'
  }

  /** `parseSignedHeaders`. */
  function ParseSignedHeaders(value: string): Option<seq<string>> {
    if value == "" || value != LowerAscii(value) then None
    else
      var names := Split(value, ';');
      if (exists name :: name in names && !HeaderName(name)) || !Distinct(names) then None
      else if Join(Sort(names, CodeLe), ';') != value || "host" !in names then None
      else Some(names)
  }

  /** An accepted list is in strictly ascending order and determined by its text. */
  lemma SignedHeadersAscend(value: string)
    requires ParseSignedHeaders(value).Some?
    ensures var names := ParseSignedHeaders(value).value;
            && Join(names, ';') == value && "host" in names
            && forall i, j :: 0 <= i < j < |names| ==> CodeAfter(names[j], names[i])
  {
    var names := ParseSignedHeaders(value).value;
    JoinOfSplit(value, ';');
    var sorted := Sort(names, CodeLe);
    CodeLeIsOrder();
    SortSorts(names, CodeLe);
    forall i | 0 <= i < |sorted| ensures ';' !in sorted[i] {
      InMultiset(sorted, sorted[i]);
      InMultiset(names, sorted[i]);
      var k :| 0 <= k < |names| && names[k] == sorted[i];
    }
    JoinInjective(sorted, names, ';');
    forall i, j | 0 <= i < j < |names| ensures CodeAfter(names[j], names[i]) {
      CodeAfterTotal(names[i], names[j]);
    }
  }

  /** Removed by `trim`, for text of single-byte characters. */
  predicate Trimmed(c: char) {
    '\U{9}' <= c <= '\U{D}' || c == ' ' || c == '\U{A0}'
  }

  predicate Collapsed(c: char) {
    c == '\t' || c == '\n' || c == '\r' || c == ' '
  }

  function TrimStart(s: string): string {
    if s != "" && Trimmed(s[0]) then TrimStart(s[1..]) else s
  }

  function TrimEnd(s: string): string {
    if s != "" && Trimmed(s[|s| - 1]) then TrimEnd(s[..|s| - 1]) else s
  }

  /** Each run of blanks becomes one space. */
  function Collapse(s: string): string {
    if s == "" then ""
    else if !Collapsed(s[0]) then [s[0]] + Collapse(s[1..])
    else if |s| > 1 && Collapsed(s[1]) then Collapse(s[1..])
    else [' '] + Collapse(s[1..])
  }

  function Trim(s: string): string {
    TrimEnd(TrimStart(s))
  }

  function NormalizeHeaderValue(value: string): string {
    Collapse(Trim(value))
  }

  lemma {:induction false} TrimStartEnds(s: string) returns (i: nat)
    ensures i <= |s| && TrimStart(s) == s[i..] && (i < |s| ==> !Trimmed(s[i]))
    ensures forall k :: 0 <= k < i ==> Trimmed(s[k])
  {
    if s != "" && Trimmed(s[0]) {
      var n := TrimStartEnds(s[1..]);
      i := n + 1;
      assert forall k :: 0 < k < i ==> s[k] == s[1..][k - 1];
    } else {
      i := 0;
    }
  }

  lemma {:induction false} TrimEndEnds(s: string) returns (j: nat)
    ensures j <= |s| && TrimEnd(s) == s[..j] && (j > 0 ==> !Trimmed(s[j - 1]))
    ensures forall k :: j <= k < |s| ==> Trimmed(s[k])
    decreases |s|
  {
    if s != "" && Trimmed(s[|s| - 1]) {
      j := TrimEndEnds(s[..|s| - 1]);
    } else {
      j := |s|;
      assert s[..j] == s;
    }
  }

  lemma TrimmedIff(c: char)
    ensures Trimmed(c) <==> c in {'\t', '\n', '\U{B}', '\U{C}', '\r', ' ', '\U{A0}'}
  {}

  /** Trimming takes off exactly the blanks at both ends. */
  lemma TrimEnds(s: string) returns (i: nat, j: nat)
    ensures i <= j <= |s| && Trim(s) == s[i..j]
    ensures forall k :: 0 <= k < i || j <= k < |s| ==> s[k] in {'\t', '\n', '\U{B}', '\U{C}', '\r', ' ', '\U{A0}'}
    ensures i < j ==> !Trimmed(s[i]) && !Trimmed(s[j - 1])
  {
    forall k | 0 <= k < |s|
      ensures Trimmed(s[k]) <==> s[k] in {'\t', '\n', '\U{B}', '\U{C}', '\r', ' ', '\U{A0}'}
    {
      TrimmedIff(s[k]);
    }
    i := TrimStartEnds(s);
    var rest := s[i..];
    var n := TrimEndEnds(rest);
    j := i + n;
    assert rest[..n] == s[i..j];
    forall k | j <= k < |s| ensures Trimmed(s[k]) { assert s[k] == rest[k - i]; }
    assert n > 0 ==> s[j - 1] == rest[n - 1];
  }

  /** The longest runs of characters that are not blanks. */
  function Words(s: string): (words: seq<string>)
    ensures s != "" && !Collapsed(s[0]) ==> words != []
  {
    if s == "" then []
    else if Collapsed(s[0]) then Words(s[1..])
    else if |s| == 1 || Collapsed(s[1]) then [[s[0]]] + Words(s[1..])
    else
      var rest := Words(s[1..]);
      [[s[0]] + rest[0]] + rest[1..]
  }

  lemma {:induction false} WordsAreWords(s: string)
    ensures forall i :: 0 <= i < |Words(s)| ==> Words(s)[i] != "" && ' ' !in Words(s)[i]
  {
    if s == "" {
    } else {
      WordsAreWords(s[1..]);
    }
  }

  /** A text without its blanks. */
  function WithoutBlanks(s: string): string {
    if s == "" then ""
    else (if s[0] in {'\t', '\n', '\r', ' '} then "" else [s[0]]) + WithoutBlanks(s[1..])
  }

  function Flat(words: seq<string>): string {
    if words == [] then "" else words[0] + Flat(words[1..])
  }

  /** The words hold everything but the blanks, in order. */
  lemma {:induction false} WordsKeepText(s: string)
    ensures Flat(Words(s)) == WithoutBlanks(s)
  {
    if s == "" {
    } else {
      WordsKeepText(s[1..]);
      var rest := Words(s[1..]);
      if !Collapsed(s[0]) {
        if |s| == 1 || Collapsed(s[1]) {
          assert ([[s[0]]] + rest)[1..] == rest;
        } else {
          assert ([[s[0]] + rest[0]] + rest[1..])[1..] == rest[1..];
          ConcatAssociates([s[0]], rest[0], Flat(rest[1..]));
        }
      }
    }
  }

  lemma JoinFirst(first: string, tail: seq<string>)
    ensures Join([first] + tail, ' ') == if tail == [] then first else first + ([' '] + Join(tail, ' '))
  {
    assert ([first] + tail)[1..] == tail;
  }

  lemma JoinGrows(c: char, words: seq<string>)
    requires words != []
    ensures Join([[c] + words[0]] + words[1..], ' ') == [c] + Join(words, ' ')
  {
    var first, tail := words[0], words[1..];
    assert words == [first] + tail;
    JoinFirst([c] + first, tail);
    JoinFirst(first, tail);
    if tail != [] { ConcatAssociates([c], first, [' '] + Join(tail, ' ')); }
  }

  lemma {:induction false} CollapseIsWords(s: string)
    requires s != "" ==> !Collapsed(s[|s| - 1])
    ensures s != "" && !Collapsed(s[0]) ==> Collapse(s) == Join(Words(s), ' ')
    ensures s != "" && Collapsed(s[0]) ==> Collapse(s) == [' '] + Join(Words(s), ' ')
    ensures s != "" ==> Words(s) != []
    decreases |s|
  {
    if s == "" {
    } else {
      var rest := s[1..];
      CollapseIsWords(rest);
      var words := Words(rest);
      if !Collapsed(s[0]) {
        if rest == "" || Collapsed(rest[0]) { JoinFirst([s[0]], words); } else { JoinGrows(s[0], words); }
      }
    }
  }

  /** Normal form: the words of the trimmed value with one space between them. */
  lemma NormalizedIsWords(value: string)
    ensures NormalizeHeaderValue(value) == Join(Words(Trim(value)), ' ')
    ensures Trim(value) == "" <==> Words(Trim(value)) == []
  {
    var i, j := TrimEnds(value);
    CollapseIsWords(Trim(value));
  }

  /** Header values have the same normal form exactly when their trimmed texts have the same words. */
  lemma NormalizedIff(v: string, w: string)
    ensures NormalizeHeaderValue(v) == NormalizeHeaderValue(w) <==> Words(Trim(v)) == Words(Trim(w))
  {
    var a, b := Words(Trim(v)), Words(Trim(w));
    NormalizedIsWords(v);
    NormalizedIsWords(w);
    WordsAreWords(Trim(v));
    WordsAreWords(Trim(w));
    if Join(a, ' ') == Join(b, ' ') {
      if a != [] && b != [] { JoinInjective(a, b, ' '); }
      if a != [] { assert Join(a, ' ') != ""; }
      if b != [] { assert Join(b, ' ') != ""; }
    }
  }

  lemma {:induction false} CollapseOneLine(s: string)
    ensures '\n' !in Collapse(s)
  {
    if s == "" {
    } else {
      CollapseOneLine(s[1..]);
    }
  }

  /** `canonicalizeHeaders`; None where a named header is missing. */
  function CanonicalHeaders(headers: map<string, string>, names: seq<string>): Option<string> {
    if names == [] then Some("")
    else if names[0] !in headers then None
    else
      match CanonicalHeaders(headers, names[1..])
      case None => None
      case Some(rest) => Some(names[0] + ":" + NormalizeHeaderValue(headers[names[0]]) + "\n" + rest)
  }

  predicate SameHeaders(left: map<string, string>, right: map<string, string>, names: seq<string>) {
    forall name :: name in names ==>
      name in left && name in right && NormalizeHeaderValue(left[name]) == NormalizeHeaderValue(right[name])
  }

  lemma {:induction false} CanonicalHeadersIff(left: map<string, string>, right: map<string, string>,
                                               names: seq<string>)
    requires CanonicalHeaders(left, names).Some? && CanonicalHeaders(right, names).Some?
    requires forall name :: name in names ==> HeaderName(name)
    ensures CanonicalHeaders(left, names) == CanonicalHeaders(right, names) <==> SameHeaders(left, right, names)
  {
    if names == [] {
    } else {
      var name := names[0];
      CanonicalHeadersIff(left, right, names[1..]);
      var l, r := NormalizeHeaderValue(left[name]), NormalizeHeaderValue(right[name]);
      var ls, rs := CanonicalHeaders(left, names[1..]).value, CanonicalHeaders(right, names[1..]).value;
      CollapseOneLine(Trim(left[name]));
      CollapseOneLine(Trim(right[name]));
      assert HeaderName(name);
      LinesIff(name, l, ls, r, rs);
      assert SameHeaders(left, right, names) <==> l == r && SameHeaders(left, right, names[1..]) by {
        assert forall n :: n in names <==> n == name || n in names[1..];
      }
    }
  }

  lemma LinesIff(name: string, l: string, ls: string, r: string, rs: string)
    requires HeaderName(name) && '\n' !in l && '\n' !in r
    ensures name + ":" + l + "\n" + ls == name + ":" + r + "\n" + rs <==> l == r && ls == rs
  {
    if name + ":" + l + "\n" + ls == name + ":" + r + "\n" + rs {
      var a, b := name + ":" + l, name + ":" + r;
      FirstSplit(a, ls, b, rs, '\n');
      assert a[|name| + 1..] == l && b[|name| + 1..] == r;
    }
  }

  // ---------- the whole request ----------

  datatype Request = Request(
    method': string, pathname: string, params: seq<Param>, headers: map<string, string>,
    signedHeaders: string, payloadHash: string)

  /** `createCanonicalRequest` with the header block; None where the request is refused. */
  function CreateCanonicalRequest(r: Request): Option<string> {
    match ParseSignedHeaders(r.signedHeaders)
    case None => None
    case Some(names) =>
      match (CanonicalHeaders(r.headers, names), CanonicalizePath(r.pathname))
      case (Some(block), Some(path)) =>
        Some(UpperAscii(r.method') + "\n" + path + "\n" + CanonicalQuery(r.params) + "\n"
             + block + "\n" + r.signedHeaders + "\n" + r.payloadHash)
      case _ => None
  }

  /** Everything the signature is meant to cover agrees. */
  ghost predicate Agrees(a: Request, b: Request) {
    && UpperAscii(a.method') == UpperAscii(b.method')
    && Segments(a.pathname) == Segments(b.pathname)
    && multiset(Covered(a.params)) == multiset(Covered(b.params))
    && a.signedHeaders == b.signedHeaders
    && (ParseSignedHeaders(a.signedHeaders).Some? ==>
          SameHeaders(a.headers, b.headers, ParseSignedHeaders(a.signedHeaders).value))
    && a.payloadHash == b.payloadHash
  }

  lemma SignedHeadersOneLine(value: string)
    requires ParseSignedHeaders(value).Some?
    ensures '\n' !in value
  {
    var names := ParseSignedHeaders(value).value;
    JoinOfSplit(value, ';');
    forall i | 0 <= i < |names| ensures '\n' !in names[i] { assert HeaderName(names[i]); }
    if '\n' in value {
      JoinCharacters(names, ';', '\n');
      assert false;
    }
  }

  /** Six parts joined by newlines, only the fourth of which may contain one, can be told apart. */
  lemma SixPartsInjective(a1: string, a2: string, a3: string, a4: string, a5: string, a6: string,
                          b1: string, b2: string, b3: string, b4: string, b5: string, b6: string)
    requires '\n' !in a1 && '\n' !in a2 && '\n' !in a3 && '\n' !in a5 && '\n' !in a6
    requires '\n' !in b1 && '\n' !in b2 && '\n' !in b3 && '\n' !in b5 && '\n' !in b6
    requires a1 + "\n" + a2 + "\n" + a3 + "\n" + a4 + "\n" + a5 + "\n" + a6 ==
             b1 + "\n" + b2 + "\n" + b3 + "\n" + b4 + "\n" + b5 + "\n" + b6
    ensures a1 == b1 && a2 == b2 && a3 == b3 && a4 == b4 && a5 == b5 && a6 == b6
  {
    var aFront := a1 + "\n" + a2 + "\n" + a3 + "\n" + a4;
    var bFront := b1 + "\n" + b2 + "\n" + b3 + "\n" + b4;
    LastSplit(aFront + "\n" + a5, a6, bFront + "\n" + b5, b6, '\n');
    LastSplit(aFront, a5, bFront, b5, '\n');
    var a34, b34 := a3 + "\n" + a4, b3 + "\n" + b4;
    assert aFront == a1 + "\n" + (a2 + "\n" + a34) && bFront == b1 + "\n" + (b2 + "\n" + b34);
    FirstSplit(a1, a2 + "\n" + a34, b1, b2 + "\n" + b34, '\n');
    FirstSplit(a2, a34, b2, b34, '\n');
    FirstSplit(a3, a4, b3, b4, '\n');
  }

  lemma UpperOneLine(s: string)
    requires '\n' !in s
    ensures '\n' !in UpperAscii(s)
  {}

  /**
   * The canonical request is a complete invariant: two accepted requests have the same one exactly
   * when they agree on everything the signature is meant to cover. Methods and accepted payload
   * hashes have no newline.
   */
  lemma CanonicalRequestIff(a: Request, b: Request)
    requires CreateCanonicalRequest(a).Some? && CreateCanonicalRequest(b).Some?
    requires '\n' !in a.method' && '\n' !in b.method'
    requires '\n' !in a.payloadHash && '\n' !in b.payloadHash
    ensures CreateCanonicalRequest(a) == CreateCanonicalRequest(b) <==> Agrees(a, b)
  {
    CanonicalPathIff(a.pathname, b.pathname);
    CanonicalQueryIff(a.params, b.params);
    var names := ParseSignedHeaders(a.signedHeaders).value;
    if a.signedHeaders == b.signedHeaders {
      CanonicalHeadersIff(a.headers, b.headers, names);
    }
    if CreateCanonicalRequest(a) == CreateCanonicalRequest(b) {
      OneLineParts(a);
      OneLineParts(b);
      SixPartsInjective(
        UpperAscii(a.method'), CanonicalizePath(a.pathname).value, CanonicalQuery(a.params),
        CanonicalHeaders(a.headers, names).value, a.signedHeaders, a.payloadHash,
        UpperAscii(b.method'), CanonicalizePath(b.pathname).value, CanonicalQuery(b.params),
        CanonicalHeaders(b.headers, ParseSignedHeaders(b.signedHeaders).value).value, b.signedHeaders, b.payloadHash);
    }
  }

  lemma OneLineParts(r: Request)
    requires CreateCanonicalRequest(r).Some? && '\n' !in r.method' && '\n' !in r.payloadHash
    ensures '\n' !in UpperAscii(r.method') && '\n' !in CanonicalizePath(r.pathname).value
    ensures '\n' !in CanonicalQuery(r.params) && '\n' !in r.signedHeaders && '\n' !in r.payloadHash
  {
    UpperOneLine(r.method');
    CanonicalPathOneLine(r.pathname);
    CanonicalQueryOneLine(r.params);
    SignedHeadersOneLine(r.signedHeaders);
  }

  // ---------- the layout, read back from the text ----------

  /** The canonical path encodes each decoded segment of the path, which is made to start with a slash. */
  lemma PathLayout(p: string)
    ensures var rooted := if p == "" then "/" else if p[0] == '/' then p else "/" + p;
            var given := Split(rooted, '/');
            && (CanonicalizePath(p).Some? <==> Decodable(given))
            && (CanonicalizePath(p).Some? ==>
                  var shown := Split(CanonicalizePath(p).value, '/');
                  && |shown| == |given|
                  && forall i :: 0 <= i < |given| ==> shown[i] == Encode(Decode(given[i]).value))
  {
    var given := Split(NormalizedPath(p), '/');
    DecodeAllIs(given);
    if DecodeAll(given).Some? {
      var segments := DecodeAll(given).value;
      forall i | 0 <= i < |segments| ensures '/' !in EncodeAll(segments)[i] { EncodeAlphabet(segments[i]); }
      SplitOfJoin(EncodeAll(segments), '/');
    }
  }

  predicate Decodable(segments: seq<string>) {
    forall i :: 0 <= i < |segments| ==> Decode(segments[i]).Some?
  }

  lemma {:induction false} DecodeAllIs(segments: seq<string>)
    ensures DecodeAll(segments).Some? <==> Decodable(segments)
    ensures DecodeAll(segments).Some? ==>
              && |DecodeAll(segments).value| == |segments|
              && forall i :: 0 <= i < |segments| ==> Decode(segments[i]) == Some(DecodeAll(segments).value[i])
  {
    if segments == [] {
    } else {
      DecodeAllIs(segments[1..]);
      assert forall i :: 1 <= i < |segments| ==> segments[i] == segments[1..][i - 1];
    }
  }

  /**
   * The canonical query has one `name=value` for each covered parameter, both encoded, ascending by
   * name and then by value; it is empty when no parameter is covered.
   */
  lemma QueryLayout(params: seq<Param>) returns (pairs: seq<EncodedParam>)
    ensures multiset(pairs) ==
            multiset(Mapped((p: Param) => EncodedParam(Encode(p.name), Encode(p.value)), Covered(params)))
    ensures pairs == [] ==> CanonicalQuery(params) == ""
    ensures pairs != [] ==>
              var shown := Split(CanonicalQuery(params), '&');
              && |shown| == |pairs|
              && forall i :: 0 <= i < |pairs| ==> shown[i] == pairs[i].name + "=" + pairs[i].value
    ensures forall i, j :: 0 <= i < j < |pairs| ==>
              || CodeAfter(pairs[j].name, pairs[i].name)
              || (pairs[i].name == pairs[j].name && !CodeAfter(pairs[i].value, pairs[j].value))
  {
    var explicit := (p: Param) => EncodedParam(Encode(p.name), Encode(p.value));
    assert Mapped(EncodeParam, Covered(params)) == Mapped(explicit, Covered(params));
    pairs := SortedParams(params);
    SortedPairs(params);
    if pairs != [] { QueryPairs(params); }
  }

  lemma SortedPairs(params: seq<Param>)
    ensures multiset(SortedParams(params)) == multiset(Mapped(EncodeParam, Covered(params)))
    ensures var pairs := SortedParams(params);
            forall i, j :: 0 <= i < j < |pairs| ==>
              || CodeAfter(pairs[j].name, pairs[i].name)
              || (pairs[i].name == pairs[j].name && !CodeAfter(pairs[i].value, pairs[j].value))
  {
    var pairs := SortedParams(params);
    ParamLeIsOrder();
    SortSorts(Mapped(EncodeParam, Covered(params)), ParamLe);
    forall i, j | 0 <= i < j < |pairs|
      ensures || CodeAfter(pairs[j].name, pairs[i].name)
              || (pairs[i].name == pairs[j].name && !CodeAfter(pairs[i].value, pairs[j].value))
    {
      assert ParamLe(pairs[i], pairs[j]);
      CodeAfterTotal(pairs[i].name, pairs[j].name);
    }
  }

  lemma QueryPairs(params: seq<Param>)
    requires SortedParams(params) != []
    ensures Split(CanonicalQuery(params), '&') == Mapped(Pair, SortedParams(params))
  {
    var pairs := SortedParams(params);
    SortedParamsEncoded(params);
    forall i | 0 <= i < |pairs| ensures '&' !in Mapped(Pair, pairs)[i] { assert pairs[i] in pairs; }
    SplitOfJoin(Mapped(Pair, pairs), '&');
  }

  /** The characters of a header name. */
  lemma HeaderNameIff(name: string)
    ensures HeaderName(name) <==>
            name != "" && forall i :: 0 <= i < |name| ==>
              name[i] in "abcdefghijklmnopqrstuvwxyz" || name[i] in "0123456789" || name[i] == '-'
  {
    forall i | 0 <= i < |name|
      ensures 'a' <= name[i] <= 'z' <==> name[i] in "abcdefghijklmnopqrstuvwxyz"
      ensures '0' <= name[i] <= '9' <==> name[i] in "0123456789"
    {
      LetterIff(name[i]);
      DigitIff(name[i]);
    }
  }

  /** A header list is accepted exactly if it joins valid names, strictly ascending and with host among them. */
  lemma SignedHeadersIff(value: string, names: seq<string>)
    ensures ParseSignedHeaders(value) == Some(names) <==>
            && names != [] && value == Join(names, ';') && "host" in names
            && (forall name :: name in names ==> HeaderName(name))
            && forall i, j :: 0 <= i < j < |names| ==> CodeAfter(names[j], names[i])
  {
    if ParseSignedHeaders(value) == Some(names) {
      SignedHeadersAscend(value);
    }
    if && names != [] && value == Join(names, ';') && "host" in names
       && (forall name :: name in names ==> HeaderName(name))
       && (forall i, j :: 0 <= i < j < |names| ==> CodeAfter(names[j], names[i]))
    {
      AscendingAccepted(value, names);
    }
  }

  lemma AscendingAccepted(value: string, names: seq<string>)
    requires names != [] && value == Join(names, ';') && "host" in names
    requires forall name :: name in names ==> HeaderName(name)
    requires forall i, j :: 0 <= i < j < |names| ==> CodeAfter(names[j], names[i])
    ensures ParseSignedHeaders(value) == Some(names)
  {
    forall i | 0 <= i < |names| ensures ';' !in names[i] { assert HeaderName(names[i]); }
    SplitOfJoin(names, ';');
    AscendingIsSorted(names);
    LowerNames(names);
    HostNotEmpty(names);
  }

  lemma HostNotEmpty(names: seq<string>)
    requires names != [] && forall name :: name in names ==> HeaderName(name)
    ensures Join(names, ';') != ""
  {
    assert HeaderName(names[0]);
  }

  lemma AscendingIsSorted(names: seq<string>)
    requires forall i, j :: 0 <= i < j < |names| ==> CodeAfter(names[j], names[i])
    ensures Distinct(names) && Sort(names, CodeLe) == names
  {
    CodeLeIsOrder();
    SortSorts(names, CodeLe);
    forall i, j | 0 <= i < j < |names| ensures names[i] != names[j] && CodeLe(names[i], names[j]) {
      CodeAfterTotal(names[i], names[j]);
      if CodeAfter(names[i], names[j]) {
        CodeAfterTransitive(names[i], names[j], names[i]);
        assert false;
      }
    }
    SortedUnique(names, Sort(names, CodeLe), CodeLe);
  }

  /** A joined list of header names has no capital letters. */
  lemma LowerNames(names: seq<string>)
    requires names != [] && forall name :: name in names ==> HeaderName(name)
    ensures LowerAscii(Join(names, ';')) == Join(names, ';')
  {
    var value := Join(names, ';');
    forall i | 0 <= i < |value| ensures !('A' <= value[i] <= 'Z') {
      JoinCharacters(names, ';', value[i]);
      if value[i] != ';' {
        var k :| 0 <= k < |names| && value[i] in names[k];
        assert HeaderName(names[k]);
      }
    }
  }

  /** The lines begin with one `name:value` for each name. */
  ghost predicate BeginsWithHeaders(lines: seq<string>, headers: map<string, string>, names: seq<string>) {
    && |lines| >= |names|
    && forall i :: 0 <= i < |names| ==>
         names[i] in headers && lines[i] == names[i] + ":" + NormalizeHeaderValue(headers[names[i]])
  }

  lemma OneMoreHeader(lines: seq<string>, more: seq<string>, headers: map<string, string>, names: seq<string>)
    requires names != [] && names[0] in headers
    requires lines == [names[0] + ":" + NormalizeHeaderValue(headers[names[0]])] + more
    requires BeginsWithHeaders(more, headers, names[1..])
    ensures BeginsWithHeaders(lines, headers, names) && lines[|names|..] == more[|names| - 1..]
  {
    assert forall i :: 1 <= i < |names| ==> names[i] == names[1..][i - 1] && lines[i] == more[i - 1];
  }

  /** The header block and what follows it, line by line. */
  lemma {:induction false} BlockLines(headers: map<string, string>, names: seq<string>, rest: string)
    requires CanonicalHeaders(headers, names).Some? && forall name :: name in names ==> HeaderName(name)
    ensures var lines := Split(CanonicalHeaders(headers, names).value + rest, '\n');
            BeginsWithHeaders(lines, headers, names) && lines[|names|..] == Split(rest, '\n')
  {
    if names == [] {
      assert "" + rest == rest;
      assert Split(rest, '\n')[0..] == Split(rest, '\n');
    } else {
      var line := names[0] + ":" + NormalizeHeaderValue(headers[names[0]]);
      var more := CanonicalHeaders(headers, names[1..]).value + rest;
      BlockLines(headers, names[1..], rest);
      HeaderOneLine(names[0], headers[names[0]]);
      assert CanonicalHeaders(headers, names).value + rest == line + ['\n'] + more;
      SplitPrepend(line, more, '\n');
      OneMoreHeader(Split(line + ['\n'] + more, '\n'), Split(more, '\n'), headers, names);
    }
  }

  lemma HeaderOneLine(name: string, value: string)
    requires HeaderName(name)
    ensures '\n' !in name + ":" + NormalizeHeaderValue(value)
  {
    CollapseOneLine(Trim(value));
  }

  /** The lines of a text that begins with three lines of its own. */
  lemma ThreeLines(a: string, b: string, c: string, rest: string)
    requires '\n' !in a && '\n' !in b && '\n' !in c
    ensures Split(a + "\n" + b + "\n" + c + "\n" + rest, '\n') == [a, b, c] + Split(rest, '\n')
  {
    assert a + "\n" + b + "\n" + c + "\n" + rest == a + ['\n'] + (b + ['\n'] + (c + ['\n'] + rest));
    SplitPrepend(a, b + ['\n'] + (c + ['\n'] + rest), '\n');
    SplitPrepend(b, c + ['\n'] + rest, '\n');
    SplitPrepend(c, rest, '\n');
  }

  lemma LastLines(signedHeaders: string, payloadHash: string)
    requires '\n' !in signedHeaders && '\n' !in payloadHash
    ensures Split("\n" + signedHeaders + "\n" + payloadHash, '\n') == ["", signedHeaders, payloadHash]
  {
    assert "\n" + signedHeaders + "\n" + payloadHash == "" + ['\n'] + (signedHeaders + ['\n'] + payloadHash);
    SplitPrepend("", signedHeaders + ['\n'] + payloadHash, '\n');
    SplitPrepend(signedHeaders, payloadHash, '\n');
    SplitSingle(payloadHash, '\n');
  }

  /**
   * The canonical request read back line by line: the upper-cased method, the canonical path, the
   * canonical query, one `name:value` for each signed header in the order of the list, an empty
   * line, the list itself and the payload hash.
   */
  lemma RequestLayout(r: Request, lines: seq<string>, names: seq<string>)
    requires CreateCanonicalRequest(r).Some? && '\n' !in r.method' && '\n' !in r.payloadHash
    requires lines == Split(CreateCanonicalRequest(r).value, '\n') && names == Split(r.signedHeaders, ';')
    ensures |lines| == |names| + 6
    ensures lines[0] == UpperAscii(r.method') && Some(lines[1]) == CanonicalizePath(r.pathname)
    ensures lines[2] == CanonicalQuery(r.params)
    ensures BeginsWithHeaders(lines[3..], r.headers, names)
    ensures lines[3 + |names|..] == ["", r.signedHeaders, r.payloadHash]
  {
    var end := "\n" + r.signedHeaders + "\n" + r.payloadHash;
    var block := CanonicalHeaders(r.headers, names).value;
    var more := Split(block + end, '\n');
    var front := [UpperAscii(r.method'), CanonicalizePath(r.pathname).value, CanonicalQuery(r.params)];
    LinesOfRequest(r, names);
    BlockLines(r.headers, names, end);
    OneLineParts(r);
    LastLines(r.signedHeaders, r.payloadHash);
    FrontAndMore(lines, front, more, |names|);
  }

  lemma FrontAndMore(lines: seq<string>, front: seq<string>, more: seq<string>, n: nat)
    requires lines == front + more && |front| == 3 && n <= |more|
    ensures |lines| == 3 + |more| && lines[3..] == more && lines[3 + n..] == more[n..]
    ensures lines[0] == front[0] && lines[1] == front[1] && lines[2] == front[2]
  {}

  lemma LinesOfRequest(r: Request, names: seq<string>)
    requires CreateCanonicalRequest(r).Some? && '\n' !in r.method' && '\n' !in r.payloadHash
    requires Some(names) == ParseSignedHeaders(r.signedHeaders)
    ensures Split(CreateCanonicalRequest(r).value, '\n') ==
            [UpperAscii(r.method'), CanonicalizePath(r.pathname).value, CanonicalQuery(r.params)]
            + Split(CanonicalHeaders(r.headers, names).value + ("\n" + r.signedHeaders + "\n" + r.payloadHash), '\n')
  {
    OneLineParts(r);
    SixPartsLines(UpperAscii(r.method'), CanonicalizePath(r.pathname).value, CanonicalQuery(r.params),
                  CanonicalHeaders(r.headers, names).value, r.signedHeaders, r.payloadHash);
  }

  lemma SixPartsLines(a1: string, a2: string, a3: string, a4: string, a5: string, a6: string)
    requires '\n' !in a1 && '\n' !in a2 && '\n' !in a3
    ensures Split(a1 + "\n" + a2 + "\n" + a3 + "\n" + a4 + "\n" + a5 + "\n" + a6, '\n') ==
            [a1, a2, a3] + Split(a4 + ("\n" + a5 + "\n" + a6), '\n')
  {
    var front := a1 + "\n" + a2 + "\n" + a3 + "\n";
    assert front + a4 + "\n" + a5 + "\n" + a6 == front + (a4 + ("\n" + a5 + "\n" + a6));
    ThreeLines(a1, a2, a3, a4 + ("\n" + a5 + "\n" + a6));
  }
}
