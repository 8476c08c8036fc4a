/** The tag-string helpers and the slug generator of helpers.py, with the
    Python string primitives they are built from. */
module Helpers {
  import opened Wrappers

  // ---------------------------------------------------------------------
  // Characters
  // ---------------------------------------------------------------------

  /** Python's str.isspace() on one character: what str.strip() and
      str.split() without an argument treat as whitespace. */
  predicate IsSpace(c: char) {
    ('\t' <= c <= '\r') || ('\U{1C}' <= c <= ' ') || c == '\U{85}' || c == '\U{A0}'
    || c == '\U{1680}' || ('\U{2000}' <= c <= '\U{200A}') || c == '\U{2028}' || c == '\U{2029}'
    || c == '\U{202F}' || c == '\U{205F}' || c == '\U{3000}'
  }

  /** The character class of _punct_re: tab, space and
      ! " # $ % & ' ( ) * - / < = > ? @ [ \ ] ^ _ ` { | } , .
      written as the ASCII ranges it covers. '+', ':', ';' and '~' are not in it. */
  predicate IsPunct(c: char) {
    c == '\t' || (' ' <= c <= '*') || (',' <= c <= '/') || ('<' <= c <= '@')
    || ('[' <= c <= '`') || ('{' <= c <= '}')
  }

  /** A character at which slugify cuts the title: the punctuation class, or
      whitespace (cut by the second, whitespace split). */
  predicate IsSeparator(c: char) { IsPunct(c) || IsSpace(c) }

  /** The classes the helpers scan for or remove. */
  datatype CharClass = Space | NonSpace | Punct | NonPunct | Separator | Dash

  predicate In(c: char, cls: CharClass) {
    match cls
    case Space => IsSpace(c)
    case NonSpace => !IsSpace(c)
    case Punct => IsPunct(c)
    case NonPunct => !IsPunct(c)
    case Separator => IsSeparator(c)
    case Dash => c == '-'
  }

  predicate IsAscii(c: char) { c < '\U{80}' }

  predicate IsAsciiString(s: string) { forall i :: 0 <= i < |s| ==> IsAscii(s[i]) }

  predicate IsUpper(c: char) { 'A' <= c <= 'Z' }

  predicate IsAsciiAlnum(c: char) { ('a' <= c <= 'z') || ('A' <= c <= 'Z') || ('0' <= c <= '9') }

  /** str.lower() on one ASCII character. */
  function LowerChar(c: char): (r: char)
    ensures !IsUpper(r)
    ensures IsAscii(r) <==> IsAscii(c)
    ensures IsPunct(r) <==> IsPunct(c)
    ensures IsSpace(r) <==> IsSpace(c)
    ensures IsAsciiAlnum(r) <==> IsAsciiAlnum(c)
  {
    if IsUpper(c) then (c as int + 32) as char else c
  }

  /** str.lower(), on the ASCII letters. */
  function Lower(s: string): string {
    seq(|s|, i requires 0 <= i < |s| => LowerChar(s[i]))
  }

  // ---------------------------------------------------------------------
  // Generic sequence helpers
  // ---------------------------------------------------------------------

  /** The length of the longest prefix of s whose characters are all in cls. */
  function PrefixWhile(s: string, cls: CharClass): (n: nat)
    ensures n <= |s|
    ensures forall i :: 0 <= i < n ==> In(s[i], cls)
    ensures n < |s| ==> !In(s[n], cls)
  {
    if s != [] && In(s[0], cls) then 1 + PrefixWhile(s[1..], cls) else 0
  }

  /** s with every character in cls removed. */
  function Without(s: string, cls: CharClass): (r: string)
    ensures |r| <= |s|
  {
    if s == [] then [] else (if In(s[0], cls) then [] else [s[0]]) + Without(s[1..], cls)
  }

  /** The pieces of ps laid end to end. */
  function Concat(ps: seq<string>): string {
    if ps == [] then [] else ps[0] + Concat(ps[1..])
  }

  // ---------------------------------------------------------------------
  // str.strip(), str.split(sep), sep.join(list)
  // ---------------------------------------------------------------------

  function StripLeft(s: string): (r: string)
    ensures |r| <= |s| && r == s[|s| - |r|..]
    ensures forall i :: 0 <= i < |s| - |r| ==> IsSpace(s[i])
    ensures r == [] || !IsSpace(r[0])
  {
    if s != [] && IsSpace(s[0]) then StripLeft(s[1..]) else s
  }

  function StripRight(s: string): (r: string)
    ensures |r| <= |s| && r == s[..|r|]
    ensures forall i :: |r| <= i < |s| ==> IsSpace(s[i])
    ensures r == [] || !IsSpace(r[|r| - 1])
  {
    if s != [] && IsSpace(s[|s| - 1]) then StripRight(s[..|s| - 1]) else s
  }

  /** str.strip() without an argument: drops the leading and trailing whitespace. */
  function Strip(s: string): (r: string)
    ensures exists i, j :: 0 <= i <= j <= |s| && r == s[i..j]
              && (forall k :: 0 <= k < i ==> IsSpace(s[k]))
              && (forall k :: j <= k < |s| ==> IsSpace(s[k]))
    ensures r == [] || (!IsSpace(r[0]) && !IsSpace(r[|r| - 1]))
    ensures r == [] <==> forall i :: 0 <= i < |s| ==> IsSpace(s[i])
    ensures (s == [] || (!IsSpace(s[0]) && !IsSpace(s[|s| - 1]))) ==> r == s
  {
    var l := StripLeft(s);
    var r := StripRight(l);
    assert r == [] ==> l == [];
    StripBounds(s, l, r);
    r
  }

  /** StripRight(StripLeft(s)) is the slice of s between its leading and its
      trailing whitespace. */
  lemma StripBounds(s: string, l: string, r: string)
    requires |l| <= |s| && l == s[|s| - |l|..]
    requires forall k :: 0 <= k < |s| - |l| ==> IsSpace(s[k])
    requires |r| <= |l| && r == l[..|r|]
    requires forall k :: |r| <= k < |l| ==> IsSpace(l[k])
    ensures var i := |s| - |l|;
            i + |r| <= |s| && r == s[i..i + |r|]
            && (forall k :: 0 <= k < i ==> IsSpace(s[k]))
            && (forall k :: i + |r| <= k < |s| ==> IsSpace(s[k]))
  {
    var i := |s| - |l|;
    forall k | i + |r| <= k < |s| ensures IsSpace(s[k]) {
      assert s[k] == l[k - i];
    }
    DropTake(s, i, |r|);
  }

  lemma DropTake<T>(s: seq<T>, i: nat, n: nat)
    requires i + n <= |s|
    ensures s[i..][..n] == s[i..i + n]
  {
  }

  /** d occurs in s at position i. */
  predicate OccursAt(s: string, d: string, i: nat)
    requires i <= |s|
  {
    d <= s[i..]
  }

  predicate Contains(s: string, d: string) {
    exists i :: 0 <= i <= |s| && OccursAt(s, d, i)
  }

  /** str.count(d): the non-overlapping occurrences of d, found from the left. */
  function Occurrences(s: string, d: string): nat
    requires d != []
    decreases |s|
  {
    if d <= s then 1 + Occurrences(s[|d|..], d)
    else if s == [] then 0
    else Occurrences(s[1..], d)
  }

  /** str.split(d) for a non-empty separator d: the pieces between the
      non-overlapping occurrences of d, found from the left. */
  function SplitOn(s: string, d: string): (r: seq<string>)
    requires d != []
    ensures r != []
    decreases |s|
  {
    if d <= s then [""] + SplitOn(s[|d|..], d)
    else if s == [] then [""]
    else
      var t := SplitOn(s[1..], d);
      [[s[0]] + t[0]] + t[1..]
  }

  /** d.join(ps). */
  function JoinWith(ps: seq<string>, d: string): string
  {
    if ps == [] then ""
    else if |ps| == 1 then ps[0]
    else ps[0] + d + JoinWith(ps[1..], d)
  }

  // ---------------------------------------------------------------------
  // split_tags and join_tags
  // ---------------------------------------------------------------------

  /** split_tags(string, delimiter): string.strip().split(delimiter).
      Python refuses an empty separator with ValueError. */
  function SplitTags(s: string, delimiter: string): (r: Result<seq<string>>)
    ensures r.Err? <==> delimiter == []
    ensures r.Err? ==> r.error == ValueError("empty separator")
    ensures r.Ok? ==> |r.value| == Occurrences(Strip(s), delimiter) + 1
    ensures r.Ok? ==> forall p :: p in r.value ==> !Contains(p, delimiter)
  {
    if delimiter == [] then Err(ValueError("empty separator"))
    else
      SplitAvoidsDelimiter(Strip(s), delimiter);
      SplitOnCount(Strip(s), delimiter);
      Ok(SplitOn(Strip(s), delimiter))
  }

  /** join_tags(list, delimiter): delimiter.join(list). */
  function JoinTags(tags: seq<string>, delimiter: string): string {
    JoinWith(tags, delimiter)
  }

  lemma PrefixTransitive(a: string, b: string, c: string)
    requires a <= b && b <= c
    ensures a <= c
  {
    assert a == b[..|a|];
    assert b == c[..|b|];
    assert c[..|b|][..|a|] == c[..|a|];
  }

  /** str.split(d) returns one more piece than str.count(d). */
  lemma {:induction false} SplitOnCount(s: string, d: string)
    requires d != []
    ensures |SplitOn(s, d)| == Occurrences(s, d) + 1
    decreases |s|
  {
    if d <= s {
      SplitOnCount(s[|d|..], d);
    } else if s != [] {
      SplitOnCount(s[1..], d);
    }
  }

  /** The first piece is a prefix of the string. */
  lemma {:induction false} SplitOnHead(s: string, d: string)
    requires d != []
    ensures SplitOn(s, d)[0] <= s
    decreases |s|
  {
    if !(d <= s) && s != [] {
      var t := SplitOn(s[1..], d);
      SplitOnHead(s[1..], d);
      assert t[0] == s[1..][..|t[0]|];
      assert SplitOn(s, d)[0] == [s[0]] + t[0];
    }
  }

  /** No piece that str.split returns contains the separator. */
  lemma {:induction false} SplitAvoidsDelimiter(s: string, d: string)
    requires d != []
    ensures forall p :: p in SplitOn(s, d) ==> !Contains(p, d)
    decreases |s|
  {
    if d <= s {
      SplitAvoidsDelimiter(s[|d|..], d);
      assert !Contains("", d) by {
        forall i | 0 <= i <= 0 ensures !OccursAt("", d, i) { }
      }
    } else if s == [] {
      assert !Contains("", d) by {
        forall i | 0 <= i <= 0 ensures !OccursAt("", d, i) { }
      }
    } else {
      var t := SplitOn(s[1..], d);
      SplitAvoidsDelimiter(s[1..], d);
      SplitOnHead(s[1..], d);
      var x := [s[0]] + t[0];
      assert t[0] in t;
      assert !Contains(t[0], d);
      assert x <= s by {
        assert t[0] == s[1..][..|t[0]|];
        assert x == s[..|x|];
      }
      forall i | 0 <= i <= |x| ensures !OccursAt(x, d, i) {
        if i == 0 {
          if d <= x { PrefixTransitive(d, x, s); }
        } else {
          assert x[i..] == t[0][i - 1..];
          assert !OccursAt(t[0], d, i - 1);
        }
      }
      assert SplitOn(s, d) == [x] + t[1..];
    }
  }

  /** Joining the pieces of a split with the same separator gives the string back. */
  lemma JoinCons(x: string, t: seq<string>, d: string)
    requires t != []
    ensures JoinWith([x] + t, d) == x + d + JoinWith(t, d)
  {
    assert ([x] + t)[1..] == t;
  }

  lemma {:induction false} JoinSplit(s: string, d: string)
    requires d != []
    ensures JoinWith(SplitOn(s, d), d) == s
    decreases |s|, 1
  {
    if d <= s {
      JoinSplitAtDelimiter(s, d);
    } else if s != [] {
      JoinSplitStep(s, d);
    }
  }

  lemma {:induction false} JoinSplitAtDelimiter(s: string, d: string)
    requires d != [] && d <= s
    ensures JoinWith(SplitOn(s, d), d) == s
    decreases |s|, 0
  {
    var rest := s[|d|..];
    JoinSplit(rest, d);
    assert SplitOn(s, d) == [""] + SplitOn(rest, d);
    JoinCons("", SplitOn(rest, d), d);
    assert s[..|d|] == d;
    assert s == s[..|d|] + rest;
  }

  lemma {:induction false} JoinSplitStep(s: string, d: string)
    requires d != [] && s != [] && !(d <= s)
    ensures JoinWith(SplitOn(s, d), d) == s
    decreases |s|, 0
  {
    var t := SplitOn(s[1..], d);
    JoinSplit(s[1..], d);
    assert SplitOn(s, d) == [[s[0]] + t[0]] + t[1..];
    JoinPrepend(s[0], t, d);
    assert s == [s[0]] + s[1..];
  }

  /** Putting a character in front of the first piece puts it in front of the join. */
  lemma JoinPrepend(c: char, t: seq<string>, d: string)
    requires t != []
    ensures JoinWith([[c] + t[0]] + t[1..], d) == [c] + JoinWith(t, d)
  {
    if |t| > 1 {
      assert [t[0]] + t[1..] == t;
      JoinCons(t[0], t[1..], d);
      JoinCons([c] + t[0], t[1..], d);
      var tail := JoinWith(t[1..], d);
      assert ([c] + t[0]) + d + tail == [c] + (t[0] + d + tail);
    }
  }

  /** Round trip from the tag string: join_tags(split_tags(s, d), d) is s stripped. */
  lemma SplitTagsRoundTrip(s: string, delimiter: string)
    requires delimiter != []
    ensures SplitTags(s, delimiter).Ok?
    ensures JoinTags(SplitTags(s, delimiter).value, delimiter) == Strip(s)
  {
    JoinSplit(Strip(s), delimiter);
  }

  /** A string without the separator splits into itself. */
  lemma {:induction false} SplitWithoutSeparator(s: string, c: char)
    requires c !in s
    ensures SplitOn(s, [c]) == [s]
    decreases |s|
  {
    if s != [] {
      assert s[0] in s;
      assert !([c] <= s);
      SplitWithoutSeparator(s[1..], c);
      assert [s[0]] + s[1..] == s;
    }
  }

  /** Splitting at the first separator of a one-character separator. */
  lemma {:induction false} SplitAtFirst(p: string, c: char, rest: string)
    requires c !in p
    ensures SplitOn(p + [c] + rest, [c]) == [p] + SplitOn(rest, [c])
    decreases |p|
  {
    if p == [] {
      assert p + [c] + rest == [c] + rest;
      assert ([c] + rest)[1..] == rest;
    } else {
      var s := p + [c] + rest;
      assert p[0] in p;
      assert s[0] == p[0] && s[0] != c;
      assert !([c] <= s);
      assert s[1..] == p[1..] + [c] + rest;
      SplitAtFirst(p[1..], c, rest);
      assert [p[0]] + p[1..] == p;
    }
  }

  /** Round trip from the tag list, for a one-character delimiter: splitting
      the joined tags gives them back when no tag contains the delimiter and
      the joined string has no surrounding whitespace. */
  lemma {:induction false} JoinTagsRoundTrip(tags: seq<string>, c: char)
    requires tags != []
    requires forall t :: t in tags ==> c !in t
    requires Strip(JoinTags(tags, [c])) == JoinTags(tags, [c])
    ensures SplitTags(JoinTags(tags, [c]), [c]) == Ok(tags)
  {
    SplitJoin(tags, c);
  }

  lemma {:induction false} SplitJoin(tags: seq<string>, c: char)
    requires tags != []
    requires forall t :: t in tags ==> c !in t
    ensures SplitOn(JoinWith(tags, [c]), [c]) == tags
    decreases |tags|
  {
    if |tags| == 1 {
      SplitWithoutSeparator(tags[0], c);
    } else {
      assert tags[0] in tags;
      SplitJoin(tags[1..], c);
      SplitAtFirst(tags[0], c, JoinWith(tags[1..], [c]));
      assert [tags[0]] + tags[1..] == tags;
    }
  }

  /** split_tags strips only the whole string: the pieces keep the
      whitespace next to the delimiter ("a , b" gives "a " and " b"). */
  lemma SplitTagsKeepsInnerSpaces(a: string, b: string, c: char)
    requires c !in a && c !in b && !IsSpace(c)
    requires a == [] || !IsSpace(a[0])
    requires b == [] || !IsSpace(b[|b| - 1])
    ensures SplitTags(a + [c] + b, [c]) == Ok([a, b])
  {
    var s := a + [c] + b;
    assert s[0] == if a == [] then c else a[0];
    assert s[|s| - 1] == if b == [] then c else b[|b| - 1];
    assert Strip(s) == s;
    SplitWithoutSeparator(b, c);
    SplitAtFirst(a, c, b);
    assert SplitOn(s, [c]) == [a] + [b] == [a, b];
    assert SplitTags(s, [c]) == Ok(SplitOn(s, [c]));
  }

  // ---------------------------------------------------------------------
  // slugify
  // ---------------------------------------------------------------------

  /** _punct_re.split(s): the pieces between maximal runs of punctuation-class
      characters, with an empty piece first or last when s starts or ends
      with such a run. */
  function PunctSplit(s: string): (r: seq<string>)
    ensures r != []
    decreases |s|
  {
    var n := PrefixWhile(s, NonPunct);
    if n == |s| then [s]
    else
      assert s[n..][0] == s[n];
      var m := n + PrefixWhile(s[n..], Punct);
      [s[..n]] + PunctSplit(s[m..])
  }

  /** str.split() without an argument: the maximal runs of non-whitespace
      characters, never an empty piece. */
  function SplitWhitespace(s: string): seq<string>
    decreases |s|
  {
    var k := PrefixWhile(s, Space);
    if k == |s| then []
    else
      assert s[k..][0] == s[k];
      var n := k + PrefixWhile(s[k..], NonSpace);
      [s[k..n]] + SplitWhitespace(s[n..])
  }

  /** The list slugify's loop builds: each piece of the punctuation split,
      transliterated and split on whitespace, in order. */
  function SlugWords(pieces: seq<string>, translit: string -> string): seq<string> {
    if pieces == [] then []
    else SlugWords(pieces[..|pieces| - 1], translit) + SplitWhitespace(translit(pieces[|pieces| - 1]))
  }

  /** What slugify(s, delim) returns, with unidecode given as translit. */
  function SlugOf(s: string, delim: string, translit: string -> string): string {
    translit(JoinWith(SlugWords(PunctSplit(Lower(s)), translit), delim))
  }

  /** slugify(string, delim): lower-case, cut at the punctuation class, cut
      each piece at whitespace, and join the surviving words with delim. */
  method Slugify(s: string, delim: string, translit: string -> string) returns (slug: string)
    ensures slug == SlugOf(s, delim, translit)
  {
    var pieces := PunctSplit(Lower(s));
    var result: seq<string> := [];
    for i := 0 to |pieces|
      invariant result == SlugWords(pieces[..i], translit)
    {
      assert pieces[..i + 1][..i] == pieces[..i];
      result := result + SplitWhitespace(translit(pieces[i]));
    }
    assert pieces[..|pieces|] == pieces;
    slug := translit(JoinWith(result, delim));
  }

  /** The pieces of _punct_re.split hold characters of s and none of the
      punctuation class. */
  lemma {:induction false} PunctSplitPieces(s: string)
    ensures forall p :: p in PunctSplit(s) ==> forall c :: c in p ==> c in s && !IsPunct(c)
    decreases |s|
  {
    var n := PrefixWhile(s, NonPunct);
    if n < |s| {
      assert s[n..][0] == s[n];
      var m := n + PrefixWhile(s[n..], Punct);
      PunctSplitPieces(s[m..]);
      assert forall c :: c in s[m..] ==> c in s;
      assert forall c :: c in s[..n] ==> c in s && !IsPunct(c);
    }
  }

  /** The words of str.split() are non-empty and hold characters of s and no
      whitespace. */
  lemma {:induction false} SplitWhitespaceWords(s: string)
    ensures forall w :: w in SplitWhitespace(s) ==> w != [] && forall c :: c in w ==> c in s && !IsSpace(c)
    decreases |s|
  {
    var k := PrefixWhile(s, Space);
    if k < |s| {
      var n := k + PrefixWhile(s[k..], NonSpace);
      SplitWhitespaceStep(s, k, n);
      SplitWhitespaceHead(s, k, n);
      SplitWhitespaceWords(s[n..]);
      assert forall c :: c in s[n..] ==> c in s;
    }
  }

  /** The first word of str.split() is non-empty and free of whitespace. */
  lemma SplitWhitespaceHead(s: string, k: nat, n: nat)
    requires k < |s| && PrefixWhile(s, Space) == k
    requires n == k + PrefixWhile(s[k..], NonSpace)
    ensures s[k..n] != [] && forall c :: c in s[k..n] ==> c in s && !IsSpace(c)
  {
    assert s[k..][0] == s[k];
    var w := s[k..n];
    forall j | 0 <= j < |w| ensures w[j] == s[k + j] && !IsSpace(w[j]) {
      assert w[j] == s[k..][j];
    }
  }

  /** unidecode leaves ASCII text as it is (beyond ASCII it is not modelled). */
  ghost predicate AsciiIdentity(translit: string -> string) {
    forall t :: IsAsciiString(t) ==> translit(t) == t
  }

  /** A piece of the punctuation split of a lower-cased ASCII title. */
  ghost predicate CleanPiece(p: string) {
    forall i :: 0 <= i < |p| ==> IsAscii(p[i]) && !IsUpper(p[i]) && !IsPunct(p[i])
  }

  /** A word of slugify's output: non-empty, ASCII, lower case, and free of
      whitespace and of the punctuation class. */
  ghost predicate IsSlugWord(w: string) {
    w != [] && forall i :: 0 <= i < |w| ==> IsAscii(w[i]) && !IsUpper(w[i]) && !IsSeparator(w[i])
  }

  /** Every piece of ps is clean. */
  ghost predicate AllClean(ps: seq<string>) {
    forall i :: 0 <= i < |ps| ==> CleanPiece(ps[i])
  }

  /** Every element of ws is a slug word. */
  ghost predicate AllSlugWords(ws: seq<string>) {
    forall i :: 0 <= i < |ws| ==> IsSlugWord(ws[i])
  }

  lemma AllCleanInit(ps: seq<string>)
    requires ps != [] && AllClean(ps)
    ensures AllClean(ps[..|ps| - 1]) && CleanPiece(ps[|ps| - 1])
  {
    var init := ps[..|ps| - 1];
    forall i | 0 <= i < |init| ensures CleanPiece(init[i]) {
      assert init[i] == ps[i];
    }
  }

  lemma AllSlugWordsInit(ws: seq<string>)
    requires ws != [] && AllSlugWords(ws)
    ensures AllSlugWords(ws[..|ws| - 1]) && IsSlugWord(ws[|ws| - 1])
  {
    var init := ws[..|ws| - 1];
    forall i | 0 <= i < |init| ensures IsSlugWord(init[i]) {
      assert init[i] == ws[i];
    }
  }

  lemma AllSlugWordsTail(ws: seq<string>)
    requires ws != [] && AllSlugWords(ws)
    ensures IsSlugWord(ws[0]) && AllSlugWords(ws[1..])
  {
    var tail := ws[1..];
    forall i | 0 <= i < |tail| ensures IsSlugWord(tail[i]) {
      assert tail[i] == ws[i + 1];
    }
  }

  lemma AllSlugWordsAppend(a: seq<string>, b: seq<string>)
    requires AllSlugWords(a) && AllSlugWords(b)
    ensures AllSlugWords(a + b)
  {
    var ab := a + b;
    forall i | 0 <= i < |ab| ensures IsSlugWord(ab[i]) {
      if i < |a| {
        assert ab[i] == a[i];
      } else {
        assert ab[i] == b[i - |a|];
      }
    }
  }

  /** The shape of slugify's output with the '-' delimiter: ASCII, lower case,
      no whitespace, no punctuation-class character but '-', no '-' at either
      end and never two in a row. */
  ghost predicate IsSlug(r: string) {
    (forall i :: 0 <= i < |r| ==> IsAscii(r[i]) && !IsUpper(r[i]) && !IsSpace(r[i]) && (IsPunct(r[i]) ==> r[i] == '-'))
    && (r != [] ==> r[0] != '-' && r[|r| - 1] != '-')
    && (forall i :: 0 <= i < |r| - 1 ==> !(r[i] == '-' && r[i + 1] == '-'))
  }

  lemma PrefixWhileExact(s: string, cls: CharClass, n: nat)
    requires n <= |s|
    requires forall i :: 0 <= i < n ==> In(s[i], cls)
    requires n < |s| ==> !In(s[n], cls)
    ensures PrefixWhile(s, cls) == n
  {
  }

  lemma LowerIdentity(s: string)
    requires forall i :: 0 <= i < |s| ==> !IsUpper(s[i])
    ensures Lower(s) == s
  {
  }

  /** The pieces _punct_re.split cuts from a lower-cased ASCII title are
      ASCII, lower case and free of the punctuation class. */
  lemma PiecesClean(s: string)
    requires IsAsciiString(s)
    ensures AllClean(PunctSplit(Lower(s)))
  {
    var l := Lower(s);
    var ps := PunctSplit(l);
    PunctSplitPieces(l);
    forall k | 0 <= k < |ps| ensures CleanPiece(ps[k]) {
      var p := ps[k];
      assert p in ps;
      forall i | 0 <= i < |p| ensures IsAscii(p[i]) && !IsUpper(p[i]) && !IsPunct(p[i]) {
        assert p[i] in p;
        var k :| 0 <= k < |l| && l[k] == p[i];
        assert l[k] == LowerChar(s[k]);
      }
    }
  }

  /** The loop only ever collects slug words from clean pieces. */
  lemma {:induction false} SlugWordsAreWords(ps: seq<string>, translit: string -> string)
    requires AsciiIdentity(translit)
    requires AllClean(ps)
    ensures AllSlugWords(SlugWords(ps, translit))
    decreases |ps|
  {
    if ps != [] {
      var init, last := ps[..|ps| - 1], ps[|ps| - 1];
      AllCleanInit(ps);
      SlugWordsAreWords(init, translit);
      assert IsAsciiString(last);
      assert translit(last) == last;
      var b := SplitWhitespace(last);
      SplitWhitespaceWords(last);
      forall k | 0 <= k < |b| ensures IsSlugWord(b[k]) {
        var w := b[k];
        assert w in b;
        forall i | 0 <= i < |w| ensures IsAscii(w[i]) && !IsUpper(w[i]) && !IsSeparator(w[i]) {
          assert w[i] in w;
          var j :| 0 <= j < |last| && last[j] == w[i];
        }
      }
      assert SlugWords(ps, translit) == SlugWords(init, translit) + b;
      AllSlugWordsAppend(SlugWords(init, translit), b);
    }
  }

  /** Slug words joined with '-' have the shape of a slug. */
  lemma {:induction false} JoinIsSlug(ws: seq<string>)
    requires AllSlugWords(ws)
    ensures IsSlug(JoinWith(ws, "-"))
    decreases |ws|
  {
    if |ws| == 1 {
      assert IsSlugWord(ws[0]);
    } else if |ws| > 1 {
      var w, j := ws[0], JoinWith(ws[1..], "-");
      assert IsSlugWord(ws[1]);
      AllSlugWordsTail(ws);
      JoinIsSlug(ws[1..]);
      assert ws[1..][0] == ws[1];
      assert ws[1] <= j;
      assert j != [] && j[0] == ws[1][0];
      var r := w + "-" + j;
      assert JoinWith(ws, "-") == r;
      forall i | 0 <= i < |r|
        ensures IsAscii(r[i]) && !IsUpper(r[i]) && !IsSpace(r[i]) && (IsPunct(r[i]) ==> r[i] == '-')
      {
        if i < |w| {
          assert r[i] == w[i];
        } else if i > |w| {
          assert r[i] == j[i - |w| - 1];
        }
      }
      assert r[0] == w[0];
      assert r[|r| - 1] == j[|j| - 1];
      forall i | 0 <= i < |r| - 1 ensures !(r[i] == '-' && r[i + 1] == '-') {
        if i < |w| {
          assert r[i] == w[i];
        } else if i == |w| {
          assert r[i + 1] == j[0];
        } else {
          assert r[i] == j[i - |w| - 1] && r[i + 1] == j[i - |w|];
        }
      }
    }
  }

  /** For ASCII input, slugify returns a slug: lower case, no whitespace, no
      punctuation-class character but the delimiter, which never starts, ends
      or doubles. */
  lemma SlugShape(s: string, translit: string -> string)
    requires IsAsciiString(s) && AsciiIdentity(translit)
    ensures IsSlug(SlugOf(s, "-", translit))
  {
    var ws := SlugWords(PunctSplit(Lower(s)), translit);
    PiecesClean(s);
    SlugWordsAreWords(PunctSplit(Lower(s)), translit);
    JoinIsSlug(ws);
    assert IsAsciiString(JoinWith(ws, "-"));
  }

  /** _punct_re.split cuts at a run of the punctuation class between two
      punctuation-free parts. */
  lemma {:induction false} PunctSplitAtGap(w: string, g: string, rest: string)
    requires forall i :: 0 <= i < |w| ==> !IsPunct(w[i])
    requires g != [] && forall i :: 0 <= i < |g| ==> IsPunct(g[i])
    requires rest == [] || !IsPunct(rest[0])
    ensures PunctSplit(w + g + rest) == [w] + PunctSplit(rest)
  {
    var s := w + g + rest;
    assert forall i :: 0 <= i < |w| ==> s[i] == w[i];
    assert s[|w|] == g[0];
    PrefixWhileExact(s, NonPunct, |w|);
    var t := s[|w|..];
    assert t == g + rest;
    assert forall i :: 0 <= i < |g| ==> t[i] == g[i];
    PrefixWhileExact(t, Punct, |g|);
    assert s[|w| + |g|..] == rest;
    assert s[..|w|] == w;
  }

  lemma {:induction false} PunctSplitWithoutPunct(w: string)
    requires forall i :: 0 <= i < |w| ==> !IsPunct(w[i])
    ensures PunctSplit(w) == [w]
  {
    PrefixWhileExact(w, NonPunct, |w|);
  }

  /** _punct_re.split gives '-'-joined slug words back. */
  lemma {:induction false} PunctSplitJoin(ws: seq<string>)
    requires ws != []
    requires AllSlugWords(ws)
    ensures PunctSplit(JoinWith(ws, "-")) == ws
    decreases |ws|
  {
    var w := ws[0];
    AllSlugWordsTail(ws);
    if |ws| == 1 {
      PunctSplitWithoutPunct(w);
    } else {
      var j := JoinWith(ws[1..], "-");
      PunctSplitJoin(ws[1..]);
      assert ws[1..][0] == ws[1] && IsSlugWord(ws[1]);
      assert ws[1] <= j;
      assert j != [] && j[0] == ws[1][0];
      PunctSplitAtGap(w, "-", j);
      assert [w] + ws[1..] == ws;
    }
  }

  lemma SplitWhitespaceWord(w: string)
    requires w != []
    requires forall i :: 0 <= i < |w| ==> !IsSpace(w[i])
    ensures SplitWhitespace(w) == [w]
  {
    assert !In(w[0], Space);
    PrefixWhileExact(w, Space, 0);
    assert w[0..] == w;
    assert forall i :: 0 <= i < |w| ==> In(w[i], NonSpace);
    PrefixWhileExact(w, NonSpace, |w|);
    SplitWhitespaceStep(w, 0, |w|);
    assert w[0..|w|] == w;
    assert w[|w|..] == [];
    SplitWhitespaceNone();
  }

  /** One step of str.split(): the word after the leading whitespace. */
  lemma SplitWhitespaceStep(s: string, k: nat, n: nat)
    requires k < |s| && PrefixWhile(s, Space) == k
    requires n == k + PrefixWhile(s[k..], NonSpace)
    ensures SplitWhitespace(s) == [s[k..n]] + SplitWhitespace(s[n..])
  {
  }

  lemma SplitWhitespaceNone()
    ensures SplitWhitespace([]) == []
  {
  }

  /** A slug word is ASCII and free of whitespace. */
  lemma SlugWordFacts(w: string)
    requires IsSlugWord(w)
    ensures IsAsciiString(w)
    ensures w != [] && forall i :: 0 <= i < |w| ==> !IsSpace(w[i])
  {
  }

  /** The loop turns one more slug word into that word. */
  lemma SlugWordsAppendWord(init: seq<string>, w: string, translit: string -> string)
    requires AsciiIdentity(translit) && IsSlugWord(w)
    ensures SlugWords(init + [w], translit) == SlugWords(init, translit) + [w]
  {
    var ps := init + [w];
    assert ps[..|ps| - 1] == init && ps[|ps| - 1] == w;
    SlugWordFacts(w);
    assert translit(w) == w;
    SplitWhitespaceWord(w);
  }

  lemma InitLast<T>(s: seq<T>)
    requires s != []
    ensures s[..|s| - 1] + [s[|s| - 1]] == s
  {
  }

  /** The loop keeps slug words as they are. */
  lemma {:induction false} SlugWordsOfWords(ws: seq<string>, translit: string -> string)
    requires AsciiIdentity(translit)
    requires AllSlugWords(ws)
    ensures SlugWords(ws, translit) == ws
    decreases |ws|
  {
    if ws != [] {
      var init, last := ws[..|ws| - 1], ws[|ws| - 1];
      AllSlugWordsInit(ws);
      SlugWordsOfWords(init, translit);
      SlugWordsAppendWord(init, last, translit);
      InitLast(ws);
    }
  }

  /** A slug built from slug words slugifies to itself. */
  lemma SlugOfSlugWords(ws: seq<string>, translit: string -> string)
    requires AsciiIdentity(translit)
    requires AllSlugWords(ws)
    ensures SlugOf(JoinWith(ws, "-"), "-", translit) == JoinWith(ws, "-")
  {
    var j := JoinWith(ws, "-");
    JoinIsSlug(ws);
    LowerIdentity(j);
    assert IsAsciiString(j);
    if ws == [] {
      assert PunctSplit(j) == [""];
      assert [""][..0] == [];
      assert IsAsciiString("");
      assert SlugWords([""], translit) == SplitWhitespace(translit(""));
      assert SplitWhitespace("") == [];
    } else {
      PunctSplitJoin(ws);
      SlugWordsOfWords(ws, translit);
    }
  }

  /** A single slug word slugifies to itself. */
  lemma SlugOfWord(w: string, translit: string -> string)
    requires AsciiIdentity(translit) && IsSlugWord(w)
    ensures SlugOf(w, "-", translit) == w
  {
    assert AllSlugWords([w]);
    SlugOfSlugWords([w], translit);
    assert JoinWith([w], "-") == w;
  }

  /** For ASCII input, slugify is idempotent. */
  lemma SlugIdempotent(s: string, translit: string -> string)
    requires IsAsciiString(s) && AsciiIdentity(translit)
    ensures SlugOf(SlugOf(s, "-", translit), "-", translit) == SlugOf(s, "-", translit)
  {
    var ws := SlugWords(PunctSplit(Lower(s)), translit);
    PiecesClean(s);
    SlugWordsAreWords(PunctSplit(Lower(s)), translit);
    JoinIsSlug(ws);
    assert IsAsciiString(JoinWith(ws, "-"));
    SlugOfSlugWords(ws, translit);
  }

  lemma {:induction false} WithoutMembers(s: string, cls: CharClass)
    ensures forall c :: c in Without(s, cls) <==> c in s && !In(c, cls)
    decreases |s|
  {
    if s != [] {
      WithoutMembers(s[1..], cls);
      assert s == [s[0]] + s[1..];
    }
  }

  lemma {:induction false} WithoutAppend(a: string, b: string, cls: CharClass)
    ensures Without(a + b, cls) == Without(a, cls) + Without(b, cls)
    decreases |a|
  {
    if a == [] {
      assert a + b == b;
    } else {
      assert (a + b)[0] == a[0];
      assert (a + b)[1..] == a[1..] + b;
      WithoutAppend(a[1..], b, cls);
    }
  }

  lemma {:induction false} WithoutInThree(s: string, i: nat, j: nat, cls: CharClass)
    requires i <= j <= |s|
    ensures Without(s, cls) == Without(s[..i], cls) + Without(s[i..j], cls) + Without(s[j..], cls)
  {
    assert s[..j] == s[..i] + s[i..j];
    assert s == s[..j] + s[j..];
    WithoutAppend(s[..j], s[j..], cls);
    WithoutAppend(s[..i], s[i..j], cls);
  }

  lemma {:induction false} WithoutNone(s: string, cls: CharClass)
    requires forall i :: 0 <= i < |s| ==> !In(s[i], cls)
    ensures Without(s, cls) == s
    decreases |s|
  {
    if s != [] {
      WithoutNone(s[1..], cls);
      assert [s[0]] + s[1..] == s;
    }
  }

  lemma {:induction false} WithoutAll(s: string, cls: CharClass)
    requires forall i :: 0 <= i < |s| ==> In(s[i], cls)
    ensures Without(s, cls) == []
    decreases |s|
  {
    if s != [] {
      WithoutAll(s[1..], cls);
    }
  }

  lemma {:induction false} WithoutSame(s: string, cls: CharClass, cls2: CharClass)
    requires forall i :: 0 <= i < |s| ==> In(s[i], cls) == In(s[i], cls2)
    ensures Without(s, cls) == Without(s, cls2)
    decreases |s|
  {
    if s != [] {
      WithoutSame(s[1..], cls, cls2);
    }
  }

  lemma {:induction false} ConcatAppend(a: seq<string>, b: seq<string>)
    ensures Concat(a + b) == Concat(a) + Concat(b)
    decreases |a|
  {
    if a == [] {
      assert a + b == b;
    } else {
      assert (a + b)[1..] == a[1..] + b;
      ConcatAppend(a[1..], b);
    }
  }

  /** Without over a run of removed characters followed by a run of kept ones. */
  lemma {:induction false} WithoutAtWord(t: string, k: nat, n: nat, cls: CharClass)
    requires k <= n <= |t|
    requires forall i :: 0 <= i < k ==> In(t[i], cls)
    requires forall i :: k <= i < n ==> !In(t[i], cls)
    ensures Without(t, cls) == t[k..n] + Without(t[n..], cls)
  {
    WithoutInThree(t, k, n, cls);
    WithoutAllSlice(t, 0, k, cls);
    assert t[0..k] == t[..k];
    WithoutNoneSlice(t, k, n, cls);
  }

  /** Without over a run of kept characters followed by a run of removed ones. */
  lemma {:induction false} WithoutAtGap(s: string, n: nat, m: nat, cls: CharClass)
    requires n <= m <= |s|
    requires forall i :: 0 <= i < n ==> !In(s[i], cls)
    requires forall i :: n <= i < m ==> In(s[i], cls)
    ensures Without(s, cls) == s[..n] + Without(s[m..], cls)
  {
    WithoutInThree(s, n, m, cls);
    WithoutNoneSlice(s, 0, n, cls);
    assert s[0..n] == s[..n];
    WithoutAllSlice(s, n, m, cls);
  }

  lemma WithoutAllSlice(s: string, i: nat, j: nat, cls: CharClass)
    requires i <= j <= |s|
    requires forall k :: i <= k < j ==> In(s[k], cls)
    ensures Without(s[i..j], cls) == []
  {
    var t := s[i..j];
    forall k | 0 <= k < |t| ensures In(t[k], cls) {
      assert t[k] == s[i + k];
    }
    WithoutAll(t, cls);
  }

  lemma WithoutNoneSlice(s: string, i: nat, j: nat, cls: CharClass)
    requires i <= j <= |s|
    requires forall k :: i <= k < j ==> !In(s[k], cls)
    ensures Without(s[i..j], cls) == s[i..j]
  {
    var t := s[i..j];
    forall k | 0 <= k < |t| ensures !In(t[k], cls) {
      assert t[k] == s[i + k];
    }
    WithoutNone(t, cls);
  }

  lemma ConcatCons(w: string, r: seq<string>)
    ensures Concat([w] + r) == w + Concat(r)
  {
    assert ([w] + r)[1..] == r;
  }

  /** str.split() drops exactly the whitespace. */
  lemma {:induction false} ConcatSplitWhitespace(t: string)
    ensures Concat(SplitWhitespace(t)) == Without(t, Space)
    decreases |t|
  {
    var k := PrefixWhile(t, Space);
    if k == |t| {
      WithoutAll(t, Space);
    } else {
      assert t[k..][0] == t[k];
      var n := k + PrefixWhile(t[k..], NonSpace);
      forall i | k <= i < n ensures !IsSpace(t[i]) {
        assert t[i] == t[k..][i - k];
      }
      var rest := SplitWhitespace(t[n..]);
      SplitWhitespaceStep(t, k, n);
      ConcatCons(t[k..n], rest);
      WithoutAtWord(t, k, n, Space);
      ConcatSplitWhitespace(t[n..]);
    }
  }

  /** One step of _punct_re.split: the piece before the first run of the
      punctuation class, and the split of what follows the run. */
  lemma PunctSplitStep(s: string, n: nat, m: nat)
    requires n < |s| && PrefixWhile(s, NonPunct) == n
    requires m == n + PrefixWhile(s[n..], Punct)
    ensures PunctSplit(s) == [s[..n]] + PunctSplit(s[m..])
    ensures forall i :: n <= i < m ==> In(s[i], Punct)
  {
    forall i | n <= i < m ensures In(s[i], Punct) {
      assert s[i] == s[n..][i - n];
    }
  }

  /** _punct_re.split drops exactly the punctuation class. */
  lemma {:induction false} ConcatPunctSplit(s: string)
    ensures Concat(PunctSplit(s)) == Without(s, Punct)
    decreases |s|
  {
    var n := PrefixWhile(s, NonPunct);
    if n == |s| {
      WithoutNone(s, Punct);
      assert PunctSplit(s) == [s];
      ConcatCons(s, []);
    } else {
      var m := n + PrefixWhile(s[n..], Punct);
      PunctSplitStep(s, n, m);
      var rest := PunctSplit(s[m..]);
      ConcatCons(s[..n], rest);
      WithoutAtGap(s, n, m, Punct);
      ConcatPunctSplit(s[m..]);
    }
  }

  lemma {:induction false} WithoutPunctThenSeparators(s: string)
    ensures Without(Without(s, Punct), Separator) == Without(s, Separator)
    decreases |s|
  {
    if s != [] {
      var head: string := if IsPunct(s[0]) then [] else [s[0]];
      assert Without(s, Punct) == head + Without(s[1..], Punct);
      WithoutAppend(head, Without(s[1..], Punct), Separator);
      WithoutPunctThenSeparators(s[1..]);
      if head != [] {
        assert head[1..] == [];
      }
    }
  }

  /** The words the loop takes from one clean piece hold its characters but
      the whitespace. */
  lemma SlugWordsOfPiece(p: string, translit: string -> string)
    requires AsciiIdentity(translit) && CleanPiece(p)
    ensures Concat(SplitWhitespace(translit(p))) == Without(p, Separator)
  {
    assert IsAsciiString(p);
    assert translit(p) == p;
    ConcatSplitWhitespace(p);
    WithoutSame(p, Space, Separator);
  }

  /** The loop keeps every character of the clean pieces but the whitespace. */
  lemma {:induction false} ConcatSlugWords(ps: seq<string>, translit: string -> string)
    requires AsciiIdentity(translit)
    requires AllClean(ps)
    ensures Concat(SlugWords(ps, translit)) == Without(Concat(ps), Separator)
    decreases |ps|
  {
    if ps != [] {
      var init, last := ps[..|ps| - 1], ps[|ps| - 1];
      AllCleanInit(ps);
      ConcatSlugWords(init, translit);
      ConcatSlugWordsLast(init, last, translit);
      WithoutConcatLast(init, last);
      InitLast(ps);
    }
  }

  lemma ConcatSlugWordsLast(init: seq<string>, last: string, translit: string -> string)
    requires AsciiIdentity(translit) && CleanPiece(last)
    ensures Concat(SlugWords(init + [last], translit))
            == Concat(SlugWords(init, translit)) + Without(last, Separator)
  {
    var ps := init + [last];
    assert ps[..|ps| - 1] == init && ps[|ps| - 1] == last;
    var a := SlugWords(init, translit);
    var b := SplitWhitespace(translit(last));
    assert SlugWords(ps, translit) == a + b;
    ConcatAppend(a, b);
    SlugWordsOfPiece(last, translit);
  }

  lemma WithoutConcatLast(init: seq<string>, last: string)
    ensures Without(Concat(init + [last]), Separator)
            == Without(Concat(init), Separator) + Without(last, Separator)
  {
    ConcatAppend(init, [last]);
    ConcatCons(last, []);
    assert Concat(init + [last]) == Concat(init) + last;
    WithoutAppend(Concat(init), last, Separator);
  }

  lemma {:induction false} WithoutDashJoin(ws: seq<string>)
    requires AllSlugWords(ws)
    ensures Without(JoinWith(ws, "-"), Dash) == Concat(ws)
    decreases |ws|
  {
    if |ws| == 1 {
      assert IsSlugWord(ws[0]);
      WithoutNone(ws[0], Dash);
    } else if |ws| > 1 {
      var w, j := ws[0], JoinWith(ws[1..], "-");
      AllSlugWordsTail(ws);
      WithoutDashJoin(ws[1..]);
      WithoutAppend(w + "-", j, Dash);
      WithoutAppend(w, "-", Dash);
      WithoutNone(w, Dash);
      WithoutAll("-", Dash);
    }
  }

  /** For ASCII input, slugify keeps every character of the lower-cased title
      that is neither whitespace nor in the punctuation class, in order, and
      adds nothing but delimiters: removing the '-'s from the slug leaves
      exactly those characters. */
  lemma SlugKeepsWordCharacters(s: string, translit: string -> string)
    requires IsAsciiString(s) && AsciiIdentity(translit)
    ensures Without(SlugOf(s, "-", translit), Dash) == Without(Lower(s), Separator)
  {
    var ps := PunctSplit(Lower(s));
    var ws := SlugWords(ps, translit);
    PiecesClean(s);
    SlugWordsAreWords(ps, translit);
    JoinIsSlug(ws);
    assert IsAsciiString(JoinWith(ws, "-"));
    WithoutDashJoin(ws);
    ConcatSlugWords(ps, translit);
    ConcatPunctSplit(Lower(s));
    WithoutPunctThenSeparators(Lower(s));
  }

  /** For ASCII input, slugify returns "" exactly when every character of the
      title is whitespace or in the punctuation class; nothing guards that case. */
  lemma SlugEmptyIff(s: string, translit: string -> string)
    requires IsAsciiString(s) && AsciiIdentity(translit)
    ensures SlugOf(s, "-", translit) == "" <==> forall i :: 0 <= i < |s| ==> IsSeparator(s[i])
  {
    var r := SlugOf(s, "-", translit);
    var l := Lower(s);
    SlugShape(s, translit);
    SlugKeepsWordCharacters(s, translit);
    if r == "" {
      assert Without(l, Separator) == "";
      WithoutMembers(l, Separator);
      forall i | 0 <= i < |s| ensures IsSeparator(s[i]) {
        assert l[i] in l;
        assert IsSeparator(l[i]);
      }
    }
    if forall i :: 0 <= i < |s| ==> IsSeparator(s[i]) {
      WithoutAll(l, Separator);
    }
  }
}
