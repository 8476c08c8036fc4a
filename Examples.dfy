/** Worked examples of the helpers, stated as lemmas. */
module Examples {
  import opened Helpers

  lemma {:induction false} LowercaseWord(w: string)
    requires w != [] && forall i :: 0 <= i < |w| ==> 'a' <= w[i] <= 'z'
    ensures IsSlugWord(w)
  {
  }

  lemma HelloIsWord()
    ensures IsSlugWord("hello")
  {
    LowercaseWord("hello");
  }

  lemma WorldIsWord()
    ensures IsSlugWord("world")
  {
    LowercaseWord("world");
  }

  lemma CommaSpaceIsGap()
    ensures forall i :: 0 <= i < |", "| ==> IsPunct(", "[i])
  {
  }

  lemma BangIsGap()
    ensures IsPunct("!"[0])
  {
  }

  lemma HelloWorldText()
    ensures "hello" + ", " + "world" + "!" == "hello, world!"
  {
  }

  /** Two punctuation-free words, each followed by a run of punctuation,
      split into the two words and a trailing empty piece. */
  lemma PunctSplitTwoWords(a: string, g: string, b: string, h: string)
    requires IsSlugWord(a) && IsSlugWord(b)
    requires g != [] && forall i :: 0 <= i < |g| ==> IsPunct(g[i])
    requires h != [] && forall i :: 0 <= i < |h| ==> IsPunct(h[i])
    ensures PunctSplit(a + g + b + h) == [a, b, ""]
  {
    PunctSplitWithoutPunct([]);
    PunctSplitAtGap(b, h, []);
    assert b + h + [] == b + h;
    PunctSplitAtGap(a, g, b + h);
    assert a + g + (b + h) == a + g + b + h;
  }

  lemma HelloWorldPieces()
    ensures PunctSplit("hello, world!") == ["hello", "world", ""]
  {
    HelloIsWord();
    WorldIsWord();
    CommaSpaceIsGap();
    BangIsGap();
    PunctSplitTwoWords("hello", ", ", "world", "!");
    HelloWorldText();
  }

  lemma HelloWorldLower()
    ensures Lower("Hello, World!") == "hello, world!"
  {
  }

  lemma HelloWorldJoin()
    ensures JoinWith(["hello", "world"], "-") == "hello-world"
  {
    assert JoinWith(["world"], "-") == "world";
  }

  lemma HelloWorldWords(translit: string -> string)
    requires AsciiIdentity(translit)
    ensures SlugWords(["hello", "world", ""], translit) == ["hello", "world"]
  {
    var ps := ["hello", "world", ""];
    var ws := ["hello", "world"];
    HelloIsWord();
    WorldIsWord();
    SlugWordsOfWords(ws, translit);
    assert ps[..|ps| - 1] == ws;
    assert IsAsciiString("");
    assert SplitWhitespace("") == [];
  }

  lemma HelloWorldAscii()
    ensures IsAsciiString("hello-world")
  {
  }

  /** A worked example: slugify("Hello, World!") == "hello-world". */
  lemma SlugHelloWorld(translit: string -> string)
    requires AsciiIdentity(translit)
    ensures SlugOf("Hello, World!", "-", translit) == "hello-world"
  {
    var l := Lower("Hello, World!");
    HelloWorldLower();
    var ps := PunctSplit(l);
    HelloWorldPieces();
    var ws := SlugWords(ps, translit);
    HelloWorldWords(translit);
    var j := JoinWith(ws, "-");
    HelloWorldJoin();
    HelloWorldAscii();
    assert translit(j) == j;
  }
}
