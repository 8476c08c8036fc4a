/** The field rules of the entry and tag forms. A field's validators run in
    order: DataRequired stops the chain when the value is empty or only
    whitespace; every other validator adds its error and the chain goes on.
    A value is accepted when no error results. */
module Forms {
  import opened Wrappers
  import opened Helpers
  import opened Models

  const TitleMinLength: nat := 3
  const SlugMinLength: nat := 3
  const TagMinLength: nat := 3
  const TitleFieldMaxLength: nat := 100
  const SlugFieldMaxLength: nat := 50
  const TagFieldMaxLength: nat := 100

  const SlugPatternMessage: string := "Url slug should be letters, numbers, dash and underscores only."
  const TagExistsMessage: string := "Tag already exists."

  /** An error a validator reports for a field. */
  datatype FieldError =
    | Required                          // DataRequired
    | BadLength(min: nat, max: nat)     // Length(min, max)
    | Rejected(message: string)         // Regexp, or a ValidationError raised by a check

  /** DataRequired: the value is not empty and not only whitespace. */
  predicate HasData(s: string) {
    Strip(s) != []
  }

  /** Length(min, max). */
  function LengthErrors(s: string, min: nat, max: nat): (r: seq<FieldError>)
    ensures r == [] <==> min <= |s| <= max
    ensures r != [] ==> r == [BadLength(min, max)]
  {
    if min <= |s| <= max then [] else [BadLength(min, max)]
  }

  /** A character of the class [a-zA-Z0-9_-]. */
  predicate SlugChar(c: char) {
    IsAsciiAlnum(c) || c == '_' || c == '-'
  }

  /** The value is one or more characters of [a-zA-Z0-9_-], and nothing else. */
  predicate SlugPattern(s: string) {
    s != [] && forall i :: 0 <= i < |s| ==> SlugChar(s[i])
  }

  /** What re.match(r'^[a-zA-Z0-9_-]+$', s) accepts: Python's '$' also
      matches just before a final newline, so one trailing "\n" gets through. */
  predicate SlugPatternAsWritten(s: string) {
    SlugPattern(s) || (s != [] && s[|s| - 1] == '\n' && SlugPattern(s[..|s| - 1]))
  }

  /** tag_exists: raises ValidationError when a stored tag has the value as
      its label. */
  function TagExists(tags: seq<Tag>, value: string): (r: Outcome)
    ensures r.Fail? <==> LabelStored(tags, value)
    ensures r.Fail? ==> r.error == ValidationError(TagExistsMessage)
  {
    if FindTag(tags, value).Some? then Fail(ValidationError(TagExistsMessage)) else Pass
  }

  /** EntryForm.title: DataRequired, Length(3, 100). */
  function ValidateTitle(s: string): seq<FieldError> {
    if !HasData(s) then [Required]
    else LengthErrors(s, TitleMinLength, TitleFieldMaxLength)
  }

  /** EntryForm.slug: DataRequired, Length(3, 50), Regexp, with the pattern
      anchored at the true end of the value. */
  function ValidateSlug(s: string): seq<FieldError> {
    if !HasData(s) then [Required]
    else
      LengthErrors(s, SlugMinLength, SlugFieldMaxLength)
      + (if SlugPattern(s) then [] else [Rejected(SlugPatternMessage)])
  }

  /** EntryForm.slug as the source writes it, with Python's '$'. */
  function ValidateSlugAsWritten(s: string): seq<FieldError> {
    if !HasData(s) then [Required]
    else
      LengthErrors(s, SlugMinLength, SlugFieldMaxLength)
      + (if SlugPatternAsWritten(s) then [] else [Rejected(SlugPatternMessage)])
  }

  /** TagForm.tag: DataRequired, Length(3, 100), tag_exists. */
  function ValidateTag(tags: seq<Tag>, s: string): seq<FieldError> {
    if !HasData(s) then [Required]
    else
      LengthErrors(s, TagMinLength, TagFieldMaxLength)
      + (match TagExists(tags, s) case Pass => [] case Fail(e) => [Rejected(e.message)])
  }

  // ---------------------------------------------------------------------
  // What each form accepts

  /** A title is accepted exactly when it is not blank and has 3 to 100
      characters. */
  lemma TitleAccepted(s: string)
    ensures ValidateTitle(s) == [] <==> HasData(s) && TitleMinLength <= |s| <= TitleFieldMaxLength
  {
  }

  /** A slug is accepted exactly when it has 3 to 50 characters, all from
      [a-zA-Z0-9_-]; an accepted slug fits the 50-character slug column. */
  lemma SlugAccepted(s: string)
    ensures ValidateSlug(s) == [] <==>
            SlugMinLength <= |s| <= SlugFieldMaxLength && forall i :: 0 <= i < |s| ==> SlugChar(s[i])
    ensures ValidateSlug(s) == [] ==> |s| <= SlugMaxLength
  {
    if SlugPattern(s) {
      assert !IsSpace(s[0]);
    }
  }

  /** The slug rule as written accepts a value exactly when it has 3 to 50
      characters and is a run of [a-zA-Z0-9_-], possibly followed by one
      "\n"; so an accepted slug fits the slug column too. */
  lemma SlugAsWrittenAccepted(s: string)
    ensures ValidateSlugAsWritten(s) == [] <==>
            SlugMinLength <= |s| <= SlugFieldMaxLength
            && (forall i :: 0 <= i < |s| - 1 ==> SlugChar(s[i]))
            && (SlugChar(s[|s| - 1]) || s[|s| - 1] == '\n')
    ensures ValidateSlugAsWritten(s) == [] ==> |s| <= SlugMaxLength
  {
    if SlugMinLength <= |s| && (forall i :: 0 <= i < |s| - 1 ==> SlugChar(s[i])) {
      assert !IsSpace(s[0]);
      if s[|s| - 1] == '\n' {
        var w := s[..|s| - 1];
        assert forall i :: 0 <= i < |w| ==> w[i] == s[i];
      }
    }
    if SlugPatternAsWritten(s) {
      assert !IsSpace(s[0]);
    }
  }

  /** A tag is accepted exactly when it is not blank, has 3 to 100
      characters, and no stored tag has it as its label. */
  lemma TagAccepted(tags: seq<Tag>, s: string)
    ensures ValidateTag(tags, s) == [] <==>
            HasData(s) && TagMinLength <= |s| <= TagFieldMaxLength && !LabelStored(tags, s)
  {
  }

  /** A blank value gets exactly DataRequired's error, on every field; the
      slug rule as written too, though a blank value may end in "\n". */
  lemma BlankRejected(tags: seq<Tag>, s: string)
    requires forall i :: 0 <= i < |s| ==> IsSpace(s[i])
    ensures ValidateTitle(s) == [Required]
    ensures ValidateSlugAsWritten(s) == [Required]
    ensures ValidateSlug(s) == [Required]
    ensures ValidateTag(tags, s) == [Required]
  {
  }

  /** The empty value in particular. */
  lemma EmptyRejected(tags: seq<Tag>)
    ensures ValidateTitle("") == [Required]
    ensures ValidateSlugAsWritten("") == [Required]
    ensures ValidateSlug("") == [Required]
    ensures ValidateTag(tags, "") == [Required]
  {
    BlankRejected(tags, "");
  }

  /** Length and the pattern both report: "a!" gets both errors. */
  lemma SlugErrorsAccumulate()
    ensures ValidateSlugAsWritten("a!") == [BadLength(SlugMinLength, SlugFieldMaxLength), Rejected(SlugPatternMessage)]
    ensures ValidateSlug("a!") == [BadLength(SlugMinLength, SlugFieldMaxLength), Rejected(SlugPatternMessage)]
  {
    assert !SlugChar("a!"[1]);
    assert !IsSpace("a!"[0]);
    SlugRulesAgree("a!");
  }

  /** A valid slug followed by "\n" is not blank. */
  lemma NewlineSlugHasData(w: string)
    requires SlugPattern(w)
    ensures HasData(w + "\n")
  {
    var s := w + "\n";
    assert s[0] == w[0] && SlugChar(w[0]);
  }

  /** The pattern as written matches a valid slug followed by "\n";
      the anchored pattern does not. */
  lemma NewlineSlugPatterns(w: string)
    requires SlugPattern(w)
    ensures SlugPatternAsWritten(w + "\n")
    ensures !SlugPattern(w + "\n")
  {
    var s := w + "\n";
    assert s[..|s| - 1] == w;
    assert s[|w|] == '\n';
  }

  lemma AsWrittenAcceptsNewline(w: string)
    requires SlugPattern(w) && SlugMinLength <= |w| + 1 <= SlugFieldMaxLength
    ensures ValidateSlugAsWritten(w + "\n") == []
  {
    NewlineSlugHasData(w);
    NewlineSlugPatterns(w);
  }

  lemma AnchoredRejectsNewline(w: string)
    requires SlugPattern(w) && SlugMinLength <= |w| + 1 <= SlugFieldMaxLength
    ensures ValidateSlug(w + "\n") == [Rejected(SlugPatternMessage)]
  {
    NewlineSlugHasData(w);
    NewlineSlugPatterns(w);
  }

  /** The slug rule as written lets a valid slug followed by "\n" through
      (when the two still fit the length rule); the anchored rule does not. */
  lemma SlugTrailingNewline(w: string)
    requires forall i :: 0 <= i < |w| ==> SlugChar(w[i])
    requires SlugMinLength <= |w| + 1 <= SlugFieldMaxLength
    ensures ValidateSlugAsWritten(w + "\n") == []
    ensures ValidateSlug(w + "\n") == [Rejected(SlugPatternMessage)]
  {
    AsWrittenAcceptsNewline(w);
    AnchoredRejectsNewline(w);
  }

  /** "abc\n" is such a value. */
  lemma SlugTrailingNewlineExample()
    ensures ValidateSlugAsWritten("abc\n") == []
    ensures ValidateSlug("abc\n") == [Rejected(SlugPatternMessage)]
  {
    var w := "abc";
    assert forall i :: 0 <= i < |w| ==> SlugChar(w[i]);
    SlugTrailingNewline(w);
    assert w + "\n" == "abc\n";
  }

  /** The two slug rules differ on nothing but a value ending in "\n". */
  lemma SlugRulesAgree(s: string)
    requires s == [] || s[|s| - 1] != '\n'
    ensures ValidateSlugAsWritten(s) == ValidateSlug(s)
  {
  }

  /** slugify never ends its output in "\n", so on it the two slug rules
      give the same errors. */
  lemma SlugOfRulesAgree(title: string, translit: string -> string)
    requires IsAsciiString(title) && AsciiIdentity(translit)
    ensures ValidateSlugAsWritten(SlugOf(title, "-", translit)) == ValidateSlug(SlugOf(title, "-", translit))
  {
    var r := SlugOf(title, "-", translit);
    SlugShape(title, translit);
    if r != [] {
      assert !IsSpace(r[|r| - 1]);
    }
    SlugRulesAgree(r);
  }

  /** A tag the tag form accepts is new: create_tag_if_not_exists then adds
      exactly its row. */
  lemma AcceptedTagIsCreated(tags: seq<Tag>, nextId: nat, s: string)
    requires ValidateTag(tags, s) == []
    ensures AddTagIfAbsent(tags, nextId, s) == tags + [Tag(nextId, s)]
  {
    TagAccepted(tags, s);
  }

  // ---------------------------------------------------------------------
  // slugify's output against the slug rule

  /** For an ASCII title, the slug form (as written, and anchored) accepts
      slugify's output exactly when it has 3 to 50 characters, each a
      letter, a digit or '-'. */
  lemma SlugOfAccepted(title: string, translit: string -> string)
    requires IsAsciiString(title) && AsciiIdentity(translit)
    ensures var r := SlugOf(title, "-", translit);
            ValidateSlugAsWritten(r) == [] <==>
            SlugMinLength <= |r| <= SlugFieldMaxLength
            && forall i :: 0 <= i < |r| ==> IsAsciiAlnum(r[i]) || r[i] == '-'
    ensures var r := SlugOf(title, "-", translit);
            ValidateSlug(r) == [] <==>
            SlugMinLength <= |r| <= SlugFieldMaxLength
            && forall i :: 0 <= i < |r| ==> IsAsciiAlnum(r[i]) || r[i] == '-'
  {
    var r := SlugOf(title, "-", translit);
    SlugShape(title, translit);
    SlugAccepted(r);
    assert IsPunct('_');
    SlugOfRulesAgree(title, translit);
  }

  /** A title of letters, digits, whitespace and the punctuation class. */
  predicate PlainTitle(s: string) {
    forall i :: 0 <= i < |s| ==> IsAscii(s[i]) && (IsAsciiAlnum(s[i]) || IsSeparator(s[i]))
  }

  /** slugify's output for a plain title holds only letters, digits and '-'. */
  lemma PlainTitleSlugChars(title: string, translit: string -> string)
    requires PlainTitle(title) && AsciiIdentity(translit)
    ensures var r := SlugOf(title, "-", translit);
            forall i :: 0 <= i < |r| ==> IsAsciiAlnum(r[i]) || r[i] == '-'
  {
    var r := SlugOf(title, "-", translit);
    var l := Lower(title);
    assert IsAsciiString(title);
    SlugKeepsWordCharacters(title, translit);
    WithoutMembers(r, Dash);
    WithoutMembers(l, Separator);
    forall i | 0 <= i < |r| ensures IsAsciiAlnum(r[i]) || r[i] == '-' {
      if r[i] != '-' {
        assert r[i] in r;
        assert r[i] in Without(l, Separator);
        var j :| 0 <= j < |l| && l[j] == r[i];
        assert l[j] == LowerChar(title[j]);
      }
    }
  }

  /** For a plain title, the slug form (as written, and anchored) accepts
      slugify's output exactly when it has 3 to 50 characters. */
  lemma PlainTitleSlugAccepted(title: string, translit: string -> string)
    requires PlainTitle(title) && AsciiIdentity(translit)
    ensures var r := SlugOf(title, "-", translit);
            ValidateSlugAsWritten(r) == [] <==> SlugMinLength <= |r| <= SlugFieldMaxLength
    ensures var r := SlugOf(title, "-", translit);
            ValidateSlug(r) == [] <==> SlugMinLength <= |r| <= SlugFieldMaxLength
  {
    assert IsAsciiString(title);
    PlainTitleSlugChars(title, translit);
    SlugOfAccepted(title, translit);
  }

  /** A title of 51 to 100 lower-case letters passes the title rule, but its
      slug (the title itself) is too long for the slug rule and column. */
  lemma LongTitleSlugTooLong(title: string, translit: string -> string)
    requires AsciiIdentity(translit)
    requires SlugFieldMaxLength < |title| <= TitleFieldMaxLength
    requires forall i :: 0 <= i < |title| ==> 'a' <= title[i] <= 'z'
    ensures ValidateTitle(title) == []
    ensures SlugOf(title, "-", translit) == title
    ensures ValidateSlugAsWritten(SlugOf(title, "-", translit)) == [BadLength(SlugMinLength, SlugFieldMaxLength)]
    ensures ValidateSlug(SlugOf(title, "-", translit)) == [BadLength(SlugMinLength, SlugFieldMaxLength)]
  {
    assert !IsSpace(title[0]);
    assert IsSlugWord(title);
    SlugOfWord(title, translit);
    assert title[|title| - 1] != '\n';
    SlugRulesAgree(title);
  }

  /** slugify("C++") is "c++": '+' is outside the punctuation class, so it
      stays in the slug, and the slug rule rejects it. */
  lemma PlusSignSlug(title: string, translit: string -> string)
    requires AsciiIdentity(translit) && title == "C++"
    ensures SlugOf(title, "-", translit) == "c++"
    ensures ValidateSlugAsWritten(SlugOf(title, "-", translit)) == [Rejected(SlugPatternMessage)]
    ensures ValidateSlug(SlugOf(title, "-", translit)) == [Rejected(SlugPatternMessage)]
  {
    var w := Lower(title);
    PlusSignLower(title);
    PlusSignWord(w);
    SlugOfWord(w, translit);
    assert SlugOf(title, "-", translit) == SlugOf(w, "-", translit);
    PlusSignRejected(w);
  }

  lemma PlusSignLower(title: string)
    requires title == "C++"
    ensures Lower(title) == "c++"
  {
  }

  lemma PlusSignWord(w: string)
    requires w == "c++"
    ensures IsSlugWord(w) && Lower(w) == w
  {
  }

  lemma PlusSignRejected(w: string)
    requires w == "c++"
    ensures ValidateSlugAsWritten(w) == [Rejected(SlugPatternMessage)]
    ensures ValidateSlug(w) == [Rejected(SlugPatternMessage)]
  {
    assert w[|w| - 1] != '\n';
    SlugRulesAgree(w);
    assert !SlugChar(w[1]);
    assert !IsSpace(w[0]);
  }
}
