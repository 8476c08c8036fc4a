/** The journal's four tables (users, entries, tags and the entry-tag links),
    their unique constraints, the create-if-absent operations and the two
    join queries. The tables are sequences of rows in insertion order; a
    row's id is the value of the table's id counter when it was inserted. */
module Models {
  import opened Wrappers

  /** Column widths declared on the models (SQLite does not enforce them). */
  const SlugMaxLength: nat := 50
  const TitleMaxLength: nat := 100
  const TagMaxLength: nat := 100

  /** The message create_user raises when a unique constraint fails. */
  const UserExistsMessage: string := "User already exists!"

  /** The message flask_bcrypt's generate_password_hash raises on an empty
      password. */
  const EmptyPasswordMessage: string := "Password must be non-empty."

  /** What SQLite reports when a second entry uses a stored slug. */
  const SlugTakenMessage: string := "UNIQUE constraint failed: entry.slug"

  datatype User = User(id: nat, username: string, email: string, password: string, joinedAt: int)

  datatype Entry = Entry(
    id: nat, timestamp: int, user: nat, slug: string, title: string,
    date: int, timeSpent: int, subjects: string, resources: Option<string>)

  datatype Tag = Tag(id: nat, tag: string)

  /** A row of the association table: the ids of one tag and one entry. */
  datatype TagEntry = TagEntry(tag: nat, entry: nat)

  // ---------------------------------------------------------------------
  // Unique constraints

  /** Ids are positive, below the table's counter, and pairwise distinct;
      usernames and emails are unique. */
  ghost predicate ValidUsers(users: seq<User>, nextId: nat) {
    0 < nextId
    && (forall i :: 0 <= i < |users| ==> 0 < users[i].id < nextId)
    && (forall i, j :: 0 <= i < |users| && 0 <= j < |users| && i != j ==>
          users[i].id != users[j].id && users[i].username != users[j].username
          && users[i].email != users[j].email)
  }

  /** Ids as for users; slugs are unique. */
  ghost predicate ValidEntries(entries: seq<Entry>, nextId: nat) {
    0 < nextId
    && (forall i :: 0 <= i < |entries| ==> 0 < entries[i].id < nextId)
    && (forall i, j :: 0 <= i < |entries| && 0 <= j < |entries| && i != j ==>
          entries[i].id != entries[j].id && entries[i].slug != entries[j].slug)
  }

  /** Ids as for users; labels are unique. */
  ghost predicate ValidTags(tags: seq<Tag>, nextId: nat) {
    0 < nextId
    && (forall i :: 0 <= i < |tags| ==> 0 < tags[i].id < nextId)
    && (forall i, j :: 0 <= i < |tags| && 0 <= j < |tags| && i != j ==>
          tags[i].id != tags[j].id && tags[i].tag != tags[j].tag)
  }

  /** The unique index on (entry, tag): no pair is stored twice. */
  ghost predicate UniqueLinks(links: seq<TagEntry>) {
    forall l :: multiset(links)[l] <= 1
  }

  // ---------------------------------------------------------------------
  // Lookups

  predicate UsernameTaken(users: seq<User>, username: string) {
    exists i :: 0 <= i < |users| && users[i].username == username
  }

  predicate EmailTaken(users: seq<User>, email: string) {
    exists i :: 0 <= i < |users| && users[i].email == email
  }

  predicate SlugTaken(entries: seq<Entry>, slug: string) {
    exists i :: 0 <= i < |entries| && entries[i].slug == slug
  }

  /** Some stored tag carries this label (an exact, case-sensitive match). */
  predicate LabelStored(tags: seq<Tag>, name: string) {
    exists i :: 0 <= i < |tags| && tags[i].tag == name
  }

  /** Tag.get_or_none(Tag.tag == label): the first row with the label. */
  function FindTag(tags: seq<Tag>, name: string): (r: Option<Tag>)
    ensures r.Some? <==> LabelStored(tags, name)
    ensures r.Some? ==> r.value in tags && r.value.tag == name
  {
    if tags == [] then None
    else if tags[0].tag == name then Some(tags[0])
    else
      var r := FindTag(tags[1..], name);
      assert LabelStored(tags, name) ==> LabelStored(tags[1..], name) by {
        if LabelStored(tags, name) {
          var i :| 0 <= i < |tags| && tags[i].tag == name;
          assert tags[1..][i - 1] == tags[i];
        }
      }
      assert r.Some? ==> LabelStored(tags, name) by {
        if r.Some? {
          var i :| 0 <= i < |tags[1..]| && tags[1..][i].tag == name;
          assert tags[i + 1] == tags[1..][i];
        }
      }
      r
  }

  /** How many tag rows carry the label. */
  function LabelCount(tags: seq<Tag>, name: string): nat {
    if tags == [] then 0
    else LabelCount(tags[..|tags| - 1], name) + (if tags[|tags| - 1].tag == name then 1 else 0)
  }

  // ---------------------------------------------------------------------
  // Inserts, as functions of the old table

  /** User.create_user: insert, or raise ValueError when the username or
      the email is already stored (the failed insert is rolled back). */
  function AddUser(users: seq<User>, id: nat, username: string, email: string,
                   passwordHash: string, joinedAt: int): (r: Result<seq<User>>)
  {
    if UsernameTaken(users, username) || EmailTaken(users, email) then
      Err(ValueError(UserExistsMessage))
    else
      Ok(users + [User(id, username, email, passwordHash, joinedAt)])
  }

  /** Entry.create: insert, or fail with IntegrityError on a stored slug. */
  function AddEntry(entries: seq<Entry>, e: Entry): (r: Result<seq<Entry>>)
  {
    if SlugTaken(entries, e.slug) then Err(IntegrityError(SlugTakenMessage))
    else Ok(entries + [e])
  }

  /** Tag.create_tag_if_not_exists: append a row unless the label is stored. */
  function AddTagIfAbsent(tags: seq<Tag>, id: nat, name: string): (r: seq<Tag>)
  {
    if FindTag(tags, name).None? then tags + [Tag(id, name)] else tags
  }

  /** TagEntry.create_tagentry_if_not_exists: append the pair unless stored. */
  function AddLinkIfAbsent(links: seq<TagEntry>, tagId: nat, entryId: nat): (r: seq<TagEntry>)
  {
    if TagEntry(tagId, entryId) !in links then links + [TagEntry(tagId, entryId)] else links
  }

  // ---------------------------------------------------------------------
  // Join queries

  /** n copies of x. */
  function Copies<T>(x: T, n: nat): (r: seq<T>)
    ensures |r| == n && forall i :: 0 <= i < n ==> r[i] == x
  {
    if n == 0 then [] else [x] + Copies(x, n - 1)
  }

  /** Entry.get_entries_by_tag(tag): the entries joined with the links on
      TagEntry.entry, where TagEntry.tag is the tag; an entry appears once
      per matching link row. */
  function EntriesByTag(entries: seq<Entry>, links: seq<TagEntry>, tagId: nat): seq<Entry> {
    if entries == [] then []
    else
      Copies(entries[0], multiset(links)[TagEntry(tagId, entries[0].id)])
      + EntriesByTag(entries[1..], links, tagId)
  }

  /** entry.get_tags(): the tags joined with the links on TagEntry.tag,
      where TagEntry.entry is the entry; once per matching link row. */
  function TagsOf(tags: seq<Tag>, links: seq<TagEntry>, entryId: nat): seq<Tag> {
    if tags == [] then []
    else
      Copies(tags[0], multiset(links)[TagEntry(tags[0].id, entryId)])
      + TagsOf(tags[1..], links, entryId)
  }

  // ---------------------------------------------------------------------
  // Properties of the inserts

  /** create_user fails exactly when inserting the new row would break the
      unique constraint on username or email; it then raises
      ValueError("User already exists!") in place of the IntegrityError. */
  lemma AddUserConstraint(users: seq<User>, nextId: nat, username: string, email: string,
                          passwordHash: string, joinedAt: int)
    requires ValidUsers(users, nextId)
    ensures AddUser(users, nextId, username, email, passwordHash, joinedAt).Err?
            <==> !ValidUsers(users + [User(nextId, username, email, passwordHash, joinedAt)], nextId + 1)
    ensures AddUser(users, nextId, username, email, passwordHash, joinedAt).Err? ==>
            AddUser(users, nextId, username, email, passwordHash, joinedAt).error
            == ValueError(UserExistsMessage)
  {
    var u := User(nextId, username, email, passwordHash, joinedAt);
    var r := users + [u];
    if UsernameTaken(users, username) {
      var i :| 0 <= i < |users| && users[i].username == username;
      assert r[i] == users[i] && r[|users|] == u;
    } else if EmailTaken(users, email) {
      var i :| 0 <= i < |users| && users[i].email == email;
      assert r[i] == users[i] && r[|users|] == u;
    } else {
      AddUserValid(users, nextId, username, email, passwordHash, joinedAt);
    }
  }

  /** A successful create_user keeps usernames, emails and ids unique. */
  lemma AddUserValid(users: seq<User>, nextId: nat, username: string, email: string,
                     passwordHash: string, joinedAt: int)
    requires ValidUsers(users, nextId)
    requires AddUser(users, nextId, username, email, passwordHash, joinedAt).Ok?
    ensures ValidUsers(AddUser(users, nextId, username, email, passwordHash, joinedAt).value, nextId + 1)
  {
    var r := AddUser(users, nextId, username, email, passwordHash, joinedAt).value;
    forall i, j | 0 <= i < |r| && 0 <= j < |r| && i != j
      ensures r[i].id != r[j].id && r[i].username != r[j].username && r[i].email != r[j].email
    {
      if i == |users| {
        assert !UsernameTaken(users, username) && !EmailTaken(users, email);
        assert r[j] == users[j];
      } else if j == |users| {
        assert !UsernameTaken(users, username) && !EmailTaken(users, email);
        assert r[i] == users[i];
      }
    }
  }

  /** Entry.create fails exactly on a stored slug, and a successful insert
      keeps slugs and ids unique. */
  lemma AddEntryValid(entries: seq<Entry>, nextId: nat, e: Entry)
    requires ValidEntries(entries, nextId) && e.id == nextId
    ensures AddEntry(entries, e).Err? <==> SlugTaken(entries, e.slug)
    ensures AddEntry(entries, e).Ok? ==>
            AddEntry(entries, e).value == entries + [e]
            && ValidEntries(AddEntry(entries, e).value, nextId + 1)
  {
    if !SlugTaken(entries, e.slug) {
      var r := entries + [e];
      forall i, j | 0 <= i < |r| && 0 <= j < |r| && i != j
        ensures r[i].id != r[j].id && r[i].slug != r[j].slug
      {
        if i == |entries| {
          assert r[j] == entries[j];
        } else if j == |entries| {
          assert r[i] == entries[i];
        }
      }
    }
  }

  lemma {:induction false} LabelCountAppend(tags: seq<Tag>, t: Tag, name: string)
    ensures LabelCount(tags + [t], name) == LabelCount(tags, name) + (if t.tag == name then 1 else 0)
  {
    assert (tags + [t])[..|tags|] == tags;
  }

  /** Under the unique constraint, a label is on at most one row, and on one
      exactly when it is stored. */
  lemma {:induction false} LabelCountUnique(tags: seq<Tag>, nextId: nat, name: string)
    requires ValidTags(tags, nextId)
    ensures LabelCount(tags, name) == (if LabelStored(tags, name) then 1 else 0)
  {
    if tags != [] {
      var init := tags[..|tags| - 1];
      var last := tags[|tags| - 1];
      assert ValidTags(init, nextId) by {
        forall i | 0 <= i < |init| ensures init[i] == tags[i] { }
      }
      LabelCountUnique(init, nextId, name);
      if last.tag == name {
        forall i | 0 <= i < |init| ensures init[i].tag != name {
          assert init[i] == tags[i];
        }
      } else {
        if LabelStored(tags, name) {
          var i :| 0 <= i < |tags| && tags[i].tag == name;
          assert init[i] == tags[i];
        }
        if LabelStored(init, name) {
          var i :| 0 <= i < |init| && init[i].tag == name;
          assert tags[i] == init[i];
        }
      }
    }
  }

  /** create_tag_if_not_exists keeps the tag table valid (the counter
      advances only when a row is added). */
  lemma AddTagValid(tags: seq<Tag>, nextId: nat, name: string)
    requires ValidTags(tags, nextId)
    ensures ValidTags(AddTagIfAbsent(tags, nextId, name),
                      if LabelStored(tags, name) then nextId else nextId + 1)
  {
    if !LabelStored(tags, name) {
      var r := tags + [Tag(nextId, name)];
      forall i, j | 0 <= i < |r| && 0 <= j < |r| && i != j
        ensures r[i].id != r[j].id && r[i].tag != r[j].tag
      {
        if i == |tags| {
          assert r[j] == tags[j];
        } else if j == |tags| {
          assert r[i] == tags[i];
        }
      }
    }
  }

  /** Afterwards exactly one row carries the label; every other label is on
      as many rows as before, and the old rows are all still there. */
  lemma AddTagExactlyOne(tags: seq<Tag>, nextId: nat, name: string)
    requires ValidTags(tags, nextId)
    ensures LabelCount(AddTagIfAbsent(tags, nextId, name), name) == 1
    ensures forall other :: other != name ==>
              LabelCount(AddTagIfAbsent(tags, nextId, name), other) == LabelCount(tags, other)
    ensures tags <= AddTagIfAbsent(tags, nextId, name)
  {
    AddTagValid(tags, nextId, name);
    var r := AddTagIfAbsent(tags, nextId, name);
    var next := if LabelStored(tags, name) then nextId else nextId + 1;
    LabelCountUnique(r, next, name);
    assert LabelStored(r, name) by {
      var t := FindTag(r, name);
      if LabelStored(tags, name) {
      } else {
        assert r[|tags|].tag == name;
      }
    }
    forall other | other != name
      ensures LabelCount(r, other) == LabelCount(tags, other)
    {
      if !LabelStored(tags, name) {
        LabelCountAppend(tags, Tag(nextId, name), other);
      }
    }
  }

  /** A stored label leaves the table unchanged. */
  lemma AddTagPresent(tags: seq<Tag>, id: nat, name: string)
    requires LabelStored(tags, name)
    ensures AddTagIfAbsent(tags, id, name) == tags
  {
  }

  /** A second call with the same label changes nothing. */
  lemma AddTagIdempotent(tags: seq<Tag>, id: nat, id2: nat, name: string)
    ensures AddTagIfAbsent(AddTagIfAbsent(tags, id, name), id2, name)
            == AddTagIfAbsent(tags, id, name)
  {
    var r := AddTagIfAbsent(tags, id, name);
    if !LabelStored(tags, name) {
      assert r[|tags|].tag == name;
    }
    assert LabelStored(r, name);
  }

  /** Afterwards the pair is stored exactly once and every other pair as
      often as before, so the unique index still holds. */
  lemma AddLinkExactlyOne(links: seq<TagEntry>, tagId: nat, entryId: nat)
    requires UniqueLinks(links)
    ensures multiset(AddLinkIfAbsent(links, tagId, entryId))[TagEntry(tagId, entryId)] == 1
    ensures forall l :: l != TagEntry(tagId, entryId) ==>
              multiset(AddLinkIfAbsent(links, tagId, entryId))[l] == multiset(links)[l]
    ensures UniqueLinks(AddLinkIfAbsent(links, tagId, entryId))
    ensures links <= AddLinkIfAbsent(links, tagId, entryId)
  {
    var p := TagEntry(tagId, entryId);
    if p !in links {
      assert multiset(links)[p] == 0;
      assert multiset(links + [p]) == multiset(links) + multiset{p};
    } else {
      assert multiset(links)[p] >= 1;
    }
  }

  /** A second call with the same pair changes nothing. */
  lemma AddLinkIdempotent(links: seq<TagEntry>, tagId: nat, entryId: nat)
    ensures AddLinkIfAbsent(AddLinkIfAbsent(links, tagId, entryId), tagId, entryId)
            == AddLinkIfAbsent(links, tagId, entryId)
  {
    var r := AddLinkIfAbsent(links, tagId, entryId);
    assert TagEntry(tagId, entryId) in r by {
      if TagEntry(tagId, entryId) !in links {
        assert r[|links|] == TagEntry(tagId, entryId);
      }
    }
  }

  // ---------------------------------------------------------------------
  // Properties of the queries

  /** get_entries_by_tag returns exactly the entries with a link to the tag,
      each as many times as such a link is stored. */
  lemma {:induction false} EntriesByTagCount(entries: seq<Entry>, links: seq<TagEntry>, tagId: nat, e: Entry)
    ensures multiset(EntriesByTag(entries, links, tagId))[e]
            == multiset(entries)[e] * multiset(links)[TagEntry(tagId, e.id)]
  {
    if entries != [] {
      var x := entries[0];
      var c := Copies(x, multiset(links)[TagEntry(tagId, x.id)]);
      var rest := EntriesByTag(entries[1..], links, tagId);
      assert EntriesByTag(entries, links, tagId) == c + rest;
      EntriesByTagCount(entries[1..], links, tagId, e);
      CopiesCount(x, multiset(links)[TagEntry(tagId, x.id)], e);
      HeadCount(entries, e);
      JoinCountStep(multiset(entries[1..])[e], multiset(links)[TagEntry(tagId, e.id)],
                    x == e, multiset(c)[e], multiset(rest)[e]);
    }
  }

  /** The count of a value in a sequence: its head, then its tail. */
  lemma HeadCount<T>(s: seq<T>, x: T)
    requires s != []
    ensures multiset(s)[x] == (if s[0] == x then 1 else 0) + multiset(s[1..])[x]
  {
    assert s == [s[0]] + s[1..];
  }

  /** The arithmetic of one step of the join count. */
  lemma JoinCountStep(m: nat, k: nat, head: bool, c: nat, r: nat)
    requires c == (if head then k else 0) && r == m * k
    ensures c + r == ((if head then 1 else 0) + m) * k
  {
    if head {
      Distribute(m, k);
    }
  }

  lemma Distribute(m: nat, k: nat)
    ensures (m + 1) * k == m * k + k
  {
  }

  lemma {:induction false} CopiesCount<T>(x: T, n: nat, y: T)
    ensures multiset(Copies(x, n))[y] == if x == y then n else 0
  {
    if n > 0 {
      CopiesCount(x, n - 1, y);
      assert Copies(x, n) == [x] + Copies(x, n - 1);
    }
  }

  /** Membership: e is returned exactly when e is stored and a link from the
      tag to e's id is stored. */
  lemma EntriesByTagMembers(entries: seq<Entry>, links: seq<TagEntry>, tagId: nat, e: Entry)
    ensures e in EntriesByTag(entries, links, tagId) <==> e in entries && TagEntry(tagId, e.id) in links
  {
    EntriesByTagCount(entries, links, tagId, e);
  }

  /** Under the unique constraints the join returns no entry twice. */
  lemma EntriesByTagOnce(entries: seq<Entry>, nextId: nat, links: seq<TagEntry>, tagId: nat, e: Entry)
    requires ValidEntries(entries, nextId) && UniqueLinks(links)
    ensures multiset(EntriesByTag(entries, links, tagId))[e] <= 1
  {
    EntriesByTagCount(entries, links, tagId, e);
    DistinctRows(entries, nextId, e);
    AtMostOneProduct(multiset(entries)[e], multiset(links)[TagEntry(tagId, e.id)]);
  }

  lemma AtMostOneProduct(a: nat, b: nat)
    requires a <= 1 && b <= 1
    ensures a * b <= 1
  {
  }

  lemma {:induction false} DistinctRows(entries: seq<Entry>, nextId: nat, e: Entry)
    requires ValidEntries(entries, nextId)
    ensures multiset(entries)[e] <= 1
  {
    if entries != [] {
      var rest := entries[1..];
      ValidEntriesTail(entries, nextId);
      DistinctRows(rest, nextId, e);
      assert entries == [entries[0]] + rest;
    }
  }

  /** The rows after the first are valid too, and none of them is the first. */
  lemma ValidEntriesTail(entries: seq<Entry>, nextId: nat)
    requires entries != [] && ValidEntries(entries, nextId)
    ensures ValidEntries(entries[1..], nextId)
    ensures multiset(entries[1..])[entries[0]] == 0
  {
    var rest := entries[1..];
    forall i | 0 <= i < |rest| ensures rest[i] == entries[i + 1] { }
    forall j | 0 <= j < |rest| ensures rest[j] != entries[0] {
      assert rest[j] == entries[j + 1];
    }
    assert entries[0] !in rest;
  }

  /** get_tags returns exactly the tags with a link to the entry, each as
      many times as such a link is stored. */
  lemma {:induction false} TagsOfCount(tags: seq<Tag>, links: seq<TagEntry>, entryId: nat, t: Tag)
    ensures multiset(TagsOf(tags, links, entryId))[t]
            == multiset(tags)[t] * multiset(links)[TagEntry(t.id, entryId)]
  {
    if tags != [] {
      var x := tags[0];
      var c := Copies(x, multiset(links)[TagEntry(x.id, entryId)]);
      var rest := TagsOf(tags[1..], links, entryId);
      assert TagsOf(tags, links, entryId) == c + rest;
      TagsOfCount(tags[1..], links, entryId, t);
      CopiesCount(x, multiset(links)[TagEntry(x.id, entryId)], t);
      HeadCount(tags, t);
      JoinCountStep(multiset(tags[1..])[t], multiset(links)[TagEntry(t.id, entryId)],
                    x == t, multiset(c)[t], multiset(rest)[t]);
    }
  }

  /** Membership: t is returned exactly when t is stored and a link from t's
      id to the entry is stored. */
  lemma TagsOfMembers(tags: seq<Tag>, links: seq<TagEntry>, entryId: nat, t: Tag)
    ensures t in TagsOf(tags, links, entryId) <==> t in tags && TagEntry(t.id, entryId) in links
  {
    TagsOfCount(tags, links, entryId, t);
  }

  /** Linking a stored tag to a stored entry makes each query find the other. */
  lemma LinkThenQuery(entries: seq<Entry>, tags: seq<Tag>, links: seq<TagEntry>, e: Entry, t: Tag)
    requires e in entries && t in tags
    ensures e in EntriesByTag(entries, AddLinkIfAbsent(links, t.id, e.id), t.id)
    ensures t in TagsOf(tags, AddLinkIfAbsent(links, t.id, e.id), e.id)
  {
    var r := AddLinkIfAbsent(links, t.id, e.id);
    assert TagEntry(t.id, e.id) in r by {
      if TagEntry(t.id, e.id) !in links {
        assert r[|links|] == TagEntry(t.id, e.id);
      }
    }
    EntriesByTagMembers(entries, r, t.id, e);
    TagsOfMembers(tags, r, e.id, t);
  }

  // ---------------------------------------------------------------------
  // The database

  /** The four tables and the id counters SQLite keeps for them. */
  class Store {
    var users: seq<User>
    var entries: seq<Entry>
    var tags: seq<Tag>
    var links: seq<TagEntry>
    var nextUserId: nat
    var nextEntryId: nat
    var nextTagId: nat

    /** Every unique constraint of the schema holds. */
    ghost predicate Valid()
      reads this
    {
      ValidUsers(users, nextUserId) && ValidEntries(entries, nextEntryId)
      && ValidTags(tags, nextTagId) && UniqueLinks(links)
    }

    /** The freshly created, empty tables. */
    constructor ()
      ensures Valid()
      ensures users == [] && entries == [] && tags == [] && links == []
      ensures nextUserId == 1 && nextEntryId == 1 && nextTagId == 1
    {
      users, entries, tags, links := [], [], [], [];
      nextUserId, nextEntryId, nextTagId := 1, 1, 1;
    }

    /** User.create_user(username, email, password); the password is stored
        as hash(password) and joined_at is the clock value now. Hashing comes
        first and raises ValueError on an empty password, which the
        IntegrityError handler does not catch; so that error wins even over
        a taken username. */
    method CreateUser(username: string, email: string, password: string,
                      hash: string -> string, now: int) returns (r: Outcome)
      requires Valid()
      modifies this
      ensures Valid()
      ensures r.Fail? <==> password == [] || old(UsernameTaken(users, username) || EmailTaken(users, email))
      ensures password == [] ==> r == Fail(ValueError(EmptyPasswordMessage))
      ensures password != [] && r.Fail? ==> r.error == ValueError(UserExistsMessage)
      ensures r.Fail? ==> users == old(users) && nextUserId == old(nextUserId)
      ensures r.Pass? ==> users == old(users) + [User(old(nextUserId), username, email, hash(password), now)]
                          && nextUserId == old(nextUserId) + 1
      ensures entries == old(entries) && tags == old(tags) && links == old(links)
      ensures nextEntryId == old(nextEntryId) && nextTagId == old(nextTagId)
    {
      if password == [] {
        return Fail(ValueError(EmptyPasswordMessage));
      }
      var added := AddUser(users, nextUserId, username, email, hash(password), now);
      if added.Err? {
        r := Fail(added.error);
      } else {
        AddUserValid(users, nextUserId, username, email, hash(password), now);
        users := added.value;
        nextUserId := nextUserId + 1;
        r := Pass;
      }
    }

    /** Entry.create(...) with the next id: fails on a stored slug. */
    method CreateEntry(timestamp: int, user: nat, slug: string, title: string, date: int,
                       timeSpent: int, subjects: string, resources: Option<string>)
      returns (r: Result<nat>)
      requires Valid()
      modifies this
      ensures Valid()
      ensures r.Err? <==> old(SlugTaken(entries, slug))
      ensures r.Err? ==> r.error == IntegrityError(SlugTakenMessage)
                         && entries == old(entries) && nextEntryId == old(nextEntryId)
      ensures r.Ok? ==> r.value == old(nextEntryId) && nextEntryId == old(nextEntryId) + 1
                        && entries == old(entries) + [Entry(r.value, timestamp, user, slug, title, date, timeSpent, subjects, resources)]
      ensures users == old(users) && tags == old(tags) && links == old(links)
      ensures nextUserId == old(nextUserId) && nextTagId == old(nextTagId)
    {
      var e := Entry(nextEntryId, timestamp, user, slug, title, date, timeSpent, subjects, resources);
      AddEntryValid(entries, nextEntryId, e);
      var added := AddEntry(entries, e);
      if added.Err? {
        r := Err(added.error);
      } else {
        entries := added.value;
        r := Ok(nextEntryId);
        nextEntryId := nextEntryId + 1;
      }
    }

    /** Tag.create_tag_if_not_exists(label). */
    method CreateTagIfNotExists(name: string)
      requires Valid()
      modifies this
      ensures Valid()
      ensures tags == AddTagIfAbsent(old(tags), old(nextTagId), name)
      ensures nextTagId == if old(LabelStored(tags, name)) then old(nextTagId) else old(nextTagId) + 1
      ensures LabelCount(tags, name) == 1
      ensures users == old(users) && entries == old(entries) && links == old(links)
      ensures nextUserId == old(nextUserId) && nextEntryId == old(nextEntryId)
    {
      AddTagValid(tags, nextTagId, name);
      AddTagExactlyOne(tags, nextTagId, name);
      if FindTag(tags, name).None? {
        tags := tags + [Tag(nextTagId, name)];
        nextTagId := nextTagId + 1;
      }
    }

    /** TagEntry.create_tagentry_if_not_exists(tag_id, entry_id). Like the
        source, it does not check that the ids name stored rows. */
    method CreateTagEntryIfNotExists(tagId: nat, entryId: nat)
      requires Valid()
      modifies this
      ensures Valid()
      ensures links == AddLinkIfAbsent(old(links), tagId, entryId)
      ensures multiset(links)[TagEntry(tagId, entryId)] == 1
      ensures users == old(users) && entries == old(entries) && tags == old(tags)
      ensures nextUserId == old(nextUserId) && nextEntryId == old(nextEntryId)
      ensures nextTagId == old(nextTagId)
    {
      AddLinkExactlyOne(links, tagId, entryId);
      if TagEntry(tagId, entryId) !in links {
        links := links + [TagEntry(tagId, entryId)];
      }
    }

    /** Entry.get_entries_by_tag over the current tables. */
    function EntriesForTag(tagId: nat): (r: seq<Entry>)
      reads this
      ensures forall e :: e in r <==> e in entries && TagEntry(tagId, e.id) in links
    {
      var r := EntriesByTag(entries, links, tagId);
      assert forall e :: e in r <==> e in entries && TagEntry(tagId, e.id) in links by {
        forall e ensures e in r <==> e in entries && TagEntry(tagId, e.id) in links {
          EntriesByTagMembers(entries, links, tagId, e);
        }
      }
      r
    }

    /** entry.get_tags() over the current tables. */
    function TagsForEntry(entryId: nat): (r: seq<Tag>)
      reads this
      ensures forall t :: t in r <==> t in tags && TagEntry(t.id, entryId) in links
    {
      var r := TagsOf(tags, links, entryId);
      assert forall t :: t in r <==> t in tags && TagEntry(t.id, entryId) in links by {
        forall t ensures t in r <==> t in tags && TagEntry(t.id, entryId) in links {
          TagsOfMembers(tags, links, entryId, t);
        }
      }
      r
    }
  }
}
