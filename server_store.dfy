/** The Mongo-backed handlers of backend/server.py: registration and login over the
    `users` collection, and listing, search, single-document access, partial update,
    delete and statistics over the `documents` collection. A query answers in the
    collection's natural (insertion) order, so `find_one`, `update_one` and
    `delete_one` act on the first matching document. Ids and the clock are inputs. */
module ServerStore {
  import opened Text
  import opened Seqs
  import opened Wrappers

  /** The `HTTPException`s the handlers raise. */
  datatype Status = BadRequest | Unauthorized | NotFound | ServerError

  function Code(s: Status): (c: nat)
    ensures 400 <= c < 600
    ensures c < 500 <==> !s.ServerError?
  {
    match s
    case BadRequest => 400
    case Unauthorized => 401
    case NotFound => 404
    case ServerError => 500
  }

  // ===========================================================================
  // Users

  const DefaultRole: string := "موظف"

  /** A stored `User`; the password is kept as sent. */
  datatype Account = Account(id: string, username: string, password: string, fullName: string,
                             role: string, createdAt: nat)

  /** The `role` of a registration body: left out, sent as `null`, or given. */
  datatype RoleField = Omitted | NullRole | Given(name: string)

  datatype Registration = Registration(username: string, password: string, fullName: string, role: RoleField)

  datatype Credentials = Credentials(username: string, password: string)

  /** What a successful login returns about the account. */
  datatype Profile = Profile(id: string, username: string, fullName: string, role: string)

  predicate UsernamesUnique(users: seq<Account>)
  {
    forall i, j :: 0 <= i < j < |users| ==> users[i].username != users[j].username
  }

  predicate Taken(users: seq<Account>, username: string)
  {
    exists i :: 0 <= i < |users| && users[i].username == username
  }

  function NamedAs(username: string): Account -> bool
  {
    (a: Account) => a.username == username
  }

  /** `find_one({"username": ...})`. */
  function FindAccount(users: seq<Account>, username: string): (r: Option<Account>)
    ensures r.None? <==> !Taken(users, username)
    ensures r.Some? ==> r.value in users && r.value.username == username
  {
    match FirstIndex(users, NamedAs(username))
    case None => None
    case Some(i) => Some(users[i])
  }

  /** With unique usernames the lookup finds the one account of that name. */
  lemma FindAccountUnique(users: seq<Account>, i: nat)
    requires UsernamesUnique(users) && i < |users|
    ensures FindAccount(users, users[i].username) == Some(users[i])
  {
    var k := FirstIndex(users, NamedAs(users[i].username));
    assert !(k.value < i) && !(i < k.value);
  }

  /** `register`: 400 when the username is taken, checked first; otherwise the `User`
      built from the body, whose role defaults when omitted. A role sent as `null`
      fails the model's validation, which reaches the client as 500. */
  function RegisterOutcome(users: seq<Account>, body: Registration, id: string, now: nat): (r: Result<Account, Status>)
    ensures r == Err(BadRequest) <==> Taken(users, body.username)
    ensures r == Err(ServerError) <==> !Taken(users, body.username) && body.role.NullRole?
    ensures r.Ok? ==> (r.value.username == body.username && r.value.password == body.password
                       && r.value.fullName == body.fullName && r.value.id == id && r.value.createdAt == now)
    ensures r.Ok? ==> r.value.role == if body.role.Given? then body.role.name else DefaultRole
  {
    if FindAccount(users, body.username).Some? then Err(BadRequest)
    else match body.role
      case NullRole => Err(ServerError)
      case Omitted => Ok(Account(id, body.username, body.password, body.fullName, DefaultRole, now))
      case Given(name) => Ok(Account(id, body.username, body.password, body.fullName, name, now))
  }

  function ProfileOf(a: Account): Profile
  {
    Profile(a.id, a.username, a.fullName, a.role)
  }

  /** `login`: 401 unless the account found by username carries the password. */
  function LoginOutcome(users: seq<Account>, c: Credentials): (r: Result<Profile, Status>)
    ensures r.Err? ==> r.error == Unauthorized
    ensures r.Ok? ==> exists a :: (a in users && a.username == c.username && a.password == c.password
                                   && r.value == ProfileOf(a))
    ensures !Taken(users, c.username) ==> r == Err(Unauthorized)
  {
    match FindAccount(users, c.username)
    case None => Err(Unauthorized)
    case Some(a) => if a.password != c.password then Err(Unauthorized) else Ok(ProfileOf(a))
  }

  /** With unique usernames a login succeeds exactly for a stored username and
      password pair, and returns that account's profile. */
  lemma LoginSpec(users: seq<Account>, c: Credentials)
    requires UsernamesUnique(users)
    ensures LoginOutcome(users, c).Ok? <==> exists a :: a in users && a.username == c.username && a.password == c.password
    ensures forall a :: a in users && a.username == c.username && a.password == c.password ==>
      LoginOutcome(users, c) == Ok(ProfileOf(a))
  {
    forall a | a in users && a.username == c.username && a.password == c.password
      ensures LoginOutcome(users, c) == Ok(ProfileOf(a))
    {
      var i :| 0 <= i < |users| && users[i] == a;
      FindAccountUnique(users, i);
    }
  }

  /** A registration keeps usernames unique. */
  lemma RegisterKeepsUnique(users: seq<Account>, body: Registration, id: string, now: nat)
    requires UsernamesUnique(users) && RegisterOutcome(users, body, id, now).Ok?
    ensures UsernamesUnique(users + [RegisterOutcome(users, body, id, now).value])
  {
    var s := users + [RegisterOutcome(users, body, id, now).value];
    forall i, j | 0 <= i < j < |s| ensures s[i].username != s[j].username {
      if j == |users| {
        assert s[i] == users[i];
      } else {
        assert s[i] == users[i] && s[j] == users[j];
      }
    }
  }

  /** After registering, logging in with the same username and password succeeds and
      returns the new account, and registering the username again is refused. */
  lemma RegisterThenLogin(users: seq<Account>, body: Registration, id: string, now: nat, again: Registration, id': string, later: nat)
    requires RegisterOutcome(users, body, id, now).Ok?
    requires again.username == body.username
    ensures var a := RegisterOutcome(users, body, id, now).value;
      && LoginOutcome(users + [a], Credentials(body.username, body.password)) == Ok(ProfileOf(a))
      && RegisterOutcome(users + [a], again, id', later) == Err(BadRequest)
  {
    var a := RegisterOutcome(users, body, id, now).value;
    var s := users + [a];
    var k := FirstIndex(s, NamedAs(body.username));
    assert s[|users|] == a;
    assert forall j :: 0 <= j < |users| ==> s[j] == users[j];
    assert !(k.value < |users|);
    assert Taken(s, again.username);
  }

  // ===========================================================================
  // Documents

  /** A stored `Document`. Optional fields are `None` when null; `fileData` is `None`
      only in a search result, which projects it away. */
  datatype Doc = Doc(id: string, title: string, description: Option<string>, fileType: string,
                     fileData: Option<string>, category: Option<string>, ownerName: Option<string>,
                     landType: Option<string>, location: Option<string>, extractedText: Option<string>,
                     summary: Option<string>, autoCategory: Option<string>, keywords: Option<seq<string>>,
                     notes: Option<string>, uploadedBy: string, createdAt: nat, updatedAt: nat)

  predicate IdsUnique(docs: seq<Doc>)
  {
    forall i, j :: 0 <= i < j < |docs| ==> docs[i].id != docs[j].id
  }

  predicate HasId(docs: seq<Doc>, id: string)
  {
    exists i :: 0 <= i < |docs| && docs[i].id == id
  }

  function IdIs(id: string): Doc -> bool
  {
    (d: Doc) => d.id == id
  }

  /** The `category` and `land_type` parameters; each applies only when it is a
      non-empty string. */
  datatype Filters = Filters(category: Option<string>, landType: Option<string>)

  predicate Applies(filter: Option<string>)
  {
    filter.Some? && filter.value != ""
  }

  predicate Matches(d: Doc, f: Filters)
  {
    (Applies(f.category) ==> d.category == f.category) && (Applies(f.landType) ==> d.landType == f.landType)
  }

  function MatchesFilters(f: Filters): Doc -> bool
  {
    (d: Doc) => Matches(d, f)
  }

  function CreatedKey(): Doc -> int
  {
    (d: Doc) => d.createdAt
  }

  /** `sort('created_at', -1)`. */
  function NewestFirst(docs: seq<Doc>): seq<Doc>
  {
    SortDesc(docs, CreatedKey())
  }

  /** The default of `get_documents`' `limit` parameter. */
  const DefaultLimit: nat := 50

  /** The `limit` query parameter as the handler sees it: absent means the default. */
  function LimitOf(limit: Option<int>): int
  {
    if limit.Some? then limit.value else DefaultLimit
  }

  /** `get_documents`: `find(query).sort(...).limit(limit).to_list(limit)`. The driver's
      `to_list` rejects a negative length and returns nothing for length 0. */
  function ListDocuments(docs: seq<Doc>, f: Filters, limit: Option<int>): (r: Result<seq<Doc>, Status>)
    ensures r.Err? <==> limit.Some? && limit.value < 0
    ensures r.Err? ==> r.error == ServerError
    ensures r.Ok? ==> |r.value| <= LimitOf(limit)
    ensures limit.None? ==> r.Ok? && |r.value| <= 50
  {
    var n := LimitOf(limit);
    if n < 0 then Err(ServerError) else Ok(Take(NewestFirst(Filter(docs, MatchesFilters(f))), n))
  }

  /** Whenever a listing is returned it holds matching documents, newest first, all of
      them when the limit (50 when absent) allows, and never skips a matching document
      newer than one it holds. */
  lemma ListDocumentsSpec(docs: seq<Doc>, f: Filters, limit: Option<int>)
    ensures var res := ListDocuments(docs, f, limit);
      res.Ok? ==> var r := res.value;
      && (forall i :: 0 <= i < |r| ==> r[i] in docs && Matches(r[i], f))
      && SortedDesc(r, CreatedKey())
      && (LimitOf(limit) >= |Filter(docs, MatchesFilters(f))| ==> forall d :: d in docs && Matches(d, f) ==> d in r)
      && (forall d, i :: d in docs && Matches(d, f) && 0 <= i < |r| && d.createdAt > r[i].createdAt ==> d in r)
      && multiset(r) <= multiset(docs)
      && (LimitOf(limit) >= |Filter(docs, MatchesFilters(f))| ==>
            forall d :: d in docs && Matches(d, f) ==> multiset(r)[d] == multiset(docs)[d])
  {
    var n := LimitOf(limit);
    if n >= 0 {
      var p, key := MatchesFilters(f), CreatedKey();
      assert ListDocuments(docs, f, limit).value == Take(NewestFirst(Filter(docs, p)), n);
      TopOfSelection(docs, p, key, n);
      TopOfSelectionCounts(docs, p, key, n);
      forall d | d in docs ensures p(d) == Matches(d, f) && key(d) == d.createdAt {
      }
    }
  }

  // ---------------------------------------------------------------------------
  // smart_search

  /** `{'$regex': query, '$options': 'i'}` on a string field, for a query without
      metacharacters: a substring match ignoring ASCII case; null never matches. */
  predicate RegexHit(v: Option<string>, query: string)
  {
    v.Some? && Contains(Lower(v.value), Lower(query))
  }

  /** The same condition on an array field holds when some element matches. */
  predicate AnyRegexHit(v: Option<seq<string>>, query: string)
  {
    v.Some? && exists k :: 0 <= k < |v.value| && RegexHit(Some(v.value[k]), query)
  }

  /** The `$or` over the six searched fields. */
  predicate SearchHit(d: Doc, query: string)
  {
    RegexHit(Some(d.title), query) || RegexHit(d.description, query) || RegexHit(d.extractedText, query)
    || RegexHit(d.ownerName, query) || RegexHit(d.location, query) || AnyRegexHit(d.keywords, query)
  }

  /** A document the search selects: the `$or` is only added for a non-empty query. */
  predicate Searched(d: Doc, query: string, f: Filters)
  {
    (query == "" || SearchHit(d, query)) && Matches(d, f)
  }

  function SearchFilter(query: string, f: Filters): Doc -> bool
  {
    (d: Doc) => Searched(d, query, f)
  }

  /** The selected documents, newest first, at most 100. */
  function SearchSelection(docs: seq<Doc>, query: string, f: Filters): seq<Doc>
  {
    Take(NewestFirst(Filter(docs, SearchFilter(query, f))), 100)
  }

  /** The projection `{'file_data': 0}`. */
  function WithoutFileData(d: Doc): Doc
  {
    d.(fileData := None)
  }

  /** `smart_search`: the selection with `file_data` projected away. */
  function SmartSearchResults(docs: seq<Doc>, query: string, f: Filters): (r: seq<Doc>)
    ensures |r| <= 100
    ensures forall i :: 0 <= i < |r| ==> r[i].fileData.None?
    ensures |r| == |SearchSelection(docs, query, f)|
  {
    var s := SearchSelection(docs, query, f);
    seq(|s|, i requires 0 <= i < |s| => WithoutFileData(s[i]))
  }

  lemma SearchSelectionSpec(docs: seq<Doc>, query: string, f: Filters)
    ensures var r := SearchSelection(docs, query, f);
      && (forall i :: 0 <= i < |r| ==> r[i] in docs && Searched(r[i], query, f))
      && SortedDesc(r, CreatedKey())
      && (|Filter(docs, SearchFilter(query, f))| <= 100 ==> forall d :: d in docs && Searched(d, query, f) ==> d in r)
      && (forall d, i :: d in docs && Searched(d, query, f) && 0 <= i < |r| && d.createdAt > r[i].createdAt ==> d in r)
      && multiset(r) <= multiset(docs)
      && (|Filter(docs, SearchFilter(query, f))| <= 100 ==>
            forall d :: d in docs && Searched(d, query, f) ==> multiset(r)[d] == multiset(docs)[d])
  {
    var p, key := SearchFilter(query, f), CreatedKey();
    TopOfSelection(docs, p, key, 100);
    TopOfSelectionCounts(docs, p, key, 100);
    forall d | d in docs ensures p(d) == Searched(d, query, f) && key(d) == d.createdAt {
    }
  }

  /** Each search result is a selected document without its file data, newest first. */
  lemma SmartSearchSpec(docs: seq<Doc>, query: string, f: Filters)
    ensures var r := SmartSearchResults(docs, query, f);
      && (forall x :: x in r ==> exists d :: d in docs && Searched(d, query, f) && x == WithoutFileData(d))
      && (forall i, j :: 0 <= i < j < |r| ==> r[i].createdAt >= r[j].createdAt)
      && multiset(r) <= multiset(Images(docs, WithoutFileData))
  {
    var s, r := SearchSelection(docs, query, f), SmartSearchResults(docs, query, f);
    SearchSelectionSpec(docs, query, f);
    assert r == Images(s, WithoutFileData);
    ImagesMonotone(s, docs, WithoutFileData);
    assert forall i :: 0 <= i < |s| ==> s[i] in docs && Searched(s[i], query, f);
    assert SortedDesc(s, CreatedKey());
    ProjectionKeeps(docs, query, f, s, r);
  }

  lemma ProjectionKeeps(docs: seq<Doc>, query: string, f: Filters, s: seq<Doc>, r: seq<Doc>)
    requires |r| == |s| && forall i :: 0 <= i < |r| ==> r[i] == WithoutFileData(s[i])
    requires forall i :: 0 <= i < |s| ==> s[i] in docs && Searched(s[i], query, f)
    requires SortedDesc(s, CreatedKey())
    ensures forall x :: x in r ==> exists d :: d in docs && Searched(d, query, f) && x == WithoutFileData(d)
    ensures forall i, j :: 0 <= i < j < |r| ==> r[i].createdAt >= r[j].createdAt
  {
    forall x | x in r ensures exists d :: d in docs && Searched(d, query, f) && x == WithoutFileData(d) {
      var i :| 0 <= i < |r| && r[i] == x;
      assert s[i] in docs && Searched(s[i], query, f);
    }
    forall i, j | 0 <= i < j < |r| ensures r[i].createdAt >= r[j].createdAt {
      assert CreatedKey()(s[i]) >= CreatedKey()(s[j]);
    }
  }

  /** With an empty query the search selects what a listing with limit 100 returns. */
  lemma EmptyQueryIsListing(docs: seq<Doc>, f: Filters)
    ensures SearchSelection(docs, "", f) == ListDocuments(docs, f, Some(100)).value
  {
    FilterCongruent(docs, SearchFilter("", f), MatchesFilters(f));
  }

  // ---------------------------------------------------------------------------
  // get_document, update_document, delete_document

  /** `find_one({"id": ...})`: the index of the first document with the id. */
  function FindDoc(docs: seq<Doc>, id: string): (r: Option<nat>)
    ensures r.None? <==> !HasId(docs, id)
    ensures r.Some? ==> r.value < |docs| && docs[r.value].id == id
    ensures r.Some? ==> forall j :: 0 <= j < r.value ==> docs[j].id != id
  {
    FirstIndex(docs, IdIs(id))
  }

  /** `get_document`: the document, or 404. */
  function GetDocumentOutcome(docs: seq<Doc>, id: string): (r: Result<Doc, Status>)
    ensures r.Err? <==> !HasId(docs, id)
    ensures r.Err? ==> r.error == NotFound
    ensures r.Ok? ==> r.value in docs && r.value.id == id
  {
    match FindDoc(docs, id)
    case None => Err(NotFound)
    case Some(i) => Ok(docs[i])
  }

  /** The `DocumentUpdate` body; `None` fields are dropped from the `$set`. */
  datatype Patch = Patch(title: Option<string>, description: Option<string>, category: Option<string>,
                         ownerName: Option<string>, landType: Option<string>, location: Option<string>,
                         notes: Option<string>)

  function Pick(given: Option<string>, current: Option<string>): Option<string>
  {
    if given.Some? then given else current
  }

  /** The document after `$set` of the patch's non-`None` fields and `updated_at`. */
  function Apply(d: Doc, p: Patch, now: nat): (r: Doc)
    ensures r.id == d.id && r.fileType == d.fileType && r.fileData == d.fileData
    ensures r.extractedText == d.extractedText && r.summary == d.summary
    ensures r.autoCategory == d.autoCategory && r.keywords == d.keywords
    ensures r.uploadedBy == d.uploadedBy && r.createdAt == d.createdAt && r.updatedAt == now
  {
    d.(title := if p.title.Some? then p.title.value else d.title,
       description := Pick(p.description, d.description), category := Pick(p.category, d.category),
       ownerName := Pick(p.ownerName, d.ownerName), landType := Pick(p.landType, d.landType),
       location := Pick(p.location, d.location), notes := Pick(p.notes, d.notes),
       updatedAt := now)
  }

  /** A given field, even an empty string, replaces the stored one; an absent field
      keeps it; and a second application of the same patch changes only the time. */
  lemma ApplySpec(d: Doc, p: Patch, now: nat, later: nat)
    ensures p.title.Some? ==> Apply(d, p, now).title == p.title.value
    ensures p.title.None? ==> Apply(d, p, now).title == d.title
    ensures p.description.Some? ==> Apply(d, p, now).description == p.description
    ensures p.description.None? ==> Apply(d, p, now).description == d.description
    ensures p.category.Some? ==> Apply(d, p, now).category == p.category
    ensures p.category.None? ==> Apply(d, p, now).category == d.category
    ensures p.ownerName.Some? ==> Apply(d, p, now).ownerName == p.ownerName
    ensures p.ownerName.None? ==> Apply(d, p, now).ownerName == d.ownerName
    ensures p.landType.Some? ==> Apply(d, p, now).landType == p.landType
    ensures p.landType.None? ==> Apply(d, p, now).landType == d.landType
    ensures p.location.Some? ==> Apply(d, p, now).location == p.location
    ensures p.location.None? ==> Apply(d, p, now).location == d.location
    ensures p.notes.Some? ==> Apply(d, p, now).notes == p.notes
    ensures p.notes.None? ==> Apply(d, p, now).notes == d.notes
    ensures Patch(None, None, None, None, None, None, None) == p ==> Apply(d, p, now) == d.(updatedAt := now)
    ensures Apply(Apply(d, p, now), p, later) == Apply(d, p, later)
  {
  }

  /** `update_document`: 404 when no document has the id; otherwise the first one is
      patched and read back. */
  function UpdateOutcome(docs: seq<Doc>, id: string, p: Patch, now: nat): (r: Result<(seq<Doc>, Doc), Status>)
    ensures r.Err? <==> !HasId(docs, id)
    ensures r.Err? ==> r.error == NotFound
    ensures r.Ok? ==> var i := FindDoc(docs, id).value;
      && r.value.0 == docs[i := Apply(docs[i], p, now)]
      && r.value.1 == Apply(docs[i], p, now)
  {
    match FindDoc(docs, id)
    case None => Err(NotFound)
    case Some(i) =>
      var docs' := docs[i := Apply(docs[i], p, now)];
      FirstIndexCongruent(docs, docs', IdIs(id));
      match FindDoc(docs', id)
      case None => Err(NotFound)
      case Some(j) => Ok((docs', docs'[j]))
  }

  /** An update leaves every other document as it was and keeps ids unique. */
  lemma UpdateSpec(docs: seq<Doc>, id: string, p: Patch, now: nat)
    requires HasId(docs, id)
    ensures var r := UpdateOutcome(docs, id, p, now).value.0;
      && |r| == |docs|
      && (forall j :: 0 <= j < |docs| && docs[j].id != id ==> r[j] == docs[j])
      && (IdsUnique(docs) ==> IdsUnique(r))
      && GetDocumentOutcome(r, id) == Ok(UpdateOutcome(docs, id, p, now).value.1)
  {
    var i := FindDoc(docs, id).value;
    var r := UpdateOutcome(docs, id, p, now).value.0;
    assert forall j :: 0 <= j < |docs| ==> r[j].id == docs[j].id;
    FirstIndexCongruent(docs, r, IdIs(id));
  }

  /** `delete_document`: 404 when no document has the id; otherwise the first one is
      removed. */
  function DeleteOutcome(docs: seq<Doc>, id: string): (r: Result<seq<Doc>, Status>)
    ensures r.Err? <==> !HasId(docs, id)
    ensures r.Err? ==> r.error == NotFound
    ensures r.Ok? ==> var i := FindDoc(docs, id).value; r.value == docs[..i] + docs[i + 1..]
  {
    match FindDoc(docs, id)
    case None => Err(NotFound)
    case Some(i) => Ok(docs[..i] + docs[i + 1..])
  }

  /** With unique ids a delete removes the only document with the id: the rest stay,
      ids stay unique, and a second delete or a get then answers 404. */
  lemma DeleteSpec(docs: seq<Doc>, id: string)
    requires IdsUnique(docs) && HasId(docs, id)
    ensures var r := DeleteOutcome(docs, id).value;
      && |r| == |docs| - 1
      && (forall d :: d in r <==> d in docs && d.id != id)
      && IdsUnique(r)
      && DeleteOutcome(r, id) == Err(NotFound)
      && GetDocumentOutcome(r, id) == Err(NotFound)
  {
    var i := FindDoc(docs, id).value;
    RemoveAtSpec(docs, i);
    forall d | d in docs && d.id != id ensures d in docs[..i] + docs[i + 1..] {
      var j :| 0 <= j < |docs| && docs[j] == d;
      assert j != i;
      RemoveAtKeeps(docs, i, j);
    }
  }

  /** Removing position `i` keeps the other elements in order. */
  lemma RemoveAtSpec(docs: seq<Doc>, i: nat)
    requires IdsUnique(docs) && i < |docs|
    ensures var r := docs[..i] + docs[i + 1..];
      && |r| == |docs| - 1
      && (forall j :: 0 <= j < |r| ==> r[j] == docs[if j < i then j else j + 1])
      && IdsUnique(r)
      && (forall d :: d in r ==> d in docs && d.id != docs[i].id)
  {
    var r := docs[..i] + docs[i + 1..];
    assert forall j :: 0 <= j < |r| ==> r[j] == docs[if j < i then j else j + 1];
  }

  lemma RemoveAtKeeps(docs: seq<Doc>, i: nat, j: nat)
    requires i < |docs| && j < |docs| && j != i
    ensures docs[j] in docs[..i] + docs[i + 1..]
  {
    var r := docs[..i] + docs[i + 1..];
    if j < i {
      assert r[j] == docs[j];
    } else {
      assert r[j - 1] == docs[j];
    }
  }

  // ---------------------------------------------------------------------------
  // get_statistics

  datatype RecentDoc = RecentDoc(id: string, title: string, createdAt: nat)

  /** `by_category` maps each `auto_category` value, null and `""` included, to its
      number of documents. */
  datatype Statistics = Statistics(totalDocuments: nat, totalUsers: nat,
                                   byCategory: seq<(Option<string>, nat)>, recentDocuments: seq<RecentDoc>)

  function CategoryValues(docs: seq<Doc>): (r: seq<Option<string>>)
    ensures |r| == |docs|
  {
    seq(|docs|, i requires 0 <= i < |docs| => docs[i].autoCategory)
  }

  /** `$group` by `$auto_category`, one group per distinct value in order of first
      appearance. */
  function Groups(docs: seq<Doc>): seq<(Option<string>, nat)>
  {
    var vals := CategoryValues(docs);
    Tally(Dedup(vals), vals)
  }

  /** `aggregate(pipeline).to_list(100)`: the first 100 groups. */
  function ByCategory(docs: seq<Doc>): (r: seq<(Option<string>, nat)>)
    ensures |r| <= 100
  {
    Take(Groups(docs), 100)
  }

  lemma CategoryValuesMember(docs: seq<Doc>, c: Option<string>)
    ensures c in CategoryValues(docs) <==> exists d :: d in docs && d.autoCategory == c
  {
    var vals := CategoryValues(docs);
    if c in vals {
      var i :| 0 <= i < |vals| && vals[i] == c;
      assert docs[i] in docs;
    }
    if exists d :: d in docs && d.autoCategory == c {
      var d :| d in docs && d.autoCategory == c;
      var i :| 0 <= i < |docs| && docs[i] == d;
      assert vals[i] == c;
    }
  }

  /** The groups have distinct keys, each counting the documents with that category.
      Unless there are more than 100 groups, the documents of every category are
      counted, empty and null ones included, and the counts sum to the total. */
  lemma ByCategorySpec(docs: seq<Doc>)
    ensures var g := ByCategory(docs);
      && (forall i, j :: 0 <= i < j < |g| ==> g[i].0 != g[j].0)
      && (forall i :: 0 <= i < |g| ==> g[i].1 == multiset(CategoryValues(docs))[g[i].0] && g[i].1 > 0)
      && (|Groups(docs)| <= 100 ==> forall d :: d in docs ==> exists i :: 0 <= i < |g| && g[i].0 == d.autoCategory)
      && (|Groups(docs)| <= 100 ==> SumCounts(g) == |docs|)
  {
    var vals := CategoryValues(docs);
    var keys := Dedup(vals);
    var all := Groups(docs);
    var g := ByCategory(docs);
    forall i | 0 <= i < |g| ensures g[i].1 > 0 {
      assert g[i] == all[i];
      DedupMember(vals, keys[i]);
    }
    if |all| <= 100 {
      assert g == all;
      forall d | d in docs ensures exists i :: 0 <= i < |g| && g[i].0 == d.autoCategory {
        CategoryValuesMember(docs, d.autoCategory);
        DedupMember(vals, d.autoCategory);
        var i :| 0 <= i < |keys| && keys[i] == d.autoCategory;
        assert g[i].0 == d.autoCategory;
      }
      GroupsCoverAll(vals);
    }
  }

  /** The five newest documents, reduced to id, title and creation time. */
  function RecentOf(docs: seq<Doc>): (r: seq<RecentDoc>)
    ensures |r| == if |docs| < 5 then |docs| else 5
  {
    var top := Take(NewestFirst(docs), 5);
    seq(|top|, i requires 0 <= i < |top| => Brief(top[i]))
  }

  function Brief(d: Doc): RecentDoc
  {
    RecentDoc(d.id, d.title, d.createdAt)
  }

  /** Each recent entry describes a stored document, newest first, and no document
      newer than a listed one is left out. */
  lemma RecentSpec(docs: seq<Doc>)
    ensures var r := RecentOf(docs);
      && (forall x :: x in r ==> exists d :: d in docs && x == Brief(d))
      && (forall i, j :: 0 <= i < j < |r| ==> r[i].createdAt >= r[j].createdAt)
      && (forall d, i :: d in docs && 0 <= i < |r| && d.createdAt > r[i].createdAt ==> Brief(d) in r)
      && multiset(r) <= multiset(Images(docs, Brief))
      && (|docs| <= 5 ==> multiset(r) == multiset(Images(docs, Brief)))
  {
    TopProjected(docs, CreatedKey(), 5, Brief, RecentCreated, RecentOf(docs));
  }

  function RecentCreated(x: RecentDoc): int
  {
    x.createdAt
  }

  function Stats(users: seq<Account>, docs: seq<Doc>): (r: Statistics)
    ensures r.totalDocuments == |docs| && r.totalUsers == |users|
    ensures |r.recentDocuments| <= 5 && |r.byCategory| <= 100
  {
    Statistics(|docs|, |users|, ByCategory(docs), RecentOf(docs))
  }

  // ===========================================================================
  // The two collections

  class ServerDatabase {
    var users: seq<Account>
    var documents: seq<Doc>

    /** Usernames and document ids are unique; no index enforces this, the handlers
        keep it. */
    ghost predicate Valid()
      reads this
    {
      UsernamesUnique(users) && IdsUnique(documents)
    }

    /** Opening over the stored collections: valid exactly when they already hold no
        duplicate username and no duplicate id. */
    constructor (storedUsers: seq<Account>, storedDocuments: seq<Doc>)
      ensures users == storedUsers && documents == storedDocuments
      ensures Valid() <==> UsernamesUnique(storedUsers) && IdsUnique(storedDocuments)
    {
      users := storedUsers;
      documents := storedDocuments;
    }

    /** `register`: `insert_one` of the new account unless refused. */
    method Register(body: Registration, id: string, now: nat) returns (r: Result<Account, Status>)
      modifies this
      ensures r == RegisterOutcome(old(users), body, id, now)
      ensures r.Ok? ==> users == old(users) + [r.value]
      ensures r.Err? ==> users == old(users)
      ensures documents == old(documents)
      ensures old(Valid()) ==> Valid()
    {
      r := RegisterOutcome(users, body, id, now);
      if r.Ok? {
        if UsernamesUnique(users) {
          RegisterKeepsUnique(users, body, id, now);
        }
        users := users + [r.value];
      }
    }

    method Login(c: Credentials) returns (r: Result<Profile, Status>)
      ensures r == LoginOutcome(users, c)
    {
      r := LoginOutcome(users, c);
    }

    method GetDocuments(f: Filters, limit: Option<int>) returns (r: Result<seq<Doc>, Status>)
      ensures r == ListDocuments(documents, f, limit)
    {
      r := ListDocuments(documents, f, limit);
    }

    method SmartSearch(query: string, f: Filters) returns (r: seq<Doc>)
      ensures r == SmartSearchResults(documents, query, f)
    {
      r := SmartSearchResults(documents, query, f);
    }

    method GetDocument(id: string) returns (r: Result<Doc, Status>)
      ensures r == GetDocumentOutcome(documents, id)
    {
      r := GetDocumentOutcome(documents, id);
    }

    /** `update_document`: `update_one` then `find_one`. */
    method UpdateDocument(id: string, p: Patch, now: nat) returns (r: Result<Doc, Status>)
      modifies this
      ensures var u := UpdateOutcome(old(documents), id, p, now);
        && (u.Err? ==> r == Err(u.error) && documents == old(documents))
        && (u.Ok? ==> r == Ok(u.value.1) && documents == u.value.0)
      ensures users == old(users)
      ensures old(Valid()) ==> Valid()
    {
      var u := UpdateOutcome(documents, id, p, now);
      if u.Err? {
        return Err(u.error);
      }
      UpdateSpec(documents, id, p, now);
      documents := u.value.0;
      r := Ok(u.value.1);
    }

    /** `delete_document`: `delete_one`, and 404 when it deleted nothing. */
    method DeleteDocument(id: string) returns (r: Result<(), Status>)
      modifies this
      ensures var del := DeleteOutcome(old(documents), id);
        && (del.Err? ==> r == Err(del.error) && documents == old(documents))
        && (del.Ok? ==> r == Ok(()) && documents == del.value)
      ensures users == old(users)
      ensures old(Valid()) ==> Valid()
    {
      var del := DeleteOutcome(documents, id);
      if del.Err? {
        return Err(del.error);
      }
      if IdsUnique(documents) {
        DeleteSpec(documents, id);
      }
      documents := del.value;
      r := Ok(());
    }

    method GetStatistics() returns (r: Statistics)
      ensures r == Stats(users, documents)
    {
      r := Stats(users, documents);
    }
  }
}
