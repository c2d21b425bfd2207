/** The embedded SQLite store of frontend/app/utils/database.ts: a `users` table and a
    `documents` table behind a handle that exists only once the database has been
    opened. Every query the file issues is modelled by a function over the rows; the
    handle is a class whose methods run those queries and update the rows in place.
    Timestamps are ticks of a clock the caller supplies. */
module LocalStore {
  import opened Text
  import opened Seqs
  import opened Wrappers

  /** A column value; `None` is SQL NULL. */
  type Value = Option<string>

  datatype DbError =
    | NotInitialized    // getDatabase before initDatabase succeeded
    | OpenFailed        // openDatabaseAsync threw, and initDatabase rethrows
    | NotNullViolation  // a NOT NULL column would hold NULL
    | UniqueViolation   // a PRIMARY KEY or UNIQUE column would hold a duplicate
    | MalformedUpdate   // an update with no columns produces `SET , updated_at = ...`

  /** JavaScript truthiness of a string value: neither null/undefined nor empty. */
  predicate Truthy(v: Value)
  {
    v.Some? && v.value != []
  }

  // ===========================================================================
  // Users

  datatype User = User(id: Value, username: string, password: string, fullName: string,
                       role: Value, createdAt: nat)

  /** The object handed to `createUser`; a missing property is `None`. */
  datatype NewUser = NewUser(id: Value, username: Value, password: Value, fullName: Value, role: Value)

  /** The table's constraints: usernames are unique, and so are the ids that are not
      NULL (SQLite lets a TEXT primary key hold NULL, and NULLs never collide). */
  predicate UsersValid(users: seq<User>)
  {
    forall i, j :: 0 <= i < j < |users| ==>
      users[i].username != users[j].username && (users[i].id.Some? ==> users[i].id != users[j].id)
  }

  /** Some row already holds the username, or the id when it is not NULL. */
  predicate UserClash(users: seq<User>, username: string, id: Value)
  {
    exists i :: 0 <= i < |users| && (users[i].username == username || (id.Some? && users[i].id == id))
  }

  /** `INSERT INTO users`: the NOT NULL columns are checked first, then the unique
      username and the primary key. `role` is bound explicitly, so a missing role is
      stored as NULL rather than the column default; `created_at` takes the clock. */
  function InsertUser(users: seq<User>, u: NewUser, now: nat): (r: Result<seq<User>, DbError>)
    ensures r == Err(NotNullViolation) <==> u.username.None? || u.password.None? || u.fullName.None?
    ensures r == Err(UniqueViolation) <==>
      u.username.Some? && u.password.Some? && u.fullName.Some? && UserClash(users, u.username.value, u.id)
    ensures r.Ok? ==>
      r.value == users + [User(u.id, u.username.value, u.password.value, u.fullName.value, u.role, now)]
    ensures UsersValid(users) && r.Ok? ==> UsersValid(r.value)
  {
    if u.username.None? || u.password.None? || u.fullName.None? then Err(NotNullViolation)
    else if UserClash(users, u.username.value, u.id) then Err(UniqueViolation)
    else Ok(users + [User(u.id, u.username.value, u.password.value, u.fullName.value, u.role, now)])
  }

  /** `SELECT * FROM users WHERE username = ?` read with `getFirstAsync`. */
  function FindUser(users: seq<User>, username: string): (r: Option<User>)
    ensures r.Some? <==> exists i :: 0 <= i < |users| && users[i].username == username
    ensures r.Some? ==> r.value in users && r.value.username == username
  {
    if users == [] then None
    else if users[0].username == username then Some(users[0])
    else FindUser(users[1..], username)
  }

  /** Because usernames are unique, the lookup finds the one row holding the name. */
  lemma FindUserUnique(users: seq<User>, u: User)
    requires UsersValid(users) && u in users
    ensures FindUser(users, u.username) == Some(u)
  {
    var r := FindUser(users, u.username);
    var i :| 0 <= i < |users| && users[i] == u;
    var j :| 0 <= j < |users| && users[j] == r.value;
    assert i == j;
  }

  /** A user created successfully is the one the lookup by username then finds. */
  lemma InsertThenFind(users: seq<User>, u: NewUser, now: nat)
    requires UsersValid(users) && InsertUser(users, u, now).Ok?
    ensures FindUser(InsertUser(users, u, now).value, u.username.value)
      == Some(User(u.id, u.username.value, u.password.value, u.fullName.value, u.role, now))
  {
    var rows := InsertUser(users, u, now).value;
    FindUserUnique(rows, rows[|users|]);
  }

  // ===========================================================================
  // Documents

  /** The columns an API caller can supply or update, all of type TEXT. */
  datatype Field =
    | Title | Description | FileType | FileData | Category | OwnerName | LandType
    | Location | ExtractedText | Summary | AutoCategory | Keywords | Notes | UploadedBy

  /** The columns `createDocument` replaces by `''` when the value given is falsy. */
  predicate Defaulted(f: Field)
  {
    !(f.Title? || f.FileType? || f.FileData? || f.UploadedBy?)
  }

  /** `value || ''`. */
  function OrEmpty(v: Value): Value
  {
    if Truthy(v) then v else Some("")
  }

  /** A row of `documents`: the primary key, the TEXT columns, and the two timestamps. */
  datatype Doc = Doc(id: Value, cells: map<Field, Value>, createdAt: nat, updatedAt: nat)

  /** A column of a row; a column the row does not hold is NULL. */
  function Cell(d: Doc, f: Field): Value
  {
    if f in d.cells then d.cells[f] else None
  }

  /** A property of the object handed to `createDocument` or `updateDocument`. */
  function Get(fields: map<Field, Value>, f: Field): Value
  {
    if f in fields then fields[f] else None
  }

  /** The NOT NULL columns `title`, `file_type` and `file_data` all hold a value. */
  predicate RequiredPresent(d: Doc)
  {
    Cell(d, Title).Some? && Cell(d, FileType).Some? && Cell(d, FileData).Some?
  }

  predicate IdsUnique(docs: seq<Doc>)
  {
    forall i, j :: 0 <= i < j < |docs| && docs[i].id.Some? ==> docs[i].id != docs[j].id
  }

  predicate DocsValid(docs: seq<Doc>)
  {
    (forall i :: 0 <= i < |docs| ==> RequiredPresent(docs[i])) && IdsUnique(docs)
  }

  /** Some row has the (non-NULL) id. */
  predicate HasId(docs: seq<Doc>, id: string)
  {
    exists i :: 0 <= i < |docs| && docs[i].id == Some(id)
  }

  const AllFields: set<Field> := {Title, Description, FileType, FileData, Category, OwnerName,
    LandType, Location, ExtractedText, Summary, AutoCategory, Keywords, Notes, UploadedBy}

  lemma AllFieldsComplete()
    ensures forall f: Field :: f in AllFields
  {
    forall f: Field ensures f in AllFields {
      FieldListed(f);
    }
  }

  lemma FieldListed(f: Field)
    ensures f in AllFields
  {
  }

  /** The value `createDocument` binds for a column: `value || ''` for the defaulted
      columns, the value as given for the others. */
  function Fill(fields: map<Field, Value>, f: Field): Value
  {
    if Defaulted(f) then OrEmpty(Get(fields, f)) else Get(fields, f)
  }

  /** The row `createDocument` inserts: every column holds its bound value, and both
      timestamps are the insertion time. */
  function NewRow(id: Value, fields: map<Field, Value>, now: nat): (r: Doc)
    ensures r.id == id && r.createdAt == now && r.updatedAt == now
    ensures forall f :: Cell(r, f) == Fill(fields, f)
  {
    AllFieldsComplete();
    Doc(id, map f | f in AllFields :: Fill(fields, f), now, now)
  }

  /** The caller supplied `title`, `file_type` and `file_data`, which get no default. */
  predicate RequiredGiven(fields: map<Field, Value>)
  {
    Get(fields, Title).Some? && Get(fields, FileType).Some? && Get(fields, FileData).Some?
  }

  lemma NewRowRequired(id: Value, fields: map<Field, Value>, now: nat)
    ensures RequiredPresent(NewRow(id, fields, now)) <==> RequiredGiven(fields)
  {
  }

  /** Appending a row that has its NOT NULL columns and a fresh id keeps the constraints. */
  lemma AppendValid(docs: seq<Doc>, row: Doc)
    requires DocsValid(docs) && RequiredPresent(row)
    requires row.id.Some? ==> !HasId(docs, row.id.value)
    ensures DocsValid(docs + [row])
  {
    var r := docs + [row];
    forall i | 0 <= i < |docs| && docs[i].id.Some? ensures docs[i].id != row.id {
    }
  }

  /** `INSERT INTO documents`: NOT NULL first, then the primary key. */
  function InsertDocument(docs: seq<Doc>, id: Value, fields: map<Field, Value>, now: nat): (r: Result<seq<Doc>, DbError>)
    ensures r == Err(NotNullViolation) <==> !RequiredGiven(fields)
    ensures r == Err(UniqueViolation) <==> RequiredGiven(fields) && id.Some? && HasId(docs, id.value)
    ensures r.Ok? ==> r.value == docs + [NewRow(id, fields, now)]
  {
    if !RequiredGiven(fields) then Err(NotNullViolation)
    else if id.Some? && HasId(docs, id.value) then Err(UniqueViolation)
    else Ok(docs + [NewRow(id, fields, now)])
  }

  /** A successful insert keeps the table's constraints. */
  lemma InsertDocumentValid(docs: seq<Doc>, id: Value, fields: map<Field, Value>, now: nat)
    requires DocsValid(docs) && InsertDocument(docs, id, fields, now).Ok?
    ensures DocsValid(InsertDocument(docs, id, fields, now).value)
  {
    NewRowRequired(id, fields, now);
    AppendValid(docs, NewRow(id, fields, now));
  }

  /** `SELECT * FROM documents WHERE id = ?` read with `getFirstAsync`. */
  function FindDoc(docs: seq<Doc>, id: string): (r: Option<Doc>)
    ensures r.Some? <==> HasId(docs, id)
    ensures r.Some? ==> r.value in docs && r.value.id == Some(id)
  {
    if docs == [] then None
    else if docs[0].id == Some(id) then Some(docs[0])
    else FindDoc(docs[1..], id)
  }

  /** With unique ids the lookup finds the one row holding the id. */
  lemma FindDocUnique(docs: seq<Doc>, d: Doc, id: string)
    requires IdsUnique(docs) && d in docs && d.id == Some(id)
    ensures FindDoc(docs, id) == Some(d)
  {
    var r := FindDoc(docs, id);
    var i :| 0 <= i < |docs| && docs[i] == d;
    var j :| 0 <= j < |docs| && docs[j] == r.value;
    assert i == j;
  }

  // ---------------------------------------------------------------------------
  // Listing and search

  /** The optional filters of `getAllDocuments` and `searchDocuments`; the search
      ignores `limit`. */
  datatype Filters = Filters(category: Value, landType: Value, limit: Option<int>)

  /** The row equals every filter that is truthy. */
  predicate Matches(d: Doc, f: Filters)
  {
    (Truthy(f.category) ==> Cell(d, Category) == f.category)
    && (Truthy(f.landType) ==> Cell(d, LandType) == f.landType)
  }

  function MatchesFilters(f: Filters): Doc -> bool
  {
    (d: Doc) => Matches(d, f)
  }

  /** The key of `ORDER BY created_at DESC`. */
  function CreatedKey(): Doc -> int
  {
    (d: Doc) => d.createdAt
  }

  function NewestFirst(docs: seq<Doc>): seq<Doc>
  {
    SortDesc(docs, CreatedKey())
  }

  /** A truthy limit adds `LIMIT n`; SQLite reads a negative limit as no limit. */
  function Limit(rows: seq<Doc>, limit: Option<int>): seq<Doc>
  {
    if limit.Some? && limit.value > 0 then Take(rows, limit.value) else rows
  }

  predicate Limited(limit: Option<int>)
  {
    limit.Some? && limit.value > 0
  }

  /** `getAllDocuments`. */
  function Listing(docs: seq<Doc>, f: Filters): seq<Doc>
  {
    Limit(NewestFirst(Filter(docs, MatchesFilters(f))), f.limit)
  }

  lemma ListingSpec(docs: seq<Doc>, f: Filters)
    ensures var r := Listing(docs, f);
      && (forall i :: 0 <= i < |r| ==> r[i] in docs && Matches(r[i], f))
      && SortedDesc(r, CreatedKey())
      && (Limited(f.limit) ==> |r| <= f.limit.value)
      && (!Limited(f.limit) ==> forall d :: d in docs && Matches(d, f) ==> d in r)
      && (forall d, i :: d in docs && Matches(d, f) && 0 <= i < |r| && d.createdAt > r[i].createdAt ==> d in r)
      && multiset(r) <= multiset(docs)
      && (!Limited(f.limit) ==> forall d :: d in docs && Matches(d, f) ==> multiset(r)[d] == multiset(docs)[d])
  {
    var p, key := MatchesFilters(f), CreatedKey();
    var s := NewestFirst(Filter(docs, p));
    var n: nat := if Limited(f.limit) then f.limit.value else |s|;
    var r := Listing(docs, f);
    ListingIsTop(docs, f);
    assert r == Take(SortDesc(Filter(docs, p), key), n);
    TopOfSelection(docs, p, key, n);
    forall d | d in docs ensures p(d) == Matches(d, f) && key(d) == d.createdAt {
    }
    assert forall i :: 0 <= i < |r| ==> r[i] in docs && Matches(r[i], f);
    assert !Limited(f.limit) ==> forall d :: d in docs && Matches(d, f) ==> d in r;
    assert forall d, i :: d in docs && Matches(d, f) && 0 <= i < |r| && d.createdAt > r[i].createdAt ==> d in r;
    ListingCounts(docs, f);
  }

  /** The listing is the first `n` of the newest-first selection, where `n` is the limit
      when one applies and the whole selection otherwise. */
  lemma ListingIsTop(docs: seq<Doc>, f: Filters)
    ensures var s := NewestFirst(Filter(docs, MatchesFilters(f)));
      Listing(docs, f) == Take(s, if Limited(f.limit) then f.limit.value else |s|)
  {
  }

  /** No row is listed more often than it is stored, and without a limit every matching
      row is listed as often as it is stored. */
  lemma ListingCounts(docs: seq<Doc>, f: Filters)
    ensures multiset(Listing(docs, f)) <= multiset(docs)
    ensures !Limited(f.limit) ==> forall d :: d in docs && Matches(d, f) ==>
      multiset(Listing(docs, f))[d] == multiset(docs)[d]
  {
    var p, key := MatchesFilters(f), CreatedKey();
    var s := NewestFirst(Filter(docs, p));
    var n: nat := if Limited(f.limit) then f.limit.value else |s|;
    ListingIsTop(docs, f);
    TopOfSelectionCounts(docs, p, key, n);
    forall d | d in docs ensures p(d) == Matches(d, f) {
    }
  }

  /** SQLite's default LIKE: substring match that ignores ASCII case; NULL never matches.
      (The query is assumed to hold no `%` or `_`.) */
  predicate Like(v: Value, query: string)
  {
    v.Some? && Contains(Lower(v.value), Lower(query))
  }

  /** The OR over the six searched columns. */
  predicate SearchHit(d: Doc, query: string)
  {
    Like(Cell(d, Title), query) || Like(Cell(d, Description), query)
    || Like(Cell(d, ExtractedText), query) || Like(Cell(d, OwnerName), query)
    || Like(Cell(d, Location), query) || Like(Cell(d, Keywords), query)
  }

  /** A row the search returns: it hits the query and passes the filters. */
  predicate Searched(d: Doc, query: string, f: Filters)
  {
    SearchHit(d, query) && Matches(d, f)
  }

  function SearchFilter(query: string, f: Filters): Doc -> bool
  {
    (d: Doc) => Searched(d, query, f)
  }

  /** `searchDocuments`: newest first, at most 100 rows. */
  function SearchResults(docs: seq<Doc>, query: string, f: Filters): seq<Doc>
  {
    Take(NewestFirst(Filter(docs, SearchFilter(query, f))), 100)
  }

  lemma SearchSpec(docs: seq<Doc>, query: string, f: Filters)
    ensures var r := SearchResults(docs, query, f);
      && (forall i :: 0 <= i < |r| ==> r[i] in docs && Searched(r[i], query, f))
      && SortedDesc(r, CreatedKey())
      && |r| <= 100
      && (|Filter(docs, SearchFilter(query, f))| <= 100 ==> forall d :: d in docs && Searched(d, query, f) ==> d in r)
      && (forall d, i :: d in docs && Searched(d, query, f) && 0 <= i < |r| && d.createdAt > r[i].createdAt ==> d in r)
      && multiset(r) <= multiset(docs)
      && (|Filter(docs, SearchFilter(query, f))| <= 100 ==>
            forall d :: d in docs && Searched(d, query, f) ==> multiset(r)[d] == multiset(docs)[d])
  {
    var p, key := SearchFilter(query, f), CreatedKey();
    TopOfSelection(docs, p, key, 100);
    TopOfSelectionCounts(docs, p, key, 100);
    forall d | d in docs ensures p(d) == Searched(d, query, f) && key(d) == d.createdAt {
    }
  }

  // ---------------------------------------------------------------------------
  // Update and delete

  /** The row after `SET <columns>, updated_at = CURRENT_TIMESTAMP`. */
  function Patched(d: Doc, patch: map<Field, Value>, now: nat): (r: Doc)
    ensures r.id == d.id && r.createdAt == d.createdAt && r.updatedAt == now
    ensures forall g :: Cell(r, g) == if g in patch then patch[g] else Cell(d, g)
  {
    d.(cells := d.cells + patch, updatedAt := now)
  }

  /** Every row with the id is patched and every other row is left alone. */
  function UpdateRows(docs: seq<Doc>, id: string, patch: map<Field, Value>, now: nat): (r: seq<Doc>)
    ensures |r| == |docs|
    ensures forall i :: 0 <= i < |docs| ==> r[i].id == docs[i].id && r[i].createdAt == docs[i].createdAt
    ensures forall i :: 0 <= i < |docs| && docs[i].id != Some(id) ==> r[i] == docs[i]
    ensures forall i, g :: 0 <= i < |docs| && docs[i].id == Some(id) ==>
      Cell(r[i], g) == (if g in patch then patch[g] else Cell(docs[i], g)) && r[i].updatedAt == now
    ensures IdsUnique(docs) ==> IdsUnique(r)
  {
    seq(|docs|, i requires 0 <= i < |docs| =>
      if docs[i].id == Some(id) then Patched(docs[i], patch, now) else docs[i])
  }

  /** The patch sets one of the NOT NULL columns to NULL. */
  predicate ClearsRequired(patch: map<Field, Value>)
  {
    (Title in patch && patch[Title].None?) || (FileType in patch && patch[FileType].None?)
    || (FileData in patch && patch[FileData].None?)
  }

  /** `updateDocument`: an empty patch is a syntax error, a NOT NULL column set to NULL
      on a row that exists is a constraint error, and an unknown id changes nothing. */
  function ApplyUpdate(docs: seq<Doc>, id: string, patch: map<Field, Value>, now: nat): (r: Result<seq<Doc>, DbError>)
    ensures r == Err(MalformedUpdate) <==> patch == map[]
    ensures r == Err(NotNullViolation) <==> patch != map[] && HasId(docs, id) && ClearsRequired(patch)
    ensures r.Ok? ==> r.value == UpdateRows(docs, id, patch, now)
    ensures r.Ok? && DocsValid(docs) ==> DocsValid(r.value)
  {
    if patch == map[] then Err(MalformedUpdate)
    else if HasId(docs, id) && ClearsRequired(patch) then Err(NotNullViolation)
    else
      var rows := UpdateRows(docs, id, patch, now);
      assert forall i :: 0 <= i < |docs| ==> rows[i].id == docs[i].id;
      Ok(rows)
  }

  /** Updating an id no row has leaves the table as it was. */
  lemma UpdateUnknownId(docs: seq<Doc>, id: string, patch: map<Field, Value>, now: nat)
    requires !HasId(docs, id)
    ensures UpdateRows(docs, id, patch, now) == docs
  {
  }

  /** After an update the lookup by id finds the patched row. */
  lemma UpdateThenFind(docs: seq<Doc>, d: Doc, id: string, patch: map<Field, Value>, now: nat)
    requires IdsUnique(docs) && d in docs && d.id == Some(id)
    ensures FindDoc(UpdateRows(docs, id, patch, now), id) == Some(Patched(d, patch, now))
  {
    var rows := UpdateRows(docs, id, patch, now);
    var i :| 0 <= i < |docs| && docs[i] == d;
    assert rows[i] == Patched(d, patch, now);
    assert forall k :: 0 <= k < |rows| ==> rows[k].id == docs[k].id;
    FindDocUnique(rows, rows[i], id);
  }

  function IdIsNot(id: string): Doc -> bool
  {
    (d: Doc) => d.id != Some(id)
  }

  /** `DELETE FROM documents WHERE id = ?`. */
  function RemoveId(docs: seq<Doc>, id: string): seq<Doc>
  {
    Filter(docs, IdIsNot(id))
  }

  lemma TailIdsUnique(docs: seq<Doc>)
    requires docs != [] && IdsUnique(docs)
    ensures IdsUnique(docs[1..])
    ensures forall k :: 1 <= k < |docs| && docs[0].id.Some? ==> docs[k].id != docs[0].id
  {
    var tail := docs[1..];
    forall i, j | 0 <= i < j < |tail| && tail[i].id.Some? ensures tail[i].id != tail[j].id {
      assert tail[i] == docs[i + 1] && tail[j] == docs[j + 1];
    }
  }

  lemma ConsIdsUnique(x: Doc, rest: seq<Doc>)
    requires IdsUnique(rest)
    requires forall j :: 0 <= j < |rest| && x.id.Some? ==> rest[j].id != x.id
    ensures IdsUnique([x] + rest)
  {
    var s := [x] + rest;
    forall i, j | 0 <= i < j < |s| && s[i].id.Some? ensures s[i].id != s[j].id {
      assert s[j] == rest[j - 1];
      if i > 0 {
        assert s[i] == rest[i - 1];
      }
    }
  }

  /** Deleting rows keeps the primary key unique. */
  lemma {:induction false} FilterIdsUnique(docs: seq<Doc>, p: Doc -> bool)
    requires IdsUnique(docs)
    ensures IdsUnique(Filter(docs, p))
  {
    if docs != [] {
      var tail := docs[1..];
      var rest := Filter(tail, p);
      TailIdsUnique(docs);
      FilterIdsUnique(tail, p);
      forall j | 0 <= j < |rest| && docs[0].id.Some? ensures rest[j].id != docs[0].id {
        FilterMember(tail, p, rest[j]);
        var k :| 0 <= k < |tail| && tail[k] == rest[j];
        assert docs[k + 1] == rest[j];
      }
      if p(docs[0]) {
        ConsIdsUnique(docs[0], rest);
      }
    }
  }

  /** Deleting rows keeps the table's constraints. */
  lemma FilterDocsValid(docs: seq<Doc>, p: Doc -> bool)
    requires DocsValid(docs)
    ensures DocsValid(Filter(docs, p))
  {
    FilterIdsUnique(docs, p);
    var r := Filter(docs, p);
    forall i | 0 <= i < |r| ensures RequiredPresent(r[i]) {
      FilterMember(docs, p, r[i]);
    }
  }

  /** Exactly the rows with the id disappear, and an unknown id changes nothing. */
  lemma RemoveIdSpec(docs: seq<Doc>, id: string)
    ensures forall d :: d in RemoveId(docs, id) <==> d in docs && d.id != Some(id)
    ensures !HasId(docs, id) ==> RemoveId(docs, id) == docs
    ensures DocsValid(docs) ==> DocsValid(RemoveId(docs, id))
    ensures FindDoc(RemoveId(docs, id), id).None?
  {
    forall d ensures d in RemoveId(docs, id) <==> d in docs && d.id != Some(id) {
      FilterMember(docs, IdIsNot(id), d);
    }
    if !HasId(docs, id) {
      FilterAll(docs, IdIsNot(id));
    }
    if DocsValid(docs) {
      FilterDocsValid(docs, IdIsNot(id));
    }
  }

  // ---------------------------------------------------------------------------
  // Statistics

  datatype RecentDoc = RecentDoc(id: Value, title: Value, createdAt: nat)

  datatype Statistics = Statistics(totalDocuments: nat, totalUsers: nat,
                                   byCategory: seq<(string, nat)>, recentDocuments: seq<RecentDoc>)

  predicate HasCategory(d: Doc)
  {
    Truthy(Cell(d, AutoCategory))
  }

  /** The `auto_category` of every row where it is neither NULL nor empty, in row order. */
  function CategoryValues(docs: seq<Doc>): (r: seq<string>)
    ensures |r| == |Filter(docs, HasCategory)|
    ensures forall i :: 0 <= i < |r| ==> r[i] != []
  {
    var c := Filter(docs, HasCategory);
    seq(|c|, i requires 0 <= i < |c| => Cell(c[i], AutoCategory).value)
  }

  lemma CategoryValuesMember(docs: seq<Doc>, c: string)
    ensures c in CategoryValues(docs) <==> exists d :: d in docs && Cell(d, AutoCategory) == Some(c) && c != []
  {
    var sel := Filter(docs, HasCategory);
    var r := CategoryValues(docs);
    if c in r {
      var i :| 0 <= i < |r| && r[i] == c;
      FilterMember(docs, HasCategory, sel[i]);
    }
    if exists d :: d in docs && Cell(d, AutoCategory) == Some(c) && c != [] {
      var d :| d in docs && Cell(d, AutoCategory) == Some(c) && c != [];
      FilterMember(docs, HasCategory, d);
      var i :| 0 <= i < |sel| && sel[i] == d;
      assert r[i] == c;
    }
  }

  /** `GROUP BY auto_category` over the rows that have one, one group per distinct
      value in order of first appearance. */
  function ByCategory(docs: seq<Doc>): seq<(string, nat)>
  {
    Tally(Dedup(CategoryValues(docs)), CategoryValues(docs))
  }

  /** One group per distinct non-empty category, each counting its rows, and the counts
      add up to the number of rows that have a category. */
  lemma ByCategorySpec(docs: seq<Doc>)
    ensures var g := ByCategory(docs);
      && (forall i, j :: 0 <= i < j < |g| ==> g[i].0 != g[j].0)
      && (forall i :: 0 <= i < |g| ==> g[i].1 == multiset(CategoryValues(docs))[g[i].0] && g[i].1 > 0)
      && (forall d :: d in docs && HasCategory(d) ==> exists i :: 0 <= i < |g| && g[i].0 == Cell(d, AutoCategory).value)
      && (forall i :: 0 <= i < |g| ==> exists d :: d in docs && Cell(d, AutoCategory) == Some(g[i].0) && g[i].0 != [])
      && SumCounts(g) == |Filter(docs, HasCategory)|
  {
    GroupsFromRows(docs);
    RowsInGroups(docs);
    GroupsCoverAll(CategoryValues(docs));
  }

  lemma GroupsFromRows(docs: seq<Doc>)
    ensures var g := ByCategory(docs);
      forall i :: 0 <= i < |g| ==> g[i].1 > 0 && exists d :: d in docs && Cell(d, AutoCategory) == Some(g[i].0) && g[i].0 != []
  {
    var vals := CategoryValues(docs);
    var keys := Dedup(vals);
    var g := ByCategory(docs);
    forall i | 0 <= i < |g| ensures g[i].1 > 0 && exists d :: d in docs && Cell(d, AutoCategory) == Some(g[i].0) && g[i].0 != [] {
      DedupMember(vals, keys[i]);
      CategoryValuesMember(docs, keys[i]);
    }
  }

  lemma RowsInGroups(docs: seq<Doc>)
    ensures var g := ByCategory(docs);
      forall d :: d in docs && HasCategory(d) ==> exists i :: 0 <= i < |g| && g[i].0 == Cell(d, AutoCategory).value
  {
    var vals := CategoryValues(docs);
    var keys := Dedup(vals);
    var g := ByCategory(docs);
    forall d | d in docs && HasCategory(d) ensures exists i :: 0 <= i < |g| && g[i].0 == Cell(d, AutoCategory).value {
      var c := Cell(d, AutoCategory).value;
      CategoryValuesMember(docs, c);
      DedupMember(vals, c);
      var i :| 0 <= i < |keys| && keys[i] == c;
      assert g[i].0 == c;
    }
  }

  /** The five newest rows, reduced to id, title and creation time. */
  function RecentOf(docs: seq<Doc>): (r: seq<RecentDoc>)
    ensures |r| == if |docs| < 5 then |docs| else 5
  {
    var top := Take(NewestFirst(docs), 5);
    seq(|top|, i requires 0 <= i < |top| => Brief(top[i]))
  }

  /** `SELECT id, title, created_at` of one row. */
  function Brief(d: Doc): RecentDoc
  {
    RecentDoc(d.id, Cell(d, Title), d.createdAt)
  }

  /** Each recent entry describes a stored row, newest first, and no row newer than a
      listed one is left out. */
  lemma RecentSpec(docs: seq<Doc>)
    ensures var r := RecentOf(docs);
      && (forall x :: x in r ==> exists d :: d in docs && x == Brief(d))
      && (forall i, j :: 0 <= i < j < |r| ==> r[i].createdAt >= r[j].createdAt)
      && (forall d, i :: d in docs && 0 <= i < |r| && d.createdAt > r[i].createdAt ==> Brief(d) in r)
      && multiset(r) <= multiset(Images(docs, Brief))
      && (|docs| <= 5 ==> multiset(r) == multiset(Images(docs, Brief)))
  {
    TopProjected(docs, CreatedKey(), 5, Brief, RecentCreated, RecentOf(docs));
  }

  function RecentCreated(x: RecentDoc): int
  {
    x.createdAt
  }

  /** `COUNT(*)` of each table, the category groups and the five newest rows; the
      `|| 0` of the source never fires, since a count is a number. */
  function Stats(users: seq<User>, docs: seq<Doc>): (r: Statistics)
    ensures r.totalDocuments == |docs| && r.totalUsers == |users|
    ensures |r.recentDocuments| <= 5
  {
    Statistics(|docs|, |users|, ByCategory(docs), RecentOf(docs))
  }

  // ===========================================================================
  // The database handle

  class LocalDatabase {
    /** The module-level handle is set. */
    var initialised: bool
    var users: seq<User>
    var documents: seq<Doc>

    ghost predicate Valid()
      reads this
    {
      UsersValid(users) && DocsValid(documents)
    }

    /** The tables as they already are in the database file, before it is opened. */
    constructor (storedUsers: seq<User>, storedDocuments: seq<Doc>)
      requires UsersValid(storedUsers) && DocsValid(storedDocuments)
      ensures Valid() && !initialised && users == storedUsers && documents == storedDocuments
    {
      initialised := false;
      users := storedUsers;
      documents := storedDocuments;
    }

    /** `initDatabase`: opening sets the handle; the tables and indexes are created only
        if missing, so the rows are never touched. A failed open rethrows. */
    method InitDatabase(openSucceeds: bool) returns (r: Result<(), DbError>)
      modifies this
      ensures users == old(users) && documents == old(documents)
      ensures openSucceeds ==> initialised && r == Ok(())
      ensures !openSucceeds ==> initialised == old(initialised) && r == Err(OpenFailed)
    {
      if !openSucceeds {
        return Err(OpenFailed);
      }
      initialised := true;
      r := Ok(());
    }

    method CreateUser(u: NewUser, now: nat) returns (r: Result<(), DbError>)
      requires Valid()
      modifies this
      ensures Valid() && initialised == old(initialised) && documents == old(documents)
      ensures !initialised ==> r == Err(NotInitialized) && users == old(users)
      ensures initialised ==> var ins := InsertUser(old(users), u, now);
        && (r.Ok? <==> ins.Ok?)
        && (ins.Ok? ==> users == ins.value)
        && (ins.Err? ==> r == Err(ins.error) && users == old(users))
    {
      if !initialised {
        return Err(NotInitialized);
      }
      var ins := InsertUser(users, u, now);
      if ins.Err? {
        return Err(ins.error);
      }
      users := ins.value;
      r := Ok(());
    }

    method FindUserByUsername(username: string) returns (r: Result<Option<User>, DbError>)
      ensures !initialised ==> r == Err(NotInitialized)
      ensures initialised ==> r == Ok(FindUser(users, username))
    {
      if !initialised {
        return Err(NotInitialized);
      }
      r := Ok(FindUser(users, username));
    }

    method GetAllUsers() returns (r: Result<seq<User>, DbError>)
      ensures !initialised ==> r == Err(NotInitialized)
      ensures initialised ==> r == Ok(users)
    {
      if !initialised {
        return Err(NotInitialized);
      }
      r := Ok(users);
    }

    method CreateDocument(id: Value, fields: map<Field, Value>, now: nat) returns (r: Result<(), DbError>)
      requires Valid()
      modifies this
      ensures Valid() && initialised == old(initialised) && users == old(users)
      ensures !initialised ==> r == Err(NotInitialized) && documents == old(documents)
      ensures initialised ==> var ins := InsertDocument(old(documents), id, fields, now);
        && (r.Ok? <==> ins.Ok?)
        && (ins.Ok? ==> documents == ins.value)
        && (ins.Err? ==> r == Err(ins.error) && documents == old(documents))
    {
      if !initialised {
        return Err(NotInitialized);
      }
      var ins := InsertDocument(documents, id, fields, now);
      if ins.Err? {
        return Err(ins.error);
      }
      InsertDocumentValid(documents, id, fields, now);
      documents := ins.value;
      r := Ok(());
    }

    method GetAllDocuments(f: Filters) returns (r: Result<seq<Doc>, DbError>)
      ensures !initialised ==> r == Err(NotInitialized)
      ensures initialised ==> r == Ok(Listing(documents, f))
    {
      if !initialised {
        return Err(NotInitialized);
      }
      r := Ok(Listing(documents, f));
    }

    method GetDocumentById(id: string) returns (r: Result<Option<Doc>, DbError>)
      ensures !initialised ==> r == Err(NotInitialized)
      ensures initialised ==> r == Ok(FindDoc(documents, id))
    {
      if !initialised {
        return Err(NotInitialized);
      }
      r := Ok(FindDoc(documents, id));
    }

    method UpdateDocument(id: string, patch: map<Field, Value>, now: nat) returns (r: Result<(), DbError>)
      requires Valid()
      modifies this
      ensures Valid() && initialised == old(initialised) && users == old(users)
      ensures !initialised ==> r == Err(NotInitialized) && documents == old(documents)
      ensures initialised ==> var upd := ApplyUpdate(old(documents), id, patch, now);
        && (r.Ok? <==> upd.Ok?)
        && (upd.Ok? ==> documents == upd.value)
        && (upd.Err? ==> r == Err(upd.error) && documents == old(documents))
    {
      if !initialised {
        return Err(NotInitialized);
      }
      var upd := ApplyUpdate(documents, id, patch, now);
      if upd.Err? {
        return Err(upd.error);
      }
      documents := upd.value;
      r := Ok(());
    }

    method DeleteDocument(id: string) returns (r: Result<(), DbError>)
      requires Valid()
      modifies this
      ensures Valid() && initialised == old(initialised) && users == old(users)
      ensures !initialised ==> r == Err(NotInitialized) && documents == old(documents)
      ensures initialised ==> r == Ok(()) && documents == RemoveId(old(documents), id)
    {
      if !initialised {
        return Err(NotInitialized);
      }
      RemoveIdSpec(documents, id);
      documents := RemoveId(documents, id);
      r := Ok(());
    }

    method SearchDocuments(query: string, f: Filters) returns (r: Result<seq<Doc>, DbError>)
      ensures !initialised ==> r == Err(NotInitialized)
      ensures initialised ==> r == Ok(SearchResults(documents, query, f))
    {
      if !initialised {
        return Err(NotInitialized);
      }
      r := Ok(SearchResults(documents, query, f));
    }

    method GetStatistics() returns (r: Result<Statistics, DbError>)
      ensures !initialised ==> r == Err(NotInitialized)
      ensures initialised ==> r == Ok(Stats(users, documents))
    {
      if !initialised {
        return Err(NotInitialized);
      }
      r := Ok(Stats(users, documents));
    }
  }
}
