/**
 The server's in-memory book store (src/storage.rs): a map from id to book
 and a counter that hands out the next id.

 The shared `Arc<RwLock<..>>` wrapping is dropped: the repository is a plain
 value and every operation returns the repository it leaves behind.
 */
module Storage {
  import opened Options
  import opened Models

  datatype Repository = Repository(db: map<U32, Book>, nextId: U32)

  /**
   The repository invariant: every stored key lies below the counter, so the
   counter is always a fresh id, and every book is stored under its own id.
   */
  predicate Valid(repo: Repository) {
    && 1 <= repo.nextId
    && forall id :: id in repo.db ==> id < repo.nextId && repo.db[id].id == id
  }

  /** `BookRepository::new`: no books, ids start at 1. */
  function New(): (repo: Repository)
    ensures Valid(repo)
    ensures repo.db == map[] && repo.nextId == 1
  {
    Repository(map[], 1)
  }

  /** The keys of `db` below `n`, in ascending order. */
  function KeysBelow(db: map<U32, Book>, n: nat): (ks: seq<U32>)
    ensures forall i :: 0 <= i < |ks| ==> ks[i] in db && ks[i] < n
    ensures forall i, j :: 0 <= i < j < |ks| ==> ks[i] < ks[j]
    ensures forall k :: k in db && k < n ==> k in ks
  {
    if n == 0 then []
    else
      var ks := KeysBelow(db, n - 1);
      if n - 1 in db then ks + [(n - 1) as U32] else ks
  }

  ghost function Elements(ks: seq<U32>): set<U32> {
    set k | k in ks
  }

  /** A strictly ascending sequence has as many elements as distinct values. */
  lemma {:induction false} AscendingCardinality(ks: seq<U32>)
    requires forall i, j :: 0 <= i < j < |ks| ==> ks[i] < ks[j]
    ensures |Elements(ks)| == |ks|
  {
    if ks != [] {
      var last := ks[|ks| - 1];
      var init := ks[..|ks| - 1];
      AscendingCardinality(init);
      assert ks == init + [last];
      assert Elements(ks) == Elements(init) + {last};
      assert last !in Elements(init);
    }
  }

  /**
   `get_all`: the stored books. The source iterates a `HashMap`, whose
   order is unspecified; ascending key order is one admissible order.
   */
  function GetAll(repo: Repository): (books: seq<Book>)
    ensures forall i :: 0 <= i < |books| ==> books[i] in repo.db.Values
  {
    var ks := KeysBelow(repo.db, repo.nextId);
    seq(|ks|, i requires 0 <= i < |ks| => repo.db[ks[i]])
  }

  /**
   In a valid repository `get_all` lists every stored book exactly once:
   as many books as entries, each entry's book among them, ids ascending.
   */
  lemma GetAllListsEveryBook(repo: Repository)
    requires Valid(repo)
    ensures |GetAll(repo)| == |repo.db|
    ensures forall id :: id in repo.db ==> repo.db[id] in GetAll(repo)
    ensures forall i, j :: 0 <= i < j < |GetAll(repo)| ==> GetAll(repo)[i].id < GetAll(repo)[j].id
  {
    var ks := KeysBelow(repo.db, repo.nextId);
    var books := GetAll(repo);
    AscendingCardinality(ks);
    assert Elements(ks) == repo.db.Keys;
    forall id | id in repo.db
      ensures repo.db[id] in books
    {
      var i :| 0 <= i < |ks| && ks[i] == id;
      assert books[i] == repo.db[id];
    }
  }

  /** `get_by_id`: the book stored under `id`, if any. */
  function GetById(repo: Repository, id: U32): (r: Option<Book>)
    ensures r.Some? <==> id in repo.db
    ensures Valid(repo) && r.Some? ==> r.value.id == id
  {
    if id in repo.db then Some(repo.db[id]) else None
  }

  /**
   `create`: the book takes the current counter as its id and the DTO's
   fields unchanged; the counter moves on by one. The counter must not be
   at `u32::MAX`, where the increment would overflow.
   */
  function Create(repo: Repository, dto: CreateBookDto): (r: (Repository, Book))
    requires repo.nextId < U32_MAX
    ensures r.1.id == repo.nextId && r.0.nextId == repo.nextId + 1
    ensures r.1.title == dto.title && r.1.author == dto.author
    ensures r.1.publishedYear == dto.publishedYear && r.1.genre == dto.genre && r.1.isbn == dto.isbn
    ensures r.0.db.Keys == repo.db.Keys + {r.1.id} && r.0.db[r.1.id] == r.1
    ensures forall k :: k in repo.db && k != r.1.id ==> r.0.db[k] == repo.db[k]
    ensures Valid(repo) ==> r.1.id !in repo.db && Valid(r.0)
  {
    var id := repo.nextId;
    var book := Book(id, dto.title, dto.author, dto.publishedYear, dto.genre, dto.isbn);
    (Repository(repo.db[id := book], id + 1), book)
  }

  /**
   `update`: title and author change only when the DTO supplies them, while
   year, genre and isbn are overwritten unconditionally, `None` included.
   */
  function Update(repo: Repository, id: U32, dto: UpdateBookDto): (r: (Repository, Option<Book>))
    ensures r.1.None? <==> id !in repo.db
    ensures r.1.None? ==> r.0 == repo
    ensures r.1.Some? ==>
      var (b, b') := (repo.db[id], r.1.value);
      && b'.id == b.id
      && b'.title == (if dto.title.Some? then dto.title.value else b.title)
      && b'.author == (if dto.author.Some? then dto.author.value else b.author)
      && b'.publishedYear == dto.publishedYear
      && b'.genre == dto.genre
      && b'.isbn == dto.isbn
      && r.0.db == repo.db[id := b']
    ensures r.0.nextId == repo.nextId && r.0.db.Keys == repo.db.Keys
    ensures forall k :: k in repo.db && k != id ==> r.0.db[k] == repo.db[k]
    ensures Valid(repo) ==> Valid(r.0)
  {
    if id in repo.db then
      var book := repo.db[id];
      var updated := book.(
        title := dto.title.UnwrapOr(book.title),
        author := dto.author.UnwrapOr(book.author),
        publishedYear := dto.publishedYear,
        genre := dto.genre,
        isbn := dto.isbn);
      (repo.(db := repo.db[id := updated]), Some(updated))
    else
      (repo, None)
  }

  /** `delete`: removes `id` and reports whether anything was removed. */
  function Delete(repo: Repository, id: U32): (r: (Repository, bool))
    ensures r.1 <==> id in repo.db
    ensures r.0.db.Keys == repo.db.Keys - {id}
    ensures forall k :: k in r.0.db ==> r.0.db[k] == repo.db[k]
    ensures r.0.nextId == repo.nextId
    ensures Valid(repo) ==> Valid(r.0)
  {
    (repo.(db := repo.db - {id}), id in repo.db)
  }

  /** `get_by_id` and `get_all` agree: a lookup hits exactly the listed book with that id. */
  lemma GetByIdAgreesWithGetAll(repo: Repository, id: U32, b: Book)
    requires Valid(repo)
    ensures GetById(repo, id) == Some(b) <==> b in GetAll(repo) && b.id == id
  {
    var books := GetAll(repo);
    GetAllListsEveryBook(repo);
    if b in books && b.id == id {
      var i :| 0 <= i < |books| && books[i] == b;
      assert books[i] in repo.db.Values;
    }
  }

  /** A created book is immediately readable under its new id. */
  lemma CreateThenGet(repo: Repository, dto: CreateBookDto)
    requires repo.nextId < U32_MAX
    ensures var (repo', book) := Create(repo, dto); GetById(repo', book.id) == Some(book)
  {
  }

  /** After a delete the id is gone, and a second delete of it reports false. */
  lemma DeleteTwice(repo: Repository, id: U32)
    ensures GetById(Delete(repo, id).0, id).None?
    ensures !Delete(Delete(repo, id).0, id).1
  {
  }

  /** Updating twice with the same DTO is the same as updating once. */
  lemma UpdateIdempotent(repo: Repository, id: U32, dto: UpdateBookDto)
    ensures var once := Update(repo, id, dto); Update(once.0, id, dto) == once
  {
    var once := Update(repo, id, dto);
    if id in repo.db {
      var b := once.1.value;
      assert once.0.db[id] == b;
      assert b.(title := dto.title.UnwrapOr(b.title), author := dto.author.UnwrapOr(b.author)) == b;
      assert once.0.db[id := b] == once.0.db;
    }
  }

  /** A book changes nothing on an update whose DTO restates all its fields. */
  lemma UpdateWithOwnFieldsIsIdentity(repo: Repository, id: U32)
    requires id in repo.db
    ensures
      var b := repo.db[id];
      var dto := UpdateBookDto(Some(b.title), Some(b.author), b.publishedYear, b.genre, b.isbn);
      Update(repo, id, dto) == (repo, Some(b))
  {
    var b := repo.db[id];
    assert repo.db[id := b] == repo.db;
  }

  /** One request against the store, as a state transition. */
  datatype Command =
    | CreateCmd(createDto: CreateBookDto)
    | UpdateCmd(id: U32, updateDto: UpdateBookDto)
    | DeleteCmd(id: U32)

  function Apply(repo: Repository, cmd: Command): (repo': Repository)
    requires repo.nextId < U32_MAX
    ensures repo.nextId <= repo'.nextId <= repo.nextId + 1
  {
    match cmd
    case CreateCmd(dto) => Create(repo, dto).0
    case UpdateCmd(id, dto) => Update(repo, id, dto).0
    case DeleteCmd(id) => Delete(repo, id).0
  }

  /** A sequence of requests, short enough that the counter never overflows. */
  function Run(repo: Repository, cmds: seq<Command>): (repo': Repository)
    requires repo.nextId + |cmds| <= U32_MAX
    ensures repo.nextId <= repo'.nextId <= repo.nextId + |cmds|
    decreases |cmds|
  {
    if cmds == [] then repo else Run(Apply(repo, cmds[0]), cmds[1..])
  }

  /**
   Every run from a valid repository stays valid, and every book it adds
   has an id at or above the starting counter: ids are never reused, not even
   the ids of books deleted along the way.
   */
  lemma {:induction false} RunKeepsValid(repo: Repository, cmds: seq<Command>)
    requires Valid(repo)
    requires repo.nextId + |cmds| <= U32_MAX
    ensures Valid(Run(repo, cmds))
    ensures forall k :: k in Run(repo, cmds).db && k !in repo.db ==> repo.nextId <= k
    decreases |cmds|
  {
    if cmds != [] {
      var next := Apply(repo, cmds[0]);
      assert Valid(next) by {
        match cmds[0]
        case CreateCmd(dto) =>
        case UpdateCmd(id, dto) =>
        case DeleteCmd(id) =>
      }
      assert forall k :: k in next.db && k !in repo.db ==> repo.nextId <= k;
      RunKeepsValid(next, cmds[1..]);
    }
  }
}
