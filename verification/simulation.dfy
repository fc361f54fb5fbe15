/**
 The chaos client run against the book service, one request at a time, with
 the client as the service's only user.

 Replies that the web framework produces before any handler runs are not
 part of the service's own code; this model fixes them as follows: a body
 that does not deserialise into the handler's DTO gets 400, an id that is
 not a `u32` or a path outside `/books` gets 404, and a PATCH gets 405.
 */
module Simulation {
  import opened Options
  import opened Models
  import opened Http
  import Storage
  import Handlers
  import opened ChaosClient

  /** What happens to one request on the wire. */
  datatype Delivery =
    | Delivered   // the server handles it and the client reads the reply
    | Refused     // the request never reaches the server; the client sees an exception
    | ReplyLost   // the server handles it but the client sees an exception

  /** The client and the service together. */
  datatype World = World(server: Storage.Repository, registry: seq<int>)

  /** One iteration's draws: how the refresh and the operation travel, the coin, and the operation's choices. */
  datatype Tick = Tick(listDelivery: Delivery, valid: bool, k: nat, c: Choices, opDelivery: Delivery)

  predicate IsU32(x: int) {
    0 <= x <= U32_MAX
  }

  /** The reply body as the client parses it. */
  function ToClientBody(body: Handlers.Body): (r: ChaosClient.Body)
    ensures body.BookList? ==>
      r.IdList? && |r.ids| == |body.books| && forall i :: 0 <= i < |r.ids| ==> r.ids[i] == body.books[i].id
    ensures body.BookJson? ==> r == IdObject(body.book.id)
    ensures !body.BookList? && !body.BookJson? ==> r == Unparsed
  {
    match body
    case BookList(books) => IdList(seq(|books|, i requires 0 <= i < |books| => books[i].id as int))
    case BookJson(book) => IdObject(book.id)
    case _ => Unparsed
  }

  function ToReply(resp: Handlers.Response): Reply {
    Status(resp.status, ToClientBody(resp.body))
  }

  /** The service's handling of one client request. */
  function Serve(repo: Storage.Repository, req: Request): (r: (Storage.Repository, Reply))
    requires repo.nextId < U32_MAX
    ensures repo.nextId <= r.0.nextId <= repo.nextId + 1
    ensures Storage.Valid(repo) ==> Storage.Valid(r.0)
  {
    match req
    case ListBooks => (repo, ToReply(Handlers.GetBooks(repo)))
    case GetBook(id) =>
      if IsU32(id) then (repo, ToReply(Handlers.GetBook(repo, id))) else (repo, Status(NOT_FOUND, Unparsed))
    case PostBook(Complete(dto)) =>
      var (repo', resp) := Handlers.CreateBook(repo, dto);
      (repo', ToReply(resp))
    case PostBook(TitleOnly(_)) => (repo, Status(BAD_REQUEST, Unparsed))
    case PutBook(id, TitleChange(title)) =>
      if IsU32(id) then
        var (repo', resp) := Handlers.UpdateBook(repo, id, UpdateBookDto(Some(title), None, None, None, None));
        (repo', ToReply(resp))
      else (repo, Status(NOT_FOUND, Unparsed))
    case PutBook(_, NotJson(_)) => (repo, Status(BAD_REQUEST, Unparsed))
    case DeleteBook(id) =>
      if IsU32(id) then
        var (repo', resp) := Handlers.DeleteBook(repo, id);
        (repo', ToReply(resp))
      else (repo, Status(NOT_FOUND, Unparsed))
    case PatchBook(_, _) => (repo, Status(METHOD_NOT_ALLOWED, Unparsed))
    case GetPath(_) => (repo, Status(NOT_FOUND, Unparsed))
  }

  /** One request on the wire: the server's new state and the reply the client sees. */
  function Transmit(repo: Storage.Repository, req: Request, d: Delivery): (r: (Storage.Repository, Reply))
    requires repo.nextId < U32_MAX
    ensures repo.nextId <= r.0.nextId <= repo.nextId + 1
    ensures Storage.Valid(repo) ==> Storage.Valid(r.0)
    ensures d.Refused? ==> r == (repo, TransportError)
  {
    match d
    case Delivered => Serve(repo, req)
    case Refused => (repo, TransportError)
    case ReplyLost => (Serve(repo, req).0, TransportError)
  }

  /** The client runs one operation against the service. */
  function RunOperation(w: World, op: Operation, c: Choices, d: Delivery): (w': World)
    requires w.server.nextId < U32_MAX
    ensures w.server.nextId <= w'.server.nextId <= w.server.nextId + 1
    ensures Storage.Valid(w.server) ==> Storage.Valid(w'.server)
  {
    match Plan(op, w.registry, c)
    case None => w
    case Some(req) =>
      var (server', reply) := Transmit(w.server, req, d);
      World(server', Perform(op, w.registry, c, reply))
  }

  /** One iteration of `send_request`: refresh, then one operation from the chosen catalogue. */
  function Iterate(w: World, t: Tick): (w': World)
    requires w.server.nextId < U32_MAX
    ensures w.server.nextId <= w'.server.nextId <= w.server.nextId + 1
    ensures Storage.Valid(w.server) ==> Storage.Valid(w'.server)
  {
    var (server', listReply) := Transmit(w.server, ListBooks, t.listDelivery);
    RunOperation(World(server', Refresh(w.registry, listReply)), Choose(Catalogue(t.valid), t.k), t.c, t.opDelivery)
  }

  /** Iterations one after another, few enough that the id counter cannot overflow. */
  function Run(w: World, ticks: seq<Tick>): (w': World)
    requires w.server.nextId + |ticks| <= U32_MAX
    ensures Storage.Valid(w.server) ==> Storage.Valid(w'.server)
    decreases |ticks|
  {
    if ticks == [] then w else Run(Iterate(w, ticks[0]), ticks[1..])
  }

  /**
   The registry is accurate: the store is valid, the registry has no
   duplicates, and every id in it is stored.
   */
  predicate Consistent(w: World) {
    && Storage.Valid(w.server)
    && Distinct(w.registry)
    && forall i :: 0 <= i < |w.registry| ==> w.registry[i] in w.server.db
  }

  /** The client's registry after an iteration is what `send_request` computes from the replies it saw. */
  lemma IterateFollowsSendRequest(w: World, t: Tick)
    requires w.server.nextId < U32_MAX
    ensures
      var (server', listReply) := Transmit(w.server, ListBooks, t.listDelivery);
      var ids := Refresh(w.registry, listReply);
      var op := Choose(Catalogue(t.valid), t.k);
      var reply := match Plan(op, ids, t.c)
        case None => TransportError
        case Some(req) => Transmit(server', req, t.opDelivery).1;
      Iterate(w, t).registry == SendRequest(w.registry, listReply, t.valid, t.k, t.c, reply)
  {
  }

  /** The ids a delivered list reply carries are exactly the stored keys, without duplicates. */
  lemma ListedIdsAreStoredKeys(repo: Storage.Repository)
    requires Storage.Valid(repo)
    ensures
      var ids := ToClientBody(Handlers.GetBooks(repo).body).ids;
      && Distinct(ids)
      && (forall i :: 0 <= i < |ids| ==> ids[i] in repo.db)
      && |ids| == |repo.db|
  {
    var books := Handlers.GetBooks(repo).body.books;
    var ids := ToClientBody(Handlers.GetBooks(repo).body).ids;
    Storage.GetAllListsEveryBook(repo);
    forall i | 0 <= i < |ids|
      ensures ids[i] in repo.db
    {
      var b := books[i];
      assert b in repo.db.Values;
      var k :| k in repo.db && repo.db[k] == b;
      assert ids[i] == k;
    }
  }

  /** A refresh keeps the registry consistent, whatever happens on the wire. */
  lemma RefreshKeepsConsistent(w: World, d: Delivery)
    requires Consistent(w) && w.server.nextId < U32_MAX
    ensures
      var (server', listReply) := Transmit(w.server, ListBooks, d);
      Consistent(World(server', Refresh(w.registry, listReply)))
  {
  }

  /**
   A create appends the id the server just issued, which no tracked id can
   equal; if its reply is lost the server has one more book the client does
   not track, which is harmless.
   */
  lemma CreateKeepsConsistent(w: World, op: Operation, c: Choices, d: Delivery)
    requires Consistent(w) && w.server.nextId < U32_MAX
    requires op.CreateValid? || op.CreateInvalid?
    ensures Consistent(RunOperation(w, op, c, d))
  {
  }

  /** Dropping from the registry the one key the store lost keeps every remaining id stored. */
  lemma RemovalKeepsTracked(ids: seq<int>, target: int, keys: set<U32>, keys': set<U32>)
    requires Distinct(ids) && target in ids
    requires forall i :: 0 <= i < |ids| ==> ids[i] in keys
    requires keys' == keys - {target}
    ensures Distinct(RemoveFirst(ids, target))
    ensures forall i :: 0 <= i < |RemoveFirst(ids, target)| ==> RemoveFirst(ids, target)[i] in keys'
  {
    RemoveFirstKeepsDistinct(ids, target);
    var r := RemoveFirst(ids, target);
    forall i | 0 <= i < |r|
      ensures r[i] in keys'
    {
      assert r[i] in multiset(r);
      assert r[i] in multiset(ids);
    }
  }

  /** A valid delete that gets its 204 drops from the registry exactly the id the server removed. */
  lemma ValidDeleteKeepsConsistent(w: World, c: Choices, d: Delivery)
    requires Consistent(w) && w.server.nextId < U32_MAX && !d.ReplyLost?
    ensures Consistent(RunOperation(w, DeleteValid, c, d))
  {
    var ids := w.registry;
    if ids != [] {
      var target := Choose(ids, c.pick);
      assert Plan(DeleteValid, ids, c) == Some(DeleteBook(target));
      var (server', reply) := Transmit(w.server, DeleteBook(target), d);
      ValidDeleteOutcome(ids, c, reply);
      if reply.Status? && reply.code == NO_CONTENT {
        assert d.Delivered? && IsU32(target);
        assert server'.db.Keys == w.server.db.Keys - {target};
        RemovalKeepsTracked(ids, target, w.server.db.Keys, server'.db.Keys);
      }
    }
  }

  /**
   An invalid delete never changes the registry, and whatever it removes on
   the server is untracked, whether or not its reply arrives.
   */
  lemma InvalidDeleteKeepsConsistent(w: World, c: Choices, d: Delivery)
    requires Consistent(w) && w.server.nextId < U32_MAX
    ensures Consistent(RunOperation(w, DeleteInvalid, c, d))
  {
  }

  /** Reads, updates and the protocol probes keep the stored keys and the registry as they are. */
  lemma ReadOnlyKeepsConsistent(w: World, op: Operation, c: Choices, d: Delivery)
    requires Consistent(w) && w.server.nextId < U32_MAX
    requires MutatingSuccess(op).None?
    ensures RunOperation(w, op, c, d).registry == w.registry
    ensures RunOperation(w, op, c, d).server.db.Keys == w.server.db.Keys
    ensures Consistent(RunOperation(w, op, c, d))
  {
  }

  /**
   Every operation keeps the registry consistent, except a valid delete whose
   reply is lost after the server removed the book.
   */
  lemma OperationKeepsConsistent(w: World, op: Operation, c: Choices, d: Delivery)
    requires Consistent(w) && w.server.nextId < U32_MAX
    requires !(op.DeleteValid? && d.ReplyLost?)
    ensures Consistent(RunOperation(w, op, c, d))
  {
    match op
    case CreateValid => CreateKeepsConsistent(w, op, c, d);
    case CreateInvalid => CreateKeepsConsistent(w, op, c, d);
    case DeleteValid => ValidDeleteKeepsConsistent(w, c, d);
    case DeleteInvalid => InvalidDeleteKeepsConsistent(w, c, d);
    case _ => ReadOnlyKeepsConsistent(w, op, c, d);
  }

  /**
   The client's valid update sends only a title, so on the server it keeps the
   author but clears the year, genre and isbn of the book it hits.
   */
  lemma ValidUpdateClearsOptionalFields(w: World, c: Choices)
    requires Consistent(w) && w.server.nextId < U32_MAX && w.registry != []
    ensures
      var id := Choose(w.registry, c.pick);
      var server' := RunOperation(w, UpdateValid, c, Delivered).server;
      && id in w.server.db && id in server'.db
      && server'.db[id].title == "Updated Title - " + c.clock
      && server'.db[id].author == w.server.db[id].author
      && server'.db[id].publishedYear.None? && server'.db[id].genre.None? && server'.db[id].isbn.None?
  {
  }

  /** The iteration draws a valid delete and loses its reply. */
  predicate LosesValidDeleteReply(t: Tick) {
    Choose(Catalogue(t.valid), t.k).DeleteValid? && t.opDelivery.ReplyLost?
  }

  /**
   A whole iteration of the client keeps the registry consistent unless it
   loses the reply to a valid delete.
   */
  lemma IterationKeepsConsistent(w: World, t: Tick)
    requires Consistent(w) && w.server.nextId < U32_MAX
    requires !LosesValidDeleteReply(t)
    ensures Consistent(Iterate(w, t))
  {
    RefreshKeepsConsistent(w, t.listDelivery);
    var (server', listReply) := Transmit(w.server, ListBooks, t.listDelivery);
    OperationKeepsConsistent(World(server', Refresh(w.registry, listReply)), Choose(Catalogue(t.valid), t.k), t.c, t.opDelivery);
  }

  predicate NoLostValidDeleteReply(ticks: seq<Tick>) {
    forall i :: 0 <= i < |ticks| ==> !LosesValidDeleteReply(ticks[i])
  }

  /**
   With the client as the only user, every id the client tracks stays stored
   on the server, however many requests fail or lose their replies, as long
   as no valid delete loses its reply.
   */
  lemma {:induction false} RunKeepsConsistent(w: World, ticks: seq<Tick>)
    requires Consistent(w) && w.server.nextId + |ticks| <= U32_MAX
    requires NoLostValidDeleteReply(ticks)
    ensures Consistent(Run(w, ticks))
    decreases |ticks|
  {
    if ticks != [] {
      IterationKeepsConsistent(w, ticks[0]);
      RunKeepsConsistent(Iterate(w, ticks[0]), ticks[1..]);
    }
  }

  /** The starting point: a new repository and an empty registry. */
  lemma StartIsConsistent()
    ensures Consistent(World(Storage.New(), []))
  {
  }

  /** The number of valid creates `main` sends before its first `send_request`. */
  const WARM_UP_CREATES: nat := 3

  /** `main`'s warm-up: valid creates one after another, each with its own draws and fate on the wire. */
  function WarmUp(w: World, creates: seq<(Choices, Delivery)>): (w': World)
    requires w.server.nextId + |creates| <= U32_MAX
    ensures w.server.nextId <= w'.server.nextId <= w.server.nextId + |creates|
    ensures Storage.Valid(w.server) ==> Storage.Valid(w'.server)
    decreases |creates|
  {
    if creates == [] then w
    else WarmUp(RunOperation(w, CreateValid, creates[0].0, creates[0].1), creates[1..])
  }

  /** The warm-up keeps the registry consistent, whatever happens to its requests on the wire. */
  lemma {:induction false} WarmUpKeepsConsistent(w: World, creates: seq<(Choices, Delivery)>)
    requires Consistent(w) && w.server.nextId + |creates| <= U32_MAX
    ensures Consistent(WarmUp(w, creates))
    decreases |creates|
  {
    if creates != [] {
      CreateKeepsConsistent(w, CreateValid, creates[0].0, creates[0].1);
      WarmUpKeepsConsistent(RunOperation(w, CreateValid, creates[0].0, creates[0].1), creates[1..]);
    }
  }

  /** `main`: a fresh service, the warm-up creates, then the iterations of the loop. */
  function Session(warmUp: seq<(Choices, Delivery)>, ticks: seq<Tick>): (w: World)
    requires |warmUp| == WARM_UP_CREATES
    requires 1 + WARM_UP_CREATES + |ticks| <= U32_MAX
    ensures Storage.Valid(w.server)
  {
    Run(WarmUp(World(Storage.New(), []), warmUp), ticks)
  }

  /**
   A whole client session against a fresh service ends with a consistent
   registry, as long as no valid delete loses its reply.
   */
  lemma SessionKeepsConsistent(warmUp: seq<(Choices, Delivery)>, ticks: seq<Tick>)
    requires |warmUp| == WARM_UP_CREATES
    requires 1 + WARM_UP_CREATES + |ticks| <= U32_MAX
    requires NoLostValidDeleteReply(ticks)
    ensures Consistent(Session(warmUp, ticks))
  {
    var start := World(Storage.New(), []);
    StartIsConsistent();
    WarmUpKeepsConsistent(start, warmUp);
    RunKeepsConsistent(WarmUp(start, warmUp), ticks);
  }

  /**
   A delete whose reply is lost after the server removed the book leaves the
   client tracking an id that no longer exists: the registry is only an
   approximation once the wire can fail.
   */
  lemma LostDeleteReplyLeavesStaleId()
    ensures
      var dto := CreateBookDto("t", "a", None, None, None);
      var w := World(Storage.Create(Storage.New(), dto).0, [1]);
      Consistent(w) && !Consistent(RunOperation(w, DeleteValid, Choices(0, 0, "", ""), ReplyLost))
  {
  }
}
