/**
 The chaos client (chaos-client/main.py): a registry of book ids it believes
 to exist, the request each operation issues, and how the registry is
 reconciled from the reply.

 Every random draw becomes an explicit parameter: `random.choice(xs)` is
 `Choose(xs, pick)` for an arbitrary `pick`, the title suffix and the clock
 reading are given strings, and the valid/error coin is a `bool`.
 */
module ChaosClient {
  import opened Options
  import opened Models
  import opened Http

  /** The part of a reply body the client reads, once parsed as JSON. */
  datatype Body =
    | IdList(ids: seq<int>)   // a JSON array of books, reduced to their ids
    | IdObject(id: int)       // a JSON object with an "id" field
    | Unparsed                // anything else; reading it raises

  /** What a request comes back with: a status and body, or an exception from the transport. */
  datatype Reply = Status(code: int, body: Body) | TransportError

  datatype CreatePayload = Complete(dto: CreateBookDto) | TitleOnly(title: string)

  datatype UpdatePayload = TitleChange(title: string) | NotJson(text: string)

  /** The requests the client sends, one per HTTP call in the source. */
  datatype Request =
    | ListBooks                                    // GET /books
    | GetBook(id: int)                             // GET /books/{id}
    | PostBook(create: CreatePayload)              // POST /books
    | PutBook(id: int, update: UpdatePayload)      // PUT /books/{id}
    | DeleteBook(id: int)                          // DELETE /books/{id}
    | PatchBook(id: int, title: string)            // PATCH /books/{id}
    | GetPath(path: string)                        // GET on a path outside /books

  /** The id probed when no registry id is at hand. */
  const DEFAULT_ID: int := 1
  /** The id the error catalogue asks for, assumed not to exist. */
  const MISSING_PROBE_ID: int := 999999
  /** How far above the largest known id the invalid delete aims. */
  const MISSING_OFFSET: int := 100
  /** The id the wrong-method probe sends its PATCH to. */
  const WRONG_METHOD_ID: int := 1
  /** The delete target used when the registry is empty. */
  const EMPTY_REGISTRY_SENTINEL: int := 9999

  /** The fixed templates a valid create starts from. */
  const SampleBooks: seq<CreateBookDto> := [
    CreateBookDto("The Rust Programming Language", "Steve Klabnik", Some(2018), Some("Programming"), Some("978-1718500440")),
    CreateBookDto("Eloquent JavaScript", "Marijn Haverbeke", Some(2018), Some("Programming"), Some("978-1593279509")),
    CreateBookDto("The Hitchhiker's Guide to the Galaxy", "Douglas Adams", Some(1979), Some("Science Fiction"), Some("978-0345391803")),
    CreateBookDto("1984", "George Orwell", Some(1949), Some("Dystopian"), Some("978-0451524935")),
    CreateBookDto("To Kill a Mockingbird", "Harper Lee", Some(1960), Some("Fiction"), Some("978-0061120084"))
  ]

  /** The operations of the two catalogues. */
  datatype Operation =
    | GetKnown | CreateValid | UpdateValid | DeleteValid
    | GetMissing | CreateInvalid | UpdateInvalid | DeleteInvalid | WrongMethod | UnknownEndpoint

  const ValidOperations: seq<Operation> := [GetKnown, CreateValid, UpdateValid, DeleteValid]
  const ErrorOperations: seq<Operation> :=
    [GetMissing, CreateInvalid, UpdateInvalid, DeleteInvalid, WrongMethod, UnknownEndpoint]

  /** The operations meant to succeed; the rest are meant to provoke an error reply. */
  predicate IsValidOperation(op: Operation) {
    op.GetKnown? || op.CreateValid? || op.UpdateValid? || op.DeleteValid?
  }

  /**
   The catalogue a request is drawn from: the four valid operations when
   `valid`, the six error operations otherwise, each operation once.
   */
  function Catalogue(valid: bool): (ops: seq<Operation>)
    ensures |ops| == if valid then 4 else 6
    ensures forall op :: op in ops <==> IsValidOperation(op) == valid
    ensures forall i, j :: 0 <= i < j < |ops| ==> ops[i] != ops[j]
  {
    if valid then ValidOperations else ErrorOperations
  }

  /** The random draws one operation makes. */
  datatype Choices = Choices(pick: nat, sample: nat, suffix: string, clock: string)

  /** `random.choice(xs)`: some element of a non-empty sequence, selected by `pick`. */
  function Choose<T>(xs: seq<T>, pick: nat): (x: T)
    requires xs != []
    ensures x in xs
  {
    xs[pick % |xs|]
  }

  /** Every element of the sequence is the choice of some draw. */
  lemma ChooseCovers<T>(xs: seq<T>, i: nat)
    requires i < |xs|
    ensures Choose(xs, i) == xs[i]
  {
  }

  predicate Distinct(s: seq<int>) {
    forall i, j :: 0 <= i < j < |s| ==> s[i] != s[j]
  }

  /** Python's `max` over a non-empty list. */
  function Max(s: seq<int>): (m: int)
    requires s != []
    ensures m in s
    ensures forall i :: 0 <= i < |s| ==> s[i] <= m
  {
    if |s| == 1 then s[0]
    else
      var rest := Max(s[1..]);
      if s[0] < rest then rest else s[0]
  }

  /** The position of the first occurrence of `x`. */
  function FirstIndex(s: seq<int>, x: int): (i: nat)
    requires x in s
    ensures i < |s| && s[i] == x
    ensures forall j :: 0 <= j < i ==> s[j] != x
  {
    if s[0] == x then 0 else 1 + FirstIndex(s[1..], x)
  }

  /** Python's `list.remove(x)`: drops the first occurrence of an element that is present. */
  function RemoveFirst(s: seq<int>, x: int): (r: seq<int>)
    requires x in s
    ensures |r| == |s| - 1
    ensures multiset(r) == multiset(s) - multiset{x}
  {
    assert s == [s[0]] + s[1..];
    if s[0] == x then s[1..] else [s[0]] + RemoveFirst(s[1..], x)
  }

  /** `RemoveFirst` cuts out exactly the first occurrence, keeping the order of the rest. */
  lemma {:induction false} RemoveFirstCutsFirstOccurrence(s: seq<int>, x: int)
    requires x in s
    ensures RemoveFirst(s, x) == s[..FirstIndex(s, x)] + s[FirstIndex(s, x) + 1..]
  {
    if s[0] == x {
      assert FirstIndex(s, x) == 0;
      assert s[..0] + s[1..] == s[1..];
    } else {
      RemoveFirstCutsFirstOccurrence(s[1..], x);
      var i := FirstIndex(s[1..], x);
      assert FirstIndex(s, x) == i + 1;
      ConsOfCut(s, i);
    }
  }

  /** Putting the head back in front of a cut tail is the same cut one position later. */
  lemma ConsOfCut(s: seq<int>, i: nat)
    requires i + 1 < |s|
    ensures [s[0]] + (s[1..][..i] + s[1..][i + 1..]) == s[..i + 1] + s[i + 2..]
  {
  }

  /** Cutting one position out of a distinct sequence leaves it distinct and drops that value. */
  lemma CutKeepsDistinct(s: seq<int>, i: nat)
    requires i < |s| && Distinct(s)
    ensures Distinct(s[..i] + s[i + 1..]) && s[i] !in s[..i] + s[i + 1..]
  {
  }

  /** In a registry without duplicates, removing an id removes it entirely and keeps the rest distinct. */
  lemma RemoveFirstKeepsDistinct(s: seq<int>, x: int)
    requires x in s && Distinct(s)
    ensures Distinct(RemoveFirst(s, x)) && x !in RemoveFirst(s, x)
  {
    RemoveFirstCutsFirstOccurrence(s, x);
    CutKeepsDistinct(s, FirstIndex(s, x));
  }

  /** The title of a valid create: the template's title with the random suffix appended. */
  function SampleWithSuffix(sample: CreateBookDto, suffix: string): (dto: CreateBookDto)
    ensures dto.title == sample.title + " - " + suffix
    ensures dto.author == sample.author && dto.publishedYear == sample.publishedYear
    ensures dto.genre == sample.genre && dto.isbn == sample.isbn
  {
    sample.(title := sample.title + " - " + suffix)
  }

  /**
   The id `get_book_by_id` asks for: the requested one if any, else a
   registry id, else `DEFAULT_ID`.
   */
  function GetTarget(ids: seq<int>, requested: Option<int>, pick: nat): (id: int)
    ensures requested.Some? ==> id == requested.value
    ensures requested.None? && ids != [] ==> id in ids
    ensures requested.None? && ids == [] ==> id == DEFAULT_ID
  {
    var chosen := if requested.None? && ids != [] then Some(Choose(ids, pick)) else requested;
    if chosen.None? then DEFAULT_ID else chosen.value
  }

  /**
   The id `delete_book` aims at: a registry id when valid, otherwise one
   past every registry id, or the sentinel when the registry is empty.
   */
  function DeleteTarget(ids: seq<int>, valid: bool, pick: nat): (t: int)
    ensures valid && ids != [] ==> t in ids
    ensures !valid && ids != [] ==> forall i :: 0 <= i < |ids| ==> ids[i] < t
    ensures ids == [] ==> t == EMPTY_REGISTRY_SENTINEL
  {
    if valid && ids != [] then Choose(ids, pick)
    else if ids != [] then Max(ids) + MISSING_OFFSET
    else EMPTY_REGISTRY_SENTINEL
  }

  /** Operations that need a registry id and are skipped when the registry is empty. */
  predicate NeedsKnownId(op: Operation) {
    op.UpdateValid? || op.UpdateInvalid? || op.DeleteValid? || op.DeleteInvalid?
  }

  /**
   The request an operation sends, or `None` when it returns early with
   nothing sent.
   */
  function Plan(op: Operation, ids: seq<int>, c: Choices): (req: Option<Request>)
    ensures req.None? <==> NeedsKnownId(op) && ids == []
    ensures req.Some? && (op.UpdateValid? || op.UpdateInvalid?) ==> req.value.PutBook? && req.value.id in ids
    ensures req.Some? && op.DeleteValid? ==> req.value.DeleteBook? && req.value.id in ids
    ensures req.Some? && op.DeleteInvalid? ==>
      req.value.DeleteBook? && forall i :: 0 <= i < |ids| ==> ids[i] < req.value.id
  {
    match op
    case GetKnown => Some(GetBook(GetTarget(ids, None, c.pick)))
    case GetMissing => Some(GetBook(GetTarget(ids, Some(MISSING_PROBE_ID), c.pick)))
    case CreateValid =>
      Some(PostBook(Complete(SampleWithSuffix(Choose(SampleBooks, c.sample), c.suffix))))
    case CreateInvalid => Some(PostBook(TitleOnly("Incomplete Book")))
    case UpdateValid =>
      if ids == [] then None
      else Some(PutBook(Choose(ids, c.pick), TitleChange("Updated Title - " + c.clock)))
    case UpdateInvalid =>
      if ids == [] then None
      else Some(PutBook(Choose(ids, c.pick), NotJson("This is not valid JSON")))
    case DeleteValid =>
      if ids == [] then None else Some(DeleteBook(DeleteTarget(ids, true, c.pick)))
    case DeleteInvalid =>
      if ids == [] then None else Some(DeleteBook(DeleteTarget(ids, false, c.pick)))
    case WrongMethod => Some(PatchBook(WRONG_METHOD_ID, "This won't work"))
    case UnknownEndpoint => Some(GetPath("/not_books"))
  }

  /** The status, if any, on which the client changes its registry after a request. */
  function MutatingStatus(req: Request): Option<int> {
    match req
    case ListBooks => Some(OK)
    case PostBook(_) => Some(CREATED)
    case DeleteBook(_) => Some(NO_CONTENT)
    case _ => None
  }

  /** How the registry follows a request's reply. */
  function Reconcile(ids: seq<int>, req: Request, reply: Reply): (r: seq<int>)
    ensures r != ids ==> reply.Status? && MutatingStatus(req) == Some(reply.code)
    ensures req.PostBook? ==> r == ids || (reply.Status? && reply.body.IdObject? && r == ids + [reply.body.id])
    ensures req.DeleteBook? ==> r == ids || (req.id in ids && multiset(r) == multiset(ids) - multiset{req.id})
  {
    match req
    case ListBooks =>
      if reply.Status? && reply.code == OK && reply.body.IdList? then reply.body.ids else ids
    case PostBook(_) =>
      if reply.Status? && reply.code == CREATED && reply.body.IdObject? then ids + [reply.body.id] else ids
    case DeleteBook(target) =>
      if reply.Status? && reply.code == NO_CONTENT && target in ids then RemoveFirst(ids, target) else ids
    case _ => ids
  }

  /** The status on which an operation may change the registry; `None` for those that never do. */
  function MutatingSuccess(op: Operation): Option<int> {
    match op
    case CreateValid | CreateInvalid => Some(CREATED)
    case DeleteValid | DeleteInvalid => Some(NO_CONTENT)
    case _ => None
  }

  /** One operation end to end: plan the request, then reconcile from its reply. */
  function Perform(op: Operation, ids: seq<int>, c: Choices, reply: Reply): (r: seq<int>)
    ensures r != ids ==> reply.Status? && MutatingSuccess(op) == Some(reply.code)
  {
    match Plan(op, ids, c)
    case None => ids
    case Some(req) => Reconcile(ids, req, reply)
  }

  /** `get_all_books`: refresh the registry from a list request. */
  function Refresh(ids: seq<int>, reply: Reply): (r: seq<int>)
    ensures r == ids || reply == Status(OK, IdList(r))
  {
    Reconcile(ids, ListBooks, reply)
  }

  /**
   `send_request`: refresh first, then run the operation the coin `valid`
   and the draw `k` select from the matching catalogue.
   */
  function SendRequest(ids: seq<int>, listReply: Reply, valid: bool, k: nat, c: Choices, reply: Reply): (r: seq<int>)
    ensures
      var op := Choose(Catalogue(valid), k);
      r == Refresh(ids, listReply) || (reply.Status? && MutatingSuccess(op) == Some(reply.code))
  {
    Perform(Choose(Catalogue(valid), k), Refresh(ids, listReply), c, reply)
  }

  /** A 200 list reply replaces the registry by exactly its ids; any other reply leaves it alone. */
  lemma RefreshOutcome(ids: seq<int>, reply: Reply)
    ensures reply.Status? && reply.code == OK && reply.body.IdList? ==> Refresh(ids, reply) == reply.body.ids
    ensures !(reply.Status? && reply.code == OK && reply.body.IdList?) ==> Refresh(ids, reply) == ids
  {
  }

  /** Both creates append the returned id on a 201 and change nothing otherwise. */
  lemma CreateOutcome(op: Operation, ids: seq<int>, c: Choices, reply: Reply)
    requires op.CreateValid? || op.CreateInvalid?
    ensures reply.Status? && reply.code == CREATED && reply.body.IdObject? ==>
      Perform(op, ids, c, reply) == ids + [reply.body.id]
    ensures !(reply.Status? && reply.code == CREATED) ==> Perform(op, ids, c, reply) == ids
  {
  }

  /** A valid create sends a complete book: a template with only its title extended. */
  lemma ValidCreatePayload(ids: seq<int>, c: Choices)
    ensures
      var req := Plan(CreateValid, ids, c);
      && req.Some? && req.value.PostBook? && req.value.create.Complete?
      && exists i :: 0 <= i < |SampleBooks| &&
           var dto := req.value.create.dto;
           var sample := SampleBooks[i];
           && dto.title == sample.title + " - " + c.suffix
           && dto.(title := sample.title) == sample
  {
  }

  /** Updates never touch the registry, and with an empty registry they send nothing. */
  lemma UpdateNeverMutates(op: Operation, ids: seq<int>, c: Choices, reply: Reply)
    requires op.UpdateValid? || op.UpdateInvalid?
    ensures Perform(op, ids, c, reply) == ids
    ensures ids == [] <==> Plan(op, ids, c).None?
  {
  }

  /** With an empty registry both deletes send nothing and leave the registry empty. */
  lemma EmptyRegistryDeleteIsNoop(op: Operation, c: Choices, reply: Reply)
    requires op.DeleteValid? || op.DeleteInvalid?
    ensures Plan(op, [], c).None?
    ensures Perform(op, [], c, reply) == []
  {
  }

  /**
   A delete request is only ever sent with a non-empty registry, so its target
   is a registry id or one past the largest: the empty-registry sentinel is
   never used.
   */
  lemma DeleteSentinelUnreachable(op: Operation, ids: seq<int>, c: Choices)
    requires Plan(op, ids, c).Some? && Plan(op, ids, c).value.DeleteBook?
    ensures ids != []
    ensures op.DeleteValid? ==> Plan(op, ids, c).value.id == Choose(ids, c.pick)
    ensures op.DeleteInvalid? ==> Plan(op, ids, c).value.id == Max(ids) + MISSING_OFFSET
  {
  }

  /** The invalid-delete target exceeds every registry id, so it is not one of them. */
  lemma MissingTargetAbsent(ids: seq<int>, pick: nat)
    requires ids != []
    ensures forall i :: 0 <= i < |ids| ==> ids[i] < DeleteTarget(ids, false, pick)
    ensures DeleteTarget(ids, false, pick) !in ids
  {
  }

  /**
   On a 204 a valid delete drops the first occurrence of its target from the
   registry; on any other reply it changes nothing.
   */
  lemma ValidDeleteOutcome(ids: seq<int>, c: Choices, reply: Reply)
    requires ids != []
    ensures
      var target := Choose(ids, c.pick);
      var r := Perform(DeleteValid, ids, c, reply);
      && (reply.Status? && reply.code == NO_CONTENT ==> r == RemoveFirst(ids, target))
      && (!(reply.Status? && reply.code == NO_CONTENT) ==> r == ids)
  {
    assert Plan(DeleteValid, ids, c) == Some(DeleteBook(Choose(ids, c.pick)));
  }

  /** An invalid delete aims above every tracked id, so even a 204 leaves the registry unchanged. */
  lemma InvalidDeleteNeverMutates(ids: seq<int>, c: Choices, reply: Reply)
    ensures Perform(DeleteInvalid, ids, c, reply) == ids
  {
    if ids != [] {
      assert Plan(DeleteInvalid, ids, c) == Some(DeleteBook(Max(ids) + MISSING_OFFSET));
    }
  }

  /** `get_book_by_id()` reads a registry id when there is one, id 1 otherwise; the probe reads 999999. */
  lemma GetTargets(ids: seq<int>, c: Choices, reply: Reply)
    ensures Plan(GetKnown, ids, c).Some? && Plan(GetKnown, ids, c).value.GetBook?
    ensures ids != [] ==> Plan(GetKnown, ids, c).value.id in ids
    ensures ids == [] ==> Plan(GetKnown, ids, c).value.id == DEFAULT_ID
    ensures Plan(GetMissing, ids, c) == Some(GetBook(MISSING_PROBE_ID))
    ensures Perform(GetKnown, ids, c, reply) == ids && Perform(GetMissing, ids, c, reply) == ids
  {
  }

  /** Four valid operations, six error operations, and no operation in both. */
  lemma CatalogueShape(op: Operation)
    ensures |Catalogue(true)| == 4 && |Catalogue(false)| == 6
    ensures op in Catalogue(true) <==> op !in Catalogue(false)
  {
  }
}
