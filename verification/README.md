# Book service and chaos client, modelled in Dafny

This project models two small programs that talk to each other:

- a REST **book service** (Rust): an in-memory repository that maps `u32` ids to
  books and keeps an id counter, plus HTTP handlers that turn each repository
  result into a status code (200, 201, 204 or 404);
- a **chaos client** (Python) that keeps a registry `book_ids` of the ids it
  believes exist. Each iteration it refreshes that list, draws a valid or an
  error-inducing operation, sends it, and reconciles the registry from the reply.

Everything is a pure function over immutable values. The modules follow the
source files:

| module | file | models |
|---|---|---|
| `Options` | options.dfy | Rust's `Option` and its `unwrap_or` |
| `Models` | models.dfy | `Book`, `CreateBookDto`, `UpdateBookDto` (src/models.rs) |
| `Http` | http.dfy | the status codes both sides use |
| `Storage` | storage.dfy | `BookRepository` (src/storage.rs) |
| `Handlers` | handlers.dfy | the five handlers (src/handlers.rs) |
| `ChaosClient` | client.dfy | registry, request planning, reconciliation, catalogues (chaos-client/main.py) |
| `Simulation` | simulation.dfy | the client run against the service, with the client as the only user |

The data model carries the field rules in its types. `U32` and `U16` are subset
types, so every `Book` has a `u32` id and, when present, a `u16` year. Title and
author are plain `string`s in `Book` and `CreateBookDto`. Every field of
`UpdateBookDto` is an `Option`.

The central invariant is `Storage.Valid`: every stored key is below the counter,
and every book is stored under its own id. It gives id freshness. A create never
overwrites an entry, and ids are never reused, not even after a delete.

On the client side, the main result is `Simulation.SessionKeepsConsistent`, built
on `Simulation.RunKeepsConsistent`. Suppose the client is the service's only user.
Then, from a fresh service through the warm-up creates and any number of loop
iterations, the registry stays free of duplicates and every id in it is stored on
the server. Requests may be refused and replies may be lost, with one exception:
a valid delete must not lose its reply after the server removed the book.
`Simulation.LostDeleteReplyLeavesStaleId` shows that this one exception is needed.

Random draws are explicit parameters:

- `random.choice(xs)` becomes `ChaosClient.Choose(xs, pick)`, i.e. `xs[pick % |xs|]`.
  Every element is reachable (`ChooseCovers`).
- The `random.random() < 0.75` coin becomes a `bool`.
- The `randint` title suffix and the `strftime` clock reading become given strings.

Three facts about the client code shape the model:

- The registry `book_ids` is a Python list. A refresh keeps the server's order, a
  create appends, and a delete removes only the first occurrence (`list.remove`).
- The `9999` fallback at chaos-client/main.py:134 is dead code. The early return
  at chaos-client/main.py:125-127 leaves `delete_book` whenever the registry is
  empty (`ChaosClient.DeleteSentinelUnreachable`).
- The client's valid update sends only a title. Under the service's update rules
  it also clears the book's year, genre and isbn on the server
  (`Simulation.ValidUpdateClearsOptionalFields`).

## Model

| member | source | states |
|---|---|---|
| `Storage.New` | src/storage.rs:19-24 | a new repository is empty, its counter is 1, and it satisfies the invariant |
| `Storage.GetAll` | src/storage.rs:27-32 | every listed book is a stored book |
| `Storage.GetAllListsEveryBook` | src/storage.rs:27-32 | in a valid repository the list holds every stored book exactly once: as many books as entries, ids strictly ascending |
| `Storage.GetById` | src/storage.rs:35-38 | a lookup hits iff the id is a key; in a valid repository the returned book carries the requested id |
| `Storage.GetByIdAgreesWithGetAll` | src/storage.rs:27-38 | `get_by_id(id)` returns `Some(b)` exactly when `b` is listed by `get_all` with id `id` |
| `Storage.Create` | src/storage.rs:41-62 | the new book's id is the old counter, and the counter grows by exactly one; all five DTO fields are copied unchanged; the book is stored under its id and no other entry changes; in a valid repository the id was not a key before, and validity is kept |
| `Storage.CreateThenGet` | src/storage.rs:41-62 | a created book is immediately returned by `get_by_id` under its new id |
| `Storage.Update` | src/storage.rs:65-84 | an absent id gives `None` and leaves the repository unchanged; a present id keeps its book id and the key set; title and author change only when supplied; year, genre and isbn take the DTO's values even when `None`; no other entry changes; validity is kept |
| `Storage.UpdateIdempotent` | src/storage.rs:65-84 | repeating an update with the same DTO changes nothing further |
| `Storage.UpdateWithOwnFieldsIsIdentity` | src/storage.rs:68-80 | an update that restates a book's own fields returns that book and leaves the repository unchanged |
| `Storage.Delete` | src/storage.rs:87-90 | reports true iff the id was a key; afterwards the key set is the old one minus the id, the remaining entries are unchanged, the counter is unchanged, and validity is kept |
| `Storage.DeleteTwice` | src/storage.rs:87-90 | after a delete the id is absent, and a second delete reports false |
| `Storage.Apply` | src/storage.rs:41-90 | one create, update or delete moves the counter by at most one and never backwards |
| `Storage.Run` | src/storage.rs:41-90 | a sequence of requests moves the counter forward by at most its length |
| `Storage.RunKeepsValid` | src/storage.rs:43-45 | any request sequence from a valid repository keeps it valid; every id added along the way is at or above the starting counter, so ids are never reused |
| `Handlers.GetBooks` | src/handlers.rs:6-9 | always 200 with a book list, and every listed book is stored |
| `Handlers.GetBook` | src/handlers.rs:12-22 | 200 iff the id is stored, with that book as body; otherwise 404 with the not-found text |
| `Handlers.CreateBook` | src/handlers.rs:25-31 | always 201; the body is the new book, whose id is the old counter and which is now stored under it; title and author come from the DTO; the id was fresh in a valid repository |
| `Handlers.UpdateBook` | src/handlers.rs:34-45 | 200 iff the id is stored, with the updated book as body; otherwise 404 and an unchanged repository; the key set and counter never change |
| `Handlers.DeleteBook` | src/handlers.rs:48-59 | 204 with no body iff the id was stored; otherwise 404 and an unchanged map; the id is gone afterwards |
| `Handlers.HandlerStatuses` | src/handlers.rs:6-59 | every handler answers with 200, 201, 204 or 404 |
| `Handlers.CreatedBookIsServed` | src/handlers.rs:18-30 | after a 201, `get_book` on the new id answers 200 with the same book |
| `Handlers.DeletedBookIsGone` | src/handlers.rs:18-58 | after `delete_book`, both `get_book` and a second `delete_book` on that id answer 404 |
| `ChaosClient.Choose` | chaos-client/main.py:48 | `random.choice` returns an element of the non-empty list |
| `ChaosClient.ChooseCovers` | chaos-client/main.py:48 | every element of the list can be the choice |
| `ChaosClient.Max` | chaos-client/main.py:134 | `max` returns an element that is at least every element |
| `ChaosClient.RemoveFirst` | chaos-client/main.py:140-141 | `list.remove` of a present id shortens the list by one and removes one copy of the id from its multiset |
| `ChaosClient.RemoveFirstCutsFirstOccurrence` | chaos-client/main.py:140-141 | the removed position is the id's first occurrence, and the rest keep their order |
| `ChaosClient.RemoveFirstKeepsDistinct` | chaos-client/main.py:140-141 | in a registry without duplicates, the removed id is gone completely and the rest stay distinct |
| `ChaosClient.Catalogue` | chaos-client/main.py:171-190 | the valid catalogue holds exactly the four valid operations and the error catalogue exactly the six error operations, each once |
| `ChaosClient.SampleWithSuffix` | chaos-client/main.py:66-68 | a valid create's payload is the template with ` - <suffix>` appended to its title and every other field unchanged |
| `ChaosClient.DeleteTarget` | chaos-client/main.py:129-134 | a valid delete aims at a registry id; an invalid delete aims above every registry id; only an empty registry gives the 9999 fallback |
| `ChaosClient.GetTarget` | chaos-client/main.py:44-51 | an explicit id is used as given; otherwise a registry id when there is one, otherwise id 1 |
| `ChaosClient.GetTargets` | chaos-client/main.py:44-60 | the valid read targets a registry id, or 1 when the registry is empty; the probe targets 999999; neither read changes the registry |
| `ChaosClient.Plan` | chaos-client/main.py:44-161 | nothing is sent exactly when an update or delete meets an empty registry; updates and valid deletes target a registry id; the invalid delete targets an id above every registry id |
| `ChaosClient.Reconcile` | chaos-client/main.py:30-145 | the registry changes only on a list 200, a create 201 or a delete 204; a create can only append the returned id; a delete can only remove one copy of its target |
| `ChaosClient.Perform` | chaos-client/main.py:62-145 | any operation whose reply is not its exact success status (201 for creates, 204 for deletes) leaves the registry unchanged; all other operations never change it |
| `ChaosClient.Refresh` | chaos-client/main.py:30-42 | the registry is either unchanged or exactly the id list of a 200 reply |
| `ChaosClient.RefreshOutcome` | chaos-client/main.py:34-42 | a 200 list reply replaces the registry by its ids, in order and regardless of prior contents; any other status, an unreadable body or an exception leaves it unchanged |
| `ChaosClient.CreateOutcome` | chaos-client/main.py:76-85 | a 201 with an id appends exactly that id; any other status or an exception leaves the registry unchanged |
| `ChaosClient.ValidCreatePayload` | chaos-client/main.py:64-68 | a valid create sends one of the sample books, changed only by the title suffix |
| `ChaosClient.UpdateNeverMutates` | chaos-client/main.py:87-121 | both updates leave the registry unchanged whatever the reply; they send nothing iff the registry is empty |
| `ChaosClient.EmptyRegistryDeleteIsNoop` | chaos-client/main.py:123-127 | with an empty registry, neither delete mode sends a request, and the registry stays empty |
| `ChaosClient.DeleteSentinelUnreachable` | chaos-client/main.py:125-134 | a delete request is sent only with a non-empty registry, so its target is the chosen registry id or `max + 100`, never the 9999 fallback |
| `ChaosClient.MissingTargetAbsent` | chaos-client/main.py:134 | `max(book_ids) + 100` exceeds every tracked id and is not in the registry |
| `ChaosClient.ValidDeleteOutcome` | chaos-client/main.py:129-145 | on 204 the valid delete removes the first occurrence of its target; on any other reply the registry is unchanged |
| `ChaosClient.InvalidDeleteNeverMutates` | chaos-client/main.py:132-145 | the invalid delete never changes the registry, even on a 204 |
| `ChaosClient.SendRequest` | chaos-client/main.py:163-194 | after the refresh, the registry changes only when the drawn operation gets its exact success status |
| `ChaosClient.CatalogueShape` | chaos-client/main.py:168-190 | the valid catalogue has 4 operations, the error catalogue has 6, and each operation is in exactly one of them |
| `Simulation.Serve` | src/handlers.rs:6-59 | one request moves the server's counter by at most one and keeps the repository valid |
| `Simulation.ToClientBody` | chaos-client/main.py:38-80 | the client reads a list reply as its books' ids in order (line 38) and a created book as its id (lines 79-80); any other body is unreadable |
| `Simulation.IterateFollowsSendRequest` | chaos-client/main.py:163-194 | an iteration against the service leaves the registry as `send_request` computes it from the list reply and from the reply the drawn operation actually received (a transport error when nothing was sent) |
| `Simulation.ListedIdsAreStoredKeys` | chaos-client/main.py:38 | the ids of a delivered list reply are distinct, all stored, and as many as the stored books |
| `Simulation.RefreshKeepsConsistent` | chaos-client/main.py:30-42 | a refresh keeps the registry consistent with the store, whatever happens on the wire |
| `Simulation.RemovalKeepsTracked` | chaos-client/main.py:138-141 | removing from the registry the one id the store lost keeps the registry distinct and stored |
| `Simulation.CreateKeepsConsistent` | chaos-client/main.py:76-85 | a create keeps the registry consistent on every delivery: the appended id is the fresh one the server just stored, and a lost reply only leaves a stored book untracked |
| `Simulation.ValidDeleteKeepsConsistent` | chaos-client/main.py:129-145 | a valid delete keeps the registry consistent: on 204 it drops exactly the id the server removed |
| `Simulation.InvalidDeleteKeepsConsistent` | chaos-client/main.py:132-145 | an invalid delete keeps the registry consistent on every delivery: whatever the server removes is untracked |
| `Simulation.ReadOnlyKeepsConsistent` | chaos-client/main.py:44-161 | reads, updates and the protocol probes leave the registry and the store's key set unchanged, on every delivery, and so keep the registry consistent |
| `Simulation.OperationKeepsConsistent` | chaos-client/main.py:44-161 | every catalogue operation keeps the registry consistent, except a valid delete whose reply is lost |
| `Simulation.ValidUpdateClearsOptionalFields` | src/storage.rs:70-78 | the client's title-only update sets the title and keeps the author, but clears year, genre and isbn on the server |
| `Simulation.IterationKeepsConsistent` | chaos-client/main.py:163-194 | a whole refresh-then-operate iteration keeps the registry consistent unless it loses a valid delete's reply |
| `Simulation.Iterate` | chaos-client/main.py:163-194 | one iteration moves the server's counter by at most one and keeps the repository valid |
| `Simulation.Run` | chaos-client/main.py:205-207 | repeated iterations keep the repository valid |
| `Simulation.RunKeepsConsistent` | chaos-client/main.py:205-207 | with the client as the only user and no valid delete losing its reply, every tracked id stays stored and the registry has no duplicates, over any number of iterations |
| `Simulation.StartIsConsistent` | src/storage.rs:19-24 | a new repository with an empty registry is consistent |
| `Simulation.WarmUp` | chaos-client/main.py:200-202 | the warm-up creates move the server's counter forward by at most their number and keep the repository valid |
| `Simulation.WarmUpKeepsConsistent` | chaos-client/main.py:200-202 | the warm-up creates keep the registry consistent, whatever happens to their requests on the wire |
| `Simulation.Session` | chaos-client/main.py:196-207 | a session starts from a new repository, sends three warm-up creates, then iterates, and leaves the repository valid |
| `Simulation.SessionKeepsConsistent` | chaos-client/main.py:196-207 | a whole session against a fresh service ends with a duplicate-free registry of stored ids, unless a valid delete lost its reply |
| `Simulation.LostDeleteReplyLeavesStaleId` | chaos-client/main.py:144-145 | if a delete's reply is lost after the server removed the book, the client keeps tracking an id that no longer exists |

## Left out

- Storage.Create: the counter increment at src/storage.rs:45 would overflow at `u32::MAX`. The model requires the counter to be below `u32::MAX` and does not model the panic or the wrap-around.
- Storage.Run, Simulation.Run, Simulation.WarmUp, Simulation.Session: these carry the same bound, so a run can include at most as many requests as ids remain.
- Storage.GetAll: a Rust `HashMap` iterates in an unspecified order. The model lists books in ascending id order, which is one admissible order. The content of the list is stated exactly; its order is not.
- src/main.rs: server start-up, socket binding and route registration are not modelled.
- Simulation: the web framework answers some requests before any handler runs, and those answers are not in the service's code. The model assumes 400 for a body that does not deserialise (the invalid create and the malformed update), 404 for an id that is not a `u32` and for `/not_books`, and 405 for the PATCH probe. Only the fact that none of these is 201 or 204 matters to the consistency results.
- JSON (de)serialisation: DTOs arrive already parsed. A reply body reaches the client as its ids (`IdList`, `IdObject`) or as `Unparsed`. Only the client fields the registry depends on are kept; the logged titles are not.
- `Arc<RwLock<..>>` locking and concurrency: the repository is a sequential value, and the client is single-threaded.
- The probabilities: the 75/25 valid/error bias, the uniformity of `random.choice`, the `random.uniform` pacing and the `randint` suffix. The model quantifies over every possible draw instead, so no statistical claim is made.
- Logging, `datetime.now()`, the unbounded `while True` loop with its `KeyboardInterrupt` exit, and the progress message every 20 requests. `Simulation.Session` covers the three warm-up creates followed by any finite number of iterations; none of the rest touches the registry.
- The network itself: a request's fate is a `Delivery` value (delivered, refused, or reply lost), not a model of HTTP transport.
