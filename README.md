# Beer stock service, modelled in Dafny

The beer stock API keeps a table of beer records (name, brand, capacity `max`,
current `quantity`, type), each under a UUID. Its one piece of business logic
is `BeerService`: create a record unless its name is taken, look one up by
name, list them all, raise a record's quantity as long as the result stays
within `max`, and delete a record by identifier. Incoming records are checked
against the constraint annotations on `BeerDTO` before they reach the service.

The model has four modules:

- `Beers` (`Beers.dfy`): the wire record `BeerDTO` (every field optional, as
  Java `null` allows), the stored record `Beer`, the validity predicate given by
  the constraint annotations (`@NotBlank` as the validator computes it,
  through `String.trim`), the mapper between the two forms, and Java's 32-bit
  `int` addition (`AddInt32`).
- `Repository` (`Repository.dfy`): the Spring Data repository as a
  `map<Id, Beer>`. `findById` and `findByName` are lookups, `save` is an
  upsert under the record's own identifier, `deleteById` removes a key, and
  `findAll` lists the records by ascending identifier.
- `ServiceSpec` (`ServiceSpec.dfy`): each service operation as a function from
  the table to a result and the table afterwards. Domain errors are
  constructors of `Error` (`AlreadyRegistered`, `NotFoundId`, `NotFoundName`,
  `StockExceeded`) carried by `Result`. Their contracts and the lemmas beside
  them state what the service promises. These are: no write on failure,
  success of an increment exactly when the new quantity is within `max`,
  exact arithmetic, and name uniqueness kept by every operation (`Inv`).
- `Service` (`Service.dfy`): the class `BeerService`, whose field `beers` is
  the repository's table. `CreateBeer`, `Increment` and `DeleteById` are
  methods that update it step by step as the Java code does. Each is proved to
  end where the matching `ServiceSpec` function says. The read-only queries
  are the `ServiceSpec` functions applied to `beers`.

Behaviours of the code a reader might not expect, kept as written:

- Nothing keeps `0 <= quantity <= max`: the code accepts any `int` amount, so
  a negative increment is allowed and can take the quantity below zero (see `ServiceSpec.IncrementExamples`).
- Creation does not compare `quantity` with `max`. Validation bounds neither
  from below (see `Beers.QuantityAboveMaxAccepted`).
- The sum in `increment` is a Java `int` sum and wraps around on overflow. With
  -1 in stock, an increment by `Integer.MIN_VALUE` is refused as exceeding the
  capacity. With `Integer.MAX_VALUE` in stock, an increment by 1 succeeds and
  leaves `Integer.MIN_VALUE` (`ServiceSpec.IncrementWrapsBelow`,
  `ServiceSpec.IncrementWrapsAbove`). Exact arithmetic is proved whenever the
  true sum fits in an `int`.

## Model

| member | source | states |
|---|---|---|
| `Beers.AddInt32` | src/main/java/br/com/beerstock/beerstockapi/domain/services/BeerService.java:61 | Java `int` addition: equal to the true sum when that fits in 32 bits, and congruent to it modulo 2^32 always |
| `Beers.Trim` | src/main/java/br/com/beerstock/beerstockapi/api/dtos/BeerDTO.java:25-31 | Java `String.trim`, as `@NotBlank` applies it: the result is no longer than the text, starts and ends above U+0020, and is empty exactly when no character is above U+0020 |
| `Beers.NotBlank` | src/main/java/br/com/beerstock/beerstockapi/api/dtos/BeerDTO.java:25-31 | `@NotBlank` (the trimmed text is non-empty) holds exactly when some character is above U+0020 |
| `Beers.ValidText` | src/main/java/br/com/beerstock/beerstockapi/api/dtos/BeerDTO.java:25-31 | a name or brand is valid exactly when present, 1 to 200 characters long, and not blank |
| `Beers.Valid` | src/main/java/br/com/beerstock/beerstockapi/api/dtos/BeerDTO.java:25-43 | the record's constraint annotations: name and brand valid texts, max present and at most 500, quantity present and at most 100, type present, nothing else; a valid record has every field but the identifier, so the mapper can build an entity from it |
| `Beers.ValidIgnoresId` | src/main/java/br/com/beerstock/beerstockapi/api/dtos/BeerDTO.java:23 | the identifier is unconstrained: changing it never changes validity |
| `Beers.ValidAmount` | src/main/java/br/com/beerstock/beerstockapi/api/dtos/QuantityDTO.java:16-18 | the increment request's constraint: the amount is present and at most 500, with no lower bound |
| `Beers.ValidAmountExamples` | src/main/java/br/com/beerstock/beerstockapi/api/dtos/QuantityDTO.java:16-18 | an increment amount must be present and at most 500, with no lower bound (negative amounts pass) |
| `Beers.ToBeerDTO` | src/main/java/br/com/beerstock/beerstockapi/api/mappers/BeerMapper.java:16 | entity to wire form: every field present, identifier carried over |
| `Beers.ToBeer` | src/main/java/br/com/beerstock/beerstockapi/api/mappers/BeerMapper.java:14 | wire form to entity is a field-for-field copy: mapping back gives the request with its assigned identifier |
| `Beers.MapperRoundTrip` | src/main/java/br/com/beerstock/beerstockapi/api/mappers/BeerMapper.java:14-16 | mapping an entity to wire form and back gives the same entity |
| `Beers.BrahmaIsValid` | src/test/java/br/com/beerstock/beerstockapi/common/builder/BeerDTOBuilder.java:13-28 | the test fixture (Brahma, Ambev, max 50, quantity 10, LAGER) passes validation |
| `Beers.MissingBrandRejected` | src/test/java/br/com/beerstock/beerstockapi/api/controllers/BeerControllerTest.java:86-93 | a record without a brand is invalid |
| `Beers.BlankNameRejected` | src/main/java/br/com/beerstock/beerstockapi/api/dtos/BeerDTO.java:25-27 | a name of spaces is invalid even though its length is within 1 to 200 |
| `Beers.QuantityAboveMaxAccepted` | src/main/java/br/com/beerstock/beerstockapi/api/dtos/BeerDTO.java:33-39 | validation neither bounds max or quantity from below nor compares them: max -1 with quantity 100 is valid |
| `Repository.FindById` | src/main/java/br/com/beerstock/beerstockapi/api/repository/BeerRepository.java:11 | a record is found exactly when its identifier is a key, and it is the one stored there |
| `Repository.FindByName` | src/main/java/br/com/beerstock/beerstockapi/api/repository/BeerRepository.java:13 | on a table with unique names, a record is found exactly when some stored record has the name, and it is that record |
| `Repository.Save` | src/main/java/br/com/beerstock/beerstockapi/api/repository/BeerRepository.java:11 | upsert: the record sits under its own identifier afterwards, every other record is unchanged |
| `Repository.DeleteById` | src/main/java/br/com/beerstock/beerstockapi/api/repository/BeerRepository.java:11 | exactly the given key disappears, every other record is unchanged |
| `Repository.FindAll` | src/main/java/br/com/beerstock/beerstockapi/api/repository/BeerRepository.java:11 | one entry per stored record, each the record under its own identifier, identifiers strictly ascending |
| `ServiceSpec.VerifyIfExistsById` | src/main/java/br/com/beerstock/beerstockapi/domain/services/BeerService.java:27-30 | the stored record when the identifier is known, otherwise NotFound for that identifier |
| `ServiceSpec.VerifyIfIsAlreadyRegistered` | src/main/java/br/com/beerstock/beerstockapi/domain/services/BeerService.java:32-37 | fails with AlreadyRegistered exactly when some stored record has the name |
| `ServiceSpec.AssignedId` | src/main/java/br/com/beerstock/beerstockapi/domain/services/BeerService.java:41-42 | the identifier a created record is saved under: the request's own when it carries one, otherwise the freshly generated one |
| `ServiceSpec.CreateBeer` | src/main/java/br/com/beerstock/beerstockapi/domain/services/BeerService.java:39-44 | a taken name gives AlreadyRegistered with the table unchanged; a fresh name saves the record under its identifier (its own, else the freshly generated one, so a record without an identifier replaces nothing) and returns the request with that identifier; uniqueness of names is kept |
| `ServiceSpec.FindByName` | src/main/java/br/com/beerstock/beerstockapi/domain/services/BeerService.java:46-50 | succeeds exactly when some stored record has the name and returns that record in wire form; otherwise NotFound for the name |
| `ServiceSpec.FindAll` | src/main/java/br/com/beerstock/beerstockapi/domain/services/BeerService.java:52-57 | as many entries as stored records, every stored record among them (so an empty table lists nothing) |
| `ServiceSpec.ToBeerDTOs` | src/main/java/br/com/beerstock/beerstockapi/domain/services/BeerService.java:53-56 | the stream `map`: same length, each entry the mapped record at that position, every record's image present |
| `ServiceSpec.FindAllEntries` | src/main/java/br/com/beerstock/beerstockapi/domain/services/BeerService.java:52-57 | every listed entry is the record stored under the identifier it carries, and no identifier is listed twice |
| `ServiceSpec.Increment` | src/main/java/br/com/beerstock/beerstockapi/domain/services/BeerService.java:59-68 | unknown identifier gives NotFound; otherwise success exactly when the `int` sum is at most max; any failure leaves the table unchanged, and a capacity failure is StockExceeded with the identifier and amount; success rewrites only that record's quantity and returns the updated record; uniqueness kept |
| `ServiceSpec.DeleteById` | src/main/java/br/com/beerstock/beerstockapi/domain/services/BeerService.java:70-73 | unknown identifier gives NotFound with the table unchanged; otherwise exactly that key is removed and every other record is unchanged; uniqueness kept |
| `ServiceSpec.IncrementSucceedsIff` | src/main/java/br/com/beerstock/beerstockapi/domain/services/BeerService.java:61-62 | when the true sum fits in an `int`, increment succeeds exactly when quantity + amount <= max |
| `ServiceSpec.IncrementExact` | src/main/java/br/com/beerstock/beerstockapi/domain/services/BeerService.java:61-65 | on success without overflow the quantity becomes exactly old + amount, the other fields and all other records are unchanged |
| `ServiceSpec.IncrementWrapsBelow` | src/main/java/br/com/beerstock/beerstockapi/domain/services/BeerService.java:61-67 | with -1 in stock, an increment by the least `int` wraps and is refused as StockExceeded although the true sum is below max |
| `ServiceSpec.IncrementWrapsAbove` | src/main/java/br/com/beerstock/beerstockapi/domain/services/BeerService.java:61-64 | with the greatest `int` in stock, an increment by 1 succeeds and leaves the least `int` |
| `ServiceSpec.CreatedBeerIsFound` | src/main/java/br/com/beerstock/beerstockapi/domain/services/BeerService.java:39-50 | after a successful create, looking the name up returns exactly what create returned |
| `ServiceSpec.DeletedNameIsFree` | src/main/java/br/com/beerstock/beerstockapi/domain/services/BeerService.java:70-73 | after deleting a record, its name is not found and may be registered again |
| `ServiceSpec.IncrementedBeerIsFound` | src/main/java/br/com/beerstock/beerstockapi/domain/services/BeerService.java:59-65 | after a successful increment, looking the record's name up returns the updated record |
| `ServiceSpec.CreateBeerAddsOne` | src/main/java/br/com/beerstock/beerstockapi/domain/services/BeerService.java:39-44 | creating a record without an identifier lengthens the listing by one and keeps every stored record as it was |
| `ServiceSpec.CreateBeerReplacesSameId` | src/main/java/br/com/beerstock/beerstockapi/domain/services/BeerService.java:41-42 | creating a record that carries the identifier of a stored one replaces that record; the listing keeps its length |
| `ServiceSpec.DeleteByIdRemovesOne` | src/main/java/br/com/beerstock/beerstockapi/domain/services/BeerService.java:70-73 | deleting a known identifier shortens the listing by one |
| `ServiceSpec.BrahmaStore` | src/test/java/br/com/beerstock/beerstockapi/common/builder/BeerDTOBuilder.java:13-28 | the table holding only the fixture satisfies the invariant |
| `ServiceSpec.CreateExamples` | src/test/java/br/com/beerstock/beerstockapi/domain/services/BeerServiceTest.java:50-89 | the fixture is created into an empty table and returned unchanged; a second creation of its name is AlreadyRegistered and writes nothing; a record of another name without an identifier is added beside the fixture |
| `ServiceSpec.FindByNameExamples` | src/test/java/br/com/beerstock/beerstockapi/domain/services/BeerServiceTest.java:91-119 | "Brahma" is found in the fixture table and not found in an empty one |
| `ServiceSpec.FindAllExamples` | src/test/java/br/com/beerstock/beerstockapi/domain/services/BeerServiceTest.java:121-149 | the fixture table lists exactly the fixture; an empty table lists nothing |
| `ServiceSpec.IncrementExamples` | src/test/java/br/com/beerstock/beerstockapi/domain/services/BeerServiceTest.java:182-252 | from 10 of at most 50: +10 gives 20, +40 gives exactly 50, +45 and +80 are StockExceeded with nothing written, an unknown identifier is NotFound, -20 gives -10 |
| `ServiceSpec.DeleteExamples` | src/test/java/br/com/beerstock/beerstockapi/domain/services/BeerServiceTest.java:151-180 | deleting the fixture empties the table; deleting an unknown identifier is NotFound |
| `Service.BeerService.constructor` | src/main/java/br/com/beerstock/beerstockapi/domain/services/BeerService.java:20-25 | a new service starts over an empty table that satisfies the invariant |
| `Service.BeerService.CreateBeer` | src/main/java/br/com/beerstock/beerstockapi/domain/services/BeerService.java:39-44 | checks the name, maps and saves; ends with the result and table `ServiceSpec.CreateBeer` gives, writes nothing on failure, keeps the invariant |
| `Service.BeerService.Increment` | src/main/java/br/com/beerstock/beerstockapi/domain/services/BeerService.java:59-68 | looks up, adds, checks against max, sets the quantity and saves; ends where `ServiceSpec.Increment` says, writes nothing on failure, keeps the invariant |
| `Service.BeerService.DeleteById` | src/main/java/br/com/beerstock/beerstockapi/domain/services/BeerService.java:70-73 | checks existence, then removes; ends where `ServiceSpec.DeleteById` says, writes nothing on failure, keeps the invariant |
| `Service.BeerService.BrahmaScenario` | src/test/java/br/com/beerstock/beerstockapi/domain/services/BeerServiceTest.java:50-252 | the service tests as one run against the class: the fixture is created, a second creation is AlreadyRegistered, +10 gives 20, +45 more is StockExceeded, the fixture is deleted once and a second delete is NotFound; every step follows from the method contracts |

## Left out

- Decrement: the controller calls `beerService.decrement`, but `BeerService` defines no such method, so there is no behaviour to model.
- HTTP routing, status codes, the triggering of validation by `@Valid`, and the exception messages and their status mapping are framework plumbing. Each exception becomes an `Error` constructor carrying the same identifier, name or amount.
- Database configuration and the JPA machinery behind the repository are not modelled. The repository is the map described above.
- UUIDs are modelled as naturals. Only equality matters to the service; listing uses their order.
- `Repository.FindAll`: the table's own listing order is unspecified. The model fixes ascending identifier order, and no property depends on it beyond "each record once".
- Identifier generation is randomness. `CreateBeer` takes the generated identifier as a parameter, requires it not to be a stored key (a new UUID is fresh), and uses it when the request carries none.
- A request whose identifier names no stored row is saved under that identifier. What JPA's merge would do with a generated-value entity there is not part of this model.
- `ServiceSpec.CreateBeer`: requires every field but the identifier to be present. A request with null fields is stopped by validation before it reaches the service, and the entity's own nullability is not part of this model.
- `Service.BeerService.CreateBeer`: same requirement as `ServiceSpec.CreateBeer`.
- `ServiceSpec.FindByName`: requires names to be unique in the table. Every operation keeps that, and on a table with duplicate names the repository query would throw instead.
- `BeerType.java` is not part of this model. The enumeration is modelled as `LAGER | ALE | STOUT`: LAGER is the one the tests use; ALE and STOUT stand in for the other constants of `BeerType`. Validation only needs it to be a closed set that may be absent.
- String lengths are counted in Dafny characters rather than UTF-16 code units. Out-of-range numbers in the JSON payload are rejected before validation and are not modelled.
- Concurrency is not modelled. The read-check-write in increment is not atomic under concurrent requests, and the model is sequential.
