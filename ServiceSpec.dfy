/** What the stock service does, as functions from the repository's table to
    a result and the table afterwards. The class in module Service performs
    the same steps on its own table and is proved equal to these. */
module ServiceSpec {
  import opened Beers
  import Repository

  type Store = Repository.Store

  /** The domain errors the service raises. */
  datatype Error =
    | AlreadyRegistered(name: string)
    | NotFoundId(id: Id)
    | NotFoundName(name: string)
    | StockExceeded(id: Id, amount: Int32)

  datatype Result<T> = Ok(value: T) | Err(error: Error)

  /** What every operation keeps: records sit under their own identifier and
      names are unique. */
  predicate Inv(s: Store)
  {
    Repository.Keyed(s) && Repository.UniqueNames(s)
  }

  /** The stored record under `id`, or NotFound. */
  function VerifyIfExistsById(s: Store, id: Id): (r: Result<Beer>)
    ensures r.Ok? <==> id in s
    ensures r.Ok? ==> r.value == s[id]
    ensures r.Err? ==> r.error == NotFoundId(id)
  {
    match Repository.FindById(s, id)
    case Some(b) => Ok(b)
    case None => Err(NotFoundId(id))
  }

  /** AlreadyRegistered exactly when some stored record carries `name`. */
  function VerifyIfIsAlreadyRegistered(s: Store, name: string): (r: Result<()>)
    requires Repository.UniqueNames(s)
    ensures r.Err? <==> Repository.NameTaken(s, name)
    ensures r.Err? ==> r.error == AlreadyRegistered(name)
  {
    if Repository.FindByName(s, name).Some? then Err(AlreadyRegistered(name)) else Ok(())
  }

  /** The identifier a new record is saved under: its own when it brings one,
      otherwise the one the repository generates (a fresh key, as a generated
      UUID is). */
  function AssignedId(dto: BeerDTO, generatedId: Id): Id
  {
    if dto.id.Some? then dto.id.value else generatedId
  }

  /** Create: refused when the name is taken, the table untouched; otherwise
      the record is upserted under its identifier and handed back with it. A
      record without an identifier gets a fresh one, so nothing is replaced. */
  function CreateBeer(s: Store, dto: BeerDTO, generatedId: Id): (r: (Result<BeerDTO>, Store))
    requires Inv(s) && Complete(dto)
    requires dto.id.Some? || generatedId !in s
    ensures Repository.NameTaken(s, dto.name.value) ==>
      r == (Err(AlreadyRegistered(dto.name.value)), s)
    ensures !Repository.NameTaken(s, dto.name.value) ==>
      var id := AssignedId(dto, generatedId);
      r.0 == Ok(dto.(id := Some(id))) && r.1 == s[id := ToBeer(dto, id)]
    ensures Inv(r.1)
  {
    match VerifyIfIsAlreadyRegistered(s, dto.name.value)
    case Err(e) => (Err(e), s)
    case Ok(_) =>
      var beer := ToBeer(dto, AssignedId(dto, generatedId));
      var saved := Repository.Save(s, beer);
      (Ok(ToBeerDTO(beer)), saved)
  }

  /** The stored record with that name, or NotFound. */
  function FindByName(s: Store, name: string): (r: Result<BeerDTO>)
    requires Inv(s)
    ensures r.Ok? <==> Repository.NameTaken(s, name)
    ensures r.Err? ==> r.error == NotFoundName(name)
    ensures r.Ok? ==> exists k :: k in s && s[k].name == name && r.value == ToBeerDTO(s[k])
  {
    match Repository.FindByName(s, name)
    case Some(b) => Ok(ToBeerDTO(b))
    case None => Err(NotFoundName(name))
  }

  /** Every stored record in wire form; FindAllEntries adds that each entry
      is a stored record and none comes twice. */
  function FindAll(s: Store): (r: seq<BeerDTO>)
    requires Repository.Keyed(s)
    ensures |r| == |s|
    ensures forall k :: k in s ==> ToBeerDTO(s[k]) in r
  {
    ToBeerDTOs(Repository.FindAll(s))
  }

  /** Each entry of the listing is the record stored under the identifier it
      carries, and the identifiers strictly ascend: with the length equal to
      the number of records, every record is listed exactly once. */
  lemma FindAllEntries(s: Store)
    requires Repository.Keyed(s)
    ensures var r := FindAll(s);
      && (forall i :: 0 <= i < |r| ==>
            r[i].id.Some? && r[i].id.value in s && r[i] == ToBeerDTO(s[r[i].id.value]))
      && (forall i, j :: 0 <= i < j < |r| ==> r[i].id.value < r[j].id.value)
  {
    var rows := Repository.FindAll(s);
    var r := FindAll(s);
    forall i | 0 <= i < |r|
      ensures r[i].id.Some? && r[i].id.value in s && r[i] == ToBeerDTO(s[r[i].id.value])
    {
      var b := rows[i];
      assert r[i] == ToBeerDTO(b) && b.id in s && s[b.id] == b;
    }
    forall i, j | 0 <= i < j < |r| ensures r[i].id.value < r[j].id.value {
      assert r[i] == ToBeerDTO(rows[i]) && r[j] == ToBeerDTO(rows[j]);
    }
  }

  /** The mapper applied to each record in turn. */
  function ToBeerDTOs(rows: seq<Beer>): (r: seq<BeerDTO>)
    ensures |r| == |rows|
    ensures forall i :: 0 <= i < |r| ==> r[i] == ToBeerDTO(rows[i])
    ensures forall b :: b in rows ==> ToBeerDTO(b) in r
  {
    if rows == [] then [] else [ToBeerDTO(rows[0])] + ToBeerDTOs(rows[1..])
  }

  /** Increment: NotFound on an unknown identifier; otherwise the new quantity
      is `amount + quantity` in Java `int` arithmetic, written back only when
      it does not exceed `max`, else StockExceeded. A failure writes nothing. */
  function Increment(s: Store, id: Id, amount: Int32): (r: (Result<BeerDTO>, Store))
    requires Inv(s)
    ensures id !in s ==> r == (Err(NotFoundId(id)), s)
    ensures id in s ==> (r.0.Ok? <==> AddInt32(amount, s[id].quantity) <= s[id].max)
    ensures r.0.Err? ==> r.1 == s
    ensures id in s && r.0.Err? ==> r.0.error == StockExceeded(id, amount)
    ensures r.0.Ok? ==>
      && id in s
      && r.1 == s[id := s[id].(quantity := AddInt32(amount, s[id].quantity))]
      && r.0.value == ToBeerDTO(r.1[id])
    ensures Inv(r.1)
  {
    match VerifyIfExistsById(s, id)
    case Err(e) => (Err(e), s)
    case Ok(beer) =>
      var after := AddInt32(amount, beer.quantity);
      if after <= beer.max then
        var updated := beer.(quantity := after);
        (Ok(ToBeerDTO(updated)), Repository.Save(s, updated))
      else
        (Err(StockExceeded(id, amount)), s)
  }

  /** Delete: NotFound on an unknown identifier, table untouched; otherwise
      exactly that record goes and every other stays as it was. */
  function DeleteById(s: Store, id: Id): (r: (Result<()>, Store))
    requires Inv(s)
    ensures id !in s ==> r == (Err(NotFoundId(id)), s)
    ensures id in s ==>
      && r.0 == Ok(())
      && r.1.Keys == s.Keys - {id}
      && forall k :: k in r.1 ==> r.1[k] == s[k]
    ensures Inv(r.1)
  {
    match VerifyIfExistsById(s, id)
    case Err(e) => (Err(e), s)
    case Ok(_) => (Ok(()), Repository.DeleteById(s, id))
  }

  // ---------------------------------------------------------------------
  // Increment: exact arithmetic while the sum fits in an `int`

  predicate FitsInt32(x: int)
  {
    MinInt32 <= x <= MaxInt32
  }

  /** Without overflow, increment succeeds exactly when the sum stays within `max`. */
  lemma IncrementSucceedsIff(s: Store, id: Id, amount: Int32)
    requires Inv(s) && id in s && FitsInt32(s[id].quantity + amount)
    ensures Increment(s, id, amount).0.Ok? <==> s[id].quantity + amount <= s[id].max
  {
  }

  /** On success the record's quantity grows by exactly `amount`; its other
      fields and every other record stay as they were. */
  lemma IncrementExact(s: Store, id: Id, amount: Int32)
    requires Inv(s) && id in s && FitsInt32(s[id].quantity + amount)
    requires s[id].quantity + amount <= s[id].max
    ensures var (r, s') := Increment(s, id, amount);
      && r.Ok?
      && r.value.quantity == Some(s[id].quantity + amount)
      && s'.Keys == s.Keys
      && s'[id].quantity == s[id].quantity + amount
      && s'[id] == s[id].(quantity := s'[id].quantity)
      && forall k :: k in s && k != id ==> s'[k] == s[k]
  {
  }

  /** The sum is taken in 32 bits: with -1 in stock, an increment by the least
      `int` wraps to the greatest one and is refused as StockExceeded, though
      the true total is far below `max`. */
  lemma IncrementWrapsBelow()
    ensures var s := map[BrahmaId := ToBeer(Brahma().(quantity := Some(-1)), BrahmaId)];
      && -1 + MinInt32 <= 50
      && Increment(s, BrahmaId, MinInt32 as Int32) == (Err(StockExceeded(BrahmaId, MinInt32 as Int32)), s)
  {
  }

  /** Symmetrically, a record holding the greatest `int` accepts an increment
      by one and ends up holding the least. */
  lemma IncrementWrapsAbove()
    ensures var s := map[BrahmaId := ToBeer(Brahma().(quantity := Some(MaxInt32 as Int32)), BrahmaId)];
      && Increment(s, BrahmaId, 1).0.Ok?
      && Increment(s, BrahmaId, 1).1[BrahmaId].quantity == MinInt32
  {
  }

  // ---------------------------------------------------------------------
  // How the operations combine

  /** A record just created is what a lookup of its name returns. */
  lemma {:induction false} CreatedBeerIsFound(s: Store, dto: BeerDTO, generatedId: Id)
    requires Inv(s) && Complete(dto) && (dto.id.Some? || generatedId !in s)
    requires CreateBeer(s, dto, generatedId).0.Ok?
    ensures var (r, s') := CreateBeer(s, dto, generatedId);
      FindByName(s', dto.name.value) == r
  {
    var (r, s') := CreateBeer(s, dto, generatedId);
    var id := AssignedId(dto, generatedId);
    assert s'[id].name == dto.name.value;
    var found := FindByName(s', dto.name.value);
    var k :| k in s' && s'[k].name == dto.name.value && found.value == ToBeerDTO(s'[k]);
    assert k == id;
  }

  /** Once a record is deleted its name is free: a lookup fails and a new
      record may take the name. */
  lemma {:induction false} DeletedNameIsFree(s: Store, id: Id)
    requires Inv(s) && id in s
    ensures var s' := DeleteById(s, id).1;
      && FindByName(s', s[id].name) == Err(NotFoundName(s[id].name))
      && VerifyIfIsAlreadyRegistered(s', s[id].name).Ok?
  {
  }

  /** An increment leaves the record findable by its name, holding the new quantity. */
  lemma {:induction false} IncrementedBeerIsFound(s: Store, id: Id, amount: Int32)
    requires Inv(s) && Increment(s, id, amount).0.Ok?
    ensures var (r, s') := Increment(s, id, amount);
      FindByName(s', s[id].name) == r
  {
    var (r, s') := Increment(s, id, amount);
    var found := FindByName(s', s[id].name);
    assert s'[id].name == s[id].name;
    var k :| k in s' && s'[k].name == s[id].name && found.value == ToBeerDTO(s'[k]);
    assert k == id;
  }

  /** Creating a record without an identifier adds one entry to the listing
      and keeps every stored record as it was. */
  lemma {:induction false} CreateBeerAddsOne(s: Store, dto: BeerDTO, generatedId: Id)
    requires Inv(s) && Complete(dto) && dto.id.None? && generatedId !in s
    requires !Repository.NameTaken(s, dto.name.value)
    ensures var s' := CreateBeer(s, dto, generatedId).1;
      && |FindAll(s')| == |FindAll(s)| + 1
      && forall k :: k in s ==> k in s' && s'[k] == s[k]
  {
    var s' := CreateBeer(s, dto, generatedId).1;
    assert s'.Keys == s.Keys + {generatedId};
  }

  /** Creating a record that brings the identifier of a stored one replaces
      that record: the table does not grow. */
  lemma {:induction false} CreateBeerReplacesSameId(s: Store, dto: BeerDTO, generatedId: Id)
    requires Inv(s) && Complete(dto) && dto.id.Some? && dto.id.value in s
    requires !Repository.NameTaken(s, dto.name.value)
    ensures var s' := CreateBeer(s, dto, generatedId).1;
      && s'[dto.id.value] == ToBeer(dto, dto.id.value)
      && |FindAll(s')| == |FindAll(s)|
  {
    var s' := CreateBeer(s, dto, generatedId).1;
    assert s'.Keys == s.Keys;
  }

  /** A deletion removes one entry from the listing. */
  lemma {:induction false} DeleteByIdRemovesOne(s: Store, id: Id)
    requires Inv(s) && id in s
    ensures |FindAll(DeleteById(s, id).1)| == |FindAll(s)| - 1
  {
    var s' := DeleteById(s, id).1;
    assert s'.Keys == s.Keys - {id};
    assert |s'.Keys| == |s.Keys| - 1;
  }

  // ---------------------------------------------------------------------
  // The test fixture: Brahma, 10 in stock, at most 50

  function BrahmaStore(): (s: Store)
    ensures Inv(s)
  {
    map[BrahmaId := ToBeer(Brahma(), BrahmaId)]
  }

  lemma {:induction false} CreateExamples()
    ensures CreateBeer(map[], Brahma(), 7) == (Ok(Brahma()), BrahmaStore())
    ensures CreateBeer(BrahmaStore(), Brahma(), 7).0 == Err(AlreadyRegistered("Brahma"))
    ensures CreateBeer(BrahmaStore(), Brahma().(id := None), 7).1 == BrahmaStore()
    ensures var s := CreateBeer(BrahmaStore(), Brahma().(id := None, name := Some("Skol")), 7).1;
      s.Keys == {BrahmaId, 7} && s[BrahmaId] == BrahmaStore()[BrahmaId] && s[7].name == "Skol"
  {
    assert BrahmaStore()[BrahmaId].name == "Brahma";
    assert !Repository.NameTaken(BrahmaStore(), "Skol");
  }

  lemma {:induction false} FindByNameExamples()
    ensures FindByName(BrahmaStore(), "Brahma") == Ok(Brahma())
    ensures FindByName(map[], "Brahma") == Err(NotFoundName("Brahma"))
  {
    assert BrahmaStore()[BrahmaId].name == "Brahma";
  }

  lemma {:induction false} FindAllExamples()
    ensures FindAll(BrahmaStore()) == [Brahma()]
    ensures FindAll(map[]) == []
  {
    var all := FindAll(BrahmaStore());
    assert |all| == 1 && ToBeerDTO(BrahmaStore()[BrahmaId]) in all;
  }

  lemma IncrementExamples()
    ensures Increment(BrahmaStore(), BrahmaId, 10).0 == Ok(Brahma().(quantity := Some(20)))
    ensures Increment(BrahmaStore(), BrahmaId, 40).0 == Ok(Brahma().(quantity := Some(50)))
    ensures Increment(BrahmaStore(), BrahmaId, 45) == (Err(StockExceeded(BrahmaId, 45)), BrahmaStore())
    ensures Increment(BrahmaStore(), BrahmaId, 80) == (Err(StockExceeded(BrahmaId, 80)), BrahmaStore())
    ensures Increment(BrahmaStore(), 2, 10) == (Err(NotFoundId(2)), BrahmaStore())
    ensures Increment(BrahmaStore(), BrahmaId, -20).0 == Ok(Brahma().(quantity := Some(-10)))
  {
  }

  lemma DeleteExamples()
    ensures DeleteById(BrahmaStore(), BrahmaId) == (Ok(()), map[])
    ensures DeleteById(BrahmaStore(), 2) == (Err(NotFoundId(2)), BrahmaStore())
  {
  }
}
