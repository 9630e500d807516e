/** The stock service over its repository's table. The operations that write
    (create, increment, delete) are methods that change the table in the
    steps the service takes, each proved to end where the matching function
    of ServiceSpec says; the read-only queries are those functions applied to
    the table (`ServiceSpec.FindByName(service.beers, name)`). */
module Service {
  import opened Beers
  import Repository
  import opened ServiceSpec

  class BeerService {
    /** The repository's table, by identifier. */
    var beers: Store

    ghost predicate Valid()
      reads this
    {
      Inv(beers)
    }

    constructor ()
      ensures Valid() && beers == map[]
    {
      beers := map[];
    }

    /** Refuses a name already taken; otherwise maps the request to a record,
        saves it and returns it mapped back. */
    method CreateBeer(dto: BeerDTO, generatedId: Id) returns (r: Result<BeerDTO>)
      requires Valid() && Complete(dto)
      requires dto.id.Some? || generatedId !in beers
      modifies this
      ensures Valid()
      ensures (r, beers) == ServiceSpec.CreateBeer(old(beers), dto, generatedId)
      ensures r.Err? ==> beers == old(beers)
    {
      var registered := VerifyIfIsAlreadyRegistered(beers, dto.name.value);
      if registered.Err? {
        return Err(registered.error);
      }
      var beer := ToBeer(dto, AssignedId(dto, generatedId));
      beers := Repository.Save(beers, beer);
      r := Ok(ToBeerDTO(beer));
    }

    /** Looks the record up, adds `amount` to its quantity in `int`
        arithmetic and writes it back only when the result is within `max`. */
    method Increment(id: Id, amount: Int32) returns (r: Result<BeerDTO>)
      requires Valid()
      modifies this
      ensures Valid()
      ensures (r, beers) == ServiceSpec.Increment(old(beers), id, amount)
      ensures r.Err? ==> beers == old(beers)
    {
      var found := VerifyIfExistsById(beers, id);
      if found.Err? {
        return Err(found.error);
      }
      var beer := found.value;
      var quantityAfterIncrement := AddInt32(amount, beer.quantity);
      if quantityAfterIncrement <= beer.max {
        beer := beer.(quantity := quantityAfterIncrement);
        beers := Repository.Save(beers, beer);
        return Ok(ToBeerDTO(beer));
      }
      r := Err(StockExceeded(id, amount));
    }

    /** Checks that the record exists, then removes it. */
    method DeleteById(id: Id) returns (r: Result<()>)
      requires Valid()
      modifies this
      ensures Valid()
      ensures (r, beers) == ServiceSpec.DeleteById(old(beers), id)
      ensures r.Err? ==> beers == old(beers)
    {
      var found := VerifyIfExistsById(beers, id);
      if found.Err? {
        return Err(found.error);
      }
      beers := Repository.DeleteById(beers, id);
      r := Ok(());
    }
  }

  /** The service's test scenario, proved from the contracts above: the
      fixture is created once, a second creation is refused, an increment of
      10 brings it to 20, one of 45 more is refused, and it can be deleted
      once. */
  method BrahmaScenario()
  {
    var service := new BeerService();
    var created := service.CreateBeer(Brahma(), 7);
    assert created == Ok(Brahma());
    var again := service.CreateBeer(Brahma(), 7);
    assert again == Err(AlreadyRegistered("Brahma"));
    var up := service.Increment(BrahmaId, 10);
    assert up.Ok? && up.value.quantity == Some(20);
    var over := service.Increment(BrahmaId, 45);
    assert over == Err(StockExceeded(BrahmaId, 45));
    var gone := service.DeleteById(BrahmaId);
    assert gone == Ok(()) && service.beers == map[];
    var missing := service.DeleteById(BrahmaId);
    assert missing == Err(NotFoundId(BrahmaId));
  }
}
