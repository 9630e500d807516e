/** The beer record: its wire form with the Bean Validation constraints on it,
    its stored (entity) form, the field-for-field mapper between the two, and
    the pieces of Java semantics the service relies on (32-bit `int` addition,
    `String.trim`). */
module Beers {

  datatype Option<T> = None | Some(value: T)

  /** A record identifier. The repository keys records by UUID; only equality
      (and, for listing, some fixed order) matters, so naturals stand in. */
  type Id = nat

  const MinInt32: int := -0x8000_0000
  const MaxInt32: int := 0x7fff_ffff

  /** Java's `int`. */
  type Int32 = x: int | -0x8000_0000 <= x <= 0x7fff_ffff

  /** Java's `+` on two `int`s: the exact sum wrapped into 32 bits, two's complement. */
  function AddInt32(a: Int32, b: Int32): (r: Int32)
    ensures MinInt32 <= a + b <= MaxInt32 ==> r == a + b
    ensures (r - (a + b)) % 0x1_0000_0000 == 0
  {
    var s := a + b;
    if s > MaxInt32 then s - 0x1_0000_0000
    else if s < MinInt32 then s + 0x1_0000_0000
    else s
  }

  /** Java's `String.trim()`: drops every leading and every trailing character
      whose code is at most U+0020. What is left starts and ends above U+0020,
      and it is empty exactly when every character is at or below U+0020. */
  function Trim(s: string): (r: string)
    ensures |r| <= |s|
    ensures |r| > 0 ==> r[0] > ' ' && r[|r| - 1] > ' '
    ensures |r| > 0 <==> exists i :: 0 <= i < |s| && s[i] > ' '
  {
    TrimmedPart(s);
    TrimEnd(TrimStart(s))
  }

  /** The facts Trim promises, about the text TrimStart then TrimEnd leave. */
  lemma TrimmedPart(s: string)
    ensures var u := TrimEnd(TrimStart(s));
      && |u| <= |s|
      && (|u| > 0 ==> u[0] > ' ' && u[|u| - 1] > ' ')
      && (|u| > 0 <==> exists i :: 0 <= i < |s| && s[i] > ' ')
  {
    var t := TrimStart(s);
    var u := TrimEnd(t);
    var a := |s| - |t|;
    assert t == s[a..] && u == t[..|u|];
    if u != [] {
      assert u[0] == s[a] == t[0];
    } else {
      // a non-empty `t` starts above U+0020, so TrimEnd cannot drop all of it
      assert t == [];
    }
  }

  function TrimStart(s: string): (r: string)
    ensures |r| <= |s| && r == s[|s| - |r|..]
    ensures r != [] ==> r[0] > ' '
    ensures forall i :: 0 <= i < |s| - |r| ==> s[i] <= ' '
  {
    if s != [] && s[0] <= ' ' then TrimStart(s[1..]) else s
  }

  function TrimEnd(s: string): (r: string)
    ensures |r| <= |s| && r == s[..|r|]
    ensures r != [] ==> r[|r| - 1] > ' '
    ensures forall i :: |r| <= i < |s| ==> s[i] <= ' '
  {
    if s != [] && s[|s| - 1] <= ' ' then TrimEnd(s[..|s| - 1]) else s
  }

  /** `@NotBlank` as the validator checks it: the trimmed text is not empty,
      that is, some character is above U+0020. */
  predicate NotBlank(s: string)
    ensures NotBlank(s) <==> exists i :: 0 <= i < |s| && s[i] > ' '
  {
    |Trim(s)| > 0
  }

  datatype BeerType = LAGER | ALE | STOUT

  /** The record as it crosses the API boundary. Every field may be absent
      (Java `null`), which is what the constraints below rule out. */
  datatype BeerDTO = BeerDTO(
    id: Option<Id>,
    name: Option<string>,
    brand: Option<string>,
    max: Option<Int32>,
    quantity: Option<Int32>,
    beerType: Option<BeerType>)

  /** `@NotBlank @Size(min = 1, max = 200)` on a text field: present, 1 to
      200 characters long, and some character above U+0020. */
  predicate ValidText(t: Option<string>)
    ensures ValidText(t) <==>
      t.Some? && 1 <= |t.value| <= 200 && exists i :: 0 <= i < |t.value| && t.value[i] > ' '
  {
    t.Some? && NotBlank(t.value) && 1 <= |t.value| <= 200
  }

  /** Every constraint annotation on the record holds. Nothing else is
      checked: `id` is free, `max` and `quantity` have no lower bound, and
      `quantity` is not compared with `max`. A valid record has every field
      but `id`, which is what the mapper needs. */
  predicate Valid(d: BeerDTO)
    ensures Valid(d) ==> Complete(d)
  {
    && ValidText(d.name)
    && ValidText(d.brand)
    && d.max.Some? && d.max.value <= 500
    && d.quantity.Some? && d.quantity.value <= 100
    && d.beerType.Some?
  }

  /** `@NotNull @Max(500)` on the amount of an increment request. */
  predicate ValidAmount(q: Option<Int32>)
  {
    q.Some? && q.value <= 500
  }

  /** An increment amount is bounded above only: a negative one passes. */
  lemma ValidAmountExamples()
    ensures ValidAmount(Some(500)) && ValidAmount(Some(-1000)) && ValidAmount(Some(MinInt32 as Int32))
    ensures !ValidAmount(Some(501)) && !ValidAmount(None)
  {
  }

  /** Every field but `id` is present: what the mapper needs to build a stored record. */
  predicate Complete(d: BeerDTO)
  {
    d.name.Some? && d.brand.Some? && d.max.Some? && d.quantity.Some? && d.beerType.Some?
  }

  /** The identifier takes no part in validation. */
  lemma ValidIgnoresId(d: BeerDTO, id: Option<Id>)
    ensures Valid(d.(id := id)) == Valid(d)
  {
  }

  /** The stored record. */
  datatype Beer = Beer(
    id: Id,
    name: string,
    brand: string,
    max: Int32,
    quantity: Int32,
    beerType: BeerType)

  /** Mapper, entity to wire form: a field-for-field copy. */
  function ToBeerDTO(b: Beer): (d: BeerDTO)
    ensures Complete(d) && d.id == Some(b.id)
  {
    BeerDTO(Some(b.id), Some(b.name), Some(b.brand), Some(b.max), Some(b.quantity), Some(b.beerType))
  }

  /** Mapper, wire form to entity: a field-for-field copy, under the identifier
      the repository keeps it at. */
  function ToBeer(d: BeerDTO, id: Id): (b: Beer)
    requires Complete(d)
    ensures ToBeerDTO(b) == d.(id := Some(id))
  {
    Beer(id, d.name.value, d.brand.value, d.max.value, d.quantity.value, d.beerType.value)
  }

  /** Mapping an entity out and back in gives the same entity. */
  lemma MapperRoundTrip(b: Beer)
    ensures ToBeer(ToBeerDTO(b), b.id) == b
  {
  }

  /** The test fixture: Brahma by Ambev, a lager, 10 in stock out of at most 50. */
  const BrahmaId: Id := 1

  function Brahma(): (d: BeerDTO)
  {
    BeerDTO(Some(BrahmaId), Some("Brahma"), Some("Ambev"), Some(50), Some(10), Some(LAGER))
  }

  lemma {:induction false} BrahmaIsValid()
    ensures Valid(Brahma())
  {
    assert "Brahma"[0] > ' ';
    assert "Ambev"[0] > ' ';
  }

  /** A request without a brand is rejected. */
  lemma MissingBrandRejected(d: BeerDTO)
    requires d.brand.None?
    ensures !Valid(d)
  {
  }

  /** A name of spaces is rejected although its length is within bounds. */
  lemma {:induction false} BlankNameRejected()
    ensures !Valid(Brahma().(name := Some("   ")))
  {
  }

  /** Validation does not tie `quantity` to `max` and bounds neither from
      below: a negative capacity with a full hundred in stock passes. */
  lemma {:induction false} QuantityAboveMaxAccepted()
    ensures Valid(Brahma().(max := Some(-1), quantity := Some(100)))
  {
    BrahmaIsValid();
  }
}
