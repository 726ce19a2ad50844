/**
 The product catalog is generated into a header the library links against;
 here it is a parameter: a sequence of (product id, is-a-relay) entries.
 */
module Products {

  datatype Product = Product(id: int, relays: bool)

  /** The first catalog entry with `id` at or after `from` is not a relay. */
  ghost predicate FirstEntryIsLight(catalog: seq<Product>, id: int, from: nat)
  {
    exists i | from <= i < |catalog| ::
      && catalog[i].id == id
      && !catalog[i].relays
      && forall j | from <= j < i :: catalog[j].id != id
  }

  function IsLightFrom(catalog: seq<Product>, id: int, from: nat): (r: bool)
    requires from <= |catalog|
    ensures r <==> FirstEntryIsLight(catalog, id, from)
    decreases |catalog| - from
  {
    if from == |catalog| then false
    else if catalog[from].id == id then
      assert !catalog[from].relays ==> FirstEntryIsLight(catalog, id, from);
      !catalog[from].relays
    else
      var r := IsLightFrom(catalog, id, from + 1);
      assert FirstEntryIsLight(catalog, id, from + 1) ==> FirstEntryIsLight(catalog, id, from);
      r
  }

  /** lifx_product_is_light: the first catalog entry with the product id
      decides (a light unless it is a relay); an unknown id is not a light. */
  function ProductIsLight(catalog: seq<Product>, id: int): (r: bool)
    ensures r <==> FirstEntryIsLight(catalog, id, 0)
    ensures (forall i | 0 <= i < |catalog| :: catalog[i].id != id) ==> !r
  {
    IsLightFrom(catalog, id, 0)
  }
}
