/**
 * The price-selection rule of the configurable-product plugin: walk the
 * saleable child variants in order, keep a running price that is the larger
 * of itself and each variant's base price, and let a variant whose base price
 * ties the running price replace it with its special price when the special
 * price's date window is open.
 *
 * Prices are whole numbers of the smallest currency unit. Dates and the
 * current time are whole numbers standing for the fixed-width
 * "Y-m-d H:i:s" strings the source compares, whose string order is the
 * chronological order.
 */
module MaxConfigurablePrice {
  import opened Wrappers

  /** What the plugin reads from one saleable child product. */
  datatype Variant = Variant(
    price: int,                      // getPrice()
    specialPrice: Option<int>,       // getData('special_price'), None when not set
    specialFromDate: Option<int>,    // getData('special_from_date')
    specialToDate: Option<int>       // getData('special_to_date')
  )

  function Max(a: int, b: int): (m: int)
    ensures m >= a && m >= b
    ensures m == a || m == b
  {
    if a >= b then a else b
  }

  /** PHP truthiness of the running price: `null` and `0` are false. */
  predicate Truthy(running: Option<int>) {
    running.Some? && running.value != 0
  }

  /**
   * The first half of an iteration: a truthy running price is combined with
   * the variant's base price by `max`; a falsy one is replaced outright.
   */
  function MaxStep(running: Option<int>, productPrice: int): (r: int)
    ensures Truthy(running) ==> r >= running.value && r >= productPrice
    ensures Truthy(running) ==> r == running.value || r == productPrice
    ensures !Truthy(running) ==> r == productPrice
    ensures r == productPrice <==> !Truthy(running) || running.value <= productPrice
  {
    if Truthy(running) then Max(running.value, productPrice) else productPrice
  }

  /**
   * The four-way switch on which of the two dates are set. Both comparisons
   * are strict; with neither date the special price is always on.
   */
  predicate WindowActive(from: Option<int>, to: Option<int>, now: int) {
    match (from, to)
    case (Some(f), Some(t)) => now > f && now < t
    case (Some(f), None) => now > f
    case (None, Some(t)) => now < t
    case (None, None) => true
  }

  /** The variant has a special price and its window is open at `now`. */
  predicate SpecialApplies(v: Variant, now: int) {
    v.specialPrice.Some? && WindowActive(v.specialFromDate, v.specialToDate, now)
  }

  /** One whole iteration of the loop: the max step, then the override. */
  function Step(running: Option<int>, v: Variant, now: int): int {
    var p := MaxStep(running, v.price);
    if p == v.price && SpecialApplies(v, now) then v.specialPrice.value else p
  }

  /**
   * The running price after the loop has processed `vs`: `None` before the
   * first variant, and after that whatever the last iteration left.
   */
  function Resolve(vs: seq<Variant>, now: int): (r: Option<int>)
    ensures r.Some? <==> |vs| > 0
    decreases |vs|
  {
    if |vs| == 0 then None
    else Some(Step(Resolve(vs[..|vs| - 1], now), vs[|vs| - 1], now))
  }

  /**
   * The loop of aroundResolvePrice over the saleable children, with the
   * running price `price` updated in place.
   */
  method ResolvePrice(variants: seq<Variant>, now: int) returns (price: Option<int>)
    ensures price == Resolve(variants, now)
    ensures price.None? <==> variants == []
  {
    price := None;
    var i := 0;
    while i < |variants|
      invariant 0 <= i <= |variants|
      invariant price == Resolve(variants[..i], now)
    {
      var child := variants[i];
      var productPrice := child.price;
      price := Some(if Truthy(price) then Max(price.value, productPrice) else productPrice);
      if price.value == productPrice && child.specialPrice.Some? {
        var specialPrice := child.specialPrice.value;
        match (child.specialFromDate, child.specialToDate)
        case (Some(from), Some(to)) =>
          if now > from && now < to {
            price := Some(specialPrice);
          }
        case (Some(from), None) =>
          if now > from {
            price := Some(specialPrice);
          }
        case (None, Some(to)) =>
          if now < to {
            price := Some(specialPrice);
          }
        case (None, None) =>
          price := Some(specialPrice);
      }
      assert variants[..i + 1][..i] == variants[..i];
      i := i + 1;
    }
    assert variants[..i] == variants;
  }
}
