/**
 * Properties of the price-selection fold `Resolve`: one iteration at a time,
 * and over the whole list of variants.
 */
module MaxConfigurablePriceProperties {
  import opened Wrappers
  import opened MaxConfigurablePrice

  // ---------------------------------------------------------------------
  // The date window

  /**
   * The four-way switch says exactly: every date that is set bounds `now`
   * strictly, the from-date from below and the to-date from above.
   */
  lemma WindowActiveIffBounds(from: Option<int>, to: Option<int>, now: int)
    ensures WindowActive(from, to, now) <==>
            (from.None? || from.value < now) && (to.None? || now < to.value)
  {
  }

  /** Neither end of the window is inclusive. */
  lemma WindowBoundsExclusive(from: Option<int>, to: Option<int>, now: int)
    requires from == Some(now) || to == Some(now)
    ensures !WindowActive(from, to, now)
  {
  }

  // ---------------------------------------------------------------------
  // One iteration of the loop: processing `v` after the prefix `vs`

  /** The running price that the prefix `vs` leaves is the one `v` sees. */
  lemma ResolveAppend(vs: seq<Variant>, v: Variant, now: int)
    ensures Resolve(vs + [v], now) == Some(Step(Resolve(vs, now), v, now))
  {
    assert (vs + [v])[..|vs|] == vs;
  }

  /** A falsy running price (none yet, or zero) is replaced by the base price. */
  lemma FalsyRunningPriceRestarts(vs: seq<Variant>, v: Variant, now: int)
    requires !Truthy(Resolve(vs, now))
    ensures Resolve(vs + [v], now) ==
            Some(if SpecialApplies(v, now) then v.specialPrice.value else v.price)
  {
    ResolveAppend(vs, v, now);
  }

  /** With a truthy running price, the max step keeps the larger of the two. */
  lemma TruthyRunningPriceTakesMax(vs: seq<Variant>, v: Variant, now: int)
    requires Truthy(Resolve(vs, now))
    requires !SpecialApplies(v, now)
    ensures Resolve(vs + [v], now).value >= Resolve(vs, now).value
    ensures Resolve(vs + [v], now).value >= v.price
    ensures Resolve(vs + [v], now).value in {Resolve(vs, now).value, v.price}
  {
    ResolveAppend(vs, v, now);
  }

  /**
   * Without a special price in an open window the iteration ends with the
   * max step's price: neither date branch changes anything.
   */
  lemma InactiveSpecialLeavesMax(vs: seq<Variant>, v: Variant, now: int)
    requires !SpecialApplies(v, now)
    ensures Resolve(vs + [v], now) == Some(MaxStep(Resolve(vs, now), v.price))
  {
    ResolveAppend(vs, v, now);
  }

  /**
   * The special price is considered only on a tie: when the base price is
   * below a truthy running price, the running price survives unchanged.
   */
  lemma NoTieNoOverride(vs: seq<Variant>, v: Variant, now: int)
    requires Truthy(Resolve(vs, now)) && v.price < Resolve(vs, now).value
    ensures Resolve(vs + [v], now) == Resolve(vs, now)
  {
    ResolveAppend(vs, v, now);
  }

  /**
   * On a tie (base price at least the running price, or running price falsy)
   * an applicable special price replaces the running price.
   */
  lemma TieWithActiveSpecialOverrides(vs: seq<Variant>, v: Variant, now: int)
    requires !Truthy(Resolve(vs, now)) || Resolve(vs, now).value <= v.price
    requires SpecialApplies(v, now)
    ensures Resolve(vs + [v], now) == Some(v.specialPrice.value)
  {
    ResolveAppend(vs, v, now);
  }

  /** The iteration's price changes from the max step's only by an override. */
  lemma OverrideOnlyOnTieAndActive(vs: seq<Variant>, v: Variant, now: int)
    requires Resolve(vs + [v], now) != Some(MaxStep(Resolve(vs, now), v.price))
    ensures MaxStep(Resolve(vs, now), v.price) == v.price
    ensures SpecialApplies(v, now)
    ensures Resolve(vs + [v], now) == Some(v.specialPrice.value)
  {
    ResolveAppend(vs, v, now);
  }

  // ---------------------------------------------------------------------
  // The whole loop

  /** `p` is the base price of some variant or an applicable special price of one. */
  ghost predicate IsCandidate(vs: seq<Variant>, now: int, p: int) {
    exists i :: 0 <= i < |vs| && CandidateAt(vs, now, p, i)
  }

  ghost predicate CandidateAt(vs: seq<Variant>, now: int, p: int, i: int)
    requires 0 <= i < |vs|
  {
    vs[i].price == p || (SpecialApplies(vs[i], now) && vs[i].specialPrice.value == p)
  }

  /** The displayed price is never invented: it comes from one of the variants. */
  lemma {:induction false} ResultIsCandidate(vs: seq<Variant>, now: int)
    requires vs != []
    ensures IsCandidate(vs, now, Resolve(vs, now).value)
    decreases |vs|
  {
    var n := |vs| - 1;
    var pre, v := vs[..n], vs[n];
    assert vs == pre + [v];
    ResolveAppend(pre, v, now);
    var r := Resolve(vs, now).value;
    if r == v.price || (SpecialApplies(v, now) && r == v.specialPrice.value) {
      assert CandidateAt(vs, now, r, n);
    } else {
      // the iteration left the prefix's price in place
      assert pre != [] && r == Resolve(pre, now).value;
      ResultIsCandidate(pre, now);
      var i :| 0 <= i < |pre| && CandidateAt(pre, now, r, i);
      assert vs[i] == pre[i];
      assert CandidateAt(vs, now, r, i);
    }
  }

  /** Every base price is non-negative, as catalog prices are. */
  ghost predicate NonNegativePrices(vs: seq<Variant>) {
    forall i :: 0 <= i < |vs| ==> vs[i].price >= 0
  }

  /** `p` is the largest base price in `vs`. */
  ghost predicate IsMaxBase(vs: seq<Variant>, p: int) {
    && (forall i :: 0 <= i < |vs| ==> vs[i].price <= p)
    && (exists i :: 0 <= i < |vs| && vs[i].price == p)
  }

  /**
   * When no variant has a special price in an open window, the loop computes
   * the largest base price. The falsy restart on a zero running price does
   * not disturb this, because no base price is below zero.
   */
  lemma {:induction false} NoActiveSpecialYieldsMaxBase(vs: seq<Variant>, now: int)
    requires vs != []
    requires NonNegativePrices(vs)
    requires forall i :: 0 <= i < |vs| ==> !SpecialApplies(vs[i], now)
    ensures IsMaxBase(vs, Resolve(vs, now).value)
    decreases |vs|
  {
    var n := |vs| - 1;
    var pre, v := vs[..n], vs[n];
    assert vs == pre + [v];
    assert !SpecialApplies(v, now);
    InactiveSpecialLeavesMax(pre, v, now);
    var r := Resolve(vs, now).value;
    if pre == [] {
      assert r == v.price;
      assert vs[0] == v;
    } else {
      assert forall i :: 0 <= i < |pre| ==> pre[i] == vs[i];
      NoActiveSpecialYieldsMaxBase(pre, now);
      var q := Resolve(pre, now).value;
      var j :| 0 <= j < |pre| && pre[j].price == q;
      assert q >= 0;
      if q >= v.price {
        assert r == q;
        assert vs[j].price == r;
      } else {
        assert r == v.price;
        assert vs[n].price == r;
      }
    }
  }

  /** The special case of no special prices at all. */
  lemma NoSpecialPriceYieldsMaxBase(vs: seq<Variant>, now: int)
    requires vs != []
    requires NonNegativePrices(vs)
    requires forall i :: 0 <= i < |vs| ==> vs[i].specialPrice.None?
    ensures IsMaxBase(vs, Resolve(vs, now).value)
  {
    NoActiveSpecialYieldsMaxBase(vs, now);
  }

  /** Every special price is a discount: never above its own variant's base price. */
  ghost predicate SpecialsAreDiscounts(vs: seq<Variant>) {
    forall i :: 0 <= i < |vs| && vs[i].specialPrice.Some? ==> vs[i].specialPrice.value <= vs[i].price
  }

  /**
   * With discounting special prices the displayed price never exceeds the
   * largest base price.
   */
  lemma {:induction false} ResultAtMostMaxBase(vs: seq<Variant>, now: int)
    requires vs != []
    requires SpecialsAreDiscounts(vs)
    ensures exists i :: 0 <= i < |vs| && Resolve(vs, now).value <= vs[i].price
    decreases |vs|
  {
    var n := |vs| - 1;
    var pre, v := vs[..n], vs[n];
    assert vs == pre + [v];
    ResolveAppend(pre, v, now);
    var r := Resolve(vs, now).value;
    var running := Resolve(pre, now);
    if !Truthy(running) {
      assert r <= v.price;
      assert vs[n] == v;
    } else {
      assert forall i :: 0 <= i < |pre| ==> pre[i] == vs[i];
      ResultAtMostMaxBase(pre, now);
      var j :| 0 <= j < |pre| && running.value <= pre[j].price;
      if running.value >= v.price {
        assert r <= vs[j].price;
      } else {
        assert r <= vs[n].price;
      }
    }
  }

  /**
   * The comment above the override promises, without restriction, that the
   * highest-priced variant's valid special price is shown. The loop keeps
   * that promise when the highest-priced variant comes last and every
   * earlier special price is a discount; the last variant's own special
   * price is not bounded. Without that condition the promise can fail (see
   * `OrderMatters` in the examples: a special price 50 on the 100 variant,
   * followed by an 80 variant, shows 80).
   */
  lemma HighestLastVariantShowsSpecial(vs: seq<Variant>, v: Variant, now: int)
    requires SpecialsAreDiscounts(vs)
    requires forall i :: 0 <= i < |vs| ==> vs[i].price <= v.price
    requires SpecialApplies(v, now)
    ensures Resolve(vs + [v], now) == Some(v.specialPrice.value)
  {
    if vs != [] {
      ResultAtMostMaxBase(vs, now);
    }
    TieWithActiveSpecialOverrides(vs, v, now);
  }
}
