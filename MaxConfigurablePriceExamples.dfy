/** Worked examples of the price-selection fold, proved by evaluation. */
module MaxConfigurablePriceExamples {
  import opened Wrappers
  import opened MaxConfigurablePrice

  function Plain(price: int): Variant {
    Variant(price, None, None, None)
  }

  function OnSale(price: int, special: int, from: Option<int>, to: Option<int>): Variant {
    Variant(price, Some(special), from, to)
  }

  /** No saleable children: the plugin returns null and discards the price the wrapped resolver computed. */
  lemma EmptyListHasNoPrice(now: int)
    ensures Resolve([], now) == None
  {
  }

  /** A special price without dates is always on. */
  lemma SingleUndatedSpecial(now: int)
    ensures Resolve([OnSale(100, 80, None, None)], now) == Some(80)
  {
  }

  /** The running maximum moves to 150, whose undated special then applies. */
  lemma SpecialOfLaterMaximum(now: int)
    ensures Resolve([Plain(100), OnSale(150, 120, None, None)], now) == Some(120)
  {
    assert [Plain(100), OnSale(150, 120, None, None)][..1] == [Plain(100)];
  }

  /** Inside the window the special price is shown. */
  lemma InsideWindow()
    ensures Resolve([OnSale(100, 90, Some(10), Some(30))], 20) == Some(90)
  {
  }

  /** After the window has closed the base price is shown. */
  lemma AfterWindow()
    ensures Resolve([OnSale(100, 90, Some(10), Some(30))], 40) == Some(100)
  {
  }

  /** At the very start or end of the window the special price is not yet, or no longer, on. */
  lemma WindowEdges()
    ensures Resolve([OnSale(100, 90, Some(10), Some(30))], 10) == Some(100)
    ensures Resolve([OnSale(100, 90, Some(10), None)], 10) == Some(100)
    ensures Resolve([OnSale(100, 90, None, Some(30))], 30) == Some(100)
  {
  }

  /**
   * A zero special price makes the running price falsy, so the next variant
   * restarts it with its own, lower, base price.
   */
  lemma ZeroSpecialRestarts(now: int)
    ensures Resolve([OnSale(100, 0, None, None), Plain(40)], now) == Some(40)
  {
    assert [OnSale(100, 0, None, None), Plain(40)][..1] == [OnSale(100, 0, None, None)];
  }

  /**
   * The result depends on the order of the variants: after a special price
   * has lowered the running price, a later variant is compared with the
   * special price instead of the base price it replaced.
   */
  lemma OrderMatters(now: int)
    ensures Resolve([OnSale(100, 50, None, None), Plain(80)], now) == Some(80)
    ensures Resolve([Plain(80), OnSale(100, 50, None, None)], now) == Some(50)
  {
    assert [OnSale(100, 50, None, None), Plain(80)][..1] == [OnSale(100, 50, None, None)];
    assert [Plain(80), OnSale(100, 50, None, None)][..1] == [Plain(80)];
  }
}
