# Maximum price of a configurable product

A Magento 2 plugin replaces the price a configurable product shows before it
is configured. Magento shows the lowest variant price. The plugin's
`aroundResolvePrice` aims to show the highest one instead, adjusted by that
variant's special price when one is on. The code keeps that aim only in
part: a special price that lowers the running price is what later variants
are compared with, so a later, cheaper variant can win (`OrderMatters`).
This project models that price-selection loop and proves what it does.

The loop walks the saleable child variants in order and keeps a running
price. For each variant:

1. A truthy running price becomes the larger of itself and the variant's
   base price. A falsy one (`null` or `0`) is replaced by the base price.
2. If the running price now equals the variant's base price and the variant
   has a special price, the running price may become the special price.
   Whether it does depends on which of the two special-price dates are set:
   - both set: the current time must lie strictly between them;
   - only the from-date set: the current time must be after it;
   - only the to-date set: the current time must be before it;
   - neither set: the special price is always on.

No variants means no price (`null`).

Files:

- `Wrappers.dfy`: the `Option` type standing for PHP's `null`-or-value.
- `MaxConfigurablePrice.dfy`: the variant record, the fold `Resolve` that
  specifies the loop, and the loop itself as the method `ResolvePrice`.
  `ResolvePrice` is proved equal to `Resolve`.
- `MaxConfigurablePriceProperties.dfy`: lemmas about one iteration and about
  the whole loop.
- `MaxConfigurablePriceExamples.dfy`: worked examples, including the edges of
  the date window and the dependence on variant order.

Prices are integers in the smallest currency unit. Dates and the current
time are integers. They stand for the fixed-width `Y-m-d H:i:s` strings the
source compares; for that format, string order is chronological order. The
current time is a parameter.

Two behaviours of the source are worth stating outright:

- the from-date bound is strict (`now > from`, Pricing/MaxConfigurablePrice.php:78,84),
  like the to-date bound, so neither end of the window is inclusive;
- the result depends on the order of the variants, because a special price
  that lowered the running price is what later variants are compared with
  (`OrderMatters`). The comment at Pricing/MaxConfigurablePrice.php:58-60
  says the highest-priced variant's valid special price is shown; the code
  guarantees it when that variant comes last and every earlier special
  price is a discount (`HighestLastVariantShowsSpecial`); without that
  condition it can fail (`OrderMatters`): with
  `[100 with undated special 50, 80]` it shows 80.

## Model

| member | source | states |
|---|---|---|
| `MaxConfigurablePrice.ResolvePrice` | Pricing/MaxConfigurablePrice.php:48-109 | the loop over the variants returns exactly the fold `Resolve`, and returns no price iff there are no variants |
| `MaxConfigurablePrice.Resolve` | Pricing/MaxConfigurablePrice.php:48-109 | the running price is present iff at least one variant has been processed; `null` is returned only for an empty list |
| `MaxConfigurablePrice.MaxStep` | Pricing/MaxConfigurablePrice.php:56 | a truthy running price becomes an upper bound of itself and the base price and is one of the two; a falsy one is replaced by the base price; the result equals the base price iff the running price was falsy or not above it |
| `MaxConfigurablePrice.Truthy` | Pricing/MaxConfigurablePrice.php:56 | PHP truthiness of the running price (`null` and `0` are false); no contract of its own, its effect is fixed by `MaxStep`'s ensures |
| `MaxConfigurablePrice.WindowActive` | Pricing/MaxConfigurablePrice.php:76-102 | the four-way switch on which dates are set, strict on both ends; no contract of its own, characterised by `WindowActiveIffBounds` and `WindowBoundsExclusive` |
| `MaxConfigurablePrice.SpecialApplies` | Pricing/MaxConfigurablePrice.php:61-98 | the `isset` test on the special price together with the date window; no contract of its own, its role is fixed by `TieWithActiveSpecialOverrides` and `OverrideOnlyOnTieAndActive` |
| `MaxConfigurablePrice.Step` | Pricing/MaxConfigurablePrice.php:53-102 | one whole iteration, the max step then the guarded override; no contract of its own, characterised by `ResolveAppend`, `InactiveSpecialLeavesMax`, `TieWithActiveSpecialOverrides` and `OverrideOnlyOnTieAndActive` |
| `MaxConfigurablePrice.Max` | Pricing/MaxConfigurablePrice.php:56 | `max` returns one of its arguments and is at least both |
| `MaxConfigurablePriceProperties.WindowActiveIffBounds` | Pricing/MaxConfigurablePrice.php:76-102 | the four-way switch on the dates is open iff every date that is set bounds now strictly (from below, to above); with no dates it is always open |
| `MaxConfigurablePriceProperties.WindowBoundsExclusive` | Pricing/MaxConfigurablePrice.php:78-90 | at the from-date itself or the to-date itself the window is closed |
| `MaxConfigurablePriceProperties.ResolveAppend` | Pricing/MaxConfigurablePrice.php:52-103 | processing one more variant applies one iteration to the running price the earlier variants left |
| `MaxConfigurablePriceProperties.FalsyRunningPriceRestarts` | Pricing/MaxConfigurablePrice.php:56 | after a null or zero running price the iteration yields the variant's base price, or its applicable special price |
| `MaxConfigurablePriceProperties.TruthyRunningPriceTakesMax` | Pricing/MaxConfigurablePrice.php:56 | after a truthy running price and without an applicable special, the new price is at least the old running price and the base price, and is one of them |
| `MaxConfigurablePriceProperties.InactiveSpecialLeavesMax` | Pricing/MaxConfigurablePrice.php:76-102 | without a special price in an open window the iteration ends with exactly the max step's price |
| `MaxConfigurablePriceProperties.NoTieNoOverride` | Pricing/MaxConfigurablePrice.php:61 | a base price below a truthy running price leaves the running price unchanged, whatever the variant's special price |
| `MaxConfigurablePriceProperties.TieWithActiveSpecialOverrides` | Pricing/MaxConfigurablePrice.php:61-97 | when the base price is at least the running price (or that is falsy) and the special price's window is open, the running price becomes the special price |
| `MaxConfigurablePriceProperties.OverrideOnlyOnTieAndActive` | Pricing/MaxConfigurablePrice.php:61-102 | if the iteration's result differs from the max step's, there was a tie, the special price applied, and the result is that special price |
| `MaxConfigurablePriceProperties.ResultIsCandidate` | Pricing/MaxConfigurablePrice.php:52-109 | for a non-empty list the result is some variant's base price or some variant's special price whose window is open |
| `MaxConfigurablePriceProperties.NoActiveSpecialYieldsMaxBase` | Pricing/MaxConfigurablePrice.php:52-56 | with non-negative base prices and no applicable special price the result is the largest base price |
| `MaxConfigurablePriceProperties.NoSpecialPriceYieldsMaxBase` | Pricing/MaxConfigurablePrice.php:56 | with non-negative base prices and no special prices at all the result is the largest base price |
| `MaxConfigurablePriceProperties.ResultAtMostMaxBase` | Pricing/MaxConfigurablePrice.php:52-103 | when every special price is at most its variant's base price, the result is at most some variant's base price |
| `MaxConfigurablePriceProperties.HighestLastVariantShowsSpecial` | Pricing/MaxConfigurablePrice.php:58-61 | when the last variant has the highest base price and an applicable special price, and every earlier special price is at most its own variant's base price, that special price is shown |
| `MaxConfigurablePriceExamples.EmptyListHasNoPrice` | Pricing/MaxConfigurablePrice.php:48-109 | no variants give no price |
| `MaxConfigurablePriceExamples.SingleUndatedSpecial` | Pricing/MaxConfigurablePrice.php:95-96 | one variant at 100 with an undated special 80 shows 80 |
| `MaxConfigurablePriceExamples.SpecialOfLaterMaximum` | Pricing/MaxConfigurablePrice.php:56-96 | variants 100, then 150 with undated special 120, show 120 |
| `MaxConfigurablePriceExamples.InsideWindow` | Pricing/MaxConfigurablePrice.php:77-79 | inside the window the special price 90 is shown instead of 100 |
| `MaxConfigurablePriceExamples.AfterWindow` | Pricing/MaxConfigurablePrice.php:77-81 | after the to-date the base price 100 is shown |
| `MaxConfigurablePriceExamples.WindowEdges` | Pricing/MaxConfigurablePrice.php:78-90 | exactly at the from-date, or exactly at the to-date, the base price is shown |
| `MaxConfigurablePriceExamples.ZeroSpecialRestarts` | Pricing/MaxConfigurablePrice.php:56 | a special price of 0 makes the next variant's lower base price 40 the result |
| `MaxConfigurablePriceExamples.OrderMatters` | Pricing/MaxConfigurablePrice.php:52-96 | the same two variants give 80 in one order and 50 in the other |

## Left out

- `getProductInfo` (Pricing/MaxConfigurablePrice.php:112-120), `getChildProductObj` (122-174) and `getCurrentStoreId` (176-179): product repository, type instance, data-object factory and store manager are Magento calls whose behaviour is not visible. The list of saleable, store-filtered children is the input. Their missing-product and not-configurable branches produce no children, which is the empty-list case.
- The `$proceed` call (line 45): its result is computed and never returned.
- `log` (lines 181-187) and its calls: file output.
- The clock: the source reads `date('Y-m-d H:i:s', time())` anew in every iteration that reaches the date checks (line 62). The model uses one `now` for the whole call.
- The `default` branch of the switch (lines 99-101): the four cases before it cover every combination of set and unset dates, so it cannot be reached. The model's four-arm match has no fifth arm.
- PHP's loose typing: prices may arrive as floats or numeric strings and are compared with loose `==` and `max`. The model uses integers. In PHP a string price such as "0.00" is truthy, whereas the model treats only a numeric zero as falsy.
- Date strings not in the fixed `Y-m-d H:i:s` format: their comparison is not modelled.
- The constructor and the injected collaborators (lines 16-33): they are never changed after construction.
