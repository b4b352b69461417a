# Currency converter (Lab1.js) in Dafny

This project models the `CurrencyConverter` class of `Lab1.js`. The
converter keeps a table of exchange rates keyed by strings `<from>-<to>`:

- `calculateRates` builds the table from a list of USD quotes. Each quote
  says how many units of a symbol one USD buys. For each quote it writes
  `USD-s` and `s-USD`, then writes the cross rate `a-b` for every ordered
  pair of distinct quoted symbols.
- The constructor stores that table.
- The `UPDATE_USD_PRICE` handler checks its arguments and writes `USD-sym`
  and `sym-USD`. It then collects the symbols of all `USD-` keys and
  recomputes every cross rate.
- `convert` multiplies an amount by the rate of a pair. When the pair has
  no rate it throws `Rate for <from>-<to> not found`.

The repository's `Task 3` directory holds e-cash code. It is not part of
this model, which follows `Lab1.js`.

Modules:

- `Wrappers` (`wrappers.dfy`): the `Result` type. It stands for
  `convert`'s return value or thrown error.
- `TableKeys` (`table_keys.dfy`): the key strings, in four parts:
  - `Key(from, to)` is the template `${from}-${to}`;
  - `BeforeDash`, `AfterDash` and `SecondField` model `split('-')`;
  - `IsUsdKey` models `startsWith('USD-')`;
  - `UsdSymbols` is the symbol list the update handler derives, taken as a
    set.

  It also classifies a table's keys into direct keys (`USD-s`, `s-USD`)
  and cross keys (`a-b`, `a != b`).
- `Converter` (`converter.dfy`): the quote data, the `usdMap` dictionary
  and the converter class. The `usdMap` is the recursive function
  `UsdMapPrefix`, where the last quote of a symbol wins. The ghost
  predicate `Table(rates, syms)` states that `rates` is the complete,
  consistent table over `syms`:
  - its keys are exactly the direct and cross keys of `syms`;
  - every `USD-s` is positive;
  - `s-USD` is `1 / USD-s`;
  - `a-b` is `USD-b / USD-a`.

  The class `CurrencyConverter` keeps `rates` as a `map<string, real>`
  field that its methods reassign. A ghost field `symbols` names the
  symbols the table covers. `Valid()` is `Table(rates, symbols)`. The
  constructor establishes it and `Update` preserves it.

All loops of the source are `for`/`while` loops proved against
specification functions:
- the first loop of `calculateRates` against `UsdMapPrefix` and
  `DirectPrefix`;
- the nested loops against the `Table` facts.

`Update` iterates its symbol set in an arbitrary order. Rates are exact
reals.

The model keeps the handler's own convention: the price passed to
`UPDATE_USD_PRICE` is stored under `USD-sym`. That is the slot
`calculateRates` fills with a quote's rate.

## Model

| member | source | states |
|---|---|---|
| TableKeys.Key | Lab1.js:28-29 | the key template `${from}-${to}`, also used at Lab1.js:37, 64-65, 74 and 84; its decoding is proved by `BeforeDashOfKey`, `AfterDashOfKey` and `KeyInjective` |
| TableKeys.IsUsdKey | Lab1.js:68 | `key.startsWith('USD-')`; `UsdKeyIff` proves it holds for `${a}-${b}` exactly when `a` is `USD` |
| TableKeys.SecondField | Lab1.js:69 | `key.split('-')[1]`: the text between the first and the second `-`. For a key without `-` it returns `""` where JavaScript gives `undefined`, but it is only applied to keys starting with `USD-` |
| TableKeys.UsdSymbols | Lab1.js:67-69 | the filter-map over the table's keys, as a set; `TableUsdSymbols` proves it gives exactly the table's symbols |
| TableKeys.BeforeDashOfKey | Lab1.js:67-69 | splitting a key on `-` gives back its `from` part when that part has no `-` |
| TableKeys.AfterDashOfKey | Lab1.js:67-69 | the text after the first `-` of a key is its `to` part when `from` has no `-` |
| TableKeys.BeforeDashOfPlain | Lab1.js:67-69 | splitting a string that has no `-` gives the string itself as its first field |
| TableKeys.AfterDashOfDashed | Lab1.js:83-86 | when `from` contains `-`, the text after the key's first `-` contains `-` too |
| TableKeys.DashedKeyNotInTable | Lab1.js:83-86 | a key whose `from` part contains `-` is neither a direct nor a cross key of valid symbols |
| TableKeys.SplitKey | Lab1.js:67-69 | `key.split('-')[0]` and `key.split('-')[1]` of `${a}-${b}` are `a` and `b` |
| TableKeys.KeyInjective | Lab1.js:28-29 | two `${from}-${to}` keys are equal exactly when both parts are equal (for dash-free `from`) |
| TableKeys.SplitAtDash | Lab1.js:67-69 | a string with a non-empty text after its first `-` is `${first}-${rest}` |
| TableKeys.UsdKeyIff | Lab1.js:68 | `${a}-${b}` starts with `USD-` exactly when `a` is `USD` |
| TableKeys.TableUsdSymbols | Lab1.js:67-69 | on a complete table over `syms`, the filter-map over the `USD-` keys gives exactly `syms` |
| Converter.UsdMap | Lab1.js:30-33 | the `usdMap` dictionary after the whole quote list, whose keys `Object.keys` lists; `UsdMapKeys`, `UsdMapLastWins` and `UsdMapFromLastQuote` state its content |
| Converter.DirectPrefix | Lab1.js:28-29 | the direct rates the first loop has written after `n` quotes, later quotes overwriting earlier ones; `DirectPrefixKeys`, `DirectPrefixUsd` and `DirectPrefixInverse` state its content |
| Converter.Table | Lab1.js:20-43 | the invariant of the table `calculateRates` builds and the update handler restores: keys exactly `USD-s`, `s-USD` and `a-b` (`a != b`) of the symbols, `USD-s > 0`, `s-USD = 1/USD-s`, `a-b = USD-b/USD-a` |
| Converter.TableKeyIff | Lab1.js:83-86 | a complete table holds the key `a-b` exactly for `USD` to a symbol, a symbol to `USD`, and two different symbols |
| Converter.CurrencyConverter.Valid | Lab1.js:45-47 | the converter's `rates` field is a complete table over its `symbols` |
| Converter.UsdMapPrefix | Lab1.js:24-31 | `usdMap` holds only valid symbols with positive rates when the quotes are valid |
| Converter.UsdMapKeys | Lab1.js:24-31 | `usdMap` holds exactly the symbols of the quotes read so far |
| Converter.UsdMapLastWins | Lab1.js:30 | a quote that no later quote repeats is the rate `usdMap` keeps for its symbol |
| Converter.UsdMapFromLastQuote | Lab1.js:30 | every rate `usdMap` keeps is the rate of the last quote of that symbol |
| Converter.DirectPrefixKeys | Lab1.js:24-31 | the first loop writes only `USD-s` and `s-USD` keys of quoted symbols |
| Converter.DirectPrefixUsd | Lab1.js:28 | after the first loop, `USD-s` is the last quoted rate of `s` |
| Converter.DirectPrefixInverse | Lab1.js:29 | after the first loop, `s-USD` is the inverse of the last quoted rate of `s` |
| Converter.CrossRatesInverse | Lab1.js:33-40 | in a complete table, `a-b` times `b-a` is 1 |
| Converter.TableInverse | Lab1.js:28-40 | in a complete table, every held rate times the rate of the reverse pair is 1 |
| Converter.CrossRateViaUsd | Lab1.js:29-37 | in a complete table, `a-b` equals `a-USD` times `USD-b` |
| Converter.RowStepQuotes | Lab1.js:34-40 | one outer pass of `calculateRates` adds row `from` and keeps the rows written before |
| Converter.CalculatedTable | Lab1.js:20-43 | the direct rates plus all cross rates form the complete table over the quoted symbols, with the quoted direct values |
| Converter.RowStepKeys | Lab1.js:34-40 | one outer pass adds only cross keys of its row and leaves every other key alone |
| Converter.RowStepUsd | Lab1.js:71-77 | one outer pass of the update loops leaves every `USD-s` alone |
| Converter.RowStepCross | Lab1.js:71-77 | one outer pass of the update loops adds row `from` and keeps the rows written before |
| Converter.UpdateFrame | Lab1.js:64-77 | the update handler adds no key besides `USD-sym`, `sym-USD` and cross keys, and keeps every other key it found |
| Converter.WriteDirectRates | Lab1.js:64-65 | after the two direct writes, every old symbol and `sym` has a positive `USD-` rate and all keys belong to the complete table over them |
| Converter.UpdateTableKeys | Lab1.js:64-77 | after the update, every key is a direct or cross key of the old symbols plus `sym` |
| Converter.UpdateDirectRates | Lab1.js:64-77 | after the update, `USD-s` is positive and `s-USD` is its inverse for every old symbol and `sym` |
| Converter.UpdateKeepsTable | Lab1.js:58-80 | the update turns a complete table over `syms` into a complete table over `syms + {sym}` with `USD-sym = usdPrice` and `sym-USD = 1/usdPrice` |
| Converter.CurrencyConverter.SymbolsFromUsdKeys | Lab1.js:67-69 | on a valid converter, the symbols read back from the `USD-` keys are exactly `symbols` |
| Converter.CurrencyConverter.DirectRates | Lab1.js:24-31 | the first loop returns `usdMap` (last quote wins), `Object.keys(usdMap)` with the same symbols, and a table holding exactly `USD-s` = quote and `s-USD` = 1/quote for them |
| Converter.CurrencyConverter.CrossRow | Lab1.js:35-39 | the inner loop writes `from-to = usdMap[to] / usdMap[from]` for every other quoted symbol and changes no other key |
| Converter.CurrencyConverter.CalculateRates | Lab1.js:20-43 | the result is the complete table over the quoted symbols: `USD-s` the last quote, `s-USD` its inverse, `a-b = usdMap[b] / usdMap[a]` |
| Converter.CurrencyConverter.constructor | Lab1.js:45-47 | the new converter is valid over the quoted symbols and holds their last quoted `USD-` rates |
| Converter.CurrencyConverter.ListSymbols | Lab1.js:67-69 | the symbols read back from the keys after the direct writes are the old symbols plus `sym` |
| Converter.CurrencyConverter.Update | Lab1.js:58-80 | an empty symbol or a price that is not positive is rejected and changes nothing; otherwise the table stays complete over `symbols + {sym}`, with `USD-sym = usdPrice` and `sym-USD = 1/usdPrice`; no other key is added and every other old key keeps its rate |
| Converter.CurrencyConverter.RecomputeCross | Lab1.js:71-77 | the nested loops write `a-b = USD-b / USD-a` for every ordered pair of distinct symbols and change no other key |
| Converter.CurrencyConverter.UpdateRow | Lab1.js:72-76 | the inner loop writes `from-to = USD-to / USD-from` for every other symbol and changes no other key |
| Converter.CurrencyConverter.Convert | Lab1.js:83-90 | on a valid converter, conversion succeeds exactly for USD to a held symbol, a held symbol to USD, and two different held symbols; otherwise it fails with `Rate for <from>-<to> not found`, and a success is rate times amount |
| Converter.CurrencyConverter.ConvertSelfFails | Lab1.js:36 | converting a symbol to itself always fails, because no self-pair rate is written |
| Converter.CurrencyConverter.ConvertRoundTrip | Lab1.js:83-90 | converting an amount and converting the result back gives the original amount |
| Converter.CurrencyConverter.ConvertBack | Lab1.js:83-90 | when `a-b` and `b-a` are inverse rates, converting back undoes a conversion |
| Converter.CurrencyConverter.ConvertViaUsd | Lab1.js:83-90 | between two held symbols, converting to USD and then to `b` equals converting directly |
| Converter.CurrencyConverter.ConvertChain | Lab1.js:83-90 | when `a-b` is `a-USD` followed by `USD-b`, converting through USD equals converting directly |

## Left out

- `readJsonFromFile` (Lab1.js:9-17) reads and parses a file. File I/O and JSON parsing are not modelled.
- The `SHOW_PRICE` handler (Lab1.js:49-56) only calls `convert` and prints. The console output and the
  EventEmitter wiring are left out. `Update` is a method called directly instead of through `emit`, and
  its log messages (Lab1.js:60, 79) are dropped.
- The demo data and calls (Lab1.js:93-115) are sample input and console output.
- Numbers are exact reals. IEEE floating point (rounding, `Infinity` from `1 / 0`, `NaN`) is not modelled.
- Converter.CurrencyConverter.Update: requires that `sym` contains no `-` and is not `USD`. The source
  accepts such symbols, but a dashed symbol produces keys that `split('-')[1]` does not read back. With
  `sym = "USD"`, Lab1.js:64-65 both write `USD-USD`. The loop at Lab1.js:71-77 then reads `USD` back
  as a symbol, and with `from = "USD"` it overwrites every direct `USD-to` key with `USD-to / USD-USD`. The handler's falsy test is modelled as `sym == ""` and
  `usdPrice <= 0`. Non-numeric, `null` or `undefined` arguments do not exist in the model.
- Converter.CurrencyConverter.CalculateRates: requires valid symbols and positive quote rates. With a
  zero rate the source stores `Infinity`.
- Converter.CurrencyConverter.CalculateRates: requires that no quote has the symbol `__proto__`. In the
  source, `usdMap["__proto__"] = rate` (Lab1.js:30) goes to the prototype setter, which ignores a
  number. So `Object.keys(usdMap)` leaves that symbol out and no cross rate is written for it.
  `USD-__proto__` and `__proto__-USD` are still written (Lab1.js:28-29), so the table would not be
  complete over any symbol set. A later update would then read `__proto__` back as a symbol. The model
  does not describe that table. Keys of `rates` always contain `-`, so `rates` itself never meets
  this setter, and `Update` accepts `__proto__`.
- Converter.CurrencyConverter.constructor: requires the same of its quotes. The `asset_id_base` field is
  carried in `PriceTable` but, as in the source, never read.
- Converter.CurrencyConverter.RecomputeCross: visits the symbols in an arbitrary order rather than in the
  key order of `Object.keys`. Every write goes to a different cross key and reads only `USD-` keys,
  which it never changes, so the order does not affect the result.
- Converter.CurrencyConverter.ListSymbols: returns the symbol list as a set. Duplicates and order of the
  JavaScript array are not modelled.
