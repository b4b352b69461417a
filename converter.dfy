/**
 * The currency converter: a rate table keyed by `<from>-<to>`, built from
 * a list of USD quotes, updated one USD price at a time, and queried by
 * `Convert`.
 *
 * Rates are exact reals, so `1 / x` and `a / b` obey the field laws.
 */
module Converter {
  import opened Wrappers
  import opened TableKeys

  /** One USD quote: one USD buys `rate` units of `sym` (fields `asset_id_quote` and `rate`). */
  datatype Quote = Quote(sym: string, rate: real)

  /** The quote list the converter is built from (fields `asset_id_base` and `rates`). */
  datatype PriceTable = PriceTable(assetIdBase: string, rates: seq<Quote>)

  /**
   * The one symbol a plain JavaScript object does not store as its own key:
   * assigning a number to `usdMap["__proto__"]` goes to the inherited
   * prototype setter, which ignores it.
   */
  const ProtoKey: string := "__proto__"

  /** Quotes the table can hold: valid symbols other than `__proto__`, and positive rates. */
  predicate ValidQuotes(qs: seq<Quote>)
  {
    forall q :: q in qs ==> ValidSymbol(q.sym) && q.sym != ProtoKey && q.rate > 0.0
  }

  /**
   * The `usdMap` dictionary `calculateRates` has filled after the first `n`
   * quotes: the USD rate of every symbol quoted so far, where for a repeated
   * symbol the last quote wins.
   */
  function UsdMapPrefix(qs: seq<Quote>, n: nat): (m: map<string, real>)
    requires n <= |qs|
    ensures ValidQuotes(qs) ==> forall s :: s in m ==> ValidSymbol(s) && m[s] > 0.0
  {
    if n == 0 then map[]
    else
      assert qs[n - 1] in qs;
      UsdMapPrefix(qs, n - 1)[qs[n - 1].sym := qs[n - 1].rate]
  }

  /** The `usdMap` dictionary of the whole quote list. */
  function UsdMap(qs: seq<Quote>): map<string, real>
  {
    UsdMapPrefix(qs, |qs|)
  }

  /** `usdMap` holds exactly the quoted symbols. */
  lemma {:induction false} UsdMapKeys(qs: seq<Quote>, n: nat)
    requires n <= |qs|
    ensures UsdMapPrefix(qs, n).Keys == set i | 0 <= i < n :: qs[i].sym
  {
    if n > 0 {
      UsdMapKeys(qs, n - 1);
      assert (set i | 0 <= i < n :: qs[i].sym) == (set i | 0 <= i < n - 1 :: qs[i].sym) + {qs[n - 1].sym};
    }
  }

  /** The last quote for a symbol is the one `usdMap` keeps. */
  lemma {:induction false} UsdMapLastWins(qs: seq<Quote>, n: nat, i: nat)
    requires i < n <= |qs|
    requires forall j :: i < j < n ==> qs[j].sym != qs[i].sym
    ensures qs[i].sym in UsdMapPrefix(qs, n) && UsdMapPrefix(qs, n)[qs[i].sym] == qs[i].rate
  {
    if i < n - 1 {
      UsdMapLastWins(qs, n - 1, i);
    }
  }

  /** Every rate `usdMap` keeps is the rate of the last quote of that symbol. */
  lemma {:induction false} UsdMapFromLastQuote(qs: seq<Quote>, n: nat, s: string)
    requires n <= |qs|
    requires s in UsdMapPrefix(qs, n)
    ensures exists i :: 0 <= i < n && qs[i].sym == s && qs[i].rate == UsdMapPrefix(qs, n)[s]
                        && forall j :: i < j < n ==> qs[j].sym != s
  {
    if qs[n - 1].sym != s {
      UsdMapFromLastQuote(qs, n - 1, s);
    }
  }

  /**
   * The direct rates the first loop of `calculateRates` has written after
   * the first `n` quotes: `USD-s` as the quoted rate and `s-USD` as its
   * inverse, later quotes overwriting earlier ones.
   */
  function DirectPrefix(qs: seq<Quote>, n: nat): map<string, real>
    requires n <= |qs| && ValidQuotes(qs)
  {
    if n == 0 then map[]
    else
      var q := qs[n - 1];
      assert q in qs;
      DirectPrefix(qs, n - 1)[Key(Usd, q.sym) := q.rate][Key(q.sym, Usd) := 1.0 / q.rate]
  }

  /** The direct rates hold only `USD-s` and `s-USD` keys of quoted symbols. */
  lemma {:induction false} DirectPrefixKeys(qs: seq<Quote>, n: nat)
    requires n <= |qs| && ValidQuotes(qs)
    ensures forall k :: k in DirectPrefix(qs, n) ==> IsDirectKey(k, UsdMapPrefix(qs, n).Keys)
  {
    if n > 0 {
      DirectPrefixKeys(qs, n - 1);
      var q := qs[n - 1];
      assert q in qs;
      BeforeDashOfKey(Usd, q.sym);
      AfterDashOfKey(Usd, q.sym);
      BeforeDashOfKey(q.sym, Usd);
      AfterDashOfKey(q.sym, Usd);
      assert UsdMapPrefix(qs, n - 1).Keys <= UsdMapPrefix(qs, n).Keys;
    }
  }

  /** Every quoted symbol has `USD-s` at its last quoted rate. */
  lemma {:induction false} DirectPrefixUsd(qs: seq<Quote>, n: nat)
    requires n <= |qs| && ValidQuotes(qs)
    ensures forall s {:trigger Key(Usd, s)} :: s in UsdMapPrefix(qs, n) ==>
      Key(Usd, s) in DirectPrefix(qs, n) && DirectPrefix(qs, n)[Key(Usd, s)] == UsdMapPrefix(qs, n)[s]
  {
    if n > 0 {
      DirectPrefixUsd(qs, n - 1);
      var q := qs[n - 1];
      assert q in qs;
      var prev, d := DirectPrefix(qs, n - 1), DirectPrefix(qs, n);
      var um := UsdMapPrefix(qs, n);
      forall s | s in um
        ensures Key(Usd, s) in d && d[Key(Usd, s)] == um[s]
      {
        KeyInjective(Usd, s, q.sym, Usd);
        if s != q.sym {
          KeyInjective(Usd, s, Usd, q.sym);
          assert d[Key(Usd, s)] == prev[Key(Usd, s)];
        }
      }
    }
  }

  /** Every quoted symbol has `s-USD` at the inverse of its last quoted rate. */
  lemma {:induction false} DirectPrefixInverse(qs: seq<Quote>, n: nat)
    requires n <= |qs| && ValidQuotes(qs)
    ensures forall s {:trigger Key(s, Usd)} :: s in UsdMapPrefix(qs, n) ==>
      Key(s, Usd) in DirectPrefix(qs, n) && DirectPrefix(qs, n)[Key(s, Usd)] == 1.0 / UsdMapPrefix(qs, n)[s]
  {
    if n > 0 {
      DirectPrefixInverse(qs, n - 1);
      var q := qs[n - 1];
      assert q in qs;
      var prev, d := DirectPrefix(qs, n - 1), DirectPrefix(qs, n);
      var um := UsdMapPrefix(qs, n);
      forall s | s in um
        ensures Key(s, Usd) in d && d[Key(s, Usd)] == 1.0 / um[s]
      {
        if s != q.sym {
          KeyInjective(s, Usd, q.sym, Usd);
          KeyInjective(s, Usd, Usd, q.sym);
          assert d[Key(s, Usd)] == prev[Key(s, Usd)];
        }
      }
    }
  }

  /**
   * `rates` is the complete, consistent rate table over the symbols `syms`:
   * its keys are exactly `USD-s`, `s-USD` and the cross keys `a-b` (`a != b`)
   * of `syms`; every USD price is positive; `s-USD` is the inverse of
   * `USD-s`; and `a-b` is `USD-b` divided by `USD-a`.
   */
  ghost predicate Table(rates: map<string, real>, syms: set<string>)
  {
    && (forall s :: s in syms ==> ValidSymbol(s))
    && (forall k :: k in rates ==> IsTableKey(k, syms))
    && (forall s {:trigger Key(Usd, s)} :: s in syms ==>
          Key(Usd, s) in rates && rates[Key(Usd, s)] > 0.0)
    && (forall s {:trigger Key(s, Usd)} :: s in syms ==>
          && Key(s, Usd) in rates && Key(Usd, s) in rates && rates[Key(Usd, s)] != 0.0
          && rates[Key(s, Usd)] == 1.0 / rates[Key(Usd, s)])
    && (forall a, b {:trigger Key(a, b)} :: a in syms && b in syms && a != b ==>
          && Key(a, b) in rates && Key(Usd, a) in rates && Key(Usd, b) in rates
          && rates[Key(Usd, a)] != 0.0
          && rates[Key(a, b)] == rates[Key(Usd, b)] / rates[Key(Usd, a)])
  }

  /** In a complete table the rates `a-b` and `b-a` are inverse to each other. */
  lemma CrossRatesInverse(rates: map<string, real>, syms: set<string>, a: string, b: string)
    requires Table(rates, syms)
    requires a in syms && b in syms && a != b
    ensures Key(a, b) in rates && Key(b, a) in rates
    ensures rates[Key(a, b)] * rates[Key(b, a)] == 1.0
  {
    var pa, pb := rates[Key(Usd, a)], rates[Key(Usd, b)];
    assert rates[Key(a, b)] == pb / pa && rates[Key(b, a)] == pa / pb;
    assert pa > 0.0 && pb > 0.0;
    assert (pb / pa) * (pa / pb) == 1.0;
  }

  /**
   * Two rates that undo each other. The product is named so that lemmas
   * about a whole table pass it on as one fact; the solver then meets the
   * multiplication only in `ScaleByInverses`, away from the table's
   * divisions.
   */
  predicate Inverses(r: real, inv: real)
  {
    r * inv == 1.0
  }

  /** Scaling by a rate and then by its inverse gives the amount back. */
  lemma ScaleByInverses(r: real, inv: real, amount: real, scaled: real)
    requires Inverses(r, inv) && scaled == r * amount
    ensures inv * scaled == amount
  {
    assert inv * (r * amount) == (r * inv) * amount;
  }

  /**
   * The rate `r` is the rate `r1` followed by the rate `r2`. Named for the
   * same reason as `Inverses`: the multiplication is only unfolded in
   * `ScaleByComposite`.
   */
  predicate Composes(r1: real, r2: real, r: real)
  {
    r == r1 * r2
  }

  /** Scaling by two rates in turn is scaling by their composite. */
  lemma ScaleByComposite(r1: real, r2: real, r: real, amount: real, scaled: real)
    requires Composes(r1, r2, r) && scaled == r1 * amount
    ensures r2 * scaled == r * amount
  {
    assert r2 * (r1 * amount) == (r1 * r2) * amount;
  }

  /**
   * The pairs a complete table over `syms` holds a rate for: `USD` to a
   * symbol, a symbol to `USD`, and two different symbols.
   */
  predicate HeldPair(syms: set<string>, a: string, b: string)
  {
    || (a == Usd && b in syms)
    || (b == Usd && a in syms)
    || (a in syms && b in syms && a != b)
  }

  /** A complete table holds the key `a-b` exactly for the held pairs. */
  lemma TableKeyIff(rates: map<string, real>, syms: set<string>, a: string, b: string)
    ensures Table(rates, syms) ==> (Key(a, b) in rates <==> HeldPair(syms, a, b))
  {
    if Table(rates, syms) {
      if '-' in a {
        DashedKeyNotInTable(a, b, syms);
      } else {
        BeforeDashOfKey(a, b);
        AfterDashOfKey(a, b);
      }
    }
  }

  /** In a complete table every rate the table holds is inverse to the rate back. */
  lemma TableInverse(rates: map<string, real>, syms: set<string>, a: string, b: string)
    requires Table(rates, syms)
    requires HeldPair(syms, a, b)
    ensures Key(a, b) in rates && Key(b, a) in rates
    ensures Inverses(rates[Key(a, b)], rates[Key(b, a)])
  {
    if a in syms && b in syms && a != b {
      CrossRatesInverse(rates, syms, a, b);
    } else if a == Usd {
      var p := rates[Key(a, b)];
      assert p > 0.0 && rates[Key(b, a)] == 1.0 / p;
    } else {
      var p := rates[Key(b, a)];
      assert p > 0.0 && rates[Key(a, b)] == 1.0 / p;
    }
  }

  /** In a complete table the rate `a-b` is the rate `a-USD` times the rate `USD-b`. */
  lemma CrossRateViaUsd(rates: map<string, real>, syms: set<string>, a: string, b: string)
    requires Table(rates, syms)
    requires a in syms && b in syms && a != b
    ensures Key(a, b) in rates && Key(a, Usd) in rates && Key(Usd, b) in rates
    ensures Composes(rates[Key(a, Usd)], rates[Key(Usd, b)], rates[Key(a, b)])
  {
    var pa, pb := rates[Key(Usd, a)], rates[Key(Usd, b)];
    assert rates[Key(a, Usd)] == 1.0 / pa;
    assert pb / pa == (1.0 / pa) * pb;
  }

  /**
   * One pass of the update handler's outer loop (row `from`, from `r` to
   * `r'`) keeps the keys that are neither `rates` keys nor cross keys of the
   * rows done so far out of the table, and leaves the other `rates` keys
   * alone.
   */
  lemma RowStepKeys(rates: map<string, real>, r: map<string, real>, r': map<string, real>,
                    from: string, done: set<string>, syms: set<string>)
    requires forall k :: k in r ==> k in rates || IsCrossKey(k, done, syms)
    requires forall k :: k in rates ==> k in r && (IsCrossKey(k, done, syms) || r[k] == rates[k])
    requires forall k :: k in r' ==> k in r || IsCrossKey(k, {from}, syms)
    requires forall k :: k in r ==> k in r' && (IsCrossKey(k, {from}, syms) || r'[k] == r[k])
    ensures forall k :: k in r' ==> k in rates || IsCrossKey(k, done + {from}, syms)
    ensures forall k :: k in rates ==> k in r' && (IsCrossKey(k, done + {from}, syms) || r'[k] == rates[k])
  {
  }

  /** One pass of the update handler's outer loop leaves every `USD-s` alone. */
  lemma RowStepUsd(rates: map<string, real>, r: map<string, real>, r': map<string, real>,
                   from: string, syms: set<string>)
    requires ValidSymbol(from) && forall s :: s in syms ==> ValidSymbol(s)
    requires forall s {:trigger Key(Usd, s)} :: s in syms ==>
      Key(Usd, s) in r && Key(Usd, s) in rates && r[Key(Usd, s)] == rates[Key(Usd, s)]
    requires forall k :: k in r ==> k in r' && (IsCrossKey(k, {from}, syms) || r'[k] == r[k])
    ensures forall s {:trigger Key(Usd, s)} :: s in syms ==>
      Key(Usd, s) in r' && r'[Key(Usd, s)] == rates[Key(Usd, s)]
  {
    forall s | s in syms ensures Key(Usd, s) in r' && r'[Key(Usd, s)] == rates[Key(Usd, s)] {
      BeforeDashOfKey(Usd, s);
    }
  }

  /**
   * One pass of the update handler's outer loop adds the cross rates of row
   * `from` and keeps those of the rows done before.
   */
  lemma RowStepCross(rates: map<string, real>, r: map<string, real>, r': map<string, real>,
                     from: string, done: set<string>, syms: set<string>)
    requires from !in done && forall s :: s in syms ==> ValidSymbol(s)
    requires done <= syms && from in syms
    requires forall s {:trigger Key(Usd, s)} :: s in syms ==> Key(Usd, s) in rates && rates[Key(Usd, s)] > 0.0
    requires forall a, b {:trigger Key(a, b)} :: a in done && b in syms && a != b ==>
      Key(a, b) in r && r[Key(a, b)] == rates[Key(Usd, b)] / rates[Key(Usd, a)]
    requires forall k :: k in r ==> k in r' && (IsCrossKey(k, {from}, syms) || r'[k] == r[k])
    requires forall b {:trigger Key(from, b)} :: b in syms && b != from ==>
      Key(from, b) in r' && r'[Key(from, b)] == rates[Key(Usd, b)] / rates[Key(Usd, from)]
    ensures forall a, b {:trigger Key(a, b)} :: a in done + {from} && b in syms && a != b ==>
      Key(a, b) in r' && r'[Key(a, b)] == rates[Key(Usd, b)] / rates[Key(Usd, a)]
  {
    forall a, b | a in done && b in syms && a != b
      ensures Key(a, b) in r' && r'[Key(a, b)] == r[Key(a, b)]
    {
      BeforeDashOfKey(a, b);
    }
  }

  /**
   * One pass of the outer loop of `calculateRates` (row `from`, from `r` to
   * `r'`) adds the cross rates of row `from` and keeps those of the rows
   * done before.
   */
  lemma RowStepQuotes(r: map<string, real>, r': map<string, real>, usdMap: map<string, real>,
                      from: string, done: set<string>)
    requires forall s :: s in usdMap ==> ValidSymbol(s) && usdMap[s] > 0.0
    requires from in usdMap && done <= usdMap.Keys
    requires forall a, b {:trigger Key(a, b)} :: a in done && b in usdMap && a != b ==>
      Key(a, b) in r && r[Key(a, b)] == usdMap[b] / usdMap[a]
    requires forall k :: k in r ==> k in r' && (IsCrossKey(k, {from}, usdMap.Keys) || r'[k] == r[k])
    requires forall b {:trigger Key(from, b)} :: b in usdMap && b != from ==>
      Key(from, b) in r' && r'[Key(from, b)] == usdMap[b] / usdMap[from]
    ensures forall a, b {:trigger Key(a, b)} :: a in done + {from} && b in usdMap && a != b ==>
      Key(a, b) in r' && r'[Key(a, b)] == usdMap[b] / usdMap[a]
  {
    forall a, b | a in done && b in usdMap && a != b && a != from
      ensures Key(a, b) in r' && r'[Key(a, b)] == r[Key(a, b)]
    {
      BeforeDashOfKey(a, b);
    }
  }

  /**
   * The table `calculateRates` returns is complete over the quoted symbols:
   * `direct` holds the direct rates of the first loop and `rates` adds the
   * cross rate of every ordered pair of distinct symbols to it.
   */
  lemma CalculatedTable(direct: map<string, real>, rates: map<string, real>, usdMap: map<string, real>)
    requires forall s :: s in usdMap ==> ValidSymbol(s) && usdMap[s] > 0.0
    requires forall k :: k in direct ==> IsDirectKey(k, usdMap.Keys)
    requires forall s {:trigger Key(Usd, s)} :: s in usdMap ==>
      Key(Usd, s) in direct && direct[Key(Usd, s)] == usdMap[s]
    requires forall s {:trigger Key(s, Usd)} :: s in usdMap ==>
      Key(s, Usd) in direct && direct[Key(s, Usd)] == 1.0 / usdMap[s]
    requires forall k :: k in rates ==> k in direct || IsCrossKey(k, usdMap.Keys, usdMap.Keys)
    requires forall k :: k in direct ==>
      k in rates && (IsCrossKey(k, usdMap.Keys, usdMap.Keys) || rates[k] == direct[k])
    requires forall a, b {:trigger Key(a, b)} :: a in usdMap && b in usdMap && a != b ==>
      Key(a, b) in rates && rates[Key(a, b)] == usdMap[b] / usdMap[a]
    ensures Table(rates, usdMap.Keys)
    ensures forall s :: s in usdMap ==>
      && Key(Usd, s) in rates && rates[Key(Usd, s)] == usdMap[s]
      && Key(s, Usd) in rates && rates[Key(s, Usd)] == 1.0 / usdMap[s]
  {
    forall s | s in usdMap
      ensures Key(Usd, s) in rates && rates[Key(Usd, s)] == usdMap[s]
      ensures Key(s, Usd) in rates && rates[Key(s, Usd)] == 1.0 / usdMap[s]
    {
      BeforeDashOfKey(Usd, s);
      BeforeDashOfKey(s, Usd);
      AfterDashOfKey(s, Usd);
    }
  }

  /**
   * The update handler adds no key besides `USD-sym`, `sym-USD` and cross
   * keys, and leaves every other key it found alone.
   */
  lemma UpdateFrame(before: map<string, real>, base: map<string, real>, after: map<string, real>,
                    sym: string, usdPrice: real, syms: set<string>)
    requires usdPrice > 0.0
    requires base == before[Key(Usd, sym) := usdPrice][Key(sym, Usd) := 1.0 / usdPrice]
    requires forall k :: k in after ==> k in base || IsCrossKey(k, syms, syms)
    requires forall k :: k in base ==> k in after && (IsCrossKey(k, syms, syms) || after[k] == base[k])
    ensures forall k :: k in after ==>
      k in before || k == Key(Usd, sym) || k == Key(sym, Usd) || IsCrossKey(k, syms, syms)
    ensures forall k ::
      (k in before && k != Key(Usd, sym) && k != Key(sym, Usd) && !IsCrossKey(k, syms, syms))
      ==> k in after && after[k] == before[k]
  {
  }

  /**
   * Once the update handler has written `USD-sym` and `sym-USD`, the table
   * holds a positive `USD-s` for every old symbol and `sym`, and only keys of
   * the complete table over them.
   */
  lemma WriteDirectRates(before: map<string, real>, syms: set<string>, sym: string, usdPrice: real)
    requires Table(before, syms)
    requires ValidSymbol(sym) && usdPrice > 0.0
    ensures var base := before[Key(Usd, sym) := usdPrice][Key(sym, Usd) := 1.0 / usdPrice];
      && (forall s :: s in syms + {sym} ==> ValidSymbol(s))
      && (forall s {:trigger Key(Usd, s)} :: s in syms + {sym} ==> Key(Usd, s) in base && base[Key(Usd, s)] > 0.0)
      && (forall k :: k in base ==> IsTableKey(k, syms + {sym}))
  {
    var base := before[Key(Usd, sym) := usdPrice][Key(sym, Usd) := 1.0 / usdPrice];
    UpdateTableKeys(before, syms, base, base, sym, usdPrice);
    forall s | s in syms ensures Key(Usd, s) in base && base[Key(Usd, s)] > 0.0 {
      KeyInjective(Usd, s, sym, Usd);
    }
  }

  /**
   * After the update handler, every key is a key of the complete table over
   * the old symbols and `sym`.
   */
  lemma UpdateTableKeys(before: map<string, real>, syms: set<string>, base: map<string, real>,
                        after: map<string, real>, sym: string, usdPrice: real)
    requires Table(before, syms)
    requires ValidSymbol(sym) && usdPrice > 0.0
    requires base == before[Key(Usd, sym) := usdPrice][Key(sym, Usd) := 1.0 / usdPrice]
    requires forall k :: k in after ==> k in base || IsCrossKey(k, syms + {sym}, syms + {sym})
    ensures forall k :: k in after ==> IsTableKey(k, syms + {sym})
  {
    BeforeDashOfKey(Usd, sym);
    AfterDashOfKey(Usd, sym);
    BeforeDashOfKey(sym, Usd);
    AfterDashOfKey(sym, Usd);
    forall k | k in after ensures IsTableKey(k, syms + {sym}) {
      if k in before {
        assert IsTableKey(k, syms);
      }
    }
  }

  /**
   * After the update handler, `USD-s` and `s-USD` of every symbol are the
   * values `base` holds for them: positive and inverse to each other.
   */
  lemma UpdateDirectRates(before: map<string, real>, syms: set<string>, base: map<string, real>,
                          after: map<string, real>, sym: string, usdPrice: real)
    requires Table(before, syms)
    requires ValidSymbol(sym) && usdPrice > 0.0
    requires base == before[Key(Usd, sym) := usdPrice][Key(sym, Usd) := 1.0 / usdPrice]
    requires forall k :: k in base ==>
      k in after && (IsCrossKey(k, syms + {sym}, syms + {sym}) || after[k] == base[k])
    ensures forall s {:trigger Key(Usd, s)} :: s in syms + {sym} ==>
      && Key(Usd, s) in after && after[Key(Usd, s)] == base[Key(Usd, s)] && after[Key(Usd, s)] > 0.0
    ensures forall s {:trigger Key(s, Usd)} :: s in syms + {sym} ==>
      && Key(s, Usd) in after && Key(Usd, s) in after && after[Key(Usd, s)] != 0.0
      && after[Key(s, Usd)] == 1.0 / after[Key(Usd, s)]
  {
    var syms' := syms + {sym};
    forall s | s in syms'
      ensures Key(Usd, s) in after && after[Key(Usd, s)] == base[Key(Usd, s)] && after[Key(Usd, s)] > 0.0
      ensures Key(s, Usd) in after && after[Key(s, Usd)] == base[Key(s, Usd)]
      ensures after[Key(s, Usd)] == 1.0 / after[Key(Usd, s)]
    {
      BeforeDashOfKey(Usd, s);
      AfterDashOfKey(Usd, s);
      BeforeDashOfKey(s, Usd);
      AfterDashOfKey(s, Usd);
      if s != sym {
        KeyInjective(Usd, s, Usd, sym);
        KeyInjective(Usd, s, sym, Usd);
        KeyInjective(s, Usd, Usd, sym);
        KeyInjective(s, Usd, sym, Usd);
        assert base[Key(Usd, s)] == before[Key(Usd, s)];
        assert base[Key(s, Usd)] == before[Key(s, Usd)];
      }
    }
  }

  /**
   * The table the update handler leaves behind is complete over the old
   * symbols and `sym`: `base` is `before` with `USD-sym` and `sym-USD`
   * written, and `after` is `base` with every cross rate recomputed.
   */
  lemma UpdateKeepsTable(before: map<string, real>, syms: set<string>, base: map<string, real>,
                         after: map<string, real>, sym: string, usdPrice: real)
    requires Table(before, syms)
    requires ValidSymbol(sym) && usdPrice > 0.0
    requires base == before[Key(Usd, sym) := usdPrice][Key(sym, Usd) := 1.0 / usdPrice]
    requires forall k :: k in after ==> k in base || IsCrossKey(k, syms + {sym}, syms + {sym})
    requires forall k :: k in base ==>
      k in after && (IsCrossKey(k, syms + {sym}, syms + {sym}) || after[k] == base[k])
    requires forall a, b {:trigger Key(a, b)} ::
      a in syms + {sym} && b in syms + {sym} && a != b ==>
        && Key(a, b) in after && Key(Usd, a) in base && Key(Usd, b) in base
        && base[Key(Usd, a)] != 0.0
        && after[Key(a, b)] == base[Key(Usd, b)] / base[Key(Usd, a)]
    ensures Table(after, syms + {sym})
    ensures Key(Usd, sym) in after && after[Key(Usd, sym)] == usdPrice
    ensures Key(sym, Usd) in after && after[Key(sym, Usd)] == 1.0 / usdPrice
  {
    UpdateTableKeys(before, syms, base, after, sym, usdPrice);
    UpdateDirectRates(before, syms, base, after, sym, usdPrice);
    KeyInjective(Usd, sym, sym, Usd);
  }

  class CurrencyConverter {
    /** The rate of every `<from>-<to>` pair the table knows. */
    var rates: map<string, real>

    /** The symbols the table holds a USD price for. */
    ghost var symbols: set<string>

    /** The table is complete and consistent over `symbols`. */
    ghost predicate Valid()
      reads this
    {
      Table(rates, symbols)
    }

    /** The symbols `Update` reads back from the `USD-` keys are `symbols`. */
    lemma SymbolsFromUsdKeys()
      requires Valid()
      ensures UsdSymbols(rates.Keys) == symbols
    {
      TableUsdSymbols(rates.Keys, symbols);
    }

    /**
     * The first loop of `calculateRates`: `USD-s` and `s-USD` for every
     * quote, the `usdMap` of last-quoted prices, and its keys in the order
     * they were first quoted.
     */
    static method DirectRates(usdPrices: seq<Quote>)
      returns (rates: map<string, real>, usdMap: map<string, real>, symbols: seq<string>)
      requires ValidQuotes(usdPrices)
      ensures usdMap == UsdMap(usdPrices)
      ensures forall s :: s in symbols <==> s in usdMap
      ensures forall k :: k in rates ==> IsDirectKey(k, usdMap.Keys)
      ensures forall s {:trigger Key(Usd, s)} :: s in usdMap ==>
        Key(Usd, s) in rates && rates[Key(Usd, s)] == usdMap[s]
      ensures forall s {:trigger Key(s, Usd)} :: s in usdMap ==>
        Key(s, Usd) in rates && rates[Key(s, Usd)] == 1.0 / usdMap[s]
    {
      rates := map[];
      usdMap := map[];
      symbols := [];
      for i := 0 to |usdPrices|
        invariant usdMap == UsdMapPrefix(usdPrices, i)
        invariant rates == DirectPrefix(usdPrices, i)
        invariant forall s :: s in symbols <==> s in usdMap
      {
        var sym := usdPrices[i].sym;
        var usdRate := usdPrices[i].rate;
        rates := rates[Key(Usd, sym) := usdRate];
        rates := rates[Key(sym, Usd) := 1.0 / usdRate];
        if sym !in usdMap {
          symbols := symbols + [sym];
        }
        usdMap := usdMap[sym := usdRate];
      }
      DirectPrefixKeys(usdPrices, |usdPrices|);
      DirectPrefixUsd(usdPrices, |usdPrices|);
      DirectPrefixInverse(usdPrices, |usdPrices|);
    }

    /**
     * One pass of the inner loop of `calculateRates`: writes `from-to`
     * as `usdMap[to] / usdMap[from]` for every `to` of `symbols` other
     * than `from`, and changes no other key.
     */
    static method CrossRow(rates: map<string, real>, usdMap: map<string, real>,
                           from: string, symbols: seq<string>)
      returns (r: map<string, real>)
      requires from in usdMap && usdMap[from] > 0.0 && ValidSymbol(from)
      requires forall s :: s in symbols <==> s in usdMap
      requires forall s :: s in usdMap ==> ValidSymbol(s)
      ensures forall k :: k in r ==> k in rates || IsCrossKey(k, {from}, usdMap.Keys)
      ensures forall k :: k in rates ==>
        k in r && (IsCrossKey(k, {from}, usdMap.Keys) || r[k] == rates[k])
      ensures forall b {:trigger Key(from, b)} :: b in usdMap && b != from ==>
        Key(from, b) in r && r[Key(from, b)] == usdMap[b] / usdMap[from]
    {
      AllKeysDecode();
      r := rates;
      for j := 0 to |symbols|
        invariant forall k :: k in r ==> k in rates || IsCrossKey(k, {from}, (set s | s in symbols[..j]))
        invariant forall k :: k in rates ==>
          k in r && (IsCrossKey(k, {from}, (set s | s in symbols[..j])) || r[k] == rates[k])
        invariant forall b {:trigger Key(from, b)} :: b in symbols[..j] && b != from ==>
          Key(from, b) in r && r[Key(from, b)] == usdMap[b] / usdMap[from]
      {
        var to := symbols[j];
        assert symbols[..j + 1] == symbols[..j] + [to];
        if from != to {
          r := r[Key(from, to) := usdMap[to] / usdMap[from]];
        }
      }
      assert symbols[..|symbols|] == symbols;
      assert (set s | s in symbols) == usdMap.Keys;
    }

    /**
     * `calculateRates(usdPrices)`: the complete table over the quoted
     * symbols, with `USD-s` the last quoted price of `s`, `s-USD` its
     * inverse, and `a-b` the ratio of the prices of `b` and `a`.
     */
    static method CalculateRates(usdPrices: seq<Quote>) returns (rates: map<string, real>)
      requires ValidQuotes(usdPrices)
      ensures Table(rates, UsdMap(usdPrices).Keys)
      ensures forall s :: s in UsdMap(usdPrices) ==>
        && Key(Usd, s) in rates && rates[Key(Usd, s)] == UsdMap(usdPrices)[s]
        && Key(s, Usd) in rates && rates[Key(s, Usd)] == 1.0 / UsdMap(usdPrices)[s]
      ensures forall a, b :: a in UsdMap(usdPrices) && b in UsdMap(usdPrices) && a != b ==>
        Key(a, b) in rates && rates[Key(a, b)] == UsdMap(usdPrices)[b] / UsdMap(usdPrices)[a]
    {
      var usdMap, symbols;
      rates, usdMap, symbols := DirectRates(usdPrices);
      ghost var direct := rates;
      ghost var done: set<string> := {};
      for i := 0 to |symbols|
        invariant done <= usdMap.Keys
        invariant forall j :: 0 <= j < i ==> symbols[j] in done
        invariant forall k :: k in rates ==> k in direct || IsCrossKey(k, done, usdMap.Keys)
        invariant forall k :: k in direct ==>
          k in rates && (IsCrossKey(k, done, usdMap.Keys) || rates[k] == direct[k])
        invariant forall a, b {:trigger Key(a, b)} :: a in done && b in usdMap && a != b ==>
          Key(a, b) in rates && rates[Key(a, b)] == usdMap[b] / usdMap[a]
      {
        var from := symbols[i];
        var r' := CrossRow(rates, usdMap, from, symbols);
        RowStepKeys(direct, rates, r', from, done, usdMap.Keys);
        RowStepQuotes(rates, r', usdMap, from, done);
        rates := r';
        done := done + {from};
      }
      assert done == usdMap.Keys;
      CalculatedTable(direct, rates, usdMap);
    }

    /** `calculateRates(coin2USD.rates)`, run when the converter is built. */
    constructor (coin2Usd: PriceTable)
      requires ValidQuotes(coin2Usd.rates)
      ensures Valid()
      ensures symbols == UsdMap(coin2Usd.rates).Keys
      ensures forall s :: s in symbols ==> rates[Key(Usd, s)] == UsdMap(coin2Usd.rates)[s]
    {
      var table := CalculateRates(coin2Usd.rates);
      rates := table;
      symbols := UsdMap(coin2Usd.rates).Keys;
    }

    /**
     * The symbols the update handler reads back from the table: the second
     * `-`-separated field of every key that starts with `USD-`, as a set. On
     * a table that holds `USD-s` for every `s` of `syms` and only keys of
     * the complete table over `syms`, they are `syms`.
     */
    static method ListSymbols(rates: map<string, real>, ghost syms: set<string>) returns (r: set<string>)
      requires forall s :: s in syms ==> ValidSymbol(s)
      requires forall s {:trigger Key(Usd, s)} :: s in syms ==> Key(Usd, s) in rates
      requires forall k :: k in rates ==> IsTableKey(k, syms)
      ensures r == syms
    {
      r := UsdSymbols(rates.Keys);
      TableUsdSymbols(rates.Keys, syms);
    }

    /**
     * The `UPDATE_USD_PRICE` handler. An empty symbol or a price that is
     * not positive is rejected and changes nothing. Otherwise the handler
     * writes `USD-sym` and `sym-USD`, then recomputes the cross rate of
     * every ordered pair of distinct symbols of the table.
     */
    method Update(sym: string, usdPrice: real) returns (ok: bool)
      requires Valid()
      requires '-' !in sym && sym != Usd
      modifies this
      ensures Valid()
      ensures ok <==> sym != "" && usdPrice > 0.0
      ensures !ok ==> rates == old(rates) && symbols == old(symbols)
      ensures ok ==> symbols == old(symbols) + {sym}
      ensures ok ==> && Key(Usd, sym) in rates && rates[Key(Usd, sym)] == usdPrice
                     && Key(sym, Usd) in rates && rates[Key(sym, Usd)] == 1.0 / usdPrice
      ensures ok ==> forall k :: k in rates ==>
        k in old(rates) || k == Key(Usd, sym) || k == Key(sym, Usd) || IsCrossKey(k, symbols, symbols)
      ensures ok ==> forall k ::
        (k in old(rates) && k != Key(Usd, sym) && k != Key(sym, Usd) && !IsCrossKey(k, symbols, symbols))
        ==> k in rates && rates[k] == old(rates)[k]
    {
      if sym == "" || usdPrice <= 0.0 {
        ok := false;
        return;
      }
      ghost var before := rates;
      ghost var oldSyms := symbols;
      WriteDirectRates(before, oldSyms, sym, usdPrice);
      rates := rates[Key(Usd, sym) := usdPrice];
      rates := rates[Key(sym, Usd) := 1.0 / usdPrice];
      ghost var base := rates;
      var syms := ListSymbols(rates, oldSyms + {sym});

      rates := RecomputeCross(rates, syms);
      UpdateKeepsTable(before, oldSyms, base, rates, sym, usdPrice);
      UpdateFrame(before, base, rates, sym, usdPrice, syms);
      symbols := syms;
      ok := true;
    }

    /**
     * The nested loops of the update handler: writes `from-to` as `USD-to`
     * divided by `USD-from` for every ordered pair of distinct symbols of
     * `syms`, and changes no other key.
     */
    static method RecomputeCross(rates: map<string, real>, syms: set<string>)
      returns (r: map<string, real>)
      requires forall s :: s in syms ==> ValidSymbol(s)
      requires forall s {:trigger Key(Usd, s)} :: s in syms ==> Key(Usd, s) in rates && rates[Key(Usd, s)] > 0.0
      ensures forall k :: k in r ==> k in rates || IsCrossKey(k, syms, syms)
      ensures forall k :: k in rates ==> k in r && (IsCrossKey(k, syms, syms) || r[k] == rates[k])
      ensures forall a, b {:trigger Key(a, b)} :: a in syms && b in syms && a != b ==>
        && Key(a, b) in r && Key(Usd, a) in rates && Key(Usd, b) in rates
        && rates[Key(Usd, a)] != 0.0
        && r[Key(a, b)] == rates[Key(Usd, b)] / rates[Key(Usd, a)]
    {
      r := rates;
      var froms := syms;
      ghost var done: set<string> := {};
      while froms != {}
        invariant done + froms == syms && done !! froms
        invariant forall s {:trigger Key(Usd, s)} :: s in syms ==>
          Key(Usd, s) in r && r[Key(Usd, s)] == rates[Key(Usd, s)]
        invariant forall k :: k in r ==> k in rates || IsCrossKey(k, done, syms)
        invariant forall k :: k in rates ==>
          k in r && (IsCrossKey(k, done, syms) || r[k] == rates[k])
        invariant forall a, b {:trigger Key(a, b)} :: a in done && b in syms && a != b ==>
          Key(a, b) in r && r[Key(a, b)] == rates[Key(Usd, b)] / rates[Key(Usd, a)]
        decreases froms
      {
        var from :| from in froms;
        assert Key(Usd, from) in r && r[Key(Usd, from)] == rates[Key(Usd, from)] > 0.0;
        var r' := UpdateRow(r, from, syms);
        RowStepKeys(rates, r, r', from, done, syms);
        RowStepUsd(rates, r, r', from, syms);
        RowStepCross(rates, r, r', from, done, syms);
        r := r';
        froms := froms - {from};
        done := done + {from};
      }
    }

    /**
     * One pass of the inner loop of the update handler: writes `from-to`
     * as `USD-to` divided by `USD-from` for every `to` of `tos` other than
     * `from`, and changes no other key.
     */
    static method UpdateRow(rates: map<string, real>, from: string, tos: set<string>)
      returns (r: map<string, real>)
      requires ValidSymbol(from) && Key(Usd, from) in rates && rates[Key(Usd, from)] > 0.0
      requires forall s :: s in tos ==> ValidSymbol(s)
      requires forall s {:trigger Key(Usd, s)} :: s in tos ==> Key(Usd, s) in rates
      ensures forall k :: k in r ==> k in rates || IsCrossKey(k, {from}, tos)
      ensures forall k :: k in rates ==> k in r && (IsCrossKey(k, {from}, tos) || r[k] == rates[k])
      ensures forall b {:trigger Key(from, b)} :: b in tos && b != from ==>
        Key(from, b) in r && r[Key(from, b)] == rates[Key(Usd, b)] / rates[Key(Usd, from)]
    {
      AllKeysDecode();
      r := rates;
      var left := tos;
      while left != {}
        invariant left <= tos
        invariant forall k :: k in r ==> k in rates || IsCrossKey(k, {from}, tos - left)
        invariant forall k :: k in rates ==> k in r && (IsCrossKey(k, {from}, tos - left) || r[k] == rates[k])
        invariant forall b {:trigger Key(from, b)} :: b in tos - left && b != from ==>
          Key(from, b) in r && r[Key(from, b)] == rates[Key(Usd, b)] / rates[Key(Usd, from)]
        decreases left
      {
        var to :| to in left;
        if from != to {
          assert r[Key(Usd, to)] == rates[Key(Usd, to)];
          assert r[Key(Usd, from)] == rates[Key(Usd, from)];
          r := r[Key(from, to) := r[Key(Usd, to)] / r[Key(Usd, from)]];
        }
        left := left - {to};
      }
    }

    /**
     * `convert(amount, from, to)`: the amount of `to` that `amount` units of
     * `from` are worth, or the error raised when the table has no rate for
     * the pair. On a valid converter it succeeds exactly for the held pairs
     * of `symbols`.
     */
    function Convert(amount: real, fromUnits: string, toUnits: string): (r: Result<real, string>)
      reads this
      ensures Valid() ==> (r.Success? <==> HeldPair(symbols, fromUnits, toUnits))
      ensures r.Failure? <==> Key(fromUnits, toUnits) !in rates
      ensures r.Failure? ==> r.error == "Rate for " + Key(fromUnits, toUnits) + " not found"
      ensures r.Success? ==> r.value == rates[Key(fromUnits, toUnits)] * amount
    {
      TableKeyIff(rates, symbols, fromUnits, toUnits);
      var tag := Key(fromUnits, toUnits);
      if tag !in rates then Failure("Rate for " + tag + " not found")
      else Success(rates[tag] * amount)
    }

    /** The table never holds a rate from a symbol to itself, so such a conversion fails. */
    lemma ConvertSelfFails(amount: real, a: string)
      requires Valid()
      ensures Convert(amount, a, a).Failure?
    {
      assert !HeldPair(symbols, a, a);
    }

    /** Converting and converting the result back gives the original amount. */
    lemma ConvertRoundTrip(amount: real, a: string, b: string)
      requires Valid()
      requires Convert(amount, a, b).Success?
      ensures Convert(Convert(amount, a, b).value, b, a).Success?
      ensures Convert(Convert(amount, a, b).value, b, a).value == amount
    {
      TableInverse(rates, symbols, a, b);
      ConvertBack(amount, a, b);
    }

    /** When the rates `a-b` and `b-a` are inverse, converting back undoes a conversion. */
    lemma ConvertBack(amount: real, a: string, b: string)
      requires Key(a, b) in rates && Key(b, a) in rates
      requires Inverses(rates[Key(a, b)], rates[Key(b, a)])
      ensures Convert(amount, a, b).Success?
      ensures Convert(Convert(amount, a, b).value, b, a).Success?
      ensures Convert(Convert(amount, a, b).value, b, a).value == amount
    {
      var there := Convert(amount, a, b).value;
      ScaleByInverses(rates[Key(a, b)], rates[Key(b, a)], amount, there);
    }

    /** Converting between two symbols is converting to `USD` and then from `USD`. */
    lemma ConvertViaUsd(amount: real, a: string, b: string)
      requires Valid()
      requires a in symbols && b in symbols && a != b
      ensures Convert(amount, a, Usd).Success? && Convert(amount, a, b).Success?
      ensures Convert(Convert(amount, a, Usd).value, Usd, b).Success?
      ensures Convert(Convert(amount, a, Usd).value, Usd, b).value == Convert(amount, a, b).value
    {
      CrossRateViaUsd(rates, symbols, a, b);
      ConvertChain(amount, a, b);
    }

    /** When `a-b` is `a-USD` followed by `USD-b`, converting through `USD` is converting directly. */
    lemma ConvertChain(amount: real, a: string, b: string)
      requires Key(a, b) in rates && Key(a, Usd) in rates && Key(Usd, b) in rates
      requires Composes(rates[Key(a, Usd)], rates[Key(Usd, b)], rates[Key(a, b)])
      ensures Convert(amount, a, Usd).Success? && Convert(amount, a, b).Success?
      ensures Convert(Convert(amount, a, Usd).value, Usd, b).Success?
      ensures Convert(Convert(amount, a, Usd).value, Usd, b).value == Convert(amount, a, b).value
    {
      var there := Convert(amount, a, Usd).value;
      ScaleByComposite(rates[Key(a, Usd)], rates[Key(Usd, b)], rates[Key(a, b)], amount, there);
    }
  }
}
