/**
 * Rate-table keys of the currency converter.
 *
 * A rate is stored under the key `<from>-<to>`. The direct keys pair a
 * symbol with the base currency `USD`; the cross keys pair two symbols.
 * The symbols of a table are recovered from its keys that start with
 * `USD-`, by taking the second `-`-separated field of the key.
 */
module TableKeys {

  /** The base currency that every quote is expressed in. */
  const Usd: string := "USD"

  /** The prefix of the keys that hold a USD price. */
  const UsdPrefix: string := "USD-"

  /** The key `<from>-<to>` under which the rate from `from` to `to` is stored. */
  function Key(from: string, to: string): string
  {
    from + "-" + to
  }

  /**
   * A symbol the table can hold: a non-empty code without `-` that is
   * not the base currency itself.
   */
  predicate ValidSymbol(s: string)
  {
    s != "" && '-' !in s && s != Usd
  }

  /** `k.startsWith('USD-')`. */
  predicate IsUsdKey(k: string)
  {
    |k| >= |UsdPrefix| && k[..|UsdPrefix|] == UsdPrefix
  }

  /** The text after the first `-` of `s`; empty when `s` has none. */
  function AfterDash(s: string): (r: string)
    ensures |r| <= |s|
  {
    if s == [] then []
    else if s[0] == '-' then s[1..]
    else AfterDash(s[1..])
  }

  /** The text before the first `-` of `s`; all of `s` when it has none. */
  function BeforeDash(s: string): (r: string)
    ensures '-' !in r
  {
    if s == [] then []
    else if s[0] == '-' then []
    else [s[0]] + BeforeDash(s[1..])
  }

  /** `k.split('-')[1]`: the second `-`-separated field of `k`. */
  function SecondField(k: string): string
  {
    BeforeDash(AfterDash(k))
  }

  /** The symbols held by a table whose keys are `keys`: the second field of every `USD-` key. */
  function UsdSymbols(keys: set<string>): set<string>
  {
    set k | k in keys && IsUsdKey(k) :: SecondField(k)
  }

  /**
   * `k` is the key `<a>-<b>` of some `a` in `froms` and a different `b` in
   * `tos` (`k` is `<a>-<b>` whenever its second field is not empty, see
   * `SplitAtDash`).
   */
  predicate IsCrossKey(k: string, froms: set<string>, tos: set<string>)
  {
    BeforeDash(k) in froms && AfterDash(k) in tos && BeforeDash(k) != AfterDash(k)
  }

  /** `k` is `USD-<s>` or `<s>-USD` for some `s` in `syms`. */
  predicate IsDirectKey(k: string, syms: set<string>)
  {
    (BeforeDash(k) == Usd && AfterDash(k) in syms) || (AfterDash(k) == Usd && BeforeDash(k) in syms)
  }

  /** `k` is one of the keys of a complete table over the symbols `syms`. */
  predicate IsTableKey(k: string, syms: set<string>)
  {
    IsDirectKey(k, syms) || IsCrossKey(k, syms, syms)
  }

  /** The field before the first `-` of a key is its `from` part. */
  lemma {:induction false} BeforeDashOfKey(a: string, b: string)
    requires '-' !in a
    ensures BeforeDash(Key(a, b)) == a
  {
    if a != [] {
      assert Key(a, b)[0] == a[0];
      assert Key(a, b)[1..] == Key(a[1..], b);
      BeforeDashOfKey(a[1..], b);
    }
  }

  /** `BeforeDash` returns a string without `-` unchanged. */
  lemma {:induction false} BeforeDashOfPlain(s: string)
    requires '-' !in s
    ensures BeforeDash(s) == s
  {
    if s != [] {
      assert s[0] in s;
      BeforeDashOfPlain(s[1..]);
    }
  }

  /** The text after the first `-` of a key is its `to` part. */
  lemma {:induction false} AfterDashOfKey(a: string, b: string)
    requires '-' !in a
    ensures AfterDash(Key(a, b)) == b
  {
    if a != [] {
      assert Key(a, b)[0] == a[0];
      assert Key(a, b)[1..] == Key(a[1..], b);
      AfterDashOfKey(a[1..], b);
    } else {
      assert Key(a, b) == "-" + b;
    }
  }

  /** When the `from` part contains `-`, so does the text after the key's first `-`. */
  lemma {:induction false} AfterDashOfDashed(a: string, b: string)
    requires '-' in a
    ensures '-' in AfterDash(Key(a, b))
  {
    assert Key(a, b)[0] == a[0];
    assert Key(a, b)[1..] == Key(a[1..], b);
    if a[0] == '-' {
      assert Key(a, b)[|a|] == '-';
      assert AfterDash(Key(a, b))[|a| - 1] == '-';
    } else {
      AfterDashOfDashed(a[1..], b);
    }
  }

  /** No key whose `from` part contains `-` is a key of a table over valid symbols. */
  lemma DashedKeyNotInTable(a: string, b: string, syms: set<string>)
    requires forall s :: s in syms ==> ValidSymbol(s)
    requires '-' in a
    ensures !IsTableKey(Key(a, b), syms)
  {
    AfterDashOfDashed(a, b);
  }

  /** Splitting `<from>-<to>` on `-` gives back `from` and `to` when neither contains `-`. */
  lemma SplitKey(a: string, b: string)
    requires '-' !in a && '-' !in b
    ensures BeforeDash(Key(a, b)) == a
    ensures SecondField(Key(a, b)) == b
  {
    BeforeDashOfKey(a, b);
    AfterDashOfKey(a, b);
    BeforeDashOfPlain(b);
  }

  /** Keys whose `from` part has no `-` are equal exactly when both parts are. */
  lemma KeyInjective(a: string, b: string, c: string, d: string)
    requires '-' !in a && '-' !in c
    ensures Key(a, b) == Key(c, d) <==> a == c && b == d
  {
    if Key(a, b) == Key(c, d) {
      BeforeDashOfKey(a, b);
      BeforeDashOfKey(c, d);
      AfterDashOfKey(a, b);
      AfterDashOfKey(c, d);
    }
  }

  /** A string with a non-empty text after its first `-` is the key of its two parts. */
  lemma {:induction false} SplitAtDash(k: string)
    requires AfterDash(k) != ""
    ensures k == Key(BeforeDash(k), AfterDash(k))
  {
    if k[0] != '-' {
      SplitAtDash(k[1..]);
      assert k == [k[0]] + k[1..];
    }
  }

  /** Every key whose `from` part has no `-` splits back into its two parts. */
  lemma AllKeysDecode()
    ensures forall a, b {:trigger Key(a, b)} ::
      '-' !in a ==> BeforeDash(Key(a, b)) == a && AfterDash(Key(a, b)) == b
  {
    forall a, b | '-' !in a
      ensures BeforeDash(Key(a, b)) == a && AfterDash(Key(a, b)) == b
    {
      BeforeDashOfKey(a, b);
      AfterDashOfKey(a, b);
    }
  }

  /** A key starts with `USD-` exactly when its `from` part is `USD`. */
  lemma UsdKeyIff(a: string, b: string)
    requires '-' !in a
    ensures IsUsdKey(Key(a, b)) <==> a == Usd
  {
    var k := Key(a, b);
    if a == Usd {
      assert k[..|UsdPrefix|] == UsdPrefix;
    }
    if IsUsdKey(k) {
      assert k[3] == UsdPrefix[3] == '-';
      assert |a| <= 3;
      assert k[|a|] == '-' && k[|a|] == UsdPrefix[|a|];
      assert a == k[..3] == UsdPrefix[..3];
    }
  }

  /**
   * Reading the symbols back from the `USD-` keys of a key set that holds
   * `USD-s` for every valid symbol `s` of `syms`, and only keys of the
   * complete table over `syms`, gives `syms`.
   */
  lemma TableUsdSymbols(keys: set<string>, syms: set<string>)
    requires forall s :: s in syms ==> ValidSymbol(s)
    requires forall s {:trigger Key(Usd, s)} :: s in syms ==> Key(Usd, s) in keys
    requires forall k :: k in keys ==> IsTableKey(k, syms)
    ensures UsdSymbols(keys) == syms
  {
    forall s | s in syms ensures s in UsdSymbols(keys) {
      UsdKeyIff(Usd, s);
      SplitKey(Usd, s);
      assert Key(Usd, s) in keys;
    }
    forall x | x in UsdSymbols(keys) ensures x in syms {
      var k :| k in keys && IsUsdKey(k) && SecondField(k) == x;
      var a, b := BeforeDash(k), AfterDash(k);
      SplitAtDash(k);
      UsdKeyIff(a, b);
      assert a == Usd;
      assert b in syms;
      SplitKey(a, b);
    }
  }
}
