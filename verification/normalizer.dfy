/**
 * Symbol normalisation (symbols_universe.py, normalize_symbol): drop every
 * `/` and `-`, then upper-case what remains.  Upper-casing is modelled on
 * ASCII letters only.
 */
module Normalizer {

  /** ASCII upper-casing of one character; any other character is unchanged. */
  function UpperChar(c: char): (r: char)
    ensures !('a' <= r <= 'z')
    ensures 'A' <= r <= 'Z' <==> 'A' <= c <= 'Z' || 'a' <= c <= 'z'
    ensures !('a' <= c <= 'z') ==> r == c
    ensures 'a' <= c <= 'z' ==> r as int - 'A' as int == c as int - 'a' as int
  {
    if 'a' <= c <= 'z' then (c as int - 32) as char else c
  }

  /** `s` with each character upper-cased, position by position. */
  function Upper(s: string): (r: string)
    ensures |r| == |s|
    ensures forall i :: 0 <= i < |s| ==> r[i] == UpperChar(s[i])
  {
    if s == [] then [] else [UpperChar(s[0])] + Upper(s[1..])
  }

  /** `s` with every occurrence of `c` removed (Python's `s.replace(c, "")`). */
  function RemoveAll(s: string, c: char): (r: string)
    ensures |r| <= |s|
    ensures c !in r
    ensures forall x :: x in r ==> x in s
  {
    if s == [] then []
    else if s[0] == c then RemoveAll(s[1..], c)
    else [s[0]] + RemoveAll(s[1..], c)
  }

  /** The venue-agnostic spelling of a venue symbol. */
  function NormalizeSymbol(symbol: string): (r: string)
    ensures '/' !in r && '-' !in r
    ensures forall i :: 0 <= i < |r| ==> r[i] == UpperChar(r[i])
    ensures |r| <= |symbol|
  {
    Upper(RemoveAll(RemoveAll(symbol, '/'), '-'))
  }

  lemma {:induction false} RemoveAllAbsent(s: string, c: char)
    requires c !in s
    ensures RemoveAll(s, c) == s
  {
    if s != [] {
      assert c !in s[1..];
      RemoveAllAbsent(s[1..], c);
    }
  }

  lemma {:induction false} RemoveAllAppend(a: string, b: string, c: char)
    ensures RemoveAll(a + b, c) == RemoveAll(a, c) + RemoveAll(b, c)
  {
    if a != [] {
      assert (a + b)[1..] == a[1..] + b;
      RemoveAllAppend(a[1..], b, c);
    } else {
      assert a + b == b;
    }
  }

  lemma UpperAppend(a: string, b: string)
    ensures Upper(a + b) == Upper(a) + Upper(b)
  {
    assert forall i :: 0 <= i < |a + b| ==> Upper(a + b)[i] == (Upper(a) + Upper(b))[i];
  }

  /** Normalising twice is the same as normalising once. */
  lemma NormalizeIdempotent(s: string)
    ensures NormalizeSymbol(NormalizeSymbol(s)) == NormalizeSymbol(s)
  {
    var t := NormalizeSymbol(s);
    RemoveAllAbsent(t, '/');
    RemoveAllAbsent(t, '-');
    assert Upper(t) == t;
  }

  /** Normalisation distributes over concatenation. */
  lemma NormalizeAppend(a: string, b: string)
    ensures NormalizeSymbol(a + b) == NormalizeSymbol(a) + NormalizeSymbol(b)
  {
    RemoveAllAppend(a, b, '/');
    RemoveAllAppend(RemoveAll(a, '/'), RemoveAll(b, '/'), '-');
    UpperAppend(RemoveAll(RemoveAll(a, '/'), '-'), RemoveAll(RemoveAll(b, '/'), '-'));
  }

  /** A separator anywhere in a spelling does not change its normal form. */
  lemma NormalizeIgnoresSeparator(a: string, b: string, sep: char)
    requires sep == '/' || sep == '-'
    ensures NormalizeSymbol(a + [sep] + b) == NormalizeSymbol(a + b)
  {
    var n := NormalizeSymbol([sep]);
    assert |n| <= 1 && '/' !in n && '-' !in n;
    assert n == [];
    NormalizeAppend(a + [sep], b);
    NormalizeAppend(a, [sep]);
    NormalizeAppend(a, b);
  }

  /** A spelling with no separator and no lower-case letter is its own normal form. */
  lemma NormalizeFixedPoint(s: string)
    requires '/' !in s && '-' !in s
    requires forall i :: 0 <= i < |s| ==> s[i] == UpperChar(s[i])
    ensures NormalizeSymbol(s) == s
  {
    RemoveAllAbsent(s, '/');
    RemoveAllAbsent(s, '-');
    assert Upper(s) == s;
  }

  /** `BTC/USDT` and `BTC-USDT` both normalise to `BTCUSDT`, as does `BTCUSDT` itself. */
  lemma NormalizeExamples()
    ensures NormalizeSymbol("BTC/USDT") == "BTCUSDT"
    ensures NormalizeSymbol("BTC-USDT") == "BTCUSDT"
    ensures NormalizeSymbol("BTCUSDT") == "BTCUSDT"
  {
    var slashed, dashed := "BTC/USDT", "BTC-USDT";
    assert dashed == "BTC" + ['-'] + "USDT";
    assert slashed == "BTC" + ['/'] + "USDT";
    SeparatedExample('/', slashed);
    SeparatedExample('-', dashed);
  }

  /** A word of lower-case letters upper-cases to the word of the same letters in capitals. */
  lemma CapitalsOf(s: string, t: string)
    requires |s| == |t|
    requires forall i :: 0 <= i < |s| ==> 'a' <= s[i] <= 'z' && t[i] as int - 'A' as int == s[i] as int - 'a' as int
    ensures Upper(s) == t
  {
    forall i | 0 <= i < |s|
      ensures Upper(s)[i] == t[i]
    {
      assert Upper(s)[i] as int == t[i] as int;
    }
  }

  /** A lower-case spelling gets the same normal form: `btc/usdt` normalises to `BTCUSDT`. */
  lemma LowerCaseExample(spelling: string)
    requires spelling == "btc/usdt"
    ensures NormalizeSymbol(spelling) == "BTCUSDT"
  {
    var base, quote := "btc", "usdt";
    assert spelling == base + ['/'] + quote;
    NormalizeIgnoresSeparator(base, quote, '/');
    var bare := base + quote;
    RemoveAllAbsent(bare, '/');
    RemoveAllAbsent(bare, '-');
    CapitalsOf(bare, "BTCUSDT");
  }

  lemma SeparatedExample(sep: char, spelling: string)
    requires sep == '/' || sep == '-'
    requires spelling == "BTC" + [sep] + "USDT"
    ensures NormalizeSymbol(spelling) == "BTCUSDT"
    ensures NormalizeSymbol("BTCUSDT") == "BTCUSDT"
  {
    var base, quote := "BTC", "USDT";
    assert base + quote == "BTCUSDT";
    NormalizeFixedPoint(base + quote);
    NormalizeIgnoresSeparator(base, quote, sep);
  }
}
