/**
 * `string_interner::StringInterner`: maps each distinct string to a symbol
 * and back. Symbol `s` stands for `strings[s]`; `symbols` is the reverse
 * index that makes `get_or_intern` find a string already interned.
 */
module Interning {
  import opened Wrappers
  import opened Seqs

  /** The table and its reverse index agree, in both directions. */
  ghost predicate TableValid(strings: seq<string>, symbols: map<string, nat>)
  {
    (forall s :: s in symbols ==> symbols[s] < |strings| && strings[symbols[s]] == s) &&
    (forall i :: 0 <= i < |strings| ==> strings[i] in symbols && symbols[strings[i]] == i)
  }

  /** `resolve(symbol)`: the string a symbol stands for, `None` for a symbol never handed out. */
  function ResolveIn(strings: seq<string>, symbol: nat): (r: Option<string>)
    ensures r.Some? <==> symbol < |strings|
  {
    if symbol < |strings| then Some(strings[symbol]) else None
  }

  /** `get_or_intern(s)` on the table: the existing symbol, or a new one at the end. */
  function Intern(strings: seq<string>, symbols: map<string, nat>, s: string): (r: (seq<string>, map<string, nat>, nat))
    requires TableValid(strings, symbols)
    ensures TableValid(r.0, r.1)
    ensures strings <= r.0
    ensures ResolveIn(r.0, r.2) == Some(s)
  {
    if s in symbols then (strings, symbols, symbols[s])
    else
      var strings' := strings + [s];
      var symbols' := symbols[s := |strings|];
      assert forall i :: 0 <= i < |strings| ==> strings'[i] == strings[i] && strings[i] != s;
      (strings', symbols', |strings|)
  }

  /** Interning a string twice yields the same symbol and leaves the table as the first call left it. */
  lemma InternIdempotent(strings: seq<string>, symbols: map<string, nat>, s: string)
    requires TableValid(strings, symbols)
    ensures var (strings1, symbols1, first) := Intern(strings, symbols, s);
      Intern(strings1, symbols1, s) == (strings1, symbols1, first)
  {
  }

  /** Different strings get different symbols: interning is injective. */
  lemma InternInjective(strings: seq<string>, symbols: map<string, nat>, a: string, b: string)
    requires TableValid(strings, symbols) && a != b
    ensures var (strings1, symbols1, sa) := Intern(strings, symbols, a);
      var (_, _, sb) := Intern(strings1, symbols1, b);
      sa != sb
  {
  }

  /** A valid table holds each string once. */
  lemma TableDistinct(strings: seq<string>, symbols: map<string, nat>)
    requires TableValid(strings, symbols)
    ensures NoDuplicates(strings)
  {
  }

  class Interner {
    var strings: seq<string>
    var symbols: map<string, nat>

    ghost predicate Valid()
      reads this
    {
      TableValid(strings, symbols)
    }

    /** `StringInterner::new()` */
    constructor ()
      ensures Valid() && strings == [] && symbols == map[]
    {
      strings := [];
      symbols := map[];
    }

    /** `get_or_intern(s)` */
    method GetOrIntern(s: string) returns (symbol: nat)
      requires Valid()
      modifies this
      ensures Valid()
      ensures (strings, symbols, symbol) == Intern(old(strings), old(symbols), s)
    {
      if s in symbols {
        symbol := symbols[s];
      } else {
        symbol := |strings|;
        strings := strings + [s];
        symbols := symbols[s := symbol];
      }
    }

    /** `resolve(symbol)`: the string the symbol was handed out for, which maps back to it. */
    function Resolve(symbol: nat): (r: Option<string>)
      reads this
      ensures r.Some? <==> symbol < |strings|
      ensures Valid() && r.Some? ==> r.value in symbols && symbols[r.value] == symbol
    {
      ResolveIn(strings, symbol)
    }
  }
}
