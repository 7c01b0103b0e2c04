/** Space-separated id lists, the form of `aria-describedby` and `aria-labelledby` values:
    `Join` glues ids with single spaces as `Array.prototype.join(' ')` does, and `Tokens`
    reads a value back as the list of ids it refers to (runs of non-space characters). */
module IdRefs {

  /** The maximal space-free prefix of s. */
  function Word(s: string): (w: string)
    ensures w <= s
    ensures ' ' !in w
    ensures |w| < |s| ==> s[|w|] == ' '
  {
    if s == [] || s[0] == ' ' then [] else [s[0]] + Word(s[1..])
  }

  /** The ids a space-separated list refers to, in order; extra spaces separate nothing.
      Only the space character separates here, where an id-reference list may also be split
      on tabs and line breaks; the ids this hook joins come from its id generator and the
      field helper and contain no whitespace, so the two readings agree on them. */
  function Tokens(s: string): (ids: seq<string>)
    ensures forall id :: id in ids ==> id != [] && ' ' !in id
    decreases |s|
  {
    if s == [] then []
    else if s[0] == ' ' then Tokens(s[1..])
    else
      var w := Word(s);
      assert |w| > 0;
      [w] + Tokens(s[|w|..])
  }

  /** `xs.join(' ')`. */
  function Join(xs: seq<string>): (s: string)
    ensures xs != [] && xs[0] != [] ==> s != []
  {
    if xs == [] then []
    else if |xs| == 1 then xs[0]
    else xs[0] + [' '] + Join(xs[1..])
  }

  /** The ids of each list, one list after another. */
  function FlatTokens(xs: seq<string>): seq<string>
  {
    if xs == [] then [] else Tokens(xs[0]) + FlatTokens(xs[1..])
  }

  /** A single id (non-empty, no space). */
  predicate IsSingleId(x: string)
  {
    x != [] && ' ' !in x
  }

  lemma {:induction false} WordBeforeSpace(a: string, b: string)
    ensures Word(a + [' '] + b) == Word(a)
  {
    if a != [] && a[0] != ' ' {
      assert (a + [' '] + b)[1..] == a[1..] + [' '] + b;
      WordBeforeSpace(a[1..], b);
    }
  }

  /** A space separates the ids of its two sides. */
  lemma {:induction false} TokensAcrossSpace(a: string, b: string)
    ensures Tokens(a + [' '] + b) == Tokens(a) + Tokens(b)
    decreases |a|
  {
    var s := a + [' '] + b;
    if a == [] {
      assert s[0] == ' ' && s[1..] == b;
    } else if a[0] == ' ' {
      assert s[0] == ' ' && s[1..] == a[1..] + [' '] + b;
      TokensAcrossSpace(a[1..], b);
    } else {
      TokensAcrossWord(a, b);
    }
  }

  /** The step of TokensAcrossSpace where a starts with an id. */
  lemma {:induction false} TokensAcrossWord(a: string, b: string)
    requires a != [] && a[0] != ' '
    ensures Tokens(a + [' '] + b) == Tokens(a) + Tokens(b)
    decreases |a|, 0
  {
    var s := a + [' '] + b;
    WordBeforeSpace(a, b);
    var w := Word(a);
    var n := |w|;
    assert n <= |a| && s[0] == a[0];
    var rest := a[n..];
    assert s[n..] == rest + [' '] + b;
    TokensStartingWithId(s);
    TokensStartingWithId(a);
    TokensAcrossSpace(rest, b);
    calc {
      Tokens(s);
      [w] + Tokens(rest + [' '] + b);
      [w] + (Tokens(rest) + Tokens(b));
      ([w] + Tokens(rest)) + Tokens(b);
      Tokens(a) + Tokens(b);
    }
  }

  lemma TokensStartingWithId(s: string)
    requires s != [] && s[0] != ' '
    ensures Tokens(s) == [Word(s)] + Tokens(s[|Word(s)|..])
  {
  }

  /** A single id reads back as itself. */
  lemma SingleIdTokens(x: string)
    requires IsSingleId(x)
    ensures Tokens(x) == [x]
  {
    var w := Word(x);
    assert forall i :: 0 <= i < |x| ==> x[i] in x;
    assert w == x;
    assert x[|w|..] == [];
  }

  /** Joining lists keeps every id of every list, in order. */
  lemma {:induction false} TokensOfJoin(xs: seq<string>)
    ensures Tokens(Join(xs)) == FlatTokens(xs)
  {
    if |xs| == 1 {
      assert xs[1..] == [];
    } else if |xs| > 1 {
      TokensAcrossSpace(xs[0], Join(xs[1..]));
      TokensOfJoin(xs[1..]);
    }
  }

  /** Joining single ids gives a list that refers to exactly those ids. */
  lemma {:induction false} JoinOfSingleIds(xs: seq<string>)
    requires forall i :: 0 <= i < |xs| ==> IsSingleId(xs[i])
    ensures Tokens(Join(xs)) == xs
  {
    TokensOfJoin(xs);
    FlatTokensOfSingleIds(xs);
  }

  lemma {:induction false} FlatTokensOfSingleIds(xs: seq<string>)
    requires forall i :: 0 <= i < |xs| ==> IsSingleId(xs[i])
    ensures FlatTokens(xs) == xs
  {
    if xs != [] {
      SingleIdTokens(xs[0]);
      FlatTokensOfSingleIds(xs[1..]);
      assert xs == [xs[0]] + xs[1..];
    }
  }
}
