/** Concatenating the images of the elements of a sequence. */
module Sequences {
  /** `f` applied to every element of `s`, the results concatenated in order. */
  function FlatMap<T, U>(f: T -> seq<U>, s: seq<T>): seq<U> {
    if s == [] then [] else FlatMap(f, s[..|s| - 1]) + f(s[|s| - 1])
  }

  lemma FlatMapSnoc<T, U>(f: T -> seq<U>, s: seq<T>, c: T)
    ensures FlatMap(f, s + [c]) == FlatMap(f, s) + f(c)
  {
    assert (s + [c])[..|s|] == s;
  }

  lemma {:induction false} FlatMapAppend<T, U>(f: T -> seq<U>, a: seq<T>, b: seq<T>)
    ensures FlatMap(f, a + b) == FlatMap(f, a) + FlatMap(f, b)
    decreases |b|
  {
    if b == [] {
      assert a + b == a;
    } else {
      var b', c := b[..|b| - 1], b[|b| - 1];
      assert b == b' + [c];
      assert a + b == (a + b') + [c];
      calc {
        FlatMap(f, a + b);
        { FlatMapSnoc(f, a + b', c); }
        FlatMap(f, a + b') + f(c);
        { FlatMapAppend(f, a, b'); }
        (FlatMap(f, a) + FlatMap(f, b')) + f(c);
        FlatMap(f, a) + (FlatMap(f, b') + f(c));
        { FlatMapSnoc(f, b', c); }
        FlatMap(f, a) + FlatMap(f, b);
      }
    }
  }

  /** Associativity of concatenation, as a separate step: stated inline inside a larger proof, the
      extensional sequence equality it needs makes that proof much more expensive. */
  lemma ConcatAssoc<T>(a: seq<T>, b: seq<T>, c: seq<T>)
    ensures (a + b) + c == a + (b + c)
  {
  }

  /** One more element of `s`: the image of the prefix grows by the image of that element. */
  lemma FlatMapPrefixStep<T, U>(f: T -> seq<U>, s: seq<T>, i: nat)
    requires i < |s|
    ensures FlatMap(f, s[..i + 1]) == FlatMap(f, s[..i]) + f(s[i])
  {
    assert s[..i + 1] == s[..i] + [s[i]];
    FlatMapSnoc(f, s[..i], s[i]);
  }

  lemma FlatMapOne<T, U>(f: T -> seq<U>, x: T)
    ensures FlatMap(f, [x]) == f(x)
  {
    FlatMapSnoc(f, [], x);
    assert [] + [x] == [x];
  }

  lemma FlatMapTwo<T, U>(f: T -> seq<U>, x: T, y: T)
    ensures FlatMap(f, [x, y]) == f(x) + f(y)
  {
    FlatMapOne(f, x);
    FlatMapSnoc(f, [x], y);
    assert [x] + [y] == [x, y];
  }
}
