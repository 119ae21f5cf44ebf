/** Element-wise mapping, the specification of the serializers' `foreach ... Add` loops. */
module Seqs {
  import opened Wrappers

  /** `f` applied to each element, built from the back so that one more loop step is one more element. */
  function Map<A, B>(s: seq<A>, f: A -> B): seq<B>
    decreases |s|
  {
    if s == [] then [] else Map(s[..|s| - 1], f) + [f(s[|s| - 1])]
  }

  /** One output per input, in input order. */
  lemma {:induction false} MapAt<A, B>(s: seq<A>, f: A -> B)
    ensures |Map(s, f)| == |s|
    ensures forall k | 0 <= k < |s| :: Map(s, f)[k] == f(s[k])
    decreases |s|
  {
    if s != [] {
      MapAt(s[..|s| - 1], f);
    }
  }

  /** Extending the input by one element extends the output by its image. */
  lemma MapSnoc<A, B>(s: seq<A>, x: A, f: A -> B)
    ensures Map(s + [x], f) == Map(s, f) + [f(x)]
  {
    assert (s + [x])[..|s|] == s;
  }

  /** When only `x` maps to `f(x)`, the output holds `f(x)` as often as the input holds `x`. */
  lemma {:induction false} MapCount<A, B>(s: seq<A>, f: A -> B, x: A)
    requires forall a :: f(a) == f(x) ==> a == x
    ensures multiset(Map(s, f))[f(x)] == multiset(s)[x]
    decreases |s|
  {
    if s != [] {
      var init, last := s[..|s| - 1], s[|s| - 1];
      MapCount(init, f, x);
      assert s == init + [last];
      assert Map(s, f) == Map(init, f) + [f(last)];
      assert multiset(Map(s, f)) == multiset(Map(init, f)) + multiset{f(last)};
      assert multiset(s) == multiset(init) + multiset{last};
    }
  }

  /** `f` applied to each element when every application succeeds, and None as soon as one fails. */
  function MapOption<A, B>(s: seq<A>, f: A -> Option<B>): Option<seq<B>>
    decreases |s|
  {
    if s == [] then Some([])
    else match (MapOption(s[..|s| - 1], f), f(s[|s| - 1]))
      case (Some(init), Some(y)) => Some(init + [y])
      case _ => None
  }

  /** A partial reader that inverts `enc` on every element inverts it on every sequence. */
  lemma {:induction false} MapOptionInverse<A, B>(s: seq<A>, enc: A -> B, dec: B -> Option<A>)
    requires forall x :: dec(enc(x)) == Some(x)
    ensures MapOption(Map(s, enc), dec) == Some(s)
    decreases |s|
  {
    if s != [] {
      var init, last := s[..|s| - 1], s[|s| - 1];
      MapOptionInverse(init, enc, dec);
      MapSnoc(init, last, enc);
      assert init + [last] == s;
      var t := Map(s, enc);
      assert t[..|t| - 1] == Map(init, enc);
    }
  }
}
