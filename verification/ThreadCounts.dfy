/** Counting threads: what each contributes, added up, for any kind of contribution that can be added. */
module ThreadCounts {

  function Bit(b: bool): nat { if b then 1 else 0 }

  function Times<T>(pc: T, n: nat): seq<T> {
    seq(n, _ => pc)
  }

  function Sum<T, V>(threads: seq<T>, share: T -> V, plus: (V, V) -> V, none: V): V {
    if threads == [] then none else plus(share(threads[0]), Sum(threads[1..], share, plus, none))
  }

  /** All but the i-th. */
  function SumOthers<T, V>(threads: seq<T>, i: nat, share: T -> V, plus: (V, V) -> V, none: V): V
    requires i < |threads|
  {
    plus(Sum(threads[..i], share, plus, none), Sum(threads[i+1..], share, plus, none))
  }

  ghost predicate Additive<V(!new)>(plus: (V, V) -> V, none: V) {
    && (forall a, b :: plus(a, b) == plus(b, a))
    && (forall a, b, c :: plus(plus(a, b), c) == plus(a, plus(b, c)))
    && (forall a :: plus(none, a) == a)
  }

  lemma {:induction false} SumSplit<T, V(!new)>(threads: seq<T>, i: nat, share: T -> V, plus: (V, V) -> V, none: V)
    requires i < |threads| && Additive(plus, none)
    ensures Sum(threads, share, plus, none)
         == plus(SumOthers(threads, i, share, plus, none), share(threads[i]))
  {
    hide Additive;
    var first := share(threads[0]);
    if i == 0 {
      var rest := Sum(threads[1..], share, plus, none);
      assert threads[..0] == [];
      AdditiveAt(plus, none, rest, first, rest);
    } else {
      var b, c := Sum(threads[1..i], share, plus, none), Sum(threads[i+1..], share, plus, none);
      var rest := threads[1..];
      SumSplit(rest, i - 1, share, plus, none);
      assert rest[..i-1] == threads[..i][1..] && rest[i..] == threads[i+1..];
      assert rest[..i-1] == threads[1..i];
      AdditiveAt(plus, none, first, b, c);
      AdditiveAt(plus, none, first, plus(b, c), share(threads[i]));
    }
  }

  lemma AdditiveAt<V(!new)>(plus: (V, V) -> V, none: V, a: V, b: V, c: V)
    requires Additive(plus, none)
    ensures plus(a, b) == plus(b, a) && plus(plus(a, b), c) == plus(a, plus(b, c)) && plus(none, a) == a
  {
  }

  /** A step of one thread changes its own share of the sum and no other. */
  lemma SumUpdate<T, V(!new)>(threads: seq<T>, i: nat, pc: T, share: T -> V, plus: (V, V) -> V, none: V)
    requires i < |threads| && Additive(plus, none)
    ensures Sum(threads, share, plus, none)
         == plus(SumOthers(threads, i, share, plus, none), share(threads[i]))
    ensures Sum(threads[i := pc], share, plus, none)
         == plus(SumOthers(threads, i, share, plus, none), share(pc))
  {
    hide Sum, Additive;
    var us := threads[i := pc];
    assert us[..i] == threads[..i] && us[i+1..] == threads[i+1..];
    SumSplit(threads, i, share, plus, none);
    SumSplit(us, i, share, plus, none);
  }
}
