/**
  The money side of the form's submit handler (src/App.tsx:24-64): the six
  amount fields are normalised, the whole batch is rejected if any amount is
  NaN or negative, and otherwise the amounts are added up, starting from 0,
  in the order the handler lists them.
*/
module Calculation {
  import opened Normalizer

  /** The text of the form's inputs; None stands for an input whose element is
      not mounted, whose value the handlers read as undefined. */
  datatype Form = Form(
    address: Option<string>,
    rent: Option<string>,
    adminFee: Option<string>,
    mediaSettle: Option<string>,
    electricityAdvance: Option<string>,
    electricityInvoice: Option<string>,
    tv: Option<string>)

  /** The texts of the six amount fields, in the order the handler lists them. */
  function AmountTexts(f: Form): (s: seq<Option<string>>)
    ensures |s| == 6
  {
    [f.rent, f.adminFee, f.mediaSettle, f.electricityAdvance, f.electricityInvoice, f.tv]
  }

  /** `g` applied to each element in turn. */
  function Map<A, B>(g: A -> B, s: seq<A>): (r: seq<B>)
    ensures |r| == |s|
    ensures forall i :: 0 <= i < |s| ==> r[i] == g(s[i])
  {
    if |s| == 0 then []
    else
      var init := s[..|s| - 1];
      assert forall i :: 0 <= i < |init| ==> init[i] == s[i];
      Map(g, init) + [g(s[|s| - 1])]
  }

  /** The six normalised amounts the handler checks and adds up. */
  function Amounts(f: Form): seq<Number> {
    Map(Normalize, AmountTexts(f))
  }

  /** The handler's test for an amount it refuses: NaN or below zero. */
  predicate Rejected(n: Number) {
    n.NaN? || n.c < 0
  }

  /** Some amount of the batch is refused. */
  predicate AnyRejected(s: seq<Number>) {
    exists i :: 0 <= i < |s| && Rejected(s[i])
  }

  /** One step of the handler's addition: NaN is absorbing, otherwise exact addition. */
  function Add(a: Number, b: Number): Number {
    if a.NaN? || b.NaN? then NaN else Cents(a.c + b.c)
  }

  /** The handler's total: the amounts added one by one, left to right, starting from 0. */
  function Sum(s: seq<Number>): Number {
    if |s| == 0 then Cents(0) else Add(Sum(s[..|s| - 1]), s[|s| - 1])
  }

  // ---------------------------------------------------------------------------
  // Lemmas

  /** The normaliser never yields NaN or a negative number, so the rejection
      branch of the handler is never taken. */
  lemma NeverRejected(texts: seq<Option<string>>)
    ensures !AnyRejected(Map(Normalize, texts))
  {
  }

  /** A sum of amounts that are all whole, non-negative numbers of hundredths is one too. */
  lemma {:induction false} SumNonNegative(s: seq<Number>)
    requires forall i :: 0 <= i < |s| ==> s[i].Cents? && s[i].c >= 0
    ensures Sum(s).Cents? && Sum(s).c >= 0
  {
    if |s| > 0 {
      SumNonNegative(s[..|s| - 1]);
    }
  }

  /** The sum is NaN exactly when one of the amounts is NaN. */
  lemma {:induction false} SumNaN(s: seq<Number>)
    ensures Sum(s).NaN? <==> exists i :: 0 <= i < |s| && s[i].NaN?
  {
    if |s| > 0 {
      var init := s[..|s| - 1];
      SumNaN(init);
      if exists i :: 0 <= i < |init| && init[i].NaN? {
        var i :| 0 <= i < |init| && init[i].NaN?;
        assert s[i].NaN?;
      }
      if exists i :: 0 <= i < |s| && s[i].NaN? {
        var i :| 0 <= i < |s| && s[i].NaN?;
        if i < |init| {
          assert init[i].NaN?;
        }
      }
    }
  }

  /** Taking one amount out of the middle and adding it last gives the same sum. */
  lemma {:induction false} SumRemove(s: seq<Number>, i: nat)
    requires i < |s|
    ensures Sum(s) == Add(Sum(s[..i] + s[i + 1..]), s[i])
  {
    var n := |s| - 1;
    if i == n {
      assert s[..i] + s[i + 1..] == s[..n];
    } else {
      var init := s[..n];
      var rest := init[..i] + init[i + 1..];
      SumRemove(init, i);
      assert rest + [s[n]] == s[..i] + s[i + 1..] by {
        assert init[..i] == s[..i];
        assert init[i + 1..] + [s[n]] == s[i + 1..];
      }
      assert (rest + [s[n]])[..|rest|] == rest;
    }
  }

  /** The total does not depend on the order of the amounts. */
  lemma {:induction false} SumPermutation(s: seq<Number>, t: seq<Number>)
    requires multiset(s) == multiset(t)
    ensures Sum(s) == Sum(t)
  {
    if |s| > 0 {
      var i := PermutationStep(s, t);
      SumPermutation(s[..|s| - 1], t[..i] + t[i + 1..]);
      SumRemove(t, i);
    } else {
      assert |t| == |multiset(t)| == 0;
    }
  }

  /** Mapping sequences that are a permutation of each other gives sequences
      that are a permutation of each other. */
  lemma {:induction false} MapPermutation<A, B>(g: A -> B, s: seq<A>, t: seq<A>)
    requires multiset(s) == multiset(t)
    ensures multiset(Map(g, s)) == multiset(Map(g, t))
  {
    if |s| > 0 {
      var i := PermutationStep(s, t);
      var t' := t[..i] + t[i + 1..];
      MapPermutation(g, s[..|s| - 1], t');
      var a, a' := Map(g, t), Map(g, t');
      assert a' == a[..i] + a[i + 1..];
      MultisetRemove(a, i);
    } else {
      assert |t| == |multiset(t)| == 0;
    }
  }

  /** One step of an induction over a permutation: the last element of `s`
      sits at some index `i` of `t`, and removing both leaves a permutation. */
  lemma PermutationStep<T>(s: seq<T>, t: seq<T>) returns (i: nat)
    requires multiset(s) == multiset(t) && |s| > 0
    ensures i < |t| && t[i] == s[|s| - 1]
    ensures multiset(s[..|s| - 1]) == multiset(t[..i] + t[i + 1..])
  {
    var n := |s| - 1;
    var x := s[n];
    assert s == s[..n] + [x];
    assert x in multiset(t) by {
      assert x in multiset(s);
    }
    i :| 0 <= i < |t| && t[i] == x;
    MultisetRemove(s, n);
    MultisetRemove(t, i);
  }

  /** Removing the element at `i` removes one occurrence of it. */
  lemma MultisetRemove<T>(a: seq<T>, i: nat)
    requires i < |a|
    ensures multiset(a[..i] + a[i + 1..]) == multiset(a) - multiset{a[i]}
  {
    assert a == a[..i] + [a[i]] + a[i + 1..];
    assert multiset(a) == multiset(a[..i]) + multiset{a[i]} + multiset(a[i + 1..]);
  }

  /** Amounts that are all 0 add up to 0. */
  lemma {:induction false} SumOfZeros(s: seq<Number>)
    requires forall i :: 0 <= i < |s| ==> s[i] == Cents(0)
    ensures Sum(s) == Cents(0)
  {
    if |s| > 0 {
      SumOfZeros(s[..|s| - 1]);
    }
  }

  /** A form whose six amount fields are all blank (empty or unmounted, in any
      mix) totals 0. */
  lemma BlankFormTotalsZero(f: Form)
    requires forall t :: t in AmountTexts(f) ==> t == None || t == Some("")
    ensures Sum(Amounts(f)) == Cents(0)
  {
    ExampleEmpty();
    var texts, amounts := AmountTexts(f), Amounts(f);
    forall i | 0 <= i < |amounts|
      ensures amounts[i] == Cents(0)
    {
      assert texts[i] in texts;
    }
    SumOfZeros(amounts);
  }
}
