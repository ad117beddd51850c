/** `transform` of docopt.py: a pattern tree is expanded into a single choice between
    lists of leaves, by a queue of partly expanded lists. */
module DocoptTransform {

  datatype Kind = Required | Optional | OptionsShortcut | Either | OneOrMore

  datatype Pattern<L> = Leaf(leaf: L) | Branch(kind: Kind, children: seq<Pattern>)

  // ----- Meaning -----

  /** Each case of `cases` with the leaves of `extra`. */
  function AddTo<L>(extra: multiset<L>, cases: seq<multiset<L>>): (r: seq<multiset<L>>)
    ensures |r| == |cases|
  {
    if cases == [] then [] else [extra + cases[0]] + AddTo(extra, cases[1..])
  }

  /** One case of `a` together with one of `b`, in all ways. */
  function Product<L>(a: seq<multiset<L>>, b: seq<multiset<L>>): (r: seq<multiset<L>>) {
    if a == [] then [] else AddTo(a[0], b) + Product(a[1..], b)
  }

  /** The ways to match a pattern, each as the multiset of leaves it takes: one of the
      alternatives, or all children; what may be repeated is taken twice, what is
      optional is taken. */
  function Cases<L>(p: Pattern<L>): seq<multiset<L>>
    decreases p
  {
    match p
    case Leaf(l) => [multiset{l}]
    case Branch(Either, cs) => AnyOf(cs)
    case Branch(OneOrMore, cs) => Product(AllOf(cs), AllOf(cs))
    case Branch(_, cs) => AllOf(cs)
  }

  function AllOf<L>(ps: seq<Pattern<L>>): seq<multiset<L>>
    decreases ps
  {
    if ps == [] then [multiset{}] else Product(Cases(ps[0]), AllOf(ps[1..]))
  }

  function AnyOf<L>(ps: seq<Pattern<L>>): seq<multiset<L>>
    decreases ps
  {
    if ps == [] then [] else Cases(ps[0]) + AnyOf(ps[1..])
  }

  // ----- Algebra of cases -----

  lemma {:induction false} AddToAppend<L>(x: multiset<L>, a: seq<multiset<L>>, b: seq<multiset<L>>)
    ensures AddTo(x, a + b) == AddTo(x, a) + AddTo(x, b)
  {
    if a == [] {
      assert a + b == b;
    } else {
      assert (a + b)[1..] == a[1..] + b;
      AddToAppend(x, a[1..], b);
    }
  }

  lemma {:induction false} ProductAppend<L>(a: seq<multiset<L>>, a': seq<multiset<L>>, b: seq<multiset<L>>)
    ensures Product(a + a', b) == Product(a, b) + Product(a', b)
  {
    if a == [] {
      assert a + a' == a';
    } else {
      assert (a + a')[1..] == a[1..] + a';
      ProductAppend(a[1..], a', b);
    }
  }

  lemma {:induction false} AddToTwice<L>(x: multiset<L>, y: multiset<L>, a: seq<multiset<L>>)
    ensures AddTo(x, AddTo(y, a)) == AddTo(x + y, a)
  {
    if a != [] {
      AddToTwice(x, y, a[1..]);
      assert x + (y + a[0]) == (x + y) + a[0];
    }
  }

  lemma {:induction false} AddToProduct<L>(x: multiset<L>, a: seq<multiset<L>>, b: seq<multiset<L>>)
    ensures AddTo(x, Product(a, b)) == Product(AddTo(x, a), b)
  {
    if a != [] {
      AddToAppend(x, AddTo(a[0], b), Product(a[1..], b));
      AddToTwice(x, a[0], b);
      AddToProduct(x, a[1..], b);
      assert AddTo(x, a)[1..] == AddTo(x, a[1..]);
    }
  }

  /** What is common to all cases of the second factor may be taken out. */
  lemma {:induction false} ProductAddTo<L>(x: multiset<L>, a: seq<multiset<L>>, b: seq<multiset<L>>)
    ensures Product(a, AddTo(x, b)) == AddTo(x, Product(a, b))
  {
    if a != [] {
      ProductAddTo(x, a[1..], b);
      AddToTwice(a[0], x, b);
      AddToTwice(x, a[0], b);
      assert a[0] + x == x + a[0];
      AddToAppend(x, AddTo(a[0], b), Product(a[1..], b));
    }
  }

  lemma {:induction false} ProductAssociative<L>(a: seq<multiset<L>>, b: seq<multiset<L>>, c: seq<multiset<L>>)
    ensures Product(Product(a, b), c) == Product(a, Product(b, c))
  {
    if a != [] {
      ProductAppend(AddTo(a[0], b), Product(a[1..], b), c);
      AddToProduct(a[0], b, c);
      ProductAssociative(a[1..], b, c);
    }
  }

  lemma {:induction false} AddNothing<L>(a: seq<multiset<L>>)
    ensures AddTo(multiset{}, a) == a
  {
    if a != [] {
      AddNothing(a[1..]);
      assert multiset{} + a[0] == a[0];
    }
  }

  lemma ProductUnit<L>(b: seq<multiset<L>>)
    ensures Product([multiset{}], b) == b
  {
    AddNothing(b);
    var unit: seq<multiset<L>> := [multiset{}];
    assert unit[1..] == [] && Product(unit[1..], b) == [];
  }

  lemma {:induction false} AllOfAppend<L>(ps: seq<Pattern<L>>, qs: seq<Pattern<L>>)
    ensures AllOf(ps + qs) == Product(AllOf(ps), AllOf(qs))
  {
    if ps == [] {
      assert ps + qs == qs;
      ProductUnit(AllOf(qs));
    } else {
      assert (ps + qs)[1..] == ps[1..] + qs;
      AllOfAppend(ps[1..], qs);
      ProductAssociative(Cases(ps[0]), AllOf(ps[1..]), AllOf(qs));
    }
  }

  // ----- Lists of leaves -----

  predicate OnlyLeaves<L>(ps: seq<Pattern<L>>) {
    forall i :: 0 <= i < |ps| ==> ps[i].Leaf?
  }

  /** The leaves of a list, as a multiset. */
  function LeavesOf<L>(ps: seq<Pattern<L>>): multiset<L> {
    if ps == [] then multiset{}
    else (if ps[0].Leaf? then multiset{ps[0].leaf} else multiset{}) + LeavesOf(ps[1..])
  }

  /** A list that starts with leaves adds them to every case of the rest. */
  lemma {:induction false} LeavesFirst<L>(ps: seq<Pattern<L>>, qs: seq<Pattern<L>>)
    requires OnlyLeaves(ps)
    ensures AllOf(ps + qs) == AddTo(LeavesOf(ps), AllOf(qs))
  {
    if ps == [] {
      assert ps + qs == qs;
      AddNothing(AllOf(qs));
    } else {
      assert (ps + qs)[1..] == ps[1..] + qs;
      LeavesFirst(ps[1..], qs);
      var l := multiset{ps[0].leaf};
      var rest := AllOf(ps[1..] + qs);
      assert [l][1..] == [] && Product([], rest) == [];
      assert Product([l], rest) == AddTo(l, rest) + [];
      AddToTwice(l, LeavesOf(ps[1..]), AllOf(qs));
    }
  }

  /** A list of leaves has one case. */
  lemma OneCase<L>(ps: seq<Pattern<L>>)
    requires OnlyLeaves(ps)
    ensures AllOf(ps) == [LeavesOf(ps)]
  {
    LeavesFirst(ps, []);
    assert ps + [] == ps;
    assert AddTo(LeavesOf(ps), [multiset{}]) == [LeavesOf(ps) + multiset{}] + AddTo(LeavesOf(ps), [multiset{}][1..]);
    assert LeavesOf(ps) + multiset{} == LeavesOf(ps);
  }

  lemma {:induction false} ProductRightUnit<L>(a: seq<multiset<L>>)
    ensures Product(a, [multiset{}]) == a
  {
    if a != [] {
      ProductRightUnit(a[1..]);
      var unit: seq<multiset<L>> := [multiset{}];
      assert unit[1..] == [] && AddTo(a[0], unit[1..]) == [];
      assert a[0] + multiset{} == a[0];
      assert AddTo(a[0], unit) == [a[0]];
    }
  }

  // ----- One step of the queue -----

  /** All cases of all lists of a queue. */
  function QueueCases<L>(groups: seq<seq<Pattern<L>>>): seq<multiset<L>> {
    if groups == [] then [] else AllOf(groups[0]) + QueueCases(groups[1..])
  }

  lemma {:induction false} QueueAppend<L>(a: seq<seq<Pattern<L>>>, b: seq<seq<Pattern<L>>>)
    ensures QueueCases(a + b) == QueueCases(a) + QueueCases(b)
  {
    if a == [] {
      assert a + b == b;
    } else {
      assert (a + b)[1..] == a[1..] + b;
      QueueAppend(a[1..], b);
    }
  }

  /** The first branch of a list, or the length of a list of leaves. */
  function FirstBranch<L>(ps: seq<Pattern<L>>): (i: nat)
    ensures i <= |ps| && OnlyLeaves(ps[..i]) && (i < |ps| ==> ps[i].Branch?)
  {
    if ps == [] || ps[0].Branch? then 0
    else
      var i := FirstBranch(ps[1..]) + 1;
      assert forall j :: 0 < j < i ==> ps[j] == ps[1..][..i - 1][j - 1];
      i
  }

  function Without<L>(ps: seq<Pattern<L>>, i: nat): seq<Pattern<L>>
    requires i < |ps|
  {
    ps[..i] + ps[i + 1..]
  }

  /** The branch at `i` behind leaves: its cases, with the leaves, and the rest. */
  lemma CasesAt<L>(ps: seq<Pattern<L>>, i: nat)
    requires i < |ps| && OnlyLeaves(ps[..i])
    ensures AllOf(ps) == AddTo(LeavesOf(ps[..i]), Product(Cases(ps[i]), AllOf(ps[i + 1..])))
  {
    hide Cases, AllOf, AddTo, Product, LeavesOf;
    assert ps == ps[..i] + ([ps[i]] + ps[i + 1..]);
    LeavesFirst(ps[..i], [ps[i]] + ps[i + 1..]);
    AllOfCons(ps[i], ps[i + 1..]);
  }

  lemma AllOfCons<L>(p: Pattern<L>, ps: seq<Pattern<L>>)
    ensures AllOf([p] + ps) == Product(Cases(p), AllOf(ps))
  {
    assert ([p] + ps)[1..] == ps;
  }

  /** ... and other patterns in its place, in front of all. */
  lemma CasesMoved<L>(qs: seq<Pattern<L>>, ps: seq<Pattern<L>>, i: nat)
    requires i < |ps| && OnlyLeaves(ps[..i])
    ensures AllOf(qs + Without(ps, i)) == AddTo(LeavesOf(ps[..i]), Product(AllOf(qs), AllOf(ps[i + 1..])))
  {
    AllOfAppend(qs, Without(ps, i));
    LeavesFirst(ps[..i], ps[i + 1..]);
    ProductAddTo(LeavesOf(ps[..i]), AllOf(qs), AllOf(ps[i + 1..]));
  }

  /** A branch whose children are all taken is replaced by them, twice if repeated. */
  lemma Splice<L>(ps: seq<Pattern<L>>, i: nat)
    requires i < |ps| && OnlyLeaves(ps[..i]) && ps[i].Branch? && ps[i].kind != Either
    ensures var cs := ps[i].children;
            AllOf((if ps[i].kind == OneOrMore then cs + cs else cs) + Without(ps, i)) == AllOf(ps)
  {
    var cs := ps[i].children;
    CasesAt(ps, i);
    CasesMoved(if ps[i].kind == OneOrMore then cs + cs else cs, ps, i);
    AllOfAppend(cs, cs);
  }

  /** One list for each alternative. */
  function Forks<L>(cs: seq<Pattern<L>>, rest: seq<Pattern<L>>): (r: seq<seq<Pattern<L>>>)
    ensures |r| == |cs| && forall j :: 0 <= j < |cs| ==> r[j] == [cs[j]] + rest
  {
    if cs == [] then [] else [[cs[0]] + rest] + Forks(cs[1..], rest)
  }

  lemma {:induction false} Fork<L>(cs: seq<Pattern<L>>, ps: seq<Pattern<L>>, i: nat)
    requires i < |ps| && OnlyLeaves(ps[..i])
    ensures QueueCases(Forks(cs, Without(ps, i)))
         == AddTo(LeavesOf(ps[..i]), Product(AnyOf(cs), AllOf(ps[i + 1..])))
  {
    if cs != [] {
      var x, rest := LeavesOf(ps[..i]), AllOf(ps[i + 1..]);
      Fork(cs[1..], ps, i);
      CasesMoved([cs[0]], ps, i);
      assert [cs[0]][1..] == [];
      ProductRightUnit(Cases(cs[0]));
      ProductAppend(Cases(cs[0]), AnyOf(cs[1..]), rest);
      AddToAppend(x, Product(Cases(cs[0]), rest), Product(AnyOf(cs[1..]), rest));
    }
  }

  // ----- Termination -----

  /** An upper bound of the work a pattern gives. */
  function Weight<L>(p: Pattern<L>): (w: nat)
    ensures 1 <= w
    decreases p
  {
    match p
    case Leaf(_) => 1
    case Branch(Either, cs) => 1 + WeightSum(cs)
    case Branch(OneOrMore, cs) => 1 + WeightProduct(cs) * WeightProduct(cs)
    case Branch(_, cs) => 1 + WeightProduct(cs)
  }

  function WeightSum<L>(ps: seq<Pattern<L>>): nat
    decreases ps
  {
    if ps == [] then 0 else Weight(ps[0]) + WeightSum(ps[1..])
  }

  function WeightProduct<L>(ps: seq<Pattern<L>>): (w: nat)
    ensures 1 <= w
    decreases ps
  {
    if ps == [] then 1
    else
      Positive(Weight(ps[0]), WeightProduct(ps[1..]));
      Weight(ps[0]) * WeightProduct(ps[1..])
  }

  lemma Positive(a: nat, b: nat)
    requires 1 <= a && 1 <= b
    ensures 1 <= a * b
  {
  }

  function QueueWeight<L>(groups: seq<seq<Pattern<L>>>): nat {
    if groups == [] then 0 else WeightProduct(groups[0]) + QueueWeight(groups[1..])
  }

  lemma {:induction false} QueueWeightAppend<L>(a: seq<seq<Pattern<L>>>, b: seq<seq<Pattern<L>>>)
    ensures QueueWeight(a + b) == QueueWeight(a) + QueueWeight(b)
  {
    if a == [] {
      assert a + b == b;
    } else {
      assert (a + b)[1..] == a[1..] + b;
      QueueWeightAppend(a[1..], b);
    }
  }

  lemma {:induction false} WeightAppend<L>(ps: seq<Pattern<L>>, qs: seq<Pattern<L>>)
    ensures WeightProduct(ps + qs) == WeightProduct(ps) * WeightProduct(qs)
  {
    if ps == [] {
      assert ps + qs == qs;
    } else {
      assert (ps + qs)[1..] == ps[1..] + qs;
      WeightAppend(ps[1..], qs);
      Associate(Weight(ps[0]), WeightProduct(ps[1..]), WeightProduct(qs));
    }
  }

  lemma Associate(a: nat, b: nat, c: nat)
    ensures a * (b * c) == (a * b) * c && a * b == b * a
  {
  }

  lemma WeightAt<L>(ps: seq<Pattern<L>>, i: nat)
    requires i < |ps|
    ensures WeightProduct(ps) == Weight(ps[i]) * WeightProduct(Without(ps, i))
  {
    var a, w, b := WeightProduct(ps[..i]), Weight(ps[i]), WeightProduct(ps[i + 1..]);
    assert ps == ps[..i] + ([ps[i]] + ps[i + 1..]);
    WeightAppend(ps[..i], [ps[i]] + ps[i + 1..]);
    assert ([ps[i]] + ps[i + 1..])[1..] == ps[i + 1..];
    WeightAppend(ps[..i], ps[i + 1..]);
    Associate(a, w, b);
    Associate(w, a, b);
  }

  lemma Bigger(a: nat, b: nat, c: nat)
    requires a < b && 1 <= c
    ensures a * c < b * c
  {
  }

  lemma SpliceWeight<L>(ps: seq<Pattern<L>>, i: nat)
    requires i < |ps| && ps[i].Branch? && ps[i].kind != Either
    ensures var cs := ps[i].children;
            WeightProduct((if ps[i].kind == OneOrMore then cs + cs else cs) + Without(ps, i)) < WeightProduct(ps)
  {
    var cs := ps[i].children;
    var qs := if ps[i].kind == OneOrMore then cs + cs else cs;
    WeightAppend(cs, cs);
    WeightAppend(qs, Without(ps, i));
    WeightAt(ps, i);
    Bigger(WeightProduct(qs), Weight(ps[i]), WeightProduct(Without(ps, i)));
  }

  lemma {:induction false} ForkWeight<L>(cs: seq<Pattern<L>>, rest: seq<Pattern<L>>)
    ensures QueueWeight(Forks(cs, rest)) == WeightSum(cs) * WeightProduct(rest)
  {
    if cs != [] {
      ForkWeight(cs[1..], rest);
      assert ([cs[0]] + rest)[1..] == rest;
      Distribute(Weight(cs[0]), WeightSum(cs[1..]), WeightProduct(rest));
    }
  }

  lemma Distribute(a: nat, b: nat, c: nat)
    ensures (a + b) * c == a * c + b * c
  {
  }

  // ----- The method -----

  /** The result's cases are those of the pattern, in some order, and each is a plain list
      of leaves. */
  method Transform<L(==)>(pattern: Pattern<L>) returns (r: Pattern<L>)
    ensures r.Branch? && r.kind == Either
    ensures forall i :: 0 <= i < |r.children| ==>
      && r.children[i].Branch? && r.children[i].kind == Required && OnlyLeaves(r.children[i].children)
      && Cases(r.children[i]) == [LeavesOf(r.children[i].children)]
    ensures multiset(Cases(r)) == multiset(Cases(pattern))
  {
    hide Cases, AllOf, Weight, WeightProduct, QueueCases, QueueWeight;
    var result: seq<seq<Pattern<L>>> := [];
    var groups := [[pattern]];
    Start(pattern);
    while groups != []
      invariant forall i :: 0 <= i < |result| ==> OnlyLeaves(result[i])
      invariant multiset(QueueCases(result)) + multiset(QueueCases(groups)) == multiset(Cases(pattern))
      decreases QueueWeight(groups)
    {
      var children, tail := groups[0], groups[1..];
      Pop(groups);
      var i := FirstBranch(children);
      if i < |children| {
        var child, rest := children[i], Without(children, i);
        if child.kind == Either {
          groups := AppendForks(tail, child.children, rest);
          ForkStep(children, i, tail);
        } else {
          var qs := (if child.kind == OneOrMore then child.children + child.children else child.children) + rest;
          groups := tail + [qs];
          SpliceStep(children, i, tail);
        }
      } else {
        assert children[..i] == children;
        QueueSnoc(result, children);
        result, groups := result + [children], tail;
      }
    }
    r := Branch(Either, seq(|result|, i requires 0 <= i < |result| => Branch(Required, result[i])));
    Finish(result);
  }

  /** Python: for c in child.children: groups.append([c] + children). */
  method AppendForks<L>(groups: seq<seq<Pattern<L>>>, cs: seq<Pattern<L>>, rest: seq<Pattern<L>>) returns (r: seq<seq<Pattern<L>>>)
    ensures r == groups + Forks(cs, rest)
  {
    r := groups;
    for j := 0 to |cs|
      invariant |r| == |groups| + j && r == groups + Forks(cs, rest)[..j]
    {
      r := r + [[cs[j]] + rest];
    }
  }

  lemma Start<L>(pattern: Pattern<L>)
    ensures QueueCases([[pattern]]) == Cases(pattern) && QueueCases<L>([]) == []
  {
    ProductRightUnit(Cases(pattern));
    AllOfCons(pattern, []);
    assert [pattern] + [] == [pattern] && [[pattern]][1..] == [];
    hide AllOf, Cases;
    assert QueueCases([[pattern]]) == AllOf([pattern]) + QueueCases<L>([]);
  }

  lemma Pop<L>(groups: seq<seq<Pattern<L>>>)
    requires groups != []
    ensures QueueCases(groups) == AllOf(groups[0]) + QueueCases(groups[1..])
    ensures QueueWeight(groups) == WeightProduct(groups[0]) + QueueWeight(groups[1..])
  {
  }

  lemma QueueSnoc<L>(groups: seq<seq<Pattern<L>>>, ps: seq<Pattern<L>>)
    ensures QueueCases(groups + [ps]) == QueueCases(groups) + AllOf(ps)
    ensures QueueWeight(groups + [ps]) == QueueWeight(groups) + WeightProduct(ps)
  {
    QueueAppend(groups, [ps]);
    QueueWeightAppend(groups, [ps]);
    assert [ps][1..] == [];
  }

  lemma SpliceStep<L>(ps: seq<Pattern<L>>, i: nat, tail: seq<seq<Pattern<L>>>)
    requires i < |ps| && OnlyLeaves(ps[..i]) && ps[i].Branch? && ps[i].kind != Either
    ensures var cs := ps[i].children;
            var qs := (if ps[i].kind == OneOrMore then cs + cs else cs) + Without(ps, i);
            && QueueCases(tail + [qs]) == QueueCases(tail) + AllOf(ps)
            && QueueWeight(tail + [qs]) < QueueWeight(tail) + WeightProduct(ps)
  {
    var cs := ps[i].children;
    QueueSnoc(tail, (if ps[i].kind == OneOrMore then cs + cs else cs) + Without(ps, i));
    Splice(ps, i);
    SpliceWeight(ps, i);
  }

  lemma ForkStep<L>(ps: seq<Pattern<L>>, i: nat, tail: seq<seq<Pattern<L>>>)
    requires i < |ps| && OnlyLeaves(ps[..i]) && ps[i].Branch? && ps[i].kind == Either
    ensures var forks := Forks(ps[i].children, Without(ps, i));
            && QueueCases(tail + forks) == QueueCases(tail) + AllOf(ps)
            && QueueWeight(tail + forks) < QueueWeight(tail) + WeightProduct(ps)
  {
    var rest := Without(ps, i);
    QueueAppend(tail, Forks(ps[i].children, rest));
    QueueWeightAppend(tail, Forks(ps[i].children, rest));
    Fork(ps[i].children, ps, i);
    CasesAt(ps, i);
    ForkWeight(ps[i].children, rest);
    WeightAt(ps, i);
    Bigger(WeightSum(ps[i].children), Weight(ps[i]), WeightProduct(rest));
  }

  lemma {:induction false} Finish<L>(result: seq<seq<Pattern<L>>>)
    requires forall i :: 0 <= i < |result| ==> OnlyLeaves(result[i])
    ensures var cs := seq(|result|, i requires 0 <= i < |result| => Branch(Required, result[i]));
            && Cases(Branch(Either, cs)) == QueueCases(result)
            && forall i :: 0 <= i < |cs| ==> Cases(cs[i]) == [LeavesOf(result[i])]
  {
    var cs := seq(|result|, i requires 0 <= i < |result| => Branch(Required, result[i]));
    forall i | 0 <= i < |cs| ensures Cases(cs[i]) == [LeavesOf(result[i])] {
      OneCase(result[i]);
    }
    if result != [] {
      Finish(result[1..]);
      assert cs[1..] == seq(|result[1..]|, i requires 0 <= i < |result[1..]| => Branch(Required, result[1..][i]));
    }
  }
}
