/** Lists up to reordering: what flat-mapping and filtering keep of a multiset. */
module Bags {

  function Bind<A, B>(s: seq<A>, f: A -> seq<B>): seq<B> {
    if s == [] then [] else f(s[0]) + Bind(s[1..], f)
  }

  lemma {:induction false} BindConcat<A, B>(a: seq<A>, b: seq<A>, f: A -> seq<B>)
    ensures Bind(a + b, f) == Bind(a, f) + Bind(b, f)
    decreases |a|
  {
    if a == [] {
      assert a + b == b;
    } else {
      assert (a + b)[1..] == a[1..] + b;
      BindConcat(a[1..], b, f);
    }
  }

  lemma BindSingle<A, B>(x: A, f: A -> seq<B>)
    ensures Bind([x], f) == f(x)
  {
    assert [x][1..] == [];
    assert Bind([x], f) == f(x) + [];
  }

  lemma BindSnoc<A, B>(s: seq<A>, x: A, f: A -> seq<B>)
    ensures Bind(s + [x], f) == Bind(s, f) + f(x)
  {
    BindConcat(s, [x], f);
    BindSingle(x, f);
  }

  lemma {:induction false} BindPointwise<A, B>(s: seq<A>, f: A -> seq<B>, g: A -> seq<B>)
    requires forall x :: x in s ==> f(x) == g(x)
    ensures Bind(s, f) == Bind(s, g)
    decreases |s|
  {
    if s != [] { BindPointwise(s[1..], f, g); }
  }

  lemma {:induction false} BindAlike<A, B>(s: seq<A>, f: A -> seq<B>, g: A -> seq<B>)
    requires forall x :: x in s ==> multiset(f(x)) == multiset(g(x))
    ensures multiset(Bind(s, f)) == multiset(Bind(s, g))
    decreases |s|
  {
    if s != [] {
      assert s[0] in s;
      BindAlike(s[1..], f, g);
    }
  }

  lemma {:induction false} BindBind<A, B, C>(s: seq<A>, f: A -> seq<B>, g: B -> seq<C>, h: A -> seq<C>)
    requires forall x :: x in s ==> Bind(f(x), g) == h(x)
    ensures Bind(Bind(s, f), g) == Bind(s, h)
    decreases |s|
  {
    if s != [] {
      BindBind(s[1..], f, g, h);
      BindConcat(f(s[0]), Bind(s[1..], f), g);
    }
  }

  lemma {:induction false} BindMembers<A, B>(s: seq<A>, f: A -> seq<B>, y: B)
    ensures y in Bind(s, f) <==> exists x :: x in s && y in f(x)
    decreases |s|
  {
    if s != [] {
      BindMembers(s[1..], f, y);
      assert forall x :: x in s <==> x == s[0] || x in s[1..];
    }
  }

  lemma {:induction false} BindEmpty<A, B>(s: seq<A>, f: A -> seq<B>)
    requires forall x :: x in s ==> f(x) == []
    ensures Bind(s, f) == []
    decreases |s|
  {
    if s != [] { BindEmpty(s[1..], f); }
  }

  /** Reordering the input only reorders the output. */
  lemma {:induction false} BindPermutes<A, B>(a: seq<A>, b: seq<A>, f: A -> seq<B>)
    requires multiset(a) == multiset(b)
    ensures multiset(Bind(a, f)) == multiset(Bind(b, f))
    decreases |a|
  {
    if a == [] {
      assert |multiset(b)| == 0;
    } else {
      var x := a[0];
      assert a == [x] + a[1..];
      assert x in multiset(b);
      var i :| 0 <= i < |b| && b[i] == x;
      var rest := b[..i] + b[i + 1..];
      assert b == b[..i] + ([x] + b[i + 1..]);
      assert multiset(rest) == multiset(b) - multiset{x} == multiset(a[1..]);
      BindPermutes(a[1..], rest, f);
      BindConcat(b[..i], [x] + b[i + 1..], f);
      BindConcat([x], b[i + 1..], f);
      BindSingle(x, f);
      BindConcat(b[..i], b[i + 1..], f);
    }
  }
}
