/** The two-pointer LIKE matcher (`like_match`) against the recursive meaning of LIKE. */
module LikeMatch {
  import opened Core

  /**
   LIKE without an escape character: `%` stands for any substring, `_` for any one character,
   every other character for itself.
   */
  predicate Like(t: string, p: string)
    decreases |p|, |t|
  {
    if p == "" then t == ""
    else if p[0] == '%' then Like(t, p[1..]) || (t != "" && Like(t[1..], p))
    else t != "" && (p[0] == '_' || p[0] == t[0]) && Like(t[1..], p[1..])
  }

  /** The loop: text and pattern positions, and the last `%` with the text position it was tried at. */
  predicate Matches(t: string, p: string, ti: nat, pi: nat, star: Option<nat>, starT: nat)
    requires ti <= |t| && pi <= |p| && (star.Some? ==> star.value < pi && starT <= ti)
    decreases if star.Some? then |t| - starT else |t| + 1, |p| - pi
  {
    if ti == |t| then OnlyPercents(p[pi..])
    else if pi < |p| && (p[pi] == '_' || p[pi] == t[ti]) then Matches(t, p, ti + 1, pi + 1, star, starT)
    else if pi < |p| && p[pi] == '%' then Matches(t, p, ti, pi + 1, Some(pi), ti)
    else if star.Some? then Matches(t, p, starT + 1, star.value + 1, star, starT + 1)
    else false
  }

  predicate OnlyPercents(p: string) {
    forall i :: 0 <= i < |p| ==> p[i] == '%'
  }

  /** `like_match` as written: it terminates on every text and pattern. */
  method LikeMatchLoop(t: string, p: string) returns (r: bool)
    ensures r == Matches(t, p, 0, 0, None, 0)
  {
    var ti, pi := 0, 0;
    var star: Option<nat>, starT := None, 0;
    while ti < |t|
      invariant 0 <= ti <= |t| && 0 <= pi <= |p| && 0 <= starT
      invariant star.Some? ==> star.value < pi && starT <= ti
      invariant Matches(t, p, 0, 0, None, 0) == Matches(t, p, ti, pi, star, starT)
      decreases if star.Some? then |t| - starT else |t| + 1, |p| - pi
    {
      if pi < |p| && (p[pi] == '_' || p[pi] == t[ti]) {
        ti, pi := ti + 1, pi + 1;
      } else if pi < |p| && p[pi] == '%' {
        star, starT := Some(pi), ti;
        pi := pi + 1;
      } else if star.Some? {
        pi := star.value + 1;
        starT := starT + 1;
        ti := starT;
      } else {
        return false;
      }
    }
    while pi < |p| && p[pi] == '%'
      invariant pi <= |p|
      invariant Matches(t, p, 0, 0, None, 0) == OnlyPercents(p[pi..])
    {
      assert p[pi..] == [p[pi]] + p[pi + 1..];
      pi := pi + 1;
    }
    r := pi == |p|;
    if !r { assert p[pi..][0] == p[pi]; }
  }

  // ---- facts about LIKE ----

  /** `%` matches any prefix: some suffix of the text is left for the rest of the pattern. */
  lemma {:induction false} PercentTakesAnyPrefix(t: string, q: string)
    ensures Like(t, "%" + q) <==> exists k :: 0 <= k <= |t| && Like(t[k..], q)
    decreases |t|
  {
    var p := "%" + q;
    assert p[0] == '%' && p[1..] == q;
    assert t[0..] == t;
    if t != "" {
      assert [t[0]] + t[1..] == t;
      PercentTakesAnyPrefix(t[1..], q);
      if Like(t[1..], p) {
        var k :| 0 <= k <= |t[1..]| && Like(t[1..][k..], q);
        assert t[1..][k..] == t[k + 1..];
      }
      if k :| 1 <= k <= |t| && Like(t[k..], q) {
        assert t[1..][k - 1..] == t[k..];
      }
    }
  }

  lemma {:induction false} EmptyText(p: string)
    ensures Like("", p) <==> OnlyPercents(p)
    decreases |p|
  {
    if p != "" {
      EmptyText(p[1..]);
      assert forall i :: 1 <= i < |p| ==> p[i] == p[1..][i - 1];
      if OnlyPercents(p[1..]) && p[0] == '%' { assert OnlyPercents(p); }
      if OnlyPercents(p) { assert forall i :: 0 <= i < |p[1..]| ==> p[1..][i] == p[i + 1]; }
    }
  }

  /** A pattern of the form w + q with no `%` in w eats one character for each of w. */
  lemma {:induction false} LiteralEats(t: string, w: string, q: string)
    requires '%' !in w && Like(t, w + q)
    ensures |w| <= |t| && Like(t[|w|..], q)
    decreases |w|
  {
    if w == "" {
      assert w + q == q && t[0..] == t;
    } else {
      assert (w + q)[0] == w[0] && (w + q)[1..] == w[1..] + q;
      LiteralEats(t[1..], w[1..], q);
      assert t[1..][|w| - 1..] == t[|w|..];
    }
  }

  // ---- the matcher agrees when the text or the pattern has no `%` ----

  /** Some later try of the saved `%` succeeds. */
  ghost predicate Retry(t: string, p: string, star: Option<nat>, starT: nat)
    requires star.Some? ==> star.value < |p|
  {
    star.Some? && exists k :: starT < k <= |t| && Like(t[k..], p[star.value + 1..])
  }

  predicate LoopOk(t: string, p: string, ti: nat, pi: nat, star: Option<nat>, starT: nat) {
    && ti <= |t| && pi <= |p|
    && (star.Some? ==>
          && star.value < pi && starT <= ti && p[star.value] == '%'
          && '%' !in p[star.value + 1..pi] && ti - starT == pi - (star.value + 1))
  }

  /** A new `%` makes the older one pointless: whatever a retry could match, it can match too. */
  lemma NewerPercentCovers(t: string, p: string, ti: nat, pi: nat, star: Option<nat>, starT: nat)
    requires LoopOk(t, p, ti, pi, star, starT) && pi < |p| && p[pi] == '%'
    requires Retry(t, p, star, starT)
    ensures exists k :: ti <= k <= |t| && Like(t[k..], p[pi + 1..])
  {
    var k :| starT < k <= |t| && Like(t[k..], p[star.value + 1..]);
    var w, q := p[star.value + 1..pi], p[pi + 1..];
    assert p[star.value + 1..] == w + ("%" + q);
    LiteralEats(t[k..], w, "%" + q);
    var k' := k + |w|;
    assert t[k..][|w|..] == t[k'..];
    PercentTakesAnyPrefix(t[k'..], q);
    var j :| 0 <= j <= |t[k'..]| && Like(t[k'..][j..], q);
    assert t[k'..][j..] == t[k' + j..];
  }

  lemma NoRetryAtEnd(t: string, p: string, pi: nat, star: Option<nat>, starT: nat)
    requires LoopOk(t, p, |t|, pi, star, starT)
    ensures !Retry(t, p, star, starT)
  {
    if Retry(t, p, star, starT) {
      var k :| starT < k <= |t| && Like(t[k..], p[star.value + 1..]);
      var w := p[star.value + 1..pi];
      assert p[star.value + 1..] == w + p[pi..];
      LiteralEats(t[k..], w, p[pi..]);
    }
  }

  /** At a wildcard: remembering it and going on covers every earlier one. */
  lemma AtPercent(t: string, p: string, ti: nat, pi: nat, star: Option<nat>, starT: nat)
    requires LoopOk(t, p, ti, pi, star, starT) && ti < |t| && pi < |p| && p[pi] == '%'
    requires '%' !in t || '%' !in p
    ensures Like(t[ti..], p[pi..]) || Retry(t, p, star, starT) <==>
      Like(t[ti..], p[pi + 1..]) || Retry(t, p, Some(pi), ti)
  {
    var q := p[pi + 1..];
    assert p[pi..] == "%" + q;
    PercentTakesAnyPrefix(t[ti..], q);
    PercentIsRetry(t, ti, q);
    if Retry(t, p, star, starT) { NewerPercentCovers(t, p, ti, pi, star, starT); }
  }

  /** At a literal or `_`: both sides move on by one. */
  lemma AtCharacter(t: string, p: string, ti: nat, pi: nat, star: Option<nat>, starT: nat)
    requires LoopOk(t, p, ti, pi, star, starT) && ti < |t| && pi < |p| && (p[pi] == '_' || p[pi] == t[ti])
    requires '%' !in t || '%' !in p
    ensures LoopOk(t, p, ti + 1, pi + 1, star, starT)
    ensures Like(t[ti..], p[pi..]) <==> Like(t[ti + 1..], p[pi + 1..])
  {
    assert t[ti..][1..] == t[ti + 1..] && p[pi..][1..] == p[pi + 1..];
    assert p[pi] in p && t[ti] in t;
    if star.Some? { assert p[star.value + 1..pi + 1] == p[star.value + 1..pi] + [p[pi]]; }
  }

  lemma {:induction false} LoopMeansLike(t: string, p: string, ti: nat, pi: nat, star: Option<nat>, starT: nat)
    requires LoopOk(t, p, ti, pi, star, starT)
    requires '%' !in t || '%' !in p
    ensures Matches(t, p, ti, pi, star, starT) <==> Like(t[ti..], p[pi..]) || Retry(t, p, star, starT)
    decreases if star.Some? then |t| - starT else |t| + 1, |p| - pi
  {
    if ti == |t| {
      assert t[ti..] == "";
      EmptyText(p[pi..]);
      NoRetryAtEnd(t, p, pi, star, starT);
    } else if pi < |p| && (p[pi] == '_' || p[pi] == t[ti]) {
      AtCharacter(t, p, ti, pi, star, starT);
      LoopMeansLike(t, p, ti + 1, pi + 1, star, starT);
    } else if pi < |p| && p[pi] == '%' {
      AtPercent(t, p, ti, pi, star, starT);
      LoopMeansLike(t, p, ti, pi + 1, Some(pi), ti);
    } else if star.Some? {
      assert !Like(t[ti..], p[pi..]);
      LoopMeansLike(t, p, starT + 1, star.value + 1, star, starT + 1);
    }
  }

  /** Trying the suffix at ti first and later ones afterwards covers all of them. */
  lemma PercentIsRetry(t: string, ti: nat, q: string)
    requires ti <= |t|
    ensures (exists k :: 0 <= k <= |t[ti..]| && Like(t[ti..][k..], q))
       <==> (exists k :: ti <= k <= |t| && Like(t[k..], q))
    ensures (exists k :: ti <= k <= |t| && Like(t[k..], q))
       <==> Like(t[ti..], q) || exists k :: ti < k <= |t| && Like(t[k..], q)
  {
    if k :| 0 <= k <= |t[ti..]| && Like(t[ti..][k..], q) {
      assert t[ti..][k..] == t[ti + k..];
    }
    if k :| ti <= k <= |t| && Like(t[k..], q) {
      assert t[ti..][k - ti..] == t[k..];
    }
  }

  /** With no `%` in the text, or none in the pattern, the matcher decides LIKE. */
  lemma MatcherIsLike(t: string, p: string)
    requires '%' !in t || '%' !in p
    ensures Matches(t, p, 0, 0, None, 0) == Like(t, p)
  {
    LoopMeansLike(t, p, 0, 0, None, 0);
    assert t[0..] == t && p[0..] == p;
  }

  // ---- and only then ----

  function Underscores(n: nat): (s: string)
    ensures |s| == n && forall i :: 0 <= i < n ==> s[i] == '_'
  {
    seq(n, _ => '_')
  }

  lemma {:induction false} UnderscoresFit(t: string)
    ensures Like(t, Underscores(|t|))
    decreases |t|
  {
    if t != "" {
      UnderscoresFit(t[1..]);
      assert Underscores(|t|)[1..] == Underscores(|t| - 1);
    }
  }

  lemma {:induction false} LiteralPrefixFits(a: string, t: string, p: string)
    requires '%' !in a && Like(t, p)
    ensures Like(a + t, a + p)
    decreases |a|
  {
    if a == "" {
      assert a + t == t && a + p == p;
    } else {
      LiteralPrefixFits(a[1..], t, p);
      assert (a + t)[1..] == a[1..] + t && (a + p)[1..] == a[1..] + p;
    }
  }

  /** The pattern that the matcher reads past: its `%` meets the `%` of the text. */
  function Misread(t: string, i: nat): string
    requires i < |t|
  {
    t[..i] + "%" + Underscores(|t| - i)
  }

  lemma {:induction false} ReadsLiterally(t: string, p: string, k: nat)
    requires |p| == |t| + 1 && p[|t|] == '_' && k <= |t|
    requires forall j :: 0 <= j < |t| ==> p[j] == '_' || p[j] == t[j]
    ensures !Matches(t, p, k, k, None, 0)
    decreases |t| - k
  {
    if k == |t| {
      assert p[k..][0] == '_';
    } else {
      ReadsLiterally(t, p, k + 1);
    }
  }

  lemma MisreadTail(u: string)
    ensures Like(u, "%" + Underscores(|u|))
  {
    UnderscoresFit(u);
    PercentTakesAnyPrefix(u, Underscores(|u|));
    assert u[0..] == u;
  }

  lemma MisreadFits(t: string, i: nat)
    requires i < |t| && '%' !in t[..i]
    ensures Like(t, Misread(t, i))
  {
    var a, u := t[..i], t[i..];
    var r := "%" + Underscores(|u|);
    MisreadTail(u);
    LiteralPrefixFits(a, u, r);
    assert a + u == t;
    assert a + r == Misread(t, i);
  }

  /** Character by character: the text up to i, the wildcard, then one `_` for each remaining character. */
  lemma MisreadShape(t: string, i: nat)
    requires i < |t|
    ensures var p := Misread(t, i);
      && |p| == |t| + 1 && p[i] == '%'
      && (forall j :: 0 <= j < i ==> p[j] == t[j]) && (forall j :: i < j <= |t| ==> p[j] == '_')
  {
    var p, u := Misread(t, i), Underscores(|t| - i);
    forall j | i < j <= |t| ensures p[j] == '_' { assert p[j] == u[j - i - 1]; }
  }

  lemma MisreadFails(t: string, i: nat)
    requires i < |t| && t[i] == '%'
    ensures !Matches(t, Misread(t, i), 0, 0, None, 0)
  {
    MisreadShape(t, i);
    ReadsLiterally(t, Misread(t, i), 0);
  }

  /** The matcher decides LIKE for every pattern exactly on the texts that hold no `%`. */
  lemma AgreesExactlyWithoutPercent(t: string)
    ensures (forall p :: Matches(t, p, 0, 0, None, 0) == Like(t, p)) <==> '%' !in t
  {
    if '%' in t {
      var i := 0;
      while t[i] != '%'
        invariant 0 <= i < |t| && '%' !in t[..i]
        invariant exists j :: i <= j < |t| && t[j] == '%'
        decreases |t| - i
      {
        i := i + 1;
      }
      MisreadFits(t, i);
      MisreadFails(t, i);
      assert Matches(t, Misread(t, i), 0, 0, None, 0) != Like(t, Misread(t, i));
    } else {
      forall p ensures Matches(t, p, 0, 0, None, 0) == Like(t, p) { MatcherIsLike(t, p); }
    }
  }
}
