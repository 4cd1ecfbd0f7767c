/** The black/white peg evaluation shared by both versions of the game
    (evaluateGuess in internal/services/gameService.go and CheckGuess in
    server/game.go), as functions over sequences of symbols.

    The algorithm has two passes. The exact pass marks every position i of the
    secret where guess[i] == secret[i] (one black peg each). The white pass
    visits the guess positions in order; a position not consumed by the exact
    pass takes the FIRST unused secret position holding the same symbol (one
    white peg) and marks it used. The functions below follow the two passes
    step by step, so that the imperative versions can be proved against them;
    the lemmas say what the result means. */
module Pegs {

  datatype Score = Score(black: nat, white: nat)

  /** Number of exact matches among the first n positions. */
  function Blacks<T(==)>(s: seq<T>, g: seq<T>, n: nat): nat
    requires n <= |s| <= |g|
  {
    if n == 0 then 0 else Blacks(s, g, n - 1) + (if g[n - 1] == s[n - 1] then 1 else 0)
  }

  /** The guess positions consumed by the exact pass; its first |s| entries
      are also the secret positions consumed by it. */
  function ExactFlags<T(==)>(s: seq<T>, g: seq<T>): seq<bool>
    requires |s| <= |g|
  {
    seq(|g|, i requires 0 <= i < |g| => i < |s| && g[i] == s[i])
  }

  /** The first secret position at or after j that is unused and holds c,
      or |s| when there is none. */
  function FirstFree<T(==)>(s: seq<T>, used: seq<bool>, c: T, j: nat): (k: nat)
    requires |used| == |s| && j <= |s|
    ensures j <= k <= |s|
    ensures k < |s| ==> !used[k] && s[k] == c
    ensures forall m :: j <= m < k ==> used[m] || s[m] != c
    decreases |s| - j
  {
    if j == |s| then |s|
    else if !used[j] && s[j] == c then j
    else FirstFree(s, used, c, j + 1)
  }

  /** The white count and the secret's used flags after the white pass has
      visited the first n guess positions. */
  function WhitePass<T(==)>(s: seq<T>, g: seq<T>, n: nat): (r: (nat, seq<bool>))
    requires |s| <= |g| && n <= |g|
    ensures |r.1| == |s|
  {
    if n == 0 then (0, ExactFlags(s, g)[..|s|])
    else
      var prev := WhitePass(s, g, n - 1);
      if n - 1 < |s| && g[n - 1] == s[n - 1] then prev
      else
        var k := FirstFree(s, prev.1, g[n - 1], 0);
        if k < |s| then (prev.0 + 1, prev.1[k := true]) else prev
  }

  /** The score of guess g against secret s (g may be longer than s). */
  function Evaluate<T(==)>(s: seq<T>, g: seq<T>): Score
    requires |s| <= |g|
  {
    Score(Blacks(s, g, |s|), WhitePass(s, g, |g|).0)
  }

  // ---------------------------------------------------------------------
  // Black pegs: black == |s| exactly when the guess starts with the secret.

  lemma {:induction false} BlacksBound<T>(s: seq<T>, g: seq<T>, n: nat)
    requires n <= |s| <= |g|
    ensures Blacks(s, g, n) <= n
    ensures Blacks(s, g, n) == n <==> forall i :: 0 <= i < n ==> g[i] == s[i]
  {
    if n > 0 {
      BlacksBound(s, g, n - 1);
    }
  }

  lemma FullBlackIffEqual<T>(s: seq<T>, g: seq<T>)
    requires |s| == |g|
    ensures Evaluate(s, g).black <= |s|
    ensures Evaluate(s, g).black == |s| <==> g == s
  {
    BlacksBound(s, g, |s|);
    if Evaluate(s, g).black == |s| {
      assert forall i :: 0 <= i < |s| ==> g[i] == s[i];
    }
  }

  // ---------------------------------------------------------------------
  // Each secret position gives at most one peg: the number of used secret
  // positions at the end is exactly black + white.

  function CountTrue(u: seq<bool>): nat
  {
    if u == [] then 0 else CountTrue(u[..|u| - 1]) + (if u[|u| - 1] then 1 else 0)
  }

  lemma {:induction false} CountTrueBound(u: seq<bool>)
    ensures CountTrue(u) <= |u|
  {
    if u != [] {
      CountTrueBound(u[..|u| - 1]);
    }
  }

  lemma {:induction false} CountTrueMark(u: seq<bool>, k: nat)
    requires k < |u| && !u[k]
    ensures CountTrue(u[k := true]) == CountTrue(u) + 1
  {
    var v := u[k := true];
    if k == |u| - 1 {
      assert v[..|v| - 1] == u[..|u| - 1];
    } else {
      assert v[..|v| - 1] == u[..|u| - 1][k := true];
      CountTrueMark(u[..|u| - 1], k);
    }
  }

  lemma {:induction false} ExactFlagsCount<T>(s: seq<T>, g: seq<T>, n: nat)
    requires n <= |s| <= |g|
    ensures CountTrue(ExactFlags(s, g)[..n]) == Blacks(s, g, n)
  {
    if n > 0 {
      assert ExactFlags(s, g)[..n][..n - 1] == ExactFlags(s, g)[..n - 1];
      ExactFlagsCount(s, g, n - 1);
    }
  }

  lemma {:induction false} WhitePassMarks<T>(s: seq<T>, g: seq<T>, n: nat)
    requires |s| <= |g| && n <= |g|
    ensures CountTrue(WhitePass(s, g, n).1) == Blacks(s, g, |s|) + WhitePass(s, g, n).0
  {
    if n == 0 {
      ExactFlagsCount(s, g, |s|);
    } else {
      WhitePassMarks(s, g, n - 1);
      var prev := WhitePass(s, g, n - 1);
      if !(n - 1 < |s| && g[n - 1] == s[n - 1]) {
        var k := FirstFree(s, prev.1, g[n - 1], 0);
        if k < |s| {
          CountTrueMark(prev.1, k);
        }
      }
    }
  }

  /** No secret position is counted twice, so black + white <= |s|. */
  lemma PegsBound<T>(s: seq<T>, g: seq<T>)
    requires |s| <= |g|
    ensures Evaluate(s, g).black + Evaluate(s, g).white <= |s|
  {
    WhitePassMarks(s, g, |g|);
    CountTrueBound(WhitePass(s, g, |g|).1);
  }

  // ---------------------------------------------------------------------
  // The total number of pegs is the size of the common multiset of symbols:
  // the greedy first-match white pass never double-counts and never misses.

  /** Symbols at unused secret positions j.. */
  function Unused<T>(s: seq<T>, used: seq<bool>, j: nat): multiset<T>
    requires |used| == |s| && j <= |s|
    decreases |s| - j
  {
    if j == |s| then multiset{}
    else (if used[j] then multiset{} else multiset{s[j]}) + Unused(s, used, j + 1)
  }

  /** Guess symbols at positions i.. not consumed by the exact pass. */
  function Pending<T(==)>(s: seq<T>, g: seq<T>, i: nat): multiset<T>
    requires |s| <= |g| && i <= |g|
    decreases |g| - i
  {
    if i == |g| then multiset{}
    else (if i < |s| && g[i] == s[i] then multiset{} else multiset{g[i]}) + Pending(s, g, i + 1)
  }

  /** Symbols matched exactly at positions i.. */
  function Exact<T(==)>(s: seq<T>, g: seq<T>, i: nat): multiset<T>
    requires |s| <= |g|
    decreases |s| - i
  {
    if i >= |s| then multiset{}
    else (if g[i] == s[i] then multiset{s[i]} else multiset{}) + Exact(s, g, i + 1)
  }

  lemma {:induction false} UnusedHas<T>(s: seq<T>, used: seq<bool>, j: nat, k: nat)
    requires |used| == |s| && j <= k < |s| && !used[k]
    ensures s[k] in Unused(s, used, j)
    decreases k - j
  {
    if j < k {
      UnusedHas(s, used, j + 1, k);
    }
  }

  lemma {:induction false} UnusedLacks<T>(s: seq<T>, used: seq<bool>, c: T, j: nat)
    requires |used| == |s| && j <= |s|
    requires forall m :: j <= m < |s| ==> used[m] || s[m] != c
    ensures c !in Unused(s, used, j)
    decreases |s| - j
  {
    if j < |s| {
      UnusedLacks(s, used, c, j + 1);
    }
  }

  lemma {:induction false} UnusedMark<T>(s: seq<T>, used: seq<bool>, k: nat, j: nat)
    requires |used| == |s| && j <= k < |s| && !used[k]
    ensures Unused(s, used[k := true], j) == Unused(s, used, j) - multiset{s[k]}
    decreases k - j
  {
    if j == k {
      UnusedSame(s, used, used[k := true], k + 1);
    } else {
      UnusedMark(s, used, k, j + 1);
      UnusedMarkBefore(s, used, k, j);
    }
  }

  /** The inductive step of UnusedMark, at a position j before k. */
  lemma UnusedMarkBefore<T>(s: seq<T>, used: seq<bool>, k: nat, j: nat)
    requires |used| == |s| && j < k < |s| && !used[k]
    requires Unused(s, used[k := true], j + 1) == Unused(s, used, j + 1) - multiset{s[k]}
    ensures Unused(s, used[k := true], j) == Unused(s, used, j) - multiset{s[k]}
  {
    var u := used[k := true];
    var x := if used[j] then multiset{} else multiset{s[j]};
    var a := Unused(s, used, j + 1);
    assert Unused(s, u, j) == x + Unused(s, u, j + 1) by {
      assert u[j] == used[j];
    }
    UnusedHas(s, used, j + 1, k);
    TakeAfterAdd(x, a, s[k]);
  }

  lemma TakeAfterAdd<T>(x: multiset<T>, a: multiset<T>, c: T)
    requires c in a
    ensures x + (a - multiset{c}) == (x + a) - multiset{c}
  {
    var lhs := x + (a - multiset{c});
    forall y
      ensures lhs[y] == ((x + a) - multiset{c})[y]
    {
    }
  }

  lemma {:induction false} UnusedSame<T>(s: seq<T>, u: seq<bool>, v: seq<bool>, j: nat)
    requires |u| == |v| == |s| && j <= |s|
    requires forall m :: j <= m < |s| ==> u[m] == v[m]
    ensures Unused(s, u, j) == Unused(s, v, j)
    decreases |s| - j
  {
    if j < |s| {
      UnusedSame(s, u, v, j + 1);
    }
  }

  lemma AddHit<T>(c: T, r: multiset<T>, u: multiset<T>)
    requires c in u
    ensures |(multiset{c} + r) * u| == 1 + |r * (u - multiset{c})|
  {
    var lhs := (multiset{c} + r) * u;
    var rhs := r * (u - multiset{c}) + multiset{c};
    forall x
      ensures lhs[x] == rhs[x]
    {
    }
    assert lhs == rhs;
  }

  lemma AddMiss<T>(c: T, r: multiset<T>, u: multiset<T>)
    requires c !in u
    ensures (multiset{c} + r) * u == r * u
  {
    var lhs := (multiset{c} + r) * u;
    forall x
      ensures lhs[x] == (r * u)[x]
    {
    }
  }

  /** White pegs counted after n guess positions, plus the common symbols
      still available to the positions after them. */
  function Credit<T(==)>(s: seq<T>, g: seq<T>, n: nat): nat
    requires |s| <= |g| && n <= |g|
  {
    var r := WhitePass(s, g, n);
    r.0 + |Pending(s, g, n) * Unused(s, r.1, 0)|
  }

  /** One step of the white pass keeps the credit constant. */
  lemma WhitePassStep<T>(s: seq<T>, g: seq<T>, n: nat)
    requires |s| <= |g| && 0 < n <= |g|
    ensures Credit(s, g, n) == Credit(s, g, n - 1)
  {
    var prev := WhitePass(s, g, n - 1);
    var c := g[n - 1];
    if n - 1 < |s| && c == s[n - 1] {
      assert Pending(s, g, n - 1) == Pending(s, g, n);
    } else {
      var k := FirstFree(s, prev.1, c, 0);
      var rest, avail := Pending(s, g, n), Unused(s, prev.1, 0);
      assert Pending(s, g, n - 1) == multiset{c} + rest;
      if k < |s| {
        UnusedHas(s, prev.1, 0, k);
        UnusedMark(s, prev.1, k, 0);
        AddHit(c, rest, avail);
      } else {
        UnusedLacks(s, prev.1, c, 0);
        AddMiss(c, rest, avail);
      }
    }
  }

  lemma {:induction false} WhitePassCounts<T>(s: seq<T>, g: seq<T>, n: nat)
    requires |s| <= |g| && n <= |g|
    ensures Credit(s, g, n) == Credit(s, g, 0)
  {
    if n > 0 {
      WhitePassCounts(s, g, n - 1);
      WhitePassStep(s, g, n);
    }
  }

  lemma {:induction false} SecretSplit<T>(s: seq<T>, g: seq<T>, j: nat)
    requires |s| <= |g| && j <= |s|
    ensures Unused(s, ExactFlags(s, g)[..|s|], j) + Exact(s, g, j) == multiset(s[j..])
    decreases |s| - j
  {
    if j < |s| {
      SecretSplit(s, g, j + 1);
      var used := ExactFlags(s, g)[..|s|];
      var ux := if used[j] then multiset{} else multiset{s[j]};
      var ex := if g[j] == s[j] then multiset{s[j]} else multiset{};
      assert ux + ex == multiset{s[j]};
      Regroup(ux, Unused(s, used, j + 1), ex, Exact(s, g, j + 1));
      assert s[j..] == [s[j]] + s[j + 1..];
    }
  }

  lemma {:induction false} GuessSplit<T>(s: seq<T>, g: seq<T>, i: nat)
    requires |s| <= |g| && i <= |g|
    ensures Pending(s, g, i) + Exact(s, g, i) == multiset(g[i..])
    decreases |g| - i
  {
    if i < |g| {
      GuessSplit(s, g, i + 1);
      var hit := i < |s| && g[i] == s[i];
      var px := if hit then multiset{} else multiset{g[i]};
      var ex := if hit then multiset{s[i]} else multiset{};
      assert Exact(s, g, i) == ex + Exact(s, g, i + 1);
      assert px + ex == multiset{g[i]};
      Regroup(px, Pending(s, g, i + 1), ex, Exact(s, g, i + 1));
      assert g[i..] == [g[i]] + g[i + 1..];
    }
  }

  lemma Regroup<T>(a: multiset<T>, b: multiset<T>, c: multiset<T>, d: multiset<T>)
    ensures (a + b) + (c + d) == (a + c) + (b + d)
  {
    var lhs, rhs := (a + b) + (c + d), (a + c) + (b + d);
    forall x
      ensures lhs[x] == rhs[x]
    {
    }
  }

  lemma {:induction false} ExactSize<T>(s: seq<T>, g: seq<T>, n: nat)
    requires n <= |s| <= |g|
    ensures Blacks(s, g, n) + |Exact(s, g, n)| == Blacks(s, g, |s|)
    decreases |s| - n
  {
    if n < |s| {
      ExactSize(s, g, n + 1);
    }
  }

  lemma ShareCommon<T>(p: multiset<T>, u: multiset<T>, e: multiset<T>)
    ensures (p + e) * (u + e) == p * u + e
  {
    var lhs := (p + e) * (u + e);
    forall x
      ensures lhs[x] == (p * u + e)[x]
    {
    }
  }

  /** black + white is the number of symbols the secret and the guess have in
      common, counted with multiplicity. */
  lemma PegsAreCommonSymbols<T>(s: seq<T>, g: seq<T>)
    requires |s| <= |g|
    ensures Evaluate(s, g).black + Evaluate(s, g).white == |multiset(s) * multiset(g)|
  {
    WhitePassCounts(s, g, |g|);
    SecretSplit(s, g, 0);
    GuessSplit(s, g, 0);
    ExactSize(s, g, 0);
    assert s[0..] == s && g[0..] == g;
    var p, u, e := Pending(s, g, 0), Unused(s, WhitePass(s, g, 0).1, 0), Exact(s, g, 0);
    ShareCommon(p, u, e);
    assert multiset(s) * multiset(g) == (p + e) * (u + e) by {
      assert multiset(g) == p + e && multiset(s) == u + e;
    }
  }

  // ---------------------------------------------------------------------
  // The score does not depend on how the symbols are written: scoring digit
  // characters gives the same pegs as scoring their numeric values.

  function DigitValue(c: char): int
  {
    c as int - '0' as int
  }

  /** The numeric values of digit characters; two positions hold equal
      values exactly when they hold equal characters. */
  function Values(s: seq<char>): (v: seq<int>)
    ensures |v| == |s|
    ensures forall i, j :: 0 <= i < |s| && 0 <= j < |s| ==> (v[i] == v[j] <==> s[i] == s[j])
  {
    seq(|s|, i requires 0 <= i < |s| => DigitValue(s[i]))
  }

  /** s2 and g2 have the lengths of s and g and hold equal symbols at
      exactly the (guess, secret) position pairs where g and s do. */
  ghost predicate SamePattern<T, U>(s: seq<T>, g: seq<T>, s2: seq<U>, g2: seq<U>)
  {
    && |s2| == |s| && |g2| == |g|
    && forall i, j :: 0 <= i < |g| && 0 <= j < |s| ==> (g2[i] == s2[j] <==> g[i] == s[j])
  }

  lemma {:induction false} BlacksPattern<T, U>(s: seq<T>, g: seq<T>, s2: seq<U>, g2: seq<U>, n: nat)
    requires SamePattern(s, g, s2, g2) && n <= |s| <= |g|
    ensures Blacks(s2, g2, n) == Blacks(s, g, n)
  {
    if n > 0 {
      BlacksPattern(s, g, s2, g2, n - 1);
    }
  }

  lemma {:induction false} FirstFreePattern<T, U>(s: seq<T>, g: seq<T>, s2: seq<U>, g2: seq<U>,
                                                  used: seq<bool>, i: nat, j: nat)
    requires SamePattern(s, g, s2, g2) && |used| == |s| && i < |g| && j <= |s|
    ensures FirstFree(s2, used, g2[i], j) == FirstFree(s, used, g[i], j)
    decreases |s| - j
  {
    if j < |s| {
      FirstFreePattern(s, g, s2, g2, used, i, j + 1);
    }
  }

  lemma {:induction false} WhitePassPattern<T, U>(s: seq<T>, g: seq<T>, s2: seq<U>, g2: seq<U>, n: nat)
    requires SamePattern(s, g, s2, g2) && |s| <= |g| && n <= |g|
    ensures WhitePass(s2, g2, n) == WhitePass(s, g, n)
  {
    if n == 0 {
      assert ExactFlags(s2, g2) == ExactFlags(s, g);
    } else {
      WhitePassPattern(s, g, s2, g2, n - 1);
      FirstFreePattern(s, g, s2, g2, WhitePass(s, g, n - 1).1, n - 1, 0);
    }
  }

  /** The score depends only on which guess and secret positions hold equal
      symbols, not on the symbols themselves. */
  lemma EvaluatePattern<T, U>(s: seq<T>, g: seq<T>, s2: seq<U>, g2: seq<U>)
    requires SamePattern(s, g, s2, g2) && |s| <= |g|
    ensures Evaluate(s2, g2) == Evaluate(s, g)
  {
    BlacksPattern(s, g, s2, g2, |s|);
    WhitePassPattern(s, g, s2, g2, |g|);
  }

  lemma EvaluateValues(s: seq<char>, g: seq<char>)
    requires |s| <= |g|
    ensures Evaluate(Values(s), Values(g)) == Evaluate(s, g)
  {
    EvaluatePattern(s, g, Values(s), Values(g));
  }
}
