/** The wildcard matcher of the BCL host (src/xxemul_dotnet_bcl.c, lines 928-947). */
module GlobMatch {
  import opened Wrappers

  /** What '*' and '?' mean: any text, and any one character. */
  predicate Match(p: string, t: string)
    decreases |p| + |t|
  {
    if p == [] then t == []
    else if p[0] == '*' then Match(p[1..], t) || (t != [] && Match(p, t[1..]))
    else t != [] && (p[0] == '?' || p[0] == t[0]) && Match(p[1..], t[1..])
  }

  // ----------------------------------------------------------------------
  // The loop, with one backtracking point
  // ----------------------------------------------------------------------

  /** star is the last '*' met, if any; retry is where the text it absorbed ends. */
  datatype Cursor = Cursor(pi: nat, ti: nat, star: Option<nat>, retry: nat)

  predicate InRange(p: string, t: string, c: Cursor) {
    && c.pi <= |p| && c.ti <= |t|
    && (c.star.Some? ==> c.star.value < c.pi && c.retry <= c.ti)
  }

  datatype Turn = Go(next: Cursor) | Fail

  function Advance(p: string, t: string, c: Cursor): Turn
    requires InRange(p, t, c) && c.ti < |t|
  {
    if c.pi < |p| && (p[c.pi] == '?' || p[c.pi] == t[c.ti]) then Go(c.(pi := c.pi + 1, ti := c.ti + 1))
    else if c.pi < |p| && p[c.pi] == '*' then Go(Cursor(c.pi + 1, c.ti, Some(c.pi), c.ti))
    else if c.star.Some? then Go(Cursor(c.star.value + 1, c.retry + 1, c.star, c.retry + 1))
    else Fail
  }

  function StarsLeft(p: string, c: Cursor): int {
    if c.star.Some? then |p| - c.star.value else |p| + 1
  }

  function RetriesLeft(t: string, c: Cursor): int {
    if c.star.Some? then |t| - c.retry else 0
  }

  predicate OnlyStars(p: string) {
    forall k | 0 <= k < |p| :: p[k] == '*'
  }

  function Loop(p: string, t: string, c: Cursor): bool
    requires InRange(p, t, c)
    decreases StarsLeft(p, c), RetriesLeft(t, c), |p| - c.pi + |t| - c.ti
  {
    if c.ti == |t| then OnlyStars(p[c.pi..])
    else
      match Advance(p, t, c)
      case Fail => false
      case Go(next) => Loop(p, t, next)
  }

  /** What glob_match computes. */
  function Glob(p: string, t: string): bool {
    Loop(p, t, Cursor(0, 0, None, 0))
  }

  method EndsInStars(pattern: string, from: nat) returns (ends: bool)
    requires from <= |pattern|
    ensures ends == OnlyStars(pattern[from..])
  {
    var pi := from;
    while pi < |pattern| && pattern[pi] == '*'
      invariant from <= pi <= |pattern| && OnlyStars(pattern[from..pi])
    {
      assert pattern[from..pi + 1] == pattern[from..pi] + [pattern[pi]];
      pi := pi + 1;
    }
    if pi == |pattern| {
      assert pattern[from..pi] == pattern[from..];
    } else {
      assert pattern[from..][pi - from] == pattern[pi];
    }
    ends := pi == |pattern|;
  }

  method GlobMatches(pattern: string, text: string) returns (matches: bool)
    ensures matches == Glob(pattern, text)
  {
    hide Match, OnlyStars;
    var pi: nat, ti: nat, star: Option<nat>, retry: nat := 0, 0, None, 0;
    while ti < |text|
      invariant InRange(pattern, text, Cursor(pi, ti, star, retry))
      invariant Loop(pattern, text, Cursor(pi, ti, star, retry)) == Glob(pattern, text)
      decreases StarsLeft(pattern, Cursor(pi, ti, star, retry)), RetriesLeft(text, Cursor(pi, ti, star, retry)), |pattern| - pi + |text| - ti
    {
      if pi < |pattern| && (pattern[pi] == '?' || pattern[pi] == text[ti]) {
        pi, ti := pi + 1, ti + 1;
      } else if pi < |pattern| && pattern[pi] == '*' {
        star, retry := Some(pi), ti;
        pi := pi + 1;
      } else if star.Some? {
        retry := retry + 1;
        pi, ti := star.value + 1, retry;
      } else {
        return false;
      }
    }
    matches := EndsInStars(pattern, pi);
  }

  // ----------------------------------------------------------------------
  // Texts without a star
  // ----------------------------------------------------------------------

  predicate Literal(p: string) {
    forall k | 0 <= k < |p| :: p[k] != '*'
  }

  /** A star takes any beginning of the text. */
  lemma {:induction false} StarTakes(p: string, t: string, r: nat)
    requires p != [] && p[0] == '*' && r <= |t| && Match(p, t[r..])
    ensures Match(p, t)
    decreases r
  {
    if r == 0 {
      assert t[0..] == t;
    } else {
      assert t[1..][r - 1..] == t[r..];
      StarTakes(p, t[1..], r - 1);
    }
  }

  /** And it has to take some. */
  lemma {:induction false} StarTook(p: string, t: string) returns (r: nat)
    requires p != [] && p[0] == '*' && Match(p, t)
    ensures r <= |t| && Match(p[1..], t[r..])
    decreases |t|
  {
    if Match(p[1..], t) {
      r := 0;
      assert t[0..] == t;
    } else {
      r := StarTook(p, t[1..]);
      r := r + 1;
      assert t[1..][r - 1..] == t[r..];
    }
  }

  /** A pattern that begins with m characters and no star takes at least m characters, and then goes on. */
  lemma {:induction false} SegmentTakes(p: string, t: string, m: nat)
    requires m <= |p| && Literal(p[..m]) && Match(p, t)
    ensures m <= |t| && Match(p[m..], t[m..])
    decreases m
  {
    if m == 0 {
      assert p[0..] == p && t[0..] == t;
    } else {
      assert p[..m][0] == p[0] && p[1..][..m - 1] == p[..m][1..];
      SegmentTakes(p[1..], t[1..], m - 1);
      assert p[1..][m - 1..] == p[m..] && t[1..][m - 1..] == t[m..];
    }
  }

  lemma {:induction false} MatchesNothing(p: string)
    ensures Match(p, "") == OnlyStars(p)
  {
    if p != [] && p[0] == '*' {
      MatchesNothing(p[1..]);
      if OnlyStars(p[1..]) {
        forall k | 0 <= k < |p|
          ensures p[k] == '*'
        {
          assert k > 0 ==> p[k] == p[1..][k - 1];
        }
      }
    }
  }

  /** Between the last star and the cursor the pattern is literal, and as long as the text compared with it. */
  predicate Compared(p: string, c: Cursor) {
    c.star.Some? ==>
      && c.star.value < c.pi <= |p| && p[c.star.value] == '*'
      && c.ti - c.retry == c.pi - (c.star.value + 1) && Literal(p[c.star.value + 1..c.pi])
  }

  /** The star can be made to absorb more than it has. */
  ghost predicate Later(p: string, t: string, c: Cursor) {
    c.star.Some? && c.star.value < |p| && exists r: nat :: c.retry < r <= |t| && Match(p[c.star.value + 1..], t[r..])
  }

  /** Backtracking to the last star only loses nothing. */
  lemma LaterMatchesHere(p: string, t: string, c: Cursor)
    requires InRange(p, t, c) && Compared(p, c) && Later(p, t, c)
    requires c.pi < |p| && p[c.pi] == '*'
    ensures Match(p[c.pi..], t[c.ti..])
  {
    var r: nat :| c.retry < r <= |t| && Match(p[c.star.value + 1..], t[r..]);
    var m := c.pi - (c.star.value + 1);
    var q := p[c.star.value + 1..];
    assert q[..m] == p[c.star.value + 1..c.pi];
    SegmentTakes(q, t[r..], m);
    assert q[m..] == p[c.pi..] && t[r..][m..] == t[r + m..];
    assert t[c.ti..][r + m - c.ti..] == t[r + m..];
    StarTakes(p[c.pi..], t[c.ti..], r + m - c.ti);
  }

  /** At the end of the text the star cannot absorb more. */
  lemma NoLaterAtEnd(p: string, t: string, c: Cursor)
    requires InRange(p, t, c) && Compared(p, c) && c.ti == |t|
    ensures !Later(p, t, c)
  {
    if Later(p, t, c) {
      var r: nat :| c.retry < r <= |t| && Match(p[c.star.value + 1..], t[r..]);
      var m := c.pi - (c.star.value + 1);
      var q := p[c.star.value + 1..];
      assert q[..m] == p[c.star.value + 1..c.pi];
      SegmentTakes(q, t[r..], m);
    }
  }

  lemma FirstCharacter(p: string, t: string, i: nat, j: nat)
    requires i < |p| && j < |t| && p[i] != '*'
    ensures Match(p[i..], t[j..]) == ((p[i] == '?' || p[i] == t[j]) && Match(p[i + 1..], t[j + 1..]))
  {
    assert p[i..][1..] == p[i + 1..] && t[j..][1..] == t[j + 1..];
  }

  lemma StarHere(p: string, t: string, c: Cursor)
    requires InRange(p, t, c) && c.pi < |p| && p[c.pi] == '*'
    ensures var next := Cursor(c.pi + 1, c.ti, Some(c.pi), c.ti);
            Match(p[c.pi..], t[c.ti..]) == (Match(p[next.pi..], t[next.ti..]) || Later(p, t, next))
  {
    var q, u := p[c.pi..], t[c.ti..];
    assert q[1..] == p[c.pi + 1..];
    var next := Cursor(c.pi + 1, c.ti, Some(c.pi), c.ti);
    if Match(q, u) {
      var r := StarTook(q, u);
      assert u[r..] == t[c.ti + r..];
    }
    if Later(p, t, next) {
      var r: nat :| c.ti < r <= |t| && Match(p[c.pi + 1..], t[r..]);
      assert u[r - c.ti..] == t[r..];
      StarTakes(q, u, r - c.ti);
    }
  }

  lemma LaterOnce(p: string, t: string, c: Cursor)
    requires InRange(p, t, c) && c.star.Some? && c.ti < |t|
    ensures var next := Cursor(c.star.value + 1, c.retry + 1, c.star, c.retry + 1);
            Later(p, t, c) == (Match(p[next.pi..], t[next.ti..]) || Later(p, t, next))
  {
    if Match(p[c.star.value + 1..], t[c.retry + 1..]) {
      var r: nat := c.retry + 1;
      assert c.retry < r <= |t|;
    }
  }

  lemma LongerSegment(p: string, c: Cursor)
    requires Compared(p, c) && c.pi < |p| && p[c.pi] != '*'
    ensures Compared(p, c.(pi := c.pi + 1, ti := c.ti + 1))
  {
    if c.star.Some? {
      var s := p[c.star.value + 1..c.pi];
      assert p[c.star.value + 1..c.pi + 1] == s + [p[c.pi]];
    }
  }

  lemma {:induction false} LoopMatches(p: string, t: string, c: Cursor)
    requires InRange(p, t, c) && Compared(p, c) && Literal(t)
    ensures Loop(p, t, c) <==> Match(p[c.pi..], t[c.ti..]) || Later(p, t, c)
    decreases StarsLeft(p, c), RetriesLeft(t, c), |p| - c.pi + |t| - c.ti
  {
    hide Match, Later;
    if c.ti == |t| {
      MatchesNothing(p[c.pi..]);
      assert t[c.ti..] == "";
      NoLaterAtEnd(p, t, c);
    } else if c.pi < |p| && p[c.pi] == '*' {
      StarHere(p, t, c);
      if Later(p, t, c) {
        LaterMatchesHere(p, t, c);
      }
      LoopMatches(p, t, Cursor(c.pi + 1, c.ti, Some(c.pi), c.ti));
    } else if c.pi < |p| && (p[c.pi] == '?' || p[c.pi] == t[c.ti]) {
      FirstCharacter(p, t, c.pi, c.ti);
      LongerSegment(p, c);
      LaterMoves(p, t, c);
      LoopMatches(p, t, c.(pi := c.pi + 1, ti := c.ti + 1));
    } else {
      NoMatchHere(p, t, c);
      NoStar(p, t, c);
      if c.star.Some? {
        LaterOnce(p, t, c);
        LoopMatches(p, t, Cursor(c.star.value + 1, c.retry + 1, c.star, c.retry + 1));
      }
    }
  }

  /** What a star may absorb later does not depend on the cursor. */
  lemma LaterMoves(p: string, t: string, c: Cursor)
    ensures Later(p, t, c.(pi := c.pi + 1, ti := c.ti + 1)) == Later(p, t, c)
  {
  }

  lemma NoStar(p: string, t: string, c: Cursor)
    ensures c.star.None? ==> !Later(p, t, c)
  {
  }

  lemma NoMatchHere(p: string, t: string, c: Cursor)
    requires InRange(p, t, c) && c.ti < |t|
    requires c.pi == |p| || (p[c.pi] != '*' && p[c.pi] != '?' && p[c.pi] != t[c.ti])
    ensures !Match(p[c.pi..], t[c.ti..])
  {
    if c.pi < |p| {
      FirstCharacter(p, t, c.pi, c.ti);
    }
  }

  /** On a text without '*', the matcher decides what its pattern means. */
  lemma GlobIsMatch(p: string, t: string)
    requires Literal(t)
    ensures Glob(p, t) <==> Match(p, t)
  {
    LoopMatches(p, t, Cursor(0, 0, None, 0));
    assert p[0..] == p && t[0..] == t;
  }

  // ----------------------------------------------------------------------
  // Texts with a star
  // ----------------------------------------------------------------------

  /** The loop walks through a prefix the pattern shares with the text. */
  lemma {:induction false} LoopShares(p: string, t: string, k: nat, n: nat)
    requires k <= n <= |p| && n <= |t| && forall i | 0 <= i < n :: p[i] == t[i]
    ensures Loop(p, t, Cursor(k, k, None, 0)) == Loop(p, t, Cursor(n, n, None, 0))
    decreases n - k
  {
    if k < n {
      LoopShares(p, t, k + 1, n);
    }
  }

  lemma {:induction false} MatchShares(x: string, p: string, t: string)
    requires Literal(x)
    ensures Match(x + p, x + t) == Match(p, t)
  {
    if x == [] {
      assert x + p == p && x + t == t;
    } else {
      assert (x + p)[1..] == x[1..] + p && (x + t)[1..] == x[1..] + t;
      MatchShares(x[1..], p, t);
    }
  }

  /** A '*' in the text is taken for the '*' of the pattern: this pattern matches, and the matcher says no. */
  lemma StarInTextFails(t: string, i: nat) returns (p: string)
    requires i < |t| && t[i] == '*' && Literal(t[..i])
    ensures Match(p, t) && !Glob(p, t)
  {
    var x, y := t[..i], t[i..];
    assert t == x + y;
    if i + 1 < |t| {
      p := x + "*";
      MatchShares(x, "*", y);
      assert "*"[1..] == "" && y[|y|..] == "";
      assert Match("*", y[|y|..]);
      StarTakes("*", y, |y|);
      LoopShares(p, t, 0, i + 1);
    } else {
      p := x + "*?";
      MatchShares(x, "*?", y);
      assert y == "*" && "*?"[1..] == "?" && "?"[1..] == "" && y[1..] == "";
      assert Match("?", y);
      LoopShares(p, t, 0, i + 1);
      assert p[i + 1..] == "?" && p[i + 1..][0] == '?';
    }
  }

  /** The matcher is right about a text, for every pattern, exactly when the text has no '*'. */
  lemma GlobExactly(t: string)
    ensures (forall p: string :: Glob(p, t) <==> Match(p, t)) <==> '*' !in t
  {
    if '*' !in t {
      forall p: string
        ensures Glob(p, t) <==> Match(p, t)
      {
        GlobIsMatch(p, t);
      }
    } else {
      var i := FirstStar(t);
      var p := StarInTextFails(t, i);
    }
  }

  lemma {:induction false} FirstStar(t: string) returns (i: nat)
    requires '*' in t
    ensures i < |t| && t[i] == '*' && Literal(t[..i])
  {
    if t[0] == '*' {
      i := 0;
    } else {
      i := FirstStar(t[1..]);
      i := i + 1;
      forall k | 0 <= k < i
        ensures t[..i][k] != '*'
      {
        assert k > 0 ==> t[..i][k] == t[1..][..i - 1][k - 1];
      }
    }
  }
}
