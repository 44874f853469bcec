/** Pattern matching for KEYS: the two-cursor loop of src/server/dispatcher.cpp against a declarative matcher. */
module Glob {
  import opened Bytes

  /** `*` stands for any run of bytes, `?` for exactly one byte, everything else for itself. */
  ghost predicate Matches(p: Bytes, t: Bytes)
    decreases |p|
  {
    if p == [] then t == []
    else if p[0] == STAR then exists k :: 0 <= k <= |t| && Matches(p[1..], t[k..])
    else t != [] && (p[0] == QUESTION || p[0] == t[0]) && Matches(p[1..], t[1..])
  }

  /** The loop's variables.  `star` is the index after the most recent star, if one was seen. */
  datatype Cursor = Cursor(p: nat, t: nat, star: Option<nat>, starT: nat)

  predicate InRange(pat: Bytes, text: Bytes, c: Cursor) {
    c.p <= |pat| && c.t <= |text| && c.starT <= c.t && (c.star.Some? ==> 0 < c.star.value <= c.p)
  }

  /** One trip round the main loop; `None` is the early `return false`. */
  function Advance(pat: Bytes, text: Bytes, c: Cursor): (r: Option<Cursor>)
    requires InRange(pat, text, c) && c.t < |text|
    ensures r.Some? ==> InRange(pat, text, r.value)
  {
    if c.p < |pat| && (pat[c.p] == QUESTION || pat[c.p] == text[c.t]) then
      Some(c.(p := c.p + 1, t := c.t + 1))
    else if c.p < |pat| && pat[c.p] == STAR then
      Some(Cursor(c.p + 1, c.t, Some(c.p + 1), c.t))
    else if c.star.Some? then
      Some(Cursor(c.star.value, c.starT + 1, c.star, c.starT + 1))
    else
      None
  }

  predicate AllStars(p: Bytes) {
    forall i | 0 <= i < |p| :: p[i] == STAR
  }

  /** The verdict the loop reaches from a cursor; the measure is the source's termination argument. */
  predicate Verdict(pat: Bytes, text: Bytes, c: Cursor)
    requires InRange(pat, text, c)
    decreases |text| - c.starT, |text| - c.t, |pat| - c.p
  {
    if c.t < |text| then
      var r := Advance(pat, text, c);
      r.Some? && Verdict(pat, text, r.value)
    else
      AllStars(pat[c.p..])
  }

  const START := Cursor(0, 0, None, 0)

  predicate GlobVerdict(pat: Bytes, text: Bytes) {
    Verdict(pat, text, START)
  }

  // ---------------------------------------------------------------- how long the loops take

  function StarRun(p: Bytes, i: nat): (n: nat)
    requires i <= |p|
    ensures i + n <= |p|
    decreases |p| - i
  {
    if i < |p| && p[i] == STAR then 1 + StarRun(p, i + 1) else 0
  }

  /** How many trips the two loops make from a cursor on. */
  function Trips(pat: Bytes, text: Bytes, c: Cursor): nat
    requires InRange(pat, text, c)
    decreases |text| - c.starT, |text| - c.t, |pat| - c.p
  {
    if c.t < |text| then
      match Advance(pat, text, c)
      case None => 1
      case Some(d) => 1 + Trips(pat, text, d)
    else
      StarRun(pat, c.p)
  }

  lemma Monotone(a: nat, b: nat, m: nat)
    requires a <= b
    ensures a * m <= b * m
  {
  }

  /** The trips that a cursor can have behind it. */
  function Spent(pat: Bytes, c: Cursor): nat {
    c.starT * (|pat| + 1) + c.p
  }

  /** Between two retries of a star each trip moves on in the pattern, and each retry moves the star on in the text. */
  lemma TripIsPaid(pat: Bytes, text: Bytes, c: Cursor)
    requires InRange(pat, text, c) && c.t < |text| && Advance(pat, text, c).Some?
    ensures Spent(pat, c) + 1 <= Spent(pat, Advance(pat, text, c).value)
  {
    var d := Advance(pat, text, c).value;
    Monotone(c.starT, d.starT, |pat| + 1);
    if d.p <= c.p { assert (c.starT + 1) * (|pat| + 1) == c.starT * (|pat| + 1) + (|pat| + 1); }
  }

  lemma SpentBound(pat: Bytes, text: Bytes, c: Cursor)
    requires InRange(pat, text, c)
    ensures Spent(pat, c) + (|pat| - c.p) + 1 <= (|text| + 1) * (|pat| + 1)
    ensures c.t < |text| ==> Spent(pat, c) + 2 <= (|text| + 1) * (|pat| + 1)
  {
    Monotone(c.starT, |text|, |pat| + 1);
    assert (|text| + 1) * (|pat| + 1) == |text| * (|pat| + 1) + (|pat| + 1);
    if c.t < |text| {
      Monotone(c.starT + 1, |text|, |pat| + 1);
      assert (c.starT + 1) * (|pat| + 1) == c.starT * (|pat| + 1) + (|pat| + 1);
    }
  }

  lemma {:induction false} TripsBound(pat: Bytes, text: Bytes, c: Cursor)
    requires InRange(pat, text, c)
    ensures Trips(pat, text, c) + Spent(pat, c) < (|text| + 1) * (|pat| + 1)
    decreases |text| - c.starT, |text| - c.t, |pat| - c.p
  {
    SpentBound(pat, text, c);
    if c.t < |text| {
      var r := Advance(pat, text, c);
      if r.Some? {
        TripIsPaid(pat, text, c);
        TripsBound(pat, text, r.value);
      }
    }
  }

  /** The promise of the source: no more trips than the product of the lengths, each of them plus one. */
  lemma Quadratic(pat: Bytes, text: Bytes)
    ensures Trips(pat, text, START) < (|text| + 1) * (|pat| + 1)
  {
    TripsBound(pat, text, START);
  }

  /** A true answer is right; so is a false one, if no star in the text can be taken for a literal. */
  method GlobMatch(pat: Bytes, text: Bytes) returns (r: bool)
    ensures r == GlobVerdict(pat, text)
    ensures r ==> Matches(pat, text)
    ensures STAR !in text || STAR !in pat ==> (r <==> Matches(pat, text))
  {
    ghost var trips;
    r, trips := Scan(pat, text);
    Sound(pat, text);
    if STAR !in text || STAR !in pat { CompleteWithoutStars(pat, text); }
  }

  /** The source's loop, with its own variables and termination measure. */
  method Scan(pat: Bytes, text: Bytes) returns (r: bool, ghost trips: nat)
    ensures r == GlobVerdict(pat, text)
    ensures trips == Trips(pat, text, START) < (|text| + 1) * (|pat| + 1)
  {
    Quadratic(pat, text);
    trips := 0;
    var p: nat, t: nat := 0, 0;
    var star: Option<nat>, starT: nat := None, 0;
    while t < |text|
      invariant InRange(pat, text, Cursor(p, t, star, starT))
      invariant GlobVerdict(pat, text) == Verdict(pat, text, Cursor(p, t, star, starT))
      invariant trips + Trips(pat, text, Cursor(p, t, star, starT)) == Trips(pat, text, START)
      decreases |text| - starT, |text| - t, |pat| - p
    {
      trips := trips + 1;
      if p < |pat| && (pat[p] == QUESTION || pat[p] == text[t]) {
        p, t := p + 1, t + 1;
      } else if p < |pat| && pat[p] == STAR {
        star, starT := Some(p + 1), t;
        p := p + 1;
      } else if star.Some? {
        p, starT := star.value, starT + 1;
        t := starT;
      } else {
        return false, trips;
      }
    }
    ghost var q := p;
    while p < |pat| && pat[p] == STAR
      invariant q <= p <= |pat|
      invariant forall i | q <= i < p :: pat[i] == STAR
      invariant trips + StarRun(pat, p) == Trips(pat, text, START)
    {
      p, trips := p + 1, trips + 1;
    }
    assert p < |pat| ==> pat[q..][p - q] != STAR;
    return p == |pat|, trips;
  }

  // ---------------------------------------------------------------- soundness

  /** Everything still reachable from the cursor would be a real match of the whole pattern. */
  ghost predicate Honest(pat: Bytes, text: Bytes, c: Cursor)
    requires InRange(pat, text, c)
  {
    && (Matches(pat[c.p..], text[c.t..]) ==> Matches(pat, text))
    && (c.star.Some? ==> forall k | c.starT <= k <= |text| ::
          Matches(pat[c.star.value..], text[k..]) ==> Matches(pat, text))
  }

  lemma MatchesStar(p: Bytes, t: Bytes, k: nat)
    requires p != [] && p[0] == STAR && k <= |t| && Matches(p[1..], t[k..])
    ensures Matches(p, t)
  {
  }

  lemma HonestStep(pat: Bytes, text: Bytes, c: Cursor)
    requires InRange(pat, text, c) && c.t < |text| && Honest(pat, text, c)
    requires Advance(pat, text, c).Some?
    ensures Honest(pat, text, Advance(pat, text, c).value)
  {
    var d := Advance(pat, text, c).value;
    var p, t := pat[c.p..], text[c.t..];
    if c.p < |pat| && (pat[c.p] == QUESTION || pat[c.p] == text[c.t]) {
      assert p[1..] == pat[d.p..] && t[1..] == text[d.t..];
      if p[0] == STAR && Matches(p[1..], t[1..]) { MatchesStar(p, t, 1); }
    } else if c.p < |pat| && pat[c.p] == STAR {
      assert p[1..] == pat[d.p..];
      forall k | c.t <= k <= |text| && Matches(pat[d.p..], text[k..])
        ensures Matches(pat, text)
      {
        assert t[k - c.t..] == text[k..];
        MatchesStar(p, t, k - c.t);
      }
    }
  }

  lemma MatchesAllStars(p: Bytes)
    ensures Matches(p, []) <==> AllStars(p)
  {
    if p != [] {
      MatchesAllStars(p[1..]);
      var t: Bytes := [];
      assert t[0..] == t;
      if p[0] == STAR {
        assert Matches(p[1..], t) ==> Matches(p[1..], t[0..]);
        assert AllStars(p[1..]) ==> AllStars(p) by {
          forall i | 0 <= i < |p| && AllStars(p[1..]) ensures p[i] == STAR {
            if i > 0 { assert p[1..][i - 1] == p[i]; }
          }
        }
      }
    }
  }

  lemma {:induction false} VerdictSound(pat: Bytes, text: Bytes, c: Cursor)
    requires InRange(pat, text, c) && Honest(pat, text, c) && Verdict(pat, text, c)
    ensures Matches(pat, text)
    decreases |text| - c.starT, |text| - c.t, |pat| - c.p
  {
    if c.t < |text| {
      HonestStep(pat, text, c);
      VerdictSound(pat, text, Advance(pat, text, c).value);
    } else {
      assert text[c.t..] == [];
      MatchesAllStars(pat[c.p..]);
    }
  }

  /** A true answer is always right, whatever the bytes of pattern and text. */
  lemma Sound(pat: Bytes, text: Bytes)
    ensures GlobVerdict(pat, text) ==> Matches(pat, text)
  {
    assert pat[0..] == pat && text[0..] == text;
    if GlobVerdict(pat, text) { VerdictSound(pat, text, START); }
  }

  // ---------------------------------------------------------------- completeness

  predicate StarFree(s: Bytes) {
    STAR !in s
  }

  lemma HeadMatches(p: Bytes, t: Bytes)
    requires p != [] && p[0] != STAR && Matches(p, t)
    ensures t != [] && Matches(p[1..], t[1..])
  {
  }

  lemma StarSkips(p: Bytes, t: Bytes) returns (j: nat)
    requires p != [] && p[0] == STAR && Matches(p, t)
    ensures j <= |t| && Matches(p[1..], t[j..])
  {
    j :| 0 <= j <= |t| && Matches(p[1..], t[j..]);
  }

  lemma StripOne(a: Bytes, b: Bytes, t: Bytes)
    requires a != [] && a[0] != STAR && Matches(a + b, t)
    ensures t != [] && Matches(a[1..] + b, t[1..])
  {
    HeadMatches(a + b, t);
    assert (a + b)[1..] == a[1..] + b;
  }

  lemma DropTwice(t: Bytes, n: nat)
    requires 0 < n <= |t|
    ensures t[1..][n - 1..] == t[n..]
  {
  }

  /** A star-free run of the pattern consumes exactly its own length of text. */
  lemma {:induction false} StripStarFree(a: Bytes, b: Bytes, t: Bytes)
    requires StarFree(a) && Matches(a + b, t)
    ensures |a| <= |t| && Matches(b, t[|a|..])
  {
    if a == [] {
      assert a + b == b && t[0..] == t;
    } else {
      StripOne(a, b, t);
      StripStarFree(a[1..], b, t[1..]);
      DropTwice(t, |a|);
    }
  }

  /** Nothing is lost: if the whole matches, it still does from the cursor or from a retry of the latest star. */
  ghost predicate Lossless(pat: Bytes, text: Bytes, c: Cursor)
    requires InRange(pat, text, c)
  {
    Matches(pat, text) ==>
      if c.star.None? then Matches(pat[c.p..], text[c.t..])
      else
        && c.p - c.star.value == c.t - c.starT
        && StarFree(pat[c.star.value..c.p])
        && exists k :: c.starT <= k <= |text| && Matches(pat[c.star.value..], text[k..])
  }

  /** A match that restarts the latest star at `k` goes on, past the literal run, from the cursor's pattern index. */
  lemma AfterRun(pat: Bytes, text: Bytes, c: Cursor, k: nat)
    requires InRange(pat, text, c) && c.star.Some? && c.starT <= k <= |text|
    requires c.p - c.star.value == c.t - c.starT && StarFree(pat[c.star.value..c.p])
    requires Matches(pat[c.star.value..], text[k..])
    ensures k + (c.t - c.starT) <= |text| && Matches(pat[c.p..], text[k + (c.t - c.starT)..])
  {
    var run := pat[c.star.value..c.p];
    assert pat[c.star.value..] == run + pat[c.p..];
    StripStarFree(run, pat[c.p..], text[k..]);
    assert text[k..][|run|..] == text[k + |run|..];
  }

  lemma LosslessStep(pat: Bytes, text: Bytes, c: Cursor)
    requires StarFree(text) || StarFree(pat)
    requires InRange(pat, text, c) && c.t < |text| && Lossless(pat, text, c) && Matches(pat, text)
    ensures Advance(pat, text, c).Some? && Lossless(pat, text, Advance(pat, text, c).value)
  {
    if c.p < |pat| && (pat[c.p] == QUESTION || pat[c.p] == text[c.t]) {
      assert pat[c.p] != STAR;
      LosslessLiteral(pat, text, c);
    } else if c.p < |pat| && pat[c.p] == STAR {
      LosslessNewStar(pat, text, c);
    } else if c.star.Some? {
      LosslessRetry(pat, text, c);
    }
  }

  lemma LosslessLiteral(pat: Bytes, text: Bytes, c: Cursor)
    requires InRange(pat, text, c) && c.t < |text| && Lossless(pat, text, c) && Matches(pat, text)
    requires c.p < |pat| && pat[c.p] != STAR
    ensures Lossless(pat, text, c.(p := c.p + 1, t := c.t + 1))
  {
    if c.star.Some? {
      assert pat[c.star.value..c.p + 1] == pat[c.star.value..c.p] + [pat[c.p]];
    } else {
      HeadMatches(pat[c.p..], text[c.t..]);
      assert pat[c.p..][1..] == pat[c.p + 1..] && text[c.t..][1..] == text[c.t + 1..];
    }
  }

  lemma SkipFrom(pat: Bytes, text: Bytes, p: nat, at: nat) returns (k: nat)
    requires p < |pat| && pat[p] == STAR && at <= |text| && Matches(pat[p..], text[at..])
    ensures at <= k <= |text| && Matches(pat[p + 1..], text[k..])
  {
    var j := StarSkips(pat[p..], text[at..]);
    assert pat[p..][1..] == pat[p + 1..] && text[at..][j..] == text[at + j..];
    k := at + j;
  }

  /** The text from some point on still matches the pattern from the cursor on. */
  lemma ToCursor(pat: Bytes, text: Bytes, c: Cursor) returns (at: nat)
    requires InRange(pat, text, c) && Lossless(pat, text, c) && Matches(pat, text)
    ensures c.t <= at <= |text| && Matches(pat[c.p..], text[at..])
  {
    at := c.t;
    if c.star.Some? {
      var k :| c.starT <= k <= |text| && Matches(pat[c.star.value..], text[k..]);
      AfterRun(pat, text, c, k);
      at := k + (c.t - c.starT);
    }
  }

  lemma LosslessNewStar(pat: Bytes, text: Bytes, c: Cursor)
    requires InRange(pat, text, c) && Lossless(pat, text, c) && Matches(pat, text)
    requires c.p < |pat| && pat[c.p] == STAR
    ensures exists k :: c.t <= k <= |text| && Matches(pat[c.p + 1..], text[k..])
  {
    var at := ToCursor(pat, text, c);
    var k := SkipFrom(pat, text, c.p, at);
  }

  lemma LosslessRetry(pat: Bytes, text: Bytes, c: Cursor)
    requires InRange(pat, text, c) && c.t < |text| && Lossless(pat, text, c) && Matches(pat, text)
    requires c.star.Some?
    requires c.p < |pat| ==> pat[c.p] != STAR && pat[c.p] != QUESTION && pat[c.p] != text[c.t]
    ensures Lossless(pat, text, Cursor(c.star.value, c.starT + 1, c.star, c.starT + 1))
  {
    var k :| c.starT <= k <= |text| && Matches(pat[c.star.value..], text[k..]);
    AfterRun(pat, text, c, k);
    assert k != c.starT;
  }

  lemma {:induction false} VerdictComplete(pat: Bytes, text: Bytes, c: Cursor)
    requires StarFree(text) || StarFree(pat)
    requires InRange(pat, text, c) && Lossless(pat, text, c) && Matches(pat, text)
    ensures Verdict(pat, text, c)
    decreases |text| - c.starT, |text| - c.t, |pat| - c.p
  {
    if c.t < |text| {
      LosslessStep(pat, text, c);
      VerdictComplete(pat, text, Advance(pat, text, c).value);
    } else {
      if c.star.Some? {
        var k :| c.starT <= k <= |text| && Matches(pat[c.star.value..], text[k..]);
        AfterRun(pat, text, c, k);
      }
      assert text[c.t..] == [];
      MatchesAllStars(pat[c.p..]);
    }
  }

  /** Remembering only the latest star loses nothing as long as no star can be taken for a literal. */
  lemma CompleteWithoutStars(pat: Bytes, text: Bytes)
    requires STAR !in text || STAR !in pat
    ensures GlobVerdict(pat, text) <==> Matches(pat, text)
  {
    Sound(pat, text);
    assert pat[0..] == pat && text[0..] == text;
    if Matches(pat, text) { VerdictComplete(pat, text, START); }
  }

  // ---------------------------------------------------------------- exactly when

  /** While every byte is equal or under a `?`, the loop consumes both strings in step and remembers no star. */
  lemma {:induction false} Lockstep(pat: Bytes, text: Bytes, lo: nat, hi: nat)
    requires lo <= hi <= |pat| && hi <= |text|
    requires forall i | lo <= i < hi :: pat[i] == text[i] || pat[i] == QUESTION
    ensures Verdict(pat, text, Cursor(lo, lo, None, 0)) == Verdict(pat, text, Cursor(hi, hi, None, 0))
    decreases hi - lo
  {
    if lo < hi { Lockstep(pat, text, lo + 1, hi); }
  }

  /** With no star remembered and none to come, a longer text cannot be consumed. */
  lemma {:induction false} TooLong(pat: Bytes, text: Bytes, p: nat, t: nat)
    requires p <= |pat| && t <= |text| && |text| - t > |pat| - p
    requires forall i | p <= i < |pat| :: pat[i] != STAR
    ensures !Verdict(pat, text, Cursor(p, t, None, 0))
    decreases |pat| - p
  {
    if p < |pat| && (pat[p] == QUESTION || pat[p] == text[t]) { TooLong(pat, text, p + 1, t + 1); }
  }

  lemma {:induction false} CommonPrefix(a: Bytes, b: Bytes, c: Bytes)
    requires Matches(b, c)
    ensures Matches(a + b, a + c)
  {
    if a == [] {
      assert a + b == b && a + c == c;
    } else {
      CommonPrefix(a[1..], b, c);
      assert (a + b)[1..] == a[1..] + b && (a + c)[1..] == a[1..] + c;
      if a[0] == STAR { MatchesStar(a + b, a + c, 1); }
    }
  }

  lemma {:induction false} QuestionMarks(p: Bytes, t: Bytes)
    requires |p| == |t| && forall i | 0 <= i < |p| :: p[i] == QUESTION
    ensures Matches(p, t)
  {
    if p != [] { QuestionMarks(p[1..], t[1..]); }
  }

  /** A text with a star has a pattern that matches it and that the loop turns down. */
  lemma StarInText(text: Bytes, i: nat) returns (pat: Bytes)
    requires i < |text| && text[i] == STAR
    ensures Matches(pat, text) && !GlobVerdict(pat, text)
  {
    var marks: Bytes := seq(|text| - i, _ => QUESTION);
    pat := text[..i] + ([STAR] + marks);
    Lockstep(pat, text, 0, |text|);
    assert pat[|text|..][0] == QUESTION;
    QuestionMarks(marks, text[i..]);
    assert ([STAR] + marks)[1..] == marks && text[i..][0..] == text[i..];
    MatchesStar([STAR] + marks, text[i..], 0);
    CommonPrefix(text[..i], [STAR] + marks, text[i..]);
    assert text[..i] + text[i..] == text;
  }

  /** The star of `*tail` can swallow two extra bytes in front of a copy of the tail. */
  lemma StarSwallowsTwo(tail: Bytes)
    ensures Matches([STAR] + tail, [STAR, QUESTION] + tail)
  {
    var none: Bytes := [];
    CommonPrefix(tail, none, none);
    assert tail + none == tail;
    assert ([STAR, QUESTION] + tail)[2..] == tail && ([STAR] + tail)[1..] == tail;
    MatchesStar([STAR] + tail, [STAR, QUESTION] + tail, 2);
  }

  /** A pattern with a star has a text that it matches and that the loop turns down. */
  lemma StarInPattern(pat: Bytes, i: nat) returns (text: Bytes)
    requires i < |pat| && pat[i] == STAR && forall j | i < j < |pat| :: pat[j] != STAR
    ensures Matches(pat, text) && !GlobVerdict(pat, text)
  {
    var head, tail := pat[..i], pat[i + 1..];
    text := head + ([STAR, QUESTION] + tail);
    assert Matches(pat, text) by {
      StarSwallowsTwo(tail);
      CommonPrefix(head, [STAR] + tail, [STAR, QUESTION] + tail);
      assert head + ([STAR] + tail) == pat;
    }
    assert !GlobVerdict(pat, text) by {
      Lockstep(pat, text, 0, i + 1);
      TooLong(pat, text, i + 1, i + 1);
    }
  }

  lemma LastStar(pat: Bytes) returns (i: nat)
    requires STAR in pat
    ensures i < |pat| && pat[i] == STAR && forall j | i < j < |pat| :: pat[j] != STAR
  {
    if pat[|pat| - 1] == STAR {
      i := |pat| - 1;
    } else {
      assert pat == pat[..|pat| - 1] + [pat[|pat| - 1]];
      i := LastStar(pat[..|pat| - 1]);
    }
  }

  /** The loop agrees with the matcher on every pattern exactly for the texts that hold no star. */
  lemma ExactTexts(text: Bytes)
    ensures (forall pat: Bytes :: GlobVerdict(pat, text) <==> Matches(pat, text)) <==> STAR !in text
  {
    if STAR in text {
      var i :| 0 <= i < |text| && text[i] == STAR;
      var pat := StarInText(text, i);
    } else {
      forall pat: Bytes ensures GlobVerdict(pat, text) <==> Matches(pat, text) { CompleteWithoutStars(pat, text); }
    }
  }

  /** The loop agrees with the matcher on every text exactly for the patterns that hold no star. */
  lemma ExactPatterns(pat: Bytes)
    ensures (forall text: Bytes :: GlobVerdict(pat, text) <==> Matches(pat, text)) <==> STAR !in pat
  {
    if STAR in pat {
      var i := LastStar(pat);
      var text := StarInPattern(pat, i);
    } else {
      forall text: Bytes ensures GlobVerdict(pat, text) <==> Matches(pat, text) { CompleteWithoutStars(pat, text); }
    }
  }
}
