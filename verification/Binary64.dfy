/** A commit position travels as a binary64 score. Rounding to 53 significant bits,
    ties to even (section 4.3.1 of IEEE 754-2019), is stated here on naturals, and
    the reserve check and the allocator's ceiling are shown to keep every position
    ever issued below the first one that merges with its neighbour. */
module Binary64 {
  import opened Wrappers
  import opened Ledger
  import opened OrderedCommit
  import opened WriterInvariant
  import opened OrderedTheorems

  const HALF: nat := 0x10_0000_0000_0000

  /** The spacing of binary64 values around `n`: the power of two that leaves 53 bits above it. */
  function Ulp(n: nat): (u: nat)
    ensures u > 0
  {
    if n < MAX_POSITION then 1 else 2 * Ulp(n / 2)
  }

  /** An integer cut at 53 bits: `top` units of its spacing, and the rest. */
  datatype Cut = Cut(top: nat, rest: nat)

  function CutOf(n: nat): (c: Cut)
    ensures n == c.top * Ulp(n) + c.rest && c.rest < Ulp(n)
  {
    if n < MAX_POSITION then Cut(n, 0)
    else
      var c := CutOf(n / 2);
      assert c.top * (2 * Ulp(n / 2)) == 2 * (c.top * Ulp(n / 2));
      Cut(c.top, 2 * c.rest + n % 2)
  }

  /** The score an integer becomes. */
  function Score(n: nat): nat {
    var c := CutOf(n);
    var low := n - c.rest;
    if 2 * c.rest < Ulp(n) || (2 * c.rest == Ulp(n) && c.top % 2 == 0) then low else low + Ulp(n)
  }

  /** `v` has at most 53 significant bits. */
  predicate Representable(v: nat) { CutOf(v).rest == 0 }

  function Distance(a: nat, b: nat): nat { if a < b then b - a else a - b }

  lemma {:induction false} UlpBounds(n: nat)
    ensures n < MAX_POSITION * Ulp(n)
    ensures n >= MAX_POSITION ==> HALF * Ulp(n) <= n
  {
    if n >= MAX_POSITION { UlpBounds(n / 2); }
  }

  lemma {:induction false} UlpDivides(m: nat, n: nat) returns (k: nat)
    requires m <= n
    ensures Ulp(n) == k * Ulp(m) && k > 0
    decreases n
  {
    if m < MAX_POSITION {
      k := Ulp(n);
    } else {
      k := UlpDivides(m / 2, n / 2);
      assert 2 * (k * Ulp(m / 2)) == k * (2 * Ulp(m / 2));
    }
  }

  lemma {:induction false} TimesGrows(k: nat, q: nat, u: nat)
    requires k <= q
    ensures k * u <= q * u
    decreases q
  {
    if k < q {
      TimesGrows(k, q - 1, u);
      assert q * u == (q - 1) * u + u;
    }
  }

  /** Multiples of `u` do not fall strictly between two neighbours. */
  lemma {:induction false} NoneBetween(k: nat, q: nat, u: nat)
    ensures k * u <= q * u || k * u >= q * u + u
  {
    if k > q {
      TimesGrows(q + 1, k, u);
      assert (q + 1) * u == q * u + u;
    } else {
      TimesGrows(k, q, u);
    }
  }

  /** No multiple of the spacing at `n` is nearer. */
  lemma {:induction false} NearestMultiple(n: nat, k: nat, t: nat)
    requires t == k * Ulp(n)
    ensures Distance(n, Score(n)) <= Distance(n, t)
  {
    NoneBetween(k, CutOf(n).top, Ulp(n));
  }

  lemma {:induction false} Reassociate(a: nat, b: nat, c: nat)
    ensures a * (b * c) == (a * b) * c
  {
  }

  lemma {:induction false} SameSpacing(v: nat, j: nat, u: nat)
    requires HALF * (j * u) <= v < MAX_POSITION * u && j > 0
    ensures j == 1
  {
  }

  lemma {:induction false} SameUlp(v: nat, n: nat)
    requires HALF * Ulp(n) <= v < n
    ensures Ulp(v) == Ulp(n)
  {
    var j := UlpDivides(v, n);
    UlpBounds(v);
    SameSpacing(v, j, Ulp(v));
  }

  lemma {:induction false} NearestBelow(v: nat, n: nat)
    requires Representable(v) && HALF * Ulp(n) <= v < n
    ensures Distance(n, Score(n)) <= Distance(n, v)
  {
    SameUlp(v, n);
    NearestMultiple(n, CutOf(v).top, v);
  }

  lemma {:induction false} NearestAbove(v: nat, n: nat)
    requires Representable(v) && v >= n
    ensures Distance(n, Score(n)) <= Distance(n, v)
  {
    var j := UlpDivides(n, v);
    Reassociate(CutOf(v).top, j, Ulp(n));
    NearestMultiple(n, CutOf(v).top * j, v);
  }

  /** No value of 53 significant bits is nearer to an integer than its score. */
  lemma {:induction false} ScoreIsNearest(n: nat, v: nat)
    requires Representable(v)
    ensures Distance(n, Score(n)) <= Distance(n, v)
  {
    UlpBounds(n);
    if v >= n {
      NearestAbove(v, n);
    } else if v >= HALF * Ulp(n) {
      NearestBelow(v, n);
    } else if n >= MAX_POSITION {
      NearestMultiple(n, HALF, HALF * Ulp(n));
    }
  }

  lemma {:induction false} MultipleIsRepresentable(x: nat, k: nat)
    requires x == k * Ulp(x)
    ensures Representable(x)
  {
    NoneBetween(k, CutOf(x).top, Ulp(x));
  }

  lemma {:induction false} UlpWithin(x: nat, n: nat)
    requires n >= MAX_POSITION && HALF * Ulp(n) <= x < MAX_POSITION * Ulp(n)
    ensures Ulp(x) == Ulp(n)
  {
    if x < n {
      SameUlp(x, n);
    } else {
      var j := UlpDivides(n, x);
      UlpBounds(x);
      SameSpacing(x, j, Ulp(n));
    }
  }

  /** The next power of two up is spaced twice as far. */
  lemma {:induction false} UlpDoubles(n: nat, x: nat)
    requires x == MAX_POSITION * Ulp(n)
    ensures Ulp(x) == 2 * Ulp(n)
    decreases n
  {
    if n < MAX_POSITION {
      assert x / 2 == HALF;
    } else {
      assert x / 2 == MAX_POSITION * Ulp(n / 2);
      UlpDoubles(n / 2, x / 2);
    }
  }

  lemma {:induction false} ScoreIsRepresentable(n: nat)
    ensures Representable(Score(n))
  {
    if n >= MAX_POSITION {
      var u, top := Ulp(n), CutOf(n).top;
      UlpBounds(n);
      NoneBetween(HALF, top, u);
      NoneBetween(MAX_POSITION, top, u);
      assert (top + 1) * u == top * u + u;
      if Score(n) < MAX_POSITION * u {
        UlpWithin(Score(n), n);
        MultipleIsRepresentable(Score(n), if Score(n) == top * u then top else top + 1);
      } else {
        UlpDoubles(n, Score(n));
        MultipleIsRepresentable(Score(n), HALF);
      }
    }
  }

  /** Rounding never inverts an order; it can only merge. */
  lemma {:induction false} ScoreIsMonotone(m: nat, n: nat)
    requires m <= n
    ensures Score(m) <= Score(n)
  {
    ScoreIsRepresentable(m);
    ScoreIsRepresentable(n);
    ScoreIsNearest(m, Score(n));
    ScoreIsNearest(n, Score(m));
  }

  /** The integers below `limit` have distinct scores, in their own order, exactly
      up to 2^53 + 1: the first pair to merge is 2^53 and its successor. */
  lemma {:induction false} FirstMergeIsAtTheCeiling(limit: nat)
    ensures (forall m, n :: 0 <= m < n < limit ==> Score(m) < Score(n)) <==> limit <= MAX_POSITION + 1
  {
    assert CutOf(MAX_POSITION / 2) == Cut(HALF, 0) && Ulp(MAX_POSITION / 2) == 1;
    assert Ulp(MAX_POSITION) == 2 && Score(MAX_POSITION) == MAX_POSITION;
    assert (MAX_POSITION + 1) / 2 == HALF && Score(MAX_POSITION + 1) == MAX_POSITION;
    if limit > MAX_POSITION + 1 {
      var m, n := MAX_POSITION, MAX_POSITION + 1;
      assert 0 <= m < n < limit && Score(m) == Score(n);
    }
  }

  // ----- what the two checks buy -----

  /** The reserve a service starts with: the configured integer, or a refusal to load. */
  function ValidateReserve(parsed: Option<int>): Option<nat> {
    match parsed
    case None => None
    case Some(value) => if value < 1 || value >= MAX_POSITION then None else Some(value)
  }

  /** Six writes over a reserve just past the ceiling, were both checks absent:
      six positions, four scores, three of the positions on one score. */
  lemma {:induction false} UncheckedReserveMerges(reserve: nat)
    requires reserve == MAX_POSITION + 1
    ensures ValidateReserve(Some(reserve)).None?
    ensures Score(reserve + 1) == MAX_POSITION + 2
    ensures Score(reserve + 2) == Score(reserve + 3) == Score(reserve + 4) == MAX_POSITION + 4
    ensures Score(reserve + 5) == MAX_POSITION + 6 && Score(reserve + 6) == MAX_POSITION + 8
  {
    forall i: nat | 2 <= i <= 7 ensures CutOf(MAX_POSITION + i) == Cut(HALF + i / 2, i % 2) && Ulp(MAX_POSITION + i) == 2 {
      assert (MAX_POSITION + i) / 2 == HALF + i / 2 && (MAX_POSITION + i) % 2 == i % 2;
    }
  }

  ghost predicate Exact(log: Log) {
    forall a :: InView(log, a) ==> a.score < MAX_POSITION
  }

  lemma {:induction false} ApplyKeepsExact(w: World, act: Act)
    requires Inv(w) && Exact(w.log)
    ensures Exact(Apply(w, act).log)
  {
    match act
    case Arrive(c, i) =>
      if PendingAt(w, c, i) && AllHold(w.log, Preconditions(w.calls[c], w.calls[c].sent[i])) {
        var call := w.calls[c];
        assert SentOk(w.log, w.procs[call.proc], call, call.sent[i]);
        forall a ensures InView(Apply(w, act).log, a) ==> a.score < MAX_POSITION {
          AddedAppend(w.log, Operations(w.procs[call.proc], call, call.sent[i]), a);
        }
      }
    case Unrelated(name, value) =>
      forall a ensures InView(Apply(w, act).log, a) ==> InView(w.log, a) {
        AddedAppend(w.log, Tx(map[PlainKey(name) := value], {}), a);
      }
    case _ =>
  }

  lemma {:induction false} RunKeepsExact(w: World, acts: seq<Act>)
    requires Inv(w) && Exact(w.log)
    ensures Exact(Run(w, acts).log)
    decreases |acts|
  {
    if acts != [] {
      ApplyKeepsExact(w, acts[0]);
      RunKeeps(w, [acts[0]]);
      assert Run(w, [acts[0]]) == Run(Apply(w, acts[0]), []);
      RunKeepsExact(Apply(w, acts[0]), acts[1..]);
    }
  }

  /** In every run, over both views, the scores are the positions themselves:
      distinct, in the same order, and read back by truncation to an integer. So
      the order of scores is the order of commits. */
  lemma {:induction false} ScoresOrderTheLog(w: World, acts: seq<Act>, a: ZAdd, b: ZAdd)
    requires Starts(w) && Exact(w.log) && (Get(Run(w, acts).log, ReserveKey).Some? || |w.procs| > 0)
    requires InView(Run(w, acts).log, a) && InView(Run(w, acts).log, b)
    ensures Score(a.score) == a.score < MAX_POSITION
    ensures Score(a.score) < Score(b.score) <==> a.score < b.score
    ensures Score(a.score) < Score(b.score) <==> LastTx(Run(w, acts).log, a.key) < LastTx(Run(w, acts).log, b.key)
  {
    RunInvariant(w, []);
    assert Run(w, []) == w;
    RunKeepsExact(w, acts);
    OrderIsCommitOrder(w, acts);
  }
}
