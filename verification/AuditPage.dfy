/** The ordered audit page: selection through the view index, the order check and
    the truncation flag, and that they hold on every ledger the writers can reach. */
module AuditPage {
  import opened Wrappers
  import opened Ledger
  import opened OrderedCommit
  import opened OrderedTheorems

  const MAX_SCAN_LIMIT: int := 2500

  /** One zscan row: the entry's position, and its record with the transaction it resolves to. */
  datatype Row = Row(score: nat, key: Key, tx: nat)

  /** The two adjacent rows a fault names. */
  datatype Disagreement = Disagreement(higher: Row, lower: Row)

  datatype Response =
    | OrderingFault(view: View, pair: Disagreement)
    | Page(decisions: seq<Row>, intents: seq<Row>, hasMore: bool)

  function ScanLimit(limit: int): nat {
    var asked := if limit + 1 < MAX_SCAN_LIMIT then limit + 1 else MAX_SCAN_LIMIT;
    if asked > 1 then asked else 1
  }

  function PageLimit(limit: int): nat { ScanLimit(limit) - 1 }

  /** The rows the compare-and-set allocated, in the order they came. */
  function Allocated(rows: seq<Row>, reserve: nat): seq<Row> {
    if rows == [] then []
    else (if rows[0].score >= reserve + 1 then [rows[0]] else []) + Allocated(rows[1..], reserve)
  }

  function FirstDisagreement(rows: seq<Row>): Option<Disagreement> {
    if |rows| < 2 then None
    else if rows[0].score > rows[1].score && rows[0].tx > rows[1].tx then FirstDisagreement(rows[1..])
    else Some(Disagreement(rows[0], rows[1]))
  }

  function OrderCheck(rows: seq<Row>, reserve: nat): Option<Disagreement> {
    FirstDisagreement(Allocated(rows, reserve))
  }

  function Take(rows: seq<Row>, n: nat): seq<Row> {
    if |rows| <= n then rows else rows[..n]
  }

  /** What get_audit makes of the two scans it asked for with `ScanLimit(limit)`. */
  function Select(limit: int, reserve: nat, decisions: seq<Row>, intents: seq<Row>): Response {
    match OrderCheck(decisions, reserve)
    case Some(pair) => OrderingFault(DecisionView, pair)
    case None =>
      match OrderCheck(intents, reserve)
      case Some(pair) => OrderingFault(IntentView, pair)
      case None =>
        Page(Take(decisions, PageLimit(limit)), Take(intents, PageLimit(limit)),
             |decisions| > PageLimit(limit) || |intents| > PageLimit(limit))
  }

  // ----- the adjacent-pair test decides the order of every pair -----

  ghost predicate AllPairsAgree(rows: seq<Row>) {
    forall i, j :: 0 <= i < j < |rows| ==> rows[i].score > rows[j].score && rows[i].tx > rows[j].tx
  }

  lemma {:induction false} AdjacentDecidesAll(rows: seq<Row>)
    ensures FirstDisagreement(rows).None? <==> AllPairsAgree(rows)
    ensures var d := FirstDisagreement(rows);
            d.Some? ==> exists i :: 0 <= i < |rows| - 1 && rows[i] == d.value.higher && rows[i + 1] == d.value.lower
                                    && !(rows[i].score > rows[i + 1].score && rows[i].tx > rows[i + 1].tx)
  {
    if |rows| >= 2 {
      AdjacentDecidesAll(rows[1..]);
      if rows[0].score > rows[1].score && rows[0].tx > rows[1].tx {
        if AllPairsAgree(rows[1..]) {
          forall i, j | 0 <= i < j < |rows| ensures rows[i].score > rows[j].score && rows[i].tx > rows[j].tx {
            if i > 0 { assert rows[i] == rows[1..][i - 1] && rows[j] == rows[1..][j - 1]; }
            else if j > 1 { assert rows[1..][0] == rows[1] && rows[1..][j - 1] == rows[j]; }
          }
        } else {
          var i, j :| 0 <= i < j < |rows[1..]|
            && !(rows[1..][i].score > rows[1..][j].score && rows[1..][i].tx > rows[1..][j].tx);
          assert rows[i + 1] == rows[1..][i] && rows[j + 1] == rows[1..][j];
          var d := FirstDisagreement(rows[1..]).value;
          var k :| 0 <= k < |rows[1..]| - 1 && rows[1..][k] == d.higher && rows[1..][k + 1] == d.lower
            && !(rows[1..][k].score > rows[1..][k + 1].score && rows[1..][k].tx > rows[1..][k + 1].tx);
          assert rows[k + 1] == d.higher && rows[k + 2] == d.lower;
        }
      }
    }
  }

  /** Any row below another is older, where the lower one was allocated. */
  ghost predicate Descends(rows: seq<Row>, reserve: nat) {
    forall i, j :: 0 <= i < j < |rows| && rows[j].score > reserve ==>
      rows[i].score > rows[j].score && rows[i].tx > rows[j].tx
  }

  lemma {:induction false} AllocatedRows(rows: seq<Row>, reserve: nat)
    ensures forall r :: r in Allocated(rows, reserve) <==> r in rows && r.score > reserve
  {
    if rows != [] {
      AllocatedRows(rows[1..], reserve);
      assert forall r :: r in rows <==> r == rows[0] || r in rows[1..];
    }
  }

  /** Filtering keeps the relative order of any two rows it keeps. */
  lemma {:induction false} AllocatedKeepsOrder(rows: seq<Row>, reserve: nat)
    requires Descends(rows, reserve)
    ensures AllPairsAgree(Allocated(rows, reserve))
  {
    if rows != [] {
      var rest := rows[1..];
      forall i, j | 0 <= i < j < |rest| && rest[j].score > reserve
        ensures rest[i].score > rest[j].score && rest[i].tx > rest[j].tx
      {
        assert rest[i] == rows[i + 1] && rest[j] == rows[j + 1];
      }
      AllocatedKeepsOrder(rest, reserve);
      AllocatedRows(rest, reserve);
      forall r | r in Allocated(rest, reserve) ensures rows[0].score > r.score && rows[0].tx > r.tx {
        var j :| 0 <= j < |rest| && rest[j] == r;
        assert rows[j + 1] == r;
      }
    }
  }

  /** Of any two rows above the reserve the upper one is the newer. */
  ghost predicate AgreeAbove(rows: seq<Row>, reserve: nat) {
    forall i, j :: 0 <= i < j < |rows| && rows[i].score > reserve && rows[j].score > reserve ==>
      rows[i].score > rows[j].score && rows[i].tx > rows[j].tx
  }

  lemma {:induction false} AllocatedAgree(rows: seq<Row>, reserve: nat)
    ensures AllPairsAgree(Allocated(rows, reserve)) <==> AgreeAbove(rows, reserve)
  {
    if rows != [] {
      var rest, kept := rows[1..], Allocated(rows[1..], reserve);
      AllocatedAgree(rest, reserve);
      AllocatedRows(rest, reserve);
      assert forall i :: 0 <= i < |rest| ==> rest[i] == rows[i + 1];
      if rows[0].score > reserve {
        assert Allocated(rows, reserve) == [rows[0]] + kept;
        HeadAgrees(rows[0], kept);
        HeadAbove(rows, reserve);
      } else {
        assert Allocated(rows, reserve) == kept;
        HeadAbove(rows, reserve);
      }
    }
  }

  lemma {:induction false} HeadAgrees(head: Row, kept: seq<Row>)
    ensures AllPairsAgree([head] + kept) <==>
            AllPairsAgree(kept) && forall r :: r in kept ==> head.score > r.score && head.tx > r.tx
  {
    var all := [head] + kept;
    assert forall i :: 0 <= i < |kept| ==> all[i + 1] == kept[i];
    if AllPairsAgree(all) {
      forall i, j | 0 <= i < j < |kept| ensures kept[i].score > kept[j].score && kept[i].tx > kept[j].tx {
        assert all[i + 1].score > all[j + 1].score && all[i + 1].tx > all[j + 1].tx;
      }
      forall r | r in kept ensures head.score > r.score && head.tx > r.tx {
        var i :| 0 <= i < |kept| && kept[i] == r;
        assert all[0].score > all[i + 1].score && all[0].tx > all[i + 1].tx;
      }
    }
  }

  lemma {:induction false} HeadAbove(rows: seq<Row>, reserve: nat)
    requires rows != []
    ensures AgreeAbove(rows, reserve) <==>
            && AgreeAbove(rows[1..], reserve)
            && (rows[0].score > reserve ==> forall r :: r in rows[1..] && r.score > reserve ==> rows[0].score > r.score && rows[0].tx > r.tx)
  {
    var rest := rows[1..];
    if AgreeAbove(rows, reserve) {
      forall i, j | 0 <= i < j < |rest| && rest[i].score > reserve && rest[j].score > reserve
        ensures rest[i].score > rest[j].score && rest[i].tx > rest[j].tx
      {
        assert rows[i + 1] == rest[i] && rows[j + 1] == rest[j];
      }
    } else {
      var i, j :| 0 <= i < j < |rows| && rows[i].score > reserve && rows[j].score > reserve
                  && !(rows[i].score > rows[j].score && rows[i].tx > rows[j].tx);
      assert rest[j - 1] == rows[j] && (i > 0 ==> rest[i - 1] == rows[i]);
    }
  }

  /** The two rows a fault shows: both of the scan, both allocated, and in disagreement. */
  ghost predicate Disagree(rows: seq<Row>, reserve: nat, d: Disagreement) {
    && d.higher in rows && d.lower in rows && d.higher.score > reserve && d.lower.score > reserve
    && !(d.higher.score > d.lower.score && d.higher.tx > d.lower.tx)
  }

  /** The page is refused exactly when one of the scans holds two allocated rows out of commit order, the
      decision view first, and the refusal shows two such rows. */
  lemma {:induction false} FaultsExactly(limit: int, reserve: nat, decisions: seq<Row>, intents: seq<Row>)
    ensures var response := Select(limit, reserve, decisions, intents);
            && (response.Page? <==> AgreeAbove(decisions, reserve) && AgreeAbove(intents, reserve))
            && (response.OrderingFault? ==>
                  && (response.view == DecisionView <==> !AgreeAbove(decisions, reserve))
                  && Disagree(if response.view.DecisionView? then decisions else intents, reserve, response.pair))
  {
    AdjacentDecidesAll(Allocated(decisions, reserve));
    AdjacentDecidesAll(Allocated(intents, reserve));
    AllocatedAgree(decisions, reserve);
    AllocatedAgree(intents, reserve);
    AllocatedRows(decisions, reserve);
    AllocatedRows(intents, reserve);
  }

  // ----- the page on a reachable ledger -----

  /** What zscan answers for `view` in descending order; equal positions come in any order. */
  ghost predicate DescendingPage(log: Log, view: View, limit: nat, rows: seq<Row>) {
    && (forall i :: 0 <= i < |rows| ==> IsRow(log, view, rows[i]))
    && (forall i, j :: 0 <= i < j < |rows| ==> rows[i] != rows[j] && rows[i].score >= rows[j].score)
    && |rows| <= limit
    && (forall r :: IsRow(log, view, r) && r !in rows ==> |rows| == limit && (rows != [] ==> rows[|rows| - 1].score >= r.score))
  }

  ghost predicate IsRow(log: Log, view: View, r: Row) {
    InView(log, ZAdd(view, r.score, r.key)) && r.tx == LastTx(log, r.key)
  }

  /** Every page row is at least as new as every record left out, by the ledger's own transactions. */
  ghost predicate NewestFirst(log: Log, view: View, page: seq<Row>) {
    && (forall i, j :: 0 <= i < j < |page| ==> page[i].tx >= page[j].tx)
    && (forall i, r :: 0 <= i < |page| && IsRow(log, view, r) && r !in page ==> page[i].tx >= r.tx)
  }

  lemma {:induction false} ScanOrder(log: Log, view: View, reserve: nat, limit: nat, rows: seq<Row>)
    requires Readable(log, reserve) && DescendingPage(log, view, limit, rows)
    ensures OrderCheck(rows, reserve).None?
    ensures forall n: nat :: n <= |rows| ==> NewestFirst(log, view, rows[..n])
  {
    forall i, j | 0 <= i < j < |rows|
      ensures rows[i].tx >= rows[j].tx
      ensures rows[j].score > reserve ==> rows[i].score > rows[j].score && rows[i].tx > rows[j].tx
    {
      RowOrder(log, view, reserve, rows[i], rows[j]);
    }
    AllocatedKeepsOrder(rows, reserve);
    AdjacentDecidesAll(Allocated(rows, reserve));
    forall n: nat | n <= |rows| ensures NewestFirst(log, view, rows[..n]) {
      var page := rows[..n];
      forall i, r | 0 <= i < |page| && IsRow(log, view, r) && r !in page ensures page[i].tx >= r.tx {
        LeftOutIsOlder(log, view, reserve, limit, rows, i, n, r);
      }
    }
  }

  lemma {:induction false} LeftOutIsOlder(log: Log, view: View, reserve: nat, limit: nat, rows: seq<Row>, i: nat, n: nat, r: Row)
    requires Readable(log, reserve) && DescendingPage(log, view, limit, rows)
    requires i < n <= |rows| && IsRow(log, view, r) && r !in rows[..n]
    ensures rows[i].tx >= r.tx
  {
    if r in rows {
      var j :| 0 <= j < |rows| && rows[j] == r;
      assert j >= n;
    } else {
      assert rows[i].score >= rows[|rows| - 1].score >= r.score;
    }
    RowOrder(log, view, reserve, rows[i], r);
  }

  lemma {:induction false} RowOrder(log: Log, view: View, reserve: nat, a: Row, b: Row)
    requires Readable(log, reserve) && IsRow(log, view, a) && IsRow(log, view, b) && a.score >= b.score
    ensures a.tx >= b.tx
    ensures a != b && b.score > reserve ==> a.score > b.score && a.tx > b.tx
  {
    var x, y := ZAdd(view, a.score, a.key), ZAdd(view, b.score, b.key);
    assert a.tx == LastTx(log, x.key) && b.tx == LastTx(log, y.key);
    assert x.score < y.score <==> LastTx(log, x.key) < LastTx(log, y.key);
    assert y.score < x.score <==> LastTx(log, y.key) < LastTx(log, x.key);
  }

  /** The page's own limit is the caller's below 2500, 2499 at or above it, and nothing at or below zero; a scan
      asks for one row more. */
  lemma {:induction false} PageLimitIs(limit: int)
    ensures limit <= 0 ==> PageLimit(limit) == 0
    ensures 0 < limit < 2500 ==> PageLimit(limit) == limit
    ensures limit >= 2500 ==> PageLimit(limit) == 2499
    ensures ScanLimit(limit) == PageLimit(limit) + 1 <= 2500
  {
  }

  /** A page that leaves a record of its view out is full; no page is longer. */
  ghost predicate AsLongAsMayBe(log: Log, view: View, limit: int, page: seq<Row>) {
    && (forall i :: 0 <= i < |page| ==> IsRow(log, view, page[i]))
    && (forall i, j :: 0 <= i < j < |page| ==> page[i] != page[j])
    && |page| <= PageLimit(limit)
    && ((exists r :: IsRow(log, view, r) && r !in page) ==> |page| == PageLimit(limit))
  }

  /** The page is the newest records of each view, as many as it may show, and the flag says exactly whether
      one was left out. */
  ghost predicate Newest(log: Log, log': Log, limit: int, response: Response) {
    && response.Page?
    && AsLongAsMayBe(log, DecisionView, limit, response.decisions)
    && AsLongAsMayBe(log', IntentView, limit, response.intents)
    && NewestFirst(log, DecisionView, response.decisions)
    && NewestFirst(log', IntentView, response.intents)
    && (response.hasMore <==>
          (exists r :: IsRow(log, DecisionView, r) && r !in response.decisions)
          || (exists r :: IsRow(log', IntentView, r) && r !in response.intents))
  }

  lemma {:induction false} SelectIsNewest(log: Log, log': Log, limit: int, reserve: nat, decisions: seq<Row>, intents: seq<Row>)
    requires Readable(log, reserve) && DescendingPage(log, DecisionView, ScanLimit(limit), decisions)
    requires Readable(log', reserve) && DescendingPage(log', IntentView, ScanLimit(limit), intents)
    ensures Newest(log, log', limit, Select(limit, reserve, decisions, intents))
  {
    ScanOrder(log, DecisionView, reserve, ScanLimit(limit), decisions);
    ScanOrder(log', IntentView, reserve, ScanLimit(limit), intents);
    assert decisions[..|decisions|] == decisions && intents[..|intents|] == intents;
    LeftOut(log, DecisionView, limit, decisions);
    LeftOut(log', IntentView, limit, intents);
    TakeFills(log, DecisionView, limit, decisions);
    TakeFills(log', IntentView, limit, intents);
  }

  lemma {:induction false} TakeFills(log: Log, view: View, limit: int, rows: seq<Row>)
    requires DescendingPage(log, view, ScanLimit(limit), rows)
    ensures AsLongAsMayBe(log, view, limit, Take(rows, PageLimit(limit)))
  {
    PageLimitIs(limit);
    LeftOut(log, view, limit, rows);
  }

  /** For every limit, every ledger the writers can reach and every reserve the agreement check lets through,
      bound or not, the order check passes and the page is the newest of each view. The two scans are two
      reads, each of its own ledger. A reserve that is no process's is covered where no transaction of the
      history wrote two records, which is how the plain route writes them. */
  lemma {:induction false} PageIsNewest(w: World, acts: seq<Act>, more: seq<Act>, limit: int, reserve: nat,
                                        decisions: seq<Row>, intents: seq<Row>)
    requires Starts(w)
    requires LetsThrough(Run(w, acts).log, w.procs, reserve) && LetsThrough(Run(w, more).log, w.procs, reserve)
    requires SingleWrites(w.log)
             || (Agrees(Run(w, acts).log, w.procs, reserve) && Agrees(Run(w, more).log, w.procs, reserve))
    requires DescendingPage(Run(w, acts).log, DecisionView, ScanLimit(limit), decisions)
    requires DescendingPage(Run(w, more).log, IntentView, ScanLimit(limit), intents)
    ensures Newest(Run(w, acts).log, Run(w, more).log, limit, Select(limit, reserve, decisions, intents))
  {
    LetThroughIsReadable(w, acts, reserve);
    LetThroughIsReadable(w, more, reserve);
    SelectIsNewest(Run(w, acts).log, Run(w, more).log, limit, reserve, decisions, intents);
  }

  lemma {:induction false} LeftOut(log: Log, view: View, limit: int, rows: seq<Row>)
    requires DescendingPage(log, view, ScanLimit(limit), rows)
    ensures |rows| > PageLimit(limit) <==> exists r :: IsRow(log, view, r) && r !in Take(rows, PageLimit(limit))
  {
    PageLimitIs(limit);
    if |rows| > PageLimit(limit) {
      var last := rows[|rows| - 1];
      assert IsRow(log, view, last) && last !in Take(rows, PageLimit(limit));
    }
  }
}
