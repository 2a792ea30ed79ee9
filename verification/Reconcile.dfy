/** The sequence reconciliation: walk every view in pages, then compare the
    positions found with the range the counter handed out. */
module Reconcile {
  import opened Wrappers
  import opened Ledger
  import opened ZScan
  import opened Paging

  type Positions = map<real, seq<Key>>

  datatype Malformed = ZscanFailed | OutsideBound(row: Member) | ZeroScore(row: Member)

  datatype ViewData = ViewData(positions: Positions, foreign: seq<Member>, malformed: seq<Malformed>)

  predicate Belongs(key: Key, prefix: Prefix) {
    key.RecordKey? && key.prefix == prefix
  }

  // ----- what a walk makes of the rows it reads -----

  function AddRow(positions: Positions, m: Member): Positions {
    positions[m.score := (if m.score in positions then positions[m.score] else []) + [m.key]]
  }

  function Grouped(rows: seq<Member>): Positions {
    if rows == [] then map[] else AddRow(Grouped(rows[..|rows| - 1]), rows[|rows| - 1])
  }

  function Foreign(rows: seq<Member>, prefix: Prefix): seq<Member> {
    if rows == [] then [] else
      var m := rows[|rows| - 1];
      Foreign(rows[..|rows| - 1], prefix) + (if Belongs(m.key, prefix) then [] else [m])
  }

  /** A zero score arrives with no score field at all and is reported. */
  function Zeros(rows: seq<Member>): seq<Malformed> {
    if rows == [] then [] else
      var m := rows[|rows| - 1];
      Zeros(rows[..|rows| - 1]) + (if m.score == 0.0 then [ZeroScore(m)] else [])
  }

  /** What one page reports: a row below the cursor it asked for, a row with no score. */
  function BadRows(min: Option<real>, rows: seq<Member>): seq<Malformed> {
    if rows == [] then [] else
      var m := rows[|rows| - 1];
      BadRows(min, rows[..|rows| - 1])
      + (if AtLeast(min, m.score) then [] else [OutsideBound(m)]) + (if m.score == 0.0 then [ZeroScore(m)] else [])
  }

  function BadPages(pages: seq<ScorePage>): seq<Malformed> {
    if pages == [] then [] else
      BadPages(pages[..|pages| - 1]) + BadRows(pages[|pages| - 1].cursor, pages[|pages| - 1].rows)
  }

  lemma {:induction false} InBoundRows(min: Option<real>, rows: seq<Member>)
    requires forall m :: m in rows ==> AtLeast(min, m.score)
    ensures BadRows(min, rows) == Zeros(rows)
  {
    if rows != [] {
      assert rows[|rows| - 1] in rows;
      InBoundRows(min, rows[..|rows| - 1]);
    }
  }

  lemma {:induction false} OutsideRows(min: Option<real>, rows: seq<Member>, m: Member)
    ensures OutsideBound(m) in BadRows(min, rows) <==> m in rows && !AtLeast(min, m.score)
  {
    if rows != [] {
      OutsideRows(min, rows[..|rows| - 1], m);
      assert rows == rows[..|rows| - 1] + [rows[|rows| - 1]];
    }
  }

  lemma {:induction false} ZerosJoin(rows: seq<Member>, more: seq<Member>)
    ensures Zeros(rows + more) == Zeros(rows) + Zeros(more)
  {
    if more == [] {
      assert rows + more == rows;
    } else {
      ZerosJoin(rows, more[..|more| - 1]);
      assert (rows + more)[..|rows + more| - 1] == rows + more[..|more| - 1];
    }
  }

  /** A row outside its page's bound is reported, and nothing else is reported as one. */
  lemma {:induction false} OutsideIsReported(pages: seq<ScorePage>, m: Member)
    ensures OutsideBound(m) in BadPages(pages) <==>
              exists k :: 0 <= k < |pages| && m in pages[k].rows && !AtLeast(pages[k].cursor, m.score)
  {
    if pages != [] {
      var last := pages[|pages| - 1];
      OutsideIsReported(pages[..|pages| - 1], m);
      OutsideRows(last.cursor, last.rows, m);
      if k :| 0 <= k < |pages| && m in pages[k].rows && !AtLeast(pages[k].cursor, m.score) {
        assert k < |pages| - 1 ==> pages[..|pages| - 1][k] == pages[k];
      }
    }
  }

  lemma {:induction false} ZeroRows(min: Option<real>, rows: seq<Member>, m: Member)
    ensures ZeroScore(m) in BadRows(min, rows) <==> m in rows && m.score == 0.0
    ensures ZscanFailed !in BadRows(min, rows)
  {
    if rows != [] {
      ZeroRows(min, rows[..|rows| - 1], m);
      assert rows == rows[..|rows| - 1] + [rows[|rows| - 1]];
    }
  }

  /** A row read without a score is reported, as the row it is; and no page that was read counts as a failed one. */
  lemma {:induction false} ZeroIsReported(pages: seq<ScorePage>, m: Member)
    ensures ZeroScore(m) in BadPages(pages) <==> m.score == 0.0 && exists k :: 0 <= k < |pages| && m in pages[k].rows
    ensures ZscanFailed !in BadPages(pages)
  {
    if pages != [] {
      var last := pages[|pages| - 1];
      ZeroIsReported(pages[..|pages| - 1], m);
      ZeroRows(last.cursor, last.rows, m);
      if k :| 0 <= k < |pages| && m in pages[k].rows {
        assert k < |pages| - 1 ==> pages[..|pages| - 1][k] == pages[k];
      }
    }
  }

  ghost predicate Repeats(rows: seq<Member>) {
    exists i, j :: 0 <= i < j < |rows| && rows[i] == rows[j]
  }

  function Walked(rows: seq<Member>, prefix: Prefix, bad: seq<Malformed>): ViewData {
    ViewData(Grouped(rows), Foreign(rows, prefix), bad)
  }

  ghost function Scores(rows: seq<Member>): set<real> {
    set m | m in rows :: m.score
  }

  lemma {:induction false} GroupedScores(rows: seq<Member>)
    ensures Grouped(rows).Keys == Scores(rows)
  {
    if rows != [] {
      var init := rows[..|rows| - 1];
      GroupedScores(init);
      assert Scores(rows) == Scores(init) + {rows[|rows| - 1].score};
    }
  }

  // ----- one page of the walk -----

  /** What is known between two pages: everything below the cursor has been read. */
  ghost predicate Walking(server: Server, min: Option<real>, calls: nat, read: seq<Member>) {
    && (calls == 0 <==> min.None?)
    && (calls == 0 ==> read == [])
    && (calls > 0 ==> |read| >= PAGE && |server.final| >= PAGE)
    && (min.Some? ==> exists m :: m in read && m.score == min.value && m in server.views(calls))
    && (forall m :: m in read ==> m in server.final && min.Some? && m.score <= min.value)
    && (forall m :: m in server.views(0) && min.Some? && m.score < min.value ==> m in read)
    && (calls > 1 && FewPerScore(server.final) ==> Repeats(read))
  }

  lemma {:induction false} SameScores(rows: seq<Member>, more: seq<Member>)
    ensures Scores(rows + more) == Scores(rows) + Scores(more)
  {
  }

  lemma {:induction false} SeenScoreAddsNothing(read: seq<Member>, rows: seq<Member>, score: real)
    requires score in Scores(read)
    requires forall i :: 0 <= i < |rows| ==> rows[i].score == score
    ensures |Grouped(read + rows)| == |Grouped(read)|
  {
    GroupedScores(read);
    GroupedScores(read + rows);
    SameScores(read, rows);
    assert Scores(read + rows) == Scores(read);
  }

  /** The walk goes on only past its cursor. */
  lemma {:induction false} NewScoreIsAbove(server: Server, min: Option<real>, calls: nat, read: seq<Member>, rows: seq<Member>)
    requires Walking(server, min, calls, read) && min.Some? && rows != []
    requires IsPage(server.views(calls), min, PAGE, rows)
    requires |Grouped(read + rows)| != |Grouped(read)|
    ensures rows[|rows| - 1].score > min.value
  {
    assert min.value in Scores(read);
    if forall i :: 0 <= i < |rows| ==> rows[i].score == min.value {
      SeenScoreAddsNothing(read, rows, min.value);
    } else {
      var i :| 0 <= i < |rows| && rows[i].score != min.value;
      assert AtLeast(min, rows[i].score);
      assert i < |rows| - 1 ==> rows[i].score <= rows[|rows| - 1].score;
    }
  }

  /** With few members per score a full page always brings a new one. */
  lemma {:induction false} FullPageIsNew(server: Server, min: Option<real>, calls: nat, read: seq<Member>, rows: seq<Member>)
    requires Honest(server) && FewPerScore(server.final) && Walking(server, min, calls, read)
    requires IsPage(server.views(calls), min, PAGE, rows) && |rows| == PAGE
    ensures |Grouped(read + rows)| != |Grouped(read)|
  {
    FewInSubset(server.views(calls), server.final);
    if min.Some? { FullPageAdvances(server.views(calls), min.value, rows); }
    GroupedScores(read);
    GroupedScores(read + rows);
    SameScores(read, rows);
    var unseen := rows[|rows| - 1].score;
    assert unseen in Scores(rows) && unseen !in Scores(read);
    SubsetSize(Scores(read), Scores(read + rows));
  }

  /** Reading the cursor's row again is what every page after the first does. */
  lemma {:induction false} BoundaryRepeats(server: Server, min: Option<real>, calls: nat, read: seq<Member>, rows: seq<Member>)
    requires Honest(server) && FewPerScore(server.final) && Walking(server, min, calls, read) && min.Some?
    requires IsPage(server.views(calls), min, PAGE, rows)
    ensures Repeats(read + rows)
  {
    FewInSubset(server.views(calls), server.final);
    var m :| m in read && m.score == min.value && m in server.views(calls);
    PageHoldsCursor(server.views(calls), m, rows);
    var i :| 0 <= i < |read| && read[i] == m;
    var j :| 0 <= j < |rows| && rows[j] == m;
    assert (read + rows)[i] == (read + rows)[|read| + j];
  }

  lemma {:induction false} PageIsRead(server: Server, min: Option<real>, calls: nat, read: seq<Member>, rows: seq<Member>)
    requires Honest(server) && Walking(server, min, calls, read)
    requires IsPage(server.views(calls), min, PAGE, rows) && |rows| == PAGE
    ensures |server.final| >= PAGE
    ensures forall m :: m in server.views(0) && m.score < rows[PAGE - 1].score ==> m in read + rows
  {
    DistinctRows(rows);
    assert server.views(calls) <= server.final;
    SubsetSize(Members(rows), server.final);
    forall m | m in server.views(0) && m.score < rows[PAGE - 1].score ensures m in read + rows {
      assert m in server.views(calls);
      if AtLeast(min, m.score) { assert m in rows; }
    }
  }

  lemma {:induction false} WalkOn(server: Server, min: Option<real>, calls: nat, read: seq<Member>, rows: seq<Member>)
    requires Honest(server) && Walking(server, min, calls, read)
    requires IsPage(server.views(calls), min, PAGE, rows) && |rows| == PAGE
    requires |Grouped(read + rows)| != |Grouped(read)|
    ensures Walking(server, Some(rows[PAGE - 1].score), calls + 1, read + rows)
    ensures min.None? || rows[PAGE - 1].score > min.value
  {
    var last := rows[PAGE - 1];
    assert server.views(calls) <= server.final && server.views(calls) <= server.views(calls + 1);
    if min.Some? { NewScoreIsAbove(server, min, calls, read, rows); }
    PageIsRead(server, min, calls, read, rows);
    assert last in rows && last in read + rows;
    if calls + 1 > 1 && FewPerScore(server.final) { BoundaryRepeats(server, min, calls, read, rows); }
    UpToTheLast(server, min, calls, read, rows);
  }

  lemma {:induction false} UpToTheLast(server: Server, min: Option<real>, calls: nat, read: seq<Member>, rows: seq<Member>)
    requires Honest(server) && Walking(server, min, calls, read)
    requires IsPage(server.views(calls), min, PAGE, rows) && |rows| == PAGE
    requires min.None? || rows[PAGE - 1].score > min.value
    ensures forall m :: m in read + rows ==> m in server.final && m.score <= rows[PAGE - 1].score
  {
    assert server.views(calls) <= server.final;
    forall m | m in read + rows ensures m in server.final && m.score <= rows[PAGE - 1].score {
      if m in rows { var i :| 0 <= i < |rows| && rows[i] == m; }
    }
  }

  /** What the finished walk has read. */
  ghost predicate WalkDone(server: Server, read: seq<Member>) {
    && (forall m :: m in read ==> m in server.final)
    && (FewPerScore(server.final) ==> forall m :: m in server.views(0) ==> m in read)
    && (FewPerScore(server.final) && |server.views(0)| >= PAGE ==> Repeats(read))
    && (|server.final| < PAGE ==> !Repeats(read))
  }

  lemma {:induction false} WalkEnds(server: Server, min: Option<real>, calls: nat, read: seq<Member>, rows: seq<Member>)
    requires Honest(server) && Walking(server, min, calls, read)
    requires IsPage(server.views(calls), min, PAGE, rows)
    requires |rows| < PAGE || |Grouped(read + rows)| == |Grouped(read)|
    ensures WalkDone(server, read + rows)
  {
    if FewPerScore(server.final) {
      if |rows| == PAGE {
        FullPageIsNew(server, min, calls, read, rows);
        assert false;
      }
      forall m | m in server.views(0) ensures m in read + rows { assert m in server.views(calls); }
      if min.Some? { BoundaryRepeats(server, min, calls, read, rows); }
      else if |server.views(0)| >= PAGE {
        DistinctRows(rows);
        assert server.views(0) <= Members(rows);
        SubsetSize(server.views(0), Members(rows));
        assert false;
      }
    }
  }

  function TakeRow(data: ViewData, m: Member, min: Option<real>, prefix: Prefix): ViewData {
    ViewData(AddRow(data.positions, m),
             data.foreign + (if Belongs(m.key, prefix) then [] else [m]),
             data.malformed + (if AtLeast(min, m.score) then [] else [OutsideBound(m)])
                            + (if m.score == 0.0 then [ZeroScore(m)] else []))
  }

  lemma {:induction false} OneMoreRow(rows: seq<Member>, i: nat, min: Option<real>, prefix: Prefix, read: seq<Member>, bad: seq<Malformed>)
    requires i < |rows|
    ensures TakeRow(Walked(read + rows[..i], prefix, bad + BadRows(min, rows[..i])), rows[i], min, prefix)
            == Walked(read + rows[..i + 1], prefix, bad + BadRows(min, rows[..i + 1]))
  {
    var now, here := read + rows[..i + 1], rows[..i + 1];
    assert now[..|now| - 1] == read + rows[..i] && now[|now| - 1] == rows[i];
    assert here[..|here| - 1] == rows[..i];
  }

  method TakeRows(rows: seq<Member>, min: Option<real>, prefix: Prefix, data: ViewData,
                  ghost read: seq<Member>, ghost bad: seq<Malformed>)
    returns (data': ViewData)
    requires data == Walked(read, prefix, bad)
    ensures data' == Walked(read + rows, prefix, bad + BadRows(min, rows))
  {
    data' := data;
    assert read + rows[..0] == read && bad + BadRows(min, rows[..0]) == bad;
    for i := 0 to |rows|
      invariant data' == Walked(read + rows[..i], prefix, bad + BadRows(min, rows[..i]))
    {
      OneMoreRow(rows, i, min, prefix, read, bad);
      var row := rows[i];
      var malformed := data'.malformed;
      if min.Some? && row.score < min.value { malformed := malformed + [OutsideBound(row)]; }
      if row.score == 0.0 { malformed := malformed + [ZeroScore(row)]; }
      data' := ViewData(AddRow(data'.positions, row),
                        data'.foreign + (if Belongs(row.key, prefix) then [] else [row]),
                        malformed);
    }
    assert rows[..|rows|] == rows;
  }

  ghost function ScoresOf(view: set<Member>): set<real> {
    set m | m in view :: m.score
  }

  /** A full page that brought a score not seen before. */
  predicate CollectGoesOn(pages: seq<ScorePage>) {
    && pages != [] && |pages[|pages| - 1].rows| >= PAGE
    && |Grouped(RowsOf(pages))| != |Grouped(RowsOf(pages[..|pages| - 1]))|
  }

  ghost function CollectRead(s: Server): Read<Option<real>, Member> { ScoreRead(s, CollectGoesOn) }

  lemma {:induction false} BadPagesAppend(pages: seq<ScorePage>, page: ScorePage)
    ensures BadPages(pages + [page]) == BadPages(pages) + BadRows(page.cursor, page.rows)
  {
    assert (pages + [page])[..|pages|] == pages;
  }

  /** One more answered call either ends the walk or leaves it underway. */
  lemma {:induction false} CollectCall(s: Server, pages: seq<ScorePage>, page: ScorePage)
    requires Underway(CollectRead(s), pages)
    requires page.cursor == Cursor(CollectRead(s), pages) && s.answer(|pages|, page.cursor) == Some(page.rows)
    ensures RowsOf(pages + [page]) == RowsOf(pages) + page.rows
    ensures page.rows != [] ==> Cursor(CollectRead(s), pages + [page]) == Some(page.rows[|page.rows| - 1].score)
    ensures if |page.rows| >= PAGE && |Grouped(RowsOf(pages) + page.rows)| != |Grouped(RowsOf(pages))|
            then Underway(CollectRead(s), pages + [page]) else StopsAt(CollectRead(s), pages + [page])
  {
    var pages' := pages + [page];
    assert pages'[..|pages|] == pages && pages'[|pages'| - 1] == page;
    OnePage(CollectRead(s), pages, page);
    RowsOfAppend(pages, page);
    assert CollectRead(s).more(pages') == CollectGoesOn(pages');
  }

  /** A page that brought a new score brought one not grouped before. */
  lemma {:induction false} GroupedInside(server: Server, read: seq<Member>)
    requires forall m :: m in read ==> m in server.final
    ensures |Grouped(read)| <= |ScoresOf(server.final)|
  {
    GroupedScores(read);
    forall s | s in Scores(read) ensures s in ScoresOf(server.final) {}
    SubsetSize(Scores(read), ScoresOf(server.final));
  }

  lemma {:induction false} GroupedGrows(read: seq<Member>, rows: seq<Member>)
    ensures |Grouped(read + rows)| >= |Grouped(read)|
  {
    GroupedScores(read);
    GroupedScores(read + rows);
    SameScores(read, rows);
    SubsetSize(Scores(read), Scores(read + rows));
  }

  /** What is known between two pages of a server that honours its bound. */
  ghost predicate HonestSoFar(server: Server, min: Option<real>, calls: nat, read: seq<Member>, pages: seq<ScorePage>) {
    Honest(server) ==> Walking(server, min, calls, read) && BadPages(pages) == Zeros(read)
  }

  ghost predicate HonestDone(server: Server, read: seq<Member>, pages: seq<ScorePage>) {
    Honest(server) ==> WalkDone(server, read) && BadPages(pages) == Zeros(read)
  }

  lemma {:induction false} NextHonest(server: Server, min: Option<real>, calls: nat, read: seq<Member>, pages: seq<ScorePage>, rows: seq<Member>)
    requires HonestSoFar(server, min, calls, read, pages) && server.answer(calls, min) == Some(rows)
    ensures |rows| < PAGE || |Grouped(read + rows)| == |Grouped(read)| ==>
              HonestDone(server, read + rows, pages + [Page(min, rows)])
    ensures rows != [] && |rows| >= PAGE && |Grouped(read + rows)| != |Grouped(read)| ==>
              HonestSoFar(server, Some(rows[|rows| - 1].score), calls + 1, read + rows, pages + [Page(min, rows)])
  {
    BadPagesAppend(pages, Page(min, rows));
    if Honest(server) {
      assert IsPage(server.views(calls), min, PAGE, rows);
      InBoundRows(min, rows);
      ZerosJoin(read, rows);
      if |rows| < PAGE || |Grouped(read + rows)| == |Grouped(read)| {
        WalkEnds(server, min, calls, read, rows);
      } else {
        WalkOn(server, min, calls, read, rows);
      }
    }
  }

  /** The answered calls and what they read: the walk was answered throughout, or it failed after them. */
  ghost predicate Collected(server: Server, read: seq<Member>, pages: seq<ScorePage>, ok: bool) {
    && read == RowsOf(pages) && (forall m :: m in read ==> m in server.final)
    && (if ok then StopsAt(CollectRead(server), pages) else FailsAfter(CollectRead(server), pages))
  }

  lemma {:induction false} RowsInside(server: Server, min: Option<real>, calls: nat, read: seq<Member>, rows: seq<Member>)
    requires AnswersFrom(server) && server.answer(calls, min) == Some(rows)
    requires forall m :: m in read ==> m in server.final
    ensures forall m :: m in read + rows ==> m in server.final
    ensures |Grouped(read)| <= |Grouped(read + rows)| <= |ScoresOf(server.final)|
  {
    forall m | m in rows ensures m in server.final {
      var j :| 0 <= j < |rows| && rows[j] == m;
    }
    GroupedGrows(read, rows);
    GroupedInside(server, read + rows);
  }

  /** A walk that was collected to its end had every call answered. */
  lemma {:induction false} CollectedMeans(server: Server, read: seq<Member>, pages: seq<ScorePage>, ok: bool)
    requires Collected(server, read, pages, ok)
    ensures ok <==> !Unanswered(CollectRead(server))
  {
    if ok {
      forall other ensures !FailsAfter(CollectRead(server), other) { OneEnd(CollectRead(server), pages, other); }
    }
  }

  /** What is known between two calls of the walk. */
  ghost predicate Collecting(server: Server, min: Option<real>, read: seq<Member>, pages: seq<ScorePage>) {
    && read == RowsOf(pages) && (forall m :: m in read ==> m in server.final)
    && Underway(CollectRead(server), pages) && min == Cursor(CollectRead(server), pages)
    && HonestSoFar(server, min, |pages|, read, pages)
  }

  /** One answered call: the walk ends, or goes on with a score more. */
  lemma {:induction false} CollectOn(server: Server, min: Option<real>, read: seq<Member>, pages: seq<ScorePage>, rows: seq<Member>)
    requires AnswersFrom(server) && Collecting(server, min, read, pages) && server.answer(|pages|, min) == Some(rows)
    ensures BadPages(pages + [Page(min, rows)]) == BadPages(pages) + BadRows(min, rows)
    ensures |Grouped(read)| <= |Grouped(read + rows)| <= |ScoresOf(server.final)|
    ensures if |rows| < PAGE || |Grouped(read + rows)| == |Grouped(read)|
            then Collected(server, read + rows, pages + [Page(min, rows)], true)
                 && HonestDone(server, read + rows, pages + [Page(min, rows)])
            else Collecting(server, Some(rows[|rows| - 1].score), read + rows, pages + [Page(min, rows)])
  {
    NextHonest(server, min, |pages|, read, pages, rows);
    CollectCall(server, pages, Page(min, rows));
    BadPagesAppend(pages, Page(min, rows));
    RowsInside(server, min, |pages|, read, rows);
  }

  /** Walks one view. Whatever the view holds and whatever bound the server applies, the walk
      ends: every further page brings a score not seen before. `pages` are the answered calls,
      `read` their rows in order, and `ok` says every call was answered. */
  method CollectView(prefix: Prefix, server: Server)
    returns (data: ViewData, ok: bool, ghost read: seq<Member>, ghost pages: seq<ScorePage>)
    requires AnswersFrom(server)
    ensures data == Walked(read, prefix, BadPages(pages) + (if ok then [] else [ZscanFailed]))
    ensures Collected(server, read, pages, ok)
    ensures ok <==> !Unanswered(CollectRead(server))
    // A server that honours its bound:
    ensures Honest(server) ==> BadPages(pages) == Zeros(read)
    ensures Honest(server) && ok ==> WalkDone(server, read)
    ensures Honest(server) && |server.final| < PAGE ==> (ok <==> server.answer(0, None).Some?)
  {
    data := ViewData(map[], [], []);
    var min: Option<real> := None;
    var calls := 0;
    read, pages := [], [];
    while true
      invariant data == Walked(read, prefix, BadPages(pages)) && calls == |pages|
      invariant Collecting(server, min, read, pages)
      decreases |ScoresOf(server.final)| - |data.positions|
    {
      var reply := server.answer(calls, min);
      if reply.None? {
        CollectedMeans(server, read, pages, false);
        return data.(malformed := data.malformed + [ZscanFailed]), false, read, pages;
      }
      var rows := reply.value;
      CollectOn(server, min, read, pages, rows);
      var before := |data.positions|;
      data := TakeRows(rows, min, prefix, data, read, BadPages(pages));
      read, pages, calls := read + rows, pages + [Page(min, rows)], calls + 1;
      if |rows| < PAGE || |data.positions| == before { break; }
      min := Some(rows[|rows| - 1].score);
    }
    ok := true;
    CollectedMeans(server, read, pages, ok);
    assert BadPages(pages) + [] == BadPages(pages);
  }
}
