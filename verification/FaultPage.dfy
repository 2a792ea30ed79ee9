/** Fault records, from the verifier that writes them to the audit row that shows them:
    the paged range read, the fold onto records, and the join with the page. */
module FaultPage {
  import opened Wrappers
  import opened Ledger
  import opened FaultKey
  import opened FaultIdentity
  import opened Paging

  const SCAN_LIMIT: nat := 2500

  /** What a ledger entry under a fault key holds, as far as the page reads it. */
  datatype Body = Other | Fault(committedKey: Ledger.Key, committedTx: int, errorClass: string, signed: bool)

  datatype FaultEntry = FaultEntry(key: Bytes, body: Body, tx: nat)

  // ----- the paged range read -----

  /** Where a page starts: at a key, or past it. */
  datatype Seek = Seek(key: Bytes, inclusive: bool)

  /** A server answering range reads over the entries it holds, honouring its bounds or not; a call may fail. */
  datatype Server = Server(held: set<FaultEntry>, answer: (nat, Seek, Bytes) -> Option<seq<FaultEntry>>)

  ghost predicate AnswersFromHeld(s: Server) {
    forall i: nat, seek, end, j :: s.answer(i, seek, end).Some? && 0 <= j < |s.answer(i, seek, end).value| ==>
      s.answer(i, seek, end).value[j] in s.held
  }

  predicate InWindow(key: Bytes, seek: Bytes, inclusive: bool, end: Bytes) {
    (if inclusive then !Less(key, seek) else Less(seek, key)) && Less(key, end)
  }

  predicate Ascending(rows: seq<FaultEntry>) {
    forall i, j :: 0 <= i < j < |rows| ==> Less(rows[i].key, rows[j].key)
  }

  ghost predicate HonestPage(held: set<FaultEntry>, seek: Bytes, inclusive: bool, end: Bytes, rows: seq<FaultEntry>) {
    && Ascending(rows) && |rows| <= SCAN_LIMIT
    && (forall i :: 0 <= i < |rows| ==> rows[i] in held && InWindow(rows[i].key, seek, inclusive, end))
    && (forall e :: e in held && InWindow(e.key, seek, inclusive, end) && e !in rows ==>
          |rows| == SCAN_LIMIT && Less(rows[|rows| - 1].key, e.key))
  }

  ghost predicate Honest(s: Server) {
    forall i: nat, seek, end :: s.answer(i, seek, end).Some? ==>
      HonestPage(s.held, seek.key, seek.inclusive, end, s.answer(i, seek, end).value)
  }

  datatype ScanResult = ReadFailed | BoundedReadFault(row: FaultEntry) | Entries(rows: seq<FaultEntry>)

  type FaultPages = seq<Page<Seek, FaultEntry>>

  /** Every row lies in the part of the window the page asked for. */
  predicate PageInWindow(page: Page<Seek, FaultEntry>, end: Bytes) {
    forall i :: 0 <= i < |page.rows| ==> InWindow(page.rows[i].key, page.cursor.key, page.cursor.inclusive, end)
  }

  predicate FaultsGoOn(pages: FaultPages, end: Bytes) {
    pages != [] && PageInWindow(pages[|pages| - 1], end) && |pages[|pages| - 1].rows| >= SCAN_LIMIT
  }

  ghost function WindowRead(s: Server, minTx: nat, maxTx: nat): Read<Seek, FaultEntry> {
    var end := Bound(maxTx + 1);
    Read((i, seek) => s.answer(i, seek, end), Seek(Bound(minTx), true), (e: FaultEntry) => Seek(e.key, false),
         (pages: FaultPages) => FaultsGoOn(pages, end))
  }

  /** Some page of the read returns this row from outside the part of the window it asked for. */
  ghost predicate Stray(s: Server, minTx: nat, maxTx: nat, pages: FaultPages, row: FaultEntry) {
    && StopsAt(WindowRead(s, minTx, maxTx), pages) && row in pages[|pages| - 1].rows
    && var seek := pages[|pages| - 1].cursor; !InWindow(row.key, seek.key, seek.inclusive, Bound(maxTx + 1))
  }

  ghost predicate Strays(s: Server, minTx: nat, maxTx: nat) {
    exists pages, row :: Stray(s, minTx, maxTx, pages, row)
  }

  ghost function Ahead(held: set<FaultEntry>, seek: Bytes, inclusive: bool): set<FaultEntry> {
    set e | e in held && (if inclusive then !Less(e.key, seek) else Less(seek, e.key))
  }

  lemma {:induction false} SeekMoves(held: set<FaultEntry>, seek: Bytes, inclusive: bool, last: FaultEntry)
    requires last in Ahead(held, seek, inclusive)
    ensures |Ahead(held, last.key, false)| < |Ahead(held, seek, inclusive)|
  {
    var a, b := Ahead(held, last.key, false), Ahead(held, seek, inclusive);
    LessOrder(last.key, last.key, last.key);
    forall e | e in a ensures e in b {
      LessOrder(seek, last.key, e.key);
      LessOrder(last.key, e.key, seek);
      LessOrder(e.key, seek, last.key);
    }
    assert last !in a;
    assert b == a + (b - a);
  }

  /** Everything up to the cursor has been read, in order. */
  ghost predicate ReadSoFar(held: set<FaultEntry>, from: Bytes, seek: Bytes, inclusive: bool, end: Bytes, rows: seq<FaultEntry>) {
    && Ascending(rows)
    && (inclusive ==> seek == from && rows == [])
    && (!inclusive ==> rows != [] && rows[|rows| - 1].key == seek)
    && (forall i :: 0 <= i < |rows| ==> rows[i] in held && InWindow(rows[i].key, from, true, end))
    && (forall e :: e in held && InWindow(e.key, from, true, end) && e !in rows ==> InWindow(e.key, seek, inclusive, end))
  }

  lemma {:induction false} PageExtends(held: set<FaultEntry>, from: Bytes, seek: Bytes, inclusive: bool, end: Bytes,
                    rows: seq<FaultEntry>, page: seq<FaultEntry>)
    requires ReadSoFar(held, from, seek, inclusive, end, rows) && HonestPage(held, seek, inclusive, end, page)
    ensures Ascending(rows + page)
    ensures forall i :: 0 <= i < |rows + page| ==> (rows + page)[i] in held && InWindow((rows + page)[i].key, from, true, end)
    ensures |page| < SCAN_LIMIT ==>
              forall e :: e in held && InWindow(e.key, from, true, end) ==> e in rows + page
    ensures |page| == SCAN_LIMIT ==> ReadSoFar(held, from, page[|page| - 1].key, false, end, rows + page)
  {
    forall i, j | 0 <= i < |rows| && 0 <= j < |page| ensures Less(rows[i].key, page[j].key) {
      LessOrder(rows[i].key, seek, page[j].key);
    }
    forall j | 0 <= j < |page| ensures InWindow(page[j].key, from, true, end) {
      if !inclusive {
        LessOrder(page[j].key, from, seek);
        LessOrder(from, seek, page[j].key);
        LessOrder(seek, page[j].key, from);
      }
    }
  }

  /** The read is underway with the rows of its pages. */
  ghost predicate WindowBetween(s: Server, minTx: nat, maxTx: nat, pages: FaultPages, seek: Seek, rows: seq<FaultEntry>) {
    && Underway(WindowRead(s, minTx, maxTx), pages) && seek == Cursor(WindowRead(s, minTx, maxTx), pages)
    && rows == RowsOf(pages) && !Less(seek.key, Bound(minTx))
    && (forall e :: e in rows ==> e in s.held && InRange(e.key, Bound(minTx), Bound(maxTx + 1)))
    && (Honest(s) ==> ReadSoFar(s.held, Bound(minTx), seek.key, seek.inclusive, Bound(maxTx + 1), rows))
  }

  /** The read ended by itself, inside its window. */
  ghost predicate WindowDone(s: Server, minTx: nat, maxTx: nat, pages: FaultPages, rows: seq<FaultEntry>) {
    && StopsAt(WindowRead(s, minTx, maxTx), pages) && rows == RowsOf(pages)
    && !Unanswered(WindowRead(s, minTx, maxTx)) && !Strays(s, minTx, maxTx)
    && (forall k :: 0 <= k < |pages| ==> PageInWindow(pages[k], Bound(maxTx + 1)))
    && (forall e :: e in rows ==> e in s.held && InRange(e.key, Bound(minTx), Bound(maxTx + 1)))
    && (Honest(s) ==>
          && Ascending(rows)
          && forall e :: e in s.held && InRange(e.key, Bound(minTx), Bound(maxTx + 1)) ==> e in rows)
  }

  lemma {:induction false} WindowCall(s: Server, minTx: nat, maxTx: nat, pages: FaultPages, page: Page<Seek, FaultEntry>)
    requires var read := WindowRead(s, minTx, maxTx);
             && Underway(read, pages) && page.cursor == Cursor(read, pages)
             && s.answer(|pages|, page.cursor, Bound(maxTx + 1)) == Some(page.rows)
    ensures var read, pages' := WindowRead(s, minTx, maxTx), pages + [page];
            && RowsOf(pages') == RowsOf(pages) + page.rows
            && (if PageInWindow(page, Bound(maxTx + 1)) && |page.rows| >= SCAN_LIMIT
                then Underway(read, pages') && Cursor(read, pages') == Seek(page.rows[|page.rows| - 1].key, false)
                else StopsAt(read, pages'))
  {
    var read, pages' := WindowRead(s, minTx, maxTx), pages + [page];
    assert pages'[..|pages|] == pages && pages'[|pages'| - 1] == page;
    OnePage(read, pages, page);
    RowsOfAppend(pages, page);
    assert read.more(pages') == FaultsGoOn(pages', Bound(maxTx + 1));
  }

  /** Rows past a seek key are in the window when the seek key is. */
  lemma {:induction false} PastSeekIsInside(seek: Seek, from: Bytes, key: Bytes, end: Bytes)
    requires !Less(seek.key, from) && InWindow(key, seek.key, seek.inclusive, end)
    ensures InRange(key, from, end)
  {
    LessOrder(key, from, seek.key);
    LessOrder(from, seek.key, key);
    LessOrder(seek.key, key, from);
  }

  /** A read that ended inside its window was answered throughout, and no page of it strayed. */
  lemma {:induction false} EndedInside(s: Server, minTx: nat, maxTx: nat, pages: FaultPages)
    requires StopsAt(WindowRead(s, minTx, maxTx), pages) && PageInWindow(pages[|pages| - 1], Bound(maxTx + 1))
    ensures !Unanswered(WindowRead(s, minTx, maxTx)) && !Strays(s, minTx, maxTx)
    ensures forall k :: 0 <= k < |pages| ==> PageInWindow(pages[k], Bound(maxTx + 1))
  {
    var read := WindowRead(s, minTx, maxTx);
    forall other ensures !FailsAfter(read, other) { OneEnd(read, pages, other); }
    forall other, row ensures !Stray(s, minTx, maxTx, other, row) { OneEnd(read, pages, other); }
    StopsThere(read, pages);
    forall k | 0 <= k < |pages| - 1 ensures PageInWindow(pages[k], Bound(maxTx + 1)) {
      assert WentOn(read, pages, k) && pages[..k + 1][k] == pages[k];
      assert FaultsGoOn(pages[..k + 1], Bound(maxTx + 1));
    }
  }

  lemma {:induction false} WindowStrays(s: Server, minTx: nat, maxTx: nat, pages: FaultPages, seek: Seek,
                                        before: seq<FaultEntry>, rows: seq<FaultEntry>, i: nat)
    requires WindowBetween(s, minTx, maxTx, pages, seek, before) && i < |rows|
    requires s.answer(|pages|, seek, Bound(maxTx + 1)) == Some(rows)
    requires !InWindow(rows[i].key, seek.key, seek.inclusive, Bound(maxTx + 1))
    ensures Stray(s, minTx, maxTx, pages + [Page(seek, rows)], rows[i])
    ensures Strays(s, minTx, maxTx) && !Unanswered(WindowRead(s, minTx, maxTx))
  {
    var read, page := WindowRead(s, minTx, maxTx), Page(seek, rows);
    WindowCall(s, minTx, maxTx, pages, page);
    assert (pages + [page])[|pages|] == page && page.rows[i] in page.rows;
    assert Stray(s, minTx, maxTx, pages + [page], rows[i]);
    forall other ensures !FailsAfter(read, other) { OneEnd(read, pages + [page], other); }
  }

  lemma {:induction false} PageIsInside(s: Server, k: nat, seek: Seek, from: Bytes, end: Bytes, rows: seq<FaultEntry>)
    requires AnswersFromHeld(s) && s.answer(k, seek, end) == Some(rows)
    requires !Less(seek.key, from) && PageInWindow(Page(seek, rows), end)
    ensures forall e :: e in rows ==> e in s.held && InRange(e.key, from, end)
  {
    forall e | e in rows ensures e in s.held && InRange(e.key, from, end) {
      var j :| 0 <= j < |rows| && rows[j] == e;
      assert InWindow(Page(seek, rows).rows[j].key, seek.key, seek.inclusive, end);
      PastSeekIsInside(seek, from, e.key, end);
    }
  }

  lemma {:induction false} WindowMoves(s: Server, minTx: nat, maxTx: nat, pages: FaultPages, seek: Seek,
                                       before: seq<FaultEntry>, rows: seq<FaultEntry>)
    requires AnswersFromHeld(s) && WindowBetween(s, minTx, maxTx, pages, seek, before)
    requires s.answer(|pages|, seek, Bound(maxTx + 1)) == Some(rows)
    requires PageInWindow(Page(seek, rows), Bound(maxTx + 1)) && |rows| >= SCAN_LIMIT
    ensures WindowBetween(s, minTx, maxTx, pages + [Page(seek, rows)], Seek(rows[|rows| - 1].key, false), before + rows)
  {
    WindowCall(s, minTx, maxTx, pages, Page(seek, rows));
    PageIsInside(s, |pages|, seek, Bound(minTx), Bound(maxTx + 1), rows);
    assert rows[|rows| - 1] in rows;
    if Honest(s) { PageExtends(s.held, Bound(minTx), seek.key, seek.inclusive, Bound(maxTx + 1), before, rows); }
  }

  lemma {:induction false} WindowStarts(s: Server, minTx: nat, maxTx: nat)
    ensures WindowBetween(s, minTx, maxTx, [], Seek(Bound(minTx), true), [])
  {
    LessOrder(Bound(minTx), Bound(minTx), Bound(minTx));
  }

  /** A page that was inside its window leaves less ahead of it. */
  lemma {:induction false} WindowShrinks(s: Server, k: nat, seek: Seek, end: Bytes, rows: seq<FaultEntry>)
    requires AnswersFromHeld(s) && s.answer(k, seek, end) == Some(rows) && rows != []
    requires PageInWindow(Page(seek, rows), end)
    ensures |Ahead(s.held, rows[|rows| - 1].key, false)| < |Ahead(s.held, seek.key, seek.inclusive)|
  {
    var last := rows[|rows| - 1];
    assert last in rows && InWindow(Page(seek, rows).rows[|rows| - 1].key, seek.key, seek.inclusive, end);
    SeekMoves(s.held, seek.key, seek.inclusive, last);
  }

  lemma {:induction false} WindowGoesOn(s: Server, minTx: nat, maxTx: nat, pages: FaultPages, seek: Seek,
                                        before: seq<FaultEntry>, rows: seq<FaultEntry>)
    requires AnswersFromHeld(s) && WindowBetween(s, minTx, maxTx, pages, seek, before)
    requires s.answer(|pages|, seek, Bound(maxTx + 1)) == Some(rows)
    requires PageInWindow(Page(seek, rows), Bound(maxTx + 1)) && |rows| >= SCAN_LIMIT
    ensures WindowBetween(s, minTx, maxTx, pages + [Page(seek, rows)], Seek(rows[|rows| - 1].key, false), before + rows)
    ensures |Ahead(s.held, rows[|rows| - 1].key, false)| < |Ahead(s.held, seek.key, seek.inclusive)|
  {
    WindowMoves(s, minTx, maxTx, pages, seek, before, rows);
    WindowShrinks(s, |pages|, seek, Bound(maxTx + 1), rows);
  }

  lemma {:induction false} WindowEnds(s: Server, minTx: nat, maxTx: nat, pages: FaultPages, seek: Seek,
                                      before: seq<FaultEntry>, rows: seq<FaultEntry>)
    requires AnswersFromHeld(s) && WindowBetween(s, minTx, maxTx, pages, seek, before)
    requires s.answer(|pages|, seek, Bound(maxTx + 1)) == Some(rows)
    requires PageInWindow(Page(seek, rows), Bound(maxTx + 1)) && |rows| < SCAN_LIMIT
    ensures WindowDone(s, minTx, maxTx, pages + [Page(seek, rows)], before + rows)
  {
    WindowCall(s, minTx, maxTx, pages, Page(seek, rows));
    PageIsInside(s, |pages|, seek, Bound(minTx), Bound(maxTx + 1), rows);
    if Honest(s) { PageExtends(s.held, Bound(minTx), seek.key, seek.inclusive, Bound(maxTx + 1), before, rows); }
    assert (pages + [Page(seek, rows)])[|pages|] == Page(seek, rows);
    EndedInside(s, minTx, maxTx, pages + [Page(seek, rows)]);
  }

  /** The first row outside the part of the window the page asked for, or the number of rows. */
  method FirstStray(rows: seq<FaultEntry>, seek: Seek, end: Bytes) returns (i: nat)
    ensures i <= |rows| && forall j :: 0 <= j < i ==> InWindow(rows[j].key, seek.key, seek.inclusive, end)
    ensures i < |rows| ==> !InWindow(rows[i].key, seek.key, seek.inclusive, end)
    ensures i == |rows| ==> PageInWindow(Page(seek, rows), end)
  {
    i := 0;
    while i < |rows| && InWindow(rows[i].key, seek.key, seek.inclusive, end)
      invariant i <= |rows| && forall j :: 0 <= j < i ==> InWindow(rows[j].key, seek.key, seek.inclusive, end)
    {
      i := i + 1;
    }
  }

  /** Every fault entry of [minTx, maxTx], in one paginated range scan. `pages` are the answered calls. */
  method FaultsInTxWindow(server: Server, minTx: nat, maxTx: nat) returns (result: ScanResult, ghost pages: FaultPages)
    requires AnswersFromHeld(server)
    // It fails for an unanswered call, refuses for a row outside its bound, and for nothing else.
    ensures result.ReadFailed? <==> Unanswered(WindowRead(server, minTx, maxTx))
    ensures result.BoundedReadFault? <==> Strays(server, minTx, maxTx)
    ensures result.BoundedReadFault? ==> Stray(server, minTx, maxTx, pages, result.row)
    // Otherwise it returns the rows of all its pages, each inside the part of the window that page asked for.
    ensures result.Entries? ==> WindowDone(server, minTx, maxTx, pages, result.rows)
  {
    var end := Bound(maxTx + 1);
    var seek := Seek(Bound(minTx), true);
    var entries: seq<FaultEntry> := [];
    var calls := 0;
    pages := [];
    WindowStarts(server, minTx, maxTx);
    while true
      invariant calls == |pages| && WindowBetween(server, minTx, maxTx, pages, seek, entries)
      decreases |Ahead(server.held, seek.key, seek.inclusive)|
    {
      var reply := server.answer(calls, seek, end);
      if reply.None? {
        WindowFails(server, minTx, maxTx, pages, seek, entries);
        return ReadFailed, pages;
      }
      var rows := reply.value;
      ghost var at := pages;
      pages := pages + [Page(seek, rows)];
      calls := calls + 1;
      var i := FirstStray(rows, seek, end);
      if i < |rows| {
        WindowStrays(server, minTx, maxTx, at, seek, entries, rows, i);
        return BoundedReadFault(rows[i]), pages;
      }
      if |rows| < SCAN_LIMIT {
        WindowEnds(server, minTx, maxTx, at, seek, entries, rows);
        return Entries(entries + rows), pages;
      }
      WindowGoesOn(server, minTx, maxTx, at, seek, entries, rows);
      entries := entries + rows;
      seek := Seek(rows[|rows| - 1].key, false);
    }
  }

  lemma {:induction false} WindowFails(s: Server, minTx: nat, maxTx: nat, pages: FaultPages, seek: Seek, rows: seq<FaultEntry>)
    requires WindowBetween(s, minTx, maxTx, pages, seek, rows) && s.answer(|pages|, seek, Bound(maxTx + 1)).None?
    ensures Unanswered(WindowRead(s, minTx, maxTx)) && !Strays(s, minTx, maxTx)
  {
    assert FailsAfter(WindowRead(s, minTx, maxTx), pages);
    forall other, row ensures !Stray(s, minTx, maxTx, other, row) {
      if StopsAt(WindowRead(s, minTx, maxTx), other) { OneEnd(WindowRead(s, minTx, maxTx), other, pages); }
    }
  }

  /** A server that honours its bounds is never refused for one. */
  lemma {:induction false} HonestNeverStrays(s: Server, minTx: nat, maxTx: nat)
    requires Honest(s)
    ensures !Strays(s, minTx, maxTx)
  {
    forall pages: FaultPages, row ensures !Stray(s, minTx, maxTx, pages, row) {
      if StopsAt(WindowRead(s, minTx, maxTx), pages) {
        var k := |pages| - 1;
        assert Answered(WindowRead(s, minTx, maxTx), pages, k);
        assert HonestPage(s.held, pages[k].cursor.key, pages[k].cursor.inclusive, Bound(maxTx + 1), pages[k].rows);
      }
    }
  }

  // ----- folding faults onto the records they qualify -----

  /** What a page row carries about its record's most recent fault. */
  datatype Rendered = Rendered(errorClass: string, committedTx: int, faultKey: Bytes)

  datatype Shown = Shown(fault: Rendered, count: nat, tx: nat)

  /** The record an entry qualifies, when the page will present it at all: a signed fault whose
      key and body name one transaction. */
  function Qualifies(e: FaultEntry): Option<Ledger.Key> {
    if e.body.Fault? && KeyTransaction(e.key).Some? && KeyTransaction(e.key).value == e.body.committedTx && e.body.signed
    then Some(e.body.committedKey) else None
  }

  function Render(e: FaultEntry): Rendered {
    if e.body.Fault? then Rendered(e.body.errorClass, e.body.committedTx, e.key) else Rendered("", 0, [])
  }

  /** A fault the page may present about the record under `key`: signed, naming that record, and placed by its
      key at the transaction its body names. */
  predicate About(e: FaultEntry, key: Ledger.Key) {
    && e.body.Fault? && e.body.signed && e.body.committedKey == key
    && KeyTransaction(e.key).Some? && KeyTransaction(e.key).value == e.body.committedTx
  }

  /** What is shown is this fault's own error class, transaction and key. */
  predicate Displays(shown: Rendered, e: FaultEntry) {
    && e.body.Fault?
    && shown.errorClass == e.body.errorClass && shown.committedTx == e.body.committedTx && shown.faultKey == e.key
  }

  /** The page presents an entry exactly when it is a fault about some record, and then as it is. */
  lemma {:induction false} PresentedExactly(e: FaultEntry, key: Ledger.Key)
    ensures Place(e).record == Some(key) <==> About(e, key)
    ensures About(e, key) ==> Displays(Place(e).fault, e) && Place(e).tx == e.tx
  {
  }

  /** One entry as the fold sees it. */
  datatype Placed = Placed(record: Option<Ledger.Key>, fault: Rendered, tx: nat)

  function Place(e: FaultEntry): Placed { Placed(Qualifies(e), Render(e), e.tx) }

  function PlaceAll(rows: seq<FaultEntry>): (placed: seq<Placed>)
    ensures |placed| == |rows| && forall i :: 0 <= i < |rows| ==> placed[i] == Place(rows[i])
  {
    seq(|rows|, i requires 0 <= i < |rows| => Place(rows[i]))
  }

  function CountFor(placed: seq<Placed>, key: Ledger.Key): nat {
    if placed == [] then 0
    else CountFor(placed[..|placed| - 1], key) + (if placed[|placed| - 1].record == Some(key) then 1 else 0)
  }

  predicate Concerns(placed: seq<Placed>, i: int, key: Ledger.Key) {
    0 <= i < |placed| && placed[i].record == Some(key)
  }

  /** `shown` is the newest of the faults about `key`, and counts them all. */
  ghost predicate Folds(placed: seq<Placed>, key: Ledger.Key, shown: Shown) {
    && shown.count == CountFor(placed, key)
    && (exists i :: Concerns(placed, i, key) && placed[i].tx == shown.tx && placed[i].fault == shown.fault)
    && (forall i :: Concerns(placed, i, key) ==> placed[i].tx <= shown.tx)
  }

  ghost predicate FoldedOnto(placed: seq<Placed>, faults: map<Ledger.Key, Shown>) {
    && (forall k :: k in faults <==> exists i :: Concerns(placed, i, k))
    && (forall k :: k in faults ==> Folds(placed, k, faults[k]))
  }

  function MergeFault(faults: map<Ledger.Key, Shown>, key: Ledger.Key, rendered: Rendered, tx: nat, count: nat)
    : map<Ledger.Key, Shown>
  {
    if key !in faults then faults[key := Shown(rendered, count, tx)]
    else
      var existing := faults[key];
      faults[key := if tx > existing.tx then Shown(rendered, existing.count + count, tx)
                    else existing.(count := existing.count + count)]
  }

  lemma {:induction false} NoneMeansZero(placed: seq<Placed>, key: Ledger.Key)
    requires forall i :: !Concerns(placed, i, key)
    ensures CountFor(placed, key) == 0
  {
    if placed != [] {
      var init := placed[..|placed| - 1];
      forall i ensures !Concerns(init, i, key) { assert Concerns(init, i, key) ==> Concerns(placed, i, key); }
      assert !Concerns(placed, |placed| - 1, key);
      NoneMeansZero(init, key);
    }
  }

  lemma {:induction false} ConcernsAppend(placed: seq<Placed>, p: Placed, i: int, key: Ledger.Key)
    ensures Concerns(placed + [p], i, key) <==> Concerns(placed, i, key) || (i == |placed| && p.record == Some(key))
  {
  }

  lemma {:induction false} SkipKeepsFold(placed: seq<Placed>, p: Placed, faults: map<Ledger.Key, Shown>, key: Ledger.Key)
    requires FoldedOnto(placed, faults) && p.record != Some(key)
    ensures key in faults <==> exists i :: Concerns(placed + [p], i, key)
    ensures key in faults ==> Folds(placed + [p], key, faults[key])
  {
    var placed' := placed + [p];
    assert placed'[..|placed'| - 1] == placed;
    forall i ensures Concerns(placed', i, key) <==> Concerns(placed, i, key) { ConcernsAppend(placed, p, i, key); }
    if key in faults {
      var i :| Concerns(placed, i, key) && placed[i].tx == faults[key].tx && placed[i].fault == faults[key].fault;
      assert Concerns(placed', i, key) && placed'[i] == placed[i];
    }
  }

  lemma {:induction false} MergeKeepsFold(placed: seq<Placed>, p: Placed, faults: map<Ledger.Key, Shown>, key: Ledger.Key)
    requires FoldedOnto(placed, faults) && p.record == Some(key)
    ensures Concerns(placed + [p], |placed|, key)
    ensures Folds(placed + [p], key, MergeFault(faults, key, p.fault, p.tx, 1)[key])
  {
    var placed' := placed + [p];
    assert placed'[..|placed'| - 1] == placed && placed'[|placed|] == p;
    if key in faults {
      var i :| Concerns(placed, i, key) && placed[i].tx == faults[key].tx && placed[i].fault == faults[key].fault;
      assert Concerns(placed', i, key) && placed'[i] == placed[i];
    } else {
      NoneMeansZero(placed, key);
    }
    forall i | Concerns(placed', i, key)
      ensures placed'[i].tx <= MergeFault(faults, key, p.fault, p.tx, 1)[key].tx
    {
      if i < |placed| { assert Concerns(placed, i, key); }
    }
    assert Concerns(placed', |placed|, key);
  }

  lemma {:induction false} StepKeepsFold(placed: seq<Placed>, p: Placed, faults: map<Ledger.Key, Shown>)
    requires FoldedOnto(placed, faults)
    ensures FoldedOnto(placed + [p],
              if p.record.Some? then MergeFault(faults, p.record.value, p.fault, p.tx, 1) else faults)
  {
    var faults' := if p.record.Some? then MergeFault(faults, p.record.value, p.fault, p.tx, 1) else faults;
    forall k
      ensures k in faults' <==> exists i :: Concerns(placed + [p], i, k)
      ensures k in faults' ==> Folds(placed + [p], k, faults'[k])
    {
      if p.record == Some(k) { MergeKeepsFold(placed, p, faults, k); } else { SkipKeepsFold(placed, p, faults, k); }
    }
  }

  /** The page's faults, keyed by the record each one qualifies. */
  method FoldFaults(rows: seq<FaultEntry>) returns (faults: map<Ledger.Key, Shown>)
    ensures FoldedOnto(PlaceAll(rows), faults)
  {
    faults := map[];
    for i := 0 to |rows|
      invariant FoldedOnto(PlaceAll(rows)[..i], faults)
    {
      var p := Place(rows[i]);
      StepKeepsFold(PlaceAll(rows)[..i], p, faults);
      assert PlaceAll(rows)[..i] + [p] == PlaceAll(rows)[..i + 1];
      if p.record.Some? { faults := MergeFault(faults, p.record.value, p.fault, p.tx, 1); }
    }
    assert PlaceAll(rows)[..|rows|] == PlaceAll(rows);
  }

  // ----- from the writer to the row -----

  /** How the last step, signing the record and setting it, ended. A set that raised may have landed. */
  datatype Setting = Stored | NotSigned | Raised(landed: bool)

  /** One attempt of the verifier to record that a committed record's proof failed: what the read back of
      the record saw and what the write reported, the record's call id with its digest, a fresh nonce, how
      the set ended and at which transaction. */
  datatype FaultWrite = FaultWrite(snapshot: nat, readable: bool, key: Ledger.Key, value: Value, reported: Option<nat>,
                                   callId: CallId, digest: Text, nonce: Text, errorClass: string, setting: Setting, tx: nat)

  predicate WellFormed(f: FaultWrite) {
    |f.digest| == 32 && Ascii(f.digest) && |f.nonce| == NONCE_BYTES && Ascii(f.nonce)
  }

  /** The key's bytes, or nothing when it cannot be built or written. */
  function KeyBytes(tx: nat, callId: CallId, digest: Text, nonce: Text): Option<Bytes> {
    match BuildKey(tx, callId, digest, nonce)
    case TooLong(_) => None
    case Built(text) => Encode(text)
  }

  /** Whatever the call id, the key is built and written, and reads back as its transaction. */
  lemma {:induction false} KeyBytesAre(tx: nat, callId: CallId, digest: Text, nonce: Text)
    requires tx < LIMIT && |digest| == 32 && Ascii(digest) && |nonce| == NONCE_BYTES && Ascii(nonce)
    ensures Encode(Identity(callId, digest)).Some? && Encode(nonce).Some?
    ensures var bytes := KeyBytes(tx, callId, digest, nonce);
            && bytes == Some(FaultKey.Key(tx, Encode(Identity(callId, digest)).value, Encode(nonce).value))
            && KeyTransaction(bytes.value) == Some(tx)
  {
    FaultKeyIsAlwaysWritable(tx, callId, digest, nonce);
  }

  /** The entry it sets: the transaction in the key is read back from the ledger, and a disagreement
      with the write's own account stops it. */
  function EntryFor(log: Log, f: FaultWrite): Option<FaultEntry> {
    var got := Get(Snapshot(log, f.snapshot), f.key);
    if !f.readable || got.None? || got.value.value != f.value then None
    else if f.reported.Some? && f.reported.value != got.value.tx then None
    else
      var bytes := KeyBytes(got.value.tx, f.callId, f.digest, f.nonce);
      if bytes.None? || f.setting.NotSigned? then None
      else Some(FaultEntry(bytes.value, Fault(f.key, got.value.tx, f.errorClass, true), f.tx))
  }

  /** What the response names: the fault's key, or that none was written. */
  predicate Reported(log: Log, f: FaultWrite) {
    EntryFor(log, f).Some? && f.setting.Stored?
  }

  /** The entry this attempt left in the ledger, if any. */
  function Left(log: Log, f: FaultWrite): Option<FaultEntry> {
    if f.setting == Raised(false) then None else EntryFor(log, f)
  }

  /** The record read back as its own, at the transaction the write reported. */
  predicate ReadBackAgrees(log: Log, f: FaultWrite) {
    var got := Get(Snapshot(log, f.snapshot), f.key);
    f.readable && got.Some? && got.value.value == f.value && (f.reported.Some? ==> f.reported.value == got.value.tx)
  }

  /** A fault is set exactly when its record reads back as its own and it can be signed; and then, whatever
      the call id, it qualifies its record, under a key that names the record's own transaction. */
  lemma {:induction false} WrittenFaultIsPlaced(log: Log, f: FaultWrite)
    requires WriteOnce(log) && Once(f.key) && WellFormed(f) && |log| < LIMIT
    ensures var out := EntryFor(log, f);
            && (out.Some? <==> ReadBackAgrees(log, f) && !f.setting.NotSigned?)
            && (Left(log, f).Some? <==> out.Some? && f.setting != Raised(false))
            && (Left(log, f).Some? ==> Left(log, f) == out)
            && (Reported(log, f) <==> out.Some? && f.setting == Stored)
            && (out.Some? ==>
                  && About(out.value, f.key)
                  && out.value.body.errorClass == f.errorClass && out.value.body.committedTx == LastTx(log, f.key)
                  && Encode(Identity(f.callId, f.digest)).Some? && Encode(f.nonce).Some?
                  && out.value.key == FaultKey.Key(LastTx(log, f.key), Encode(Identity(f.callId, f.digest)).value,
                                                   Encode(f.nonce).value))
  {
    if Get(Snapshot(log, f.snapshot), f.key).Some? {
      var tx := Get(Snapshot(log, f.snapshot), f.key).value.tx;
      if f.snapshot <= |log| { GetFromSnapshot(log, f.snapshot, f.key); }
      KeyBytesAre(tx, f.callId, f.digest, f.nonce);
      EntryShape(log, f, tx, KeyBytes(tx, f.callId, f.digest, f.nonce).value);
    }
  }

  lemma {:induction false} EntryShape(log: Log, f: FaultWrite, tx: nat, bytes: Bytes)
    requires Get(Snapshot(log, f.snapshot), f.key).Some? && Get(Snapshot(log, f.snapshot), f.key).value.tx == tx
    requires KeyBytes(tx, f.callId, f.digest, f.nonce) == Some(bytes) && KeyTransaction(bytes) == Some(tx)
    ensures var out := EntryFor(log, f);
            && (out.Some? <==> ReadBackAgrees(log, f) && !f.setting.NotSigned?)
            && (out.Some? ==> About(out.value, f.key) && out.value.key == bytes
                              && out.value.body.errorClass == f.errorClass && out.value.body.committedTx == tx)
  {
    PlacedBy(bytes, f.key, tx, f.errorClass, f.tx);
  }

  lemma {:induction false} PlacedBy(bytes: Bytes, key: Ledger.Key, recordTx: nat, errorClass: string, tx: nat)
    requires KeyTransaction(bytes) == Some(recordTx)
    ensures Qualifies(FaultEntry(bytes, Fault(key, recordTx, errorClass, true), tx)) == Some(key)
  {
  }

  /** Faults the verifier wrote: each names its record's own transaction. */
  ghost predicate WellPlaced(log: Log, held: set<FaultEntry>) {
    forall e :: e in held && Qualifies(e).Some? ==>
      var tx := LastTx(log, Qualifies(e).value);
      exists id, n :: e.key == FaultKey.Key(tx, id, n)
  }

  /** Everything that qualifies a record was left by one of these attempts of the verifier, each with its own nonce. */
  ghost predicate FromVerifier(log: Log, writes: seq<FaultWrite>, held: set<FaultEntry>) {
    && WriteOnce(log) && |log| < LIMIT
    && (forall i :: 0 <= i < |writes| ==> WellFormed(writes[i]) && Once(writes[i].key))
    && (forall i, j :: 0 <= i < j < |writes| ==> writes[i].nonce != writes[j].nonce)
    && (forall e :: e in held && Qualifies(e).Some? ==>
          exists i :: 0 <= i < |writes| && Left(log, writes[i]) == Some(e))
    && (forall i :: 0 <= i < |writes| && Left(log, writes[i]).Some? ==> Left(log, writes[i]).value in held)
  }

  lemma {:induction false} VerifierPlacesWell(log: Log, writes: seq<FaultWrite>, held: set<FaultEntry>)
    requires FromVerifier(log, writes, held)
    ensures WellPlaced(log, held)
  {
    forall e | e in held && Qualifies(e).Some?
      ensures exists id, n :: e.key == FaultKey.Key(LastTx(log, Qualifies(e).value), id, n)
    {
      var i :| 0 <= i < |writes| && Left(log, writes[i]) == Some(e);
      WrittenFaultIsPlaced(log, writes[i]);
    }
  }

  function Somes(outs: seq<Option<FaultEntry>>): nat {
    if outs == [] then 0 else Somes(outs[..|outs| - 1]) + (if outs[|outs| - 1].Some? then 1 else 0)
  }

  ghost function Entered(outs: seq<Option<FaultEntry>>): set<FaultEntry> {
    set i | 0 <= i < |outs| && outs[i].Some? :: outs[i].value
  }

  lemma {:induction false} DistinctSomes(outs: seq<Option<FaultEntry>>)
    requires forall i, j :: 0 <= i < j < |outs| && outs[i].Some? ==> outs[i] != outs[j]
    ensures |Entered(outs)| == Somes(outs)
  {
    if outs != [] {
      var init, last := outs[..|outs| - 1], outs[|outs| - 1];
      DistinctSomes(init);
      EnteredSplits(outs);
      if last.Some? { assert last.value !in Entered(init); }
    } else {
      assert Entered(outs) == {};
    }
  }

  lemma {:induction false} EnteredSplits(outs: seq<Option<FaultEntry>>)
    requires outs != []
    ensures var init, last := outs[..|outs| - 1], outs[|outs| - 1];
            Entered(outs) == Entered(init) + (if last.Some? then {last.value} else {})
  {
    assert outs == outs[..|outs| - 1] + [outs[|outs| - 1]];
  }

  /** What each attempt left about `key`. */
  function LeftAbout(log: Log, writes: seq<FaultWrite>, key: Ledger.Key): (outs: seq<Option<FaultEntry>>)
    ensures |outs| == |writes|
    ensures forall i :: 0 <= i < |writes| ==> outs[i] == if writes[i].key == key then Left(log, writes[i]) else None
  {
    seq(|writes|, i requires 0 <= i < |writes| =>
      if writes[i].key == key then Left(log, writes[i]) else None)
  }

  /** How many of the attempts left a fault about `key`. */
  function CountLeft(log: Log, writes: seq<FaultWrite>, key: Ledger.Key): nat {
    Somes(LeftAbout(log, writes, key))
  }

  lemma {:induction false} AsciiTellsApart(a: Text, b: Text)
    requires Ascii(a) && Ascii(b) && a != b
    ensures Encode(a) != Encode(b)
  {
    AsciiEncodes(a);
    AsciiEncodes(b);
    if |a| == |b| {
      var i :| 0 <= i < |a| && a[i] != b[i];
      assert Encode(a).value[i] != Encode(b).value[i];
    }
  }

  /** An ASCII nonce is its own encoding, so two faults with different nonces are two entries. */
  lemma {:induction false} NoncesTellApart(log: Log, f: FaultWrite, g: FaultWrite)
    requires WriteOnce(log) && |log| < LIMIT && WellFormed(f) && WellFormed(g) && Once(f.key) && Once(g.key)
    requires f.nonce != g.nonce && Left(log, f).Some? && Left(log, g).Some?
    ensures Left(log, f).value != Left(log, g).value
  {
    WrittenFaultIsPlaced(log, f);
    WrittenFaultIsPlaced(log, g);
    AsciiEncodes(f.nonce);
    AsciiEncodes(g.nonce);
    AsciiTellsApart(f.nonce, g.nonce);
    if Left(log, f).value == Left(log, g).value {
      KeyIsInjective(LastTx(log, f.key), Encode(Identity(f.callId, f.digest)).value, Encode(f.nonce).value,
                     LastTx(log, g.key), Encode(Identity(g.callId, g.digest)).value, Encode(g.nonce).value);
    }
  }

  /** So the faults a record has are as many as the verifier's attempts that left one. */
  lemma {:induction false} FaultsAreCounted(log: Log, writes: seq<FaultWrite>, held: set<FaultEntry>, key: Ledger.Key)
    requires FromVerifier(log, writes, held)
    ensures |FaultsAbout(held, key)| == CountLeft(log, writes, key)
  {
    var outs := LeftAbout(log, writes, key);
    forall i, j | 0 <= i < j < |outs| && outs[i].Some? ensures outs[i] != outs[j] {
      if outs[j].Some? { NoncesTellApart(log, writes[i], writes[j]); }
    }
    DistinctSomes(outs);
    forall e ensures e in FaultsAbout(held, key) <==> e in Entered(outs) { FaultIsLeft(log, writes, held, key, e); }
    assert FaultsAbout(held, key) == Entered(outs);
  }

  lemma {:induction false} FaultIsLeft(log: Log, writes: seq<FaultWrite>, held: set<FaultEntry>, key: Ledger.Key, e: FaultEntry)
    requires FromVerifier(log, writes, held)
    ensures e in FaultsAbout(held, key) <==> e in Entered(LeftAbout(log, writes, key))
  {
    var outs := LeftAbout(log, writes, key);
    if e in FaultsAbout(held, key) {
      var i :| 0 <= i < |writes| && Left(log, writes[i]) == Some(e);
      WrittenFaultIsPlaced(log, writes[i]);
      assert outs[i] == Some(e);
    }
    if e in Entered(outs) {
      var i :| 0 <= i < |outs| && outs[i] == Some(e);
      WrittenFaultIsPlaced(log, writes[i]);
    }
  }

  ghost function FaultsAbout(held: set<FaultEntry>, key: Ledger.Key): set<FaultEntry> {
    set e | e in held && About(e, key)
  }

  function Chosen(rows: seq<FaultEntry>, about: FaultEntry -> bool): set<FaultEntry> {
    set e | e in rows && about(e)
  }

  /** Rows that do not repeat are counted as the set they form. */
  lemma {:induction false} CountIsSize(rows: seq<FaultEntry>, placed: seq<Placed>, key: Ledger.Key, about: FaultEntry -> bool)
    requires |placed| == |rows|
    requires forall i :: 0 <= i < |rows| ==> (about(rows[i]) <==> placed[i].record == Some(key))
    requires forall i, j :: 0 <= i < j < |rows| ==> rows[i] != rows[j]
    ensures CountFor(placed, key) == |Chosen(rows, about)|
  {
    if rows != [] {
      var init, last := rows[..|rows| - 1], rows[|rows| - 1];
      CountIsSize(init, placed[..|rows| - 1], key, about);
      assert last !in init;
      ChosenSplits(rows, about);
    } else {
      assert Chosen(rows, about) == {};
    }
  }

  lemma {:induction false} ChosenSplits(rows: seq<FaultEntry>, about: FaultEntry -> bool)
    requires rows != []
    ensures var init, last := rows[..|rows| - 1], rows[|rows| - 1];
            Chosen(rows, about) == Chosen(init, about) + (if about(last) then {last} else {})
  {
    assert rows == rows[..|rows| - 1] + [rows[|rows| - 1]];
  }

  lemma {:induction false} CountMatches(rows: seq<FaultEntry>, held: set<FaultEntry>, key: Ledger.Key)
    requires Ascending(rows)
    requires forall e :: e in FaultsAbout(held, key) ==> e in rows
    requires forall e :: e in rows ==> e in held
    ensures CountFor(PlaceAll(rows), key) == |FaultsAbout(held, key)|
  {
    forall i, j | 0 <= i < j < |rows| ensures rows[i] != rows[j] {
      LessOrder(rows[i].key, rows[i].key, []);
    }
    var about := (e: FaultEntry) => About(e, key);
    CountIsSize(rows, PlaceAll(rows), key, about);
    assert Chosen(rows, about) == FaultsAbout(held, key);
  }

  /** The row of a record whose faults were all read shows the newest of them and their number. */
  ghost predicate RowShows(held: set<FaultEntry>, faults: map<Ledger.Key, Shown>, key: Ledger.Key) {
    && (key in faults <==> FaultsAbout(held, key) != {})
    && (key in faults ==>
          && faults[key].count == |FaultsAbout(held, key)|
          && (exists e :: e in FaultsAbout(held, key) && e.tx == faults[key].tx && Displays(faults[key].fault, e))
          && (forall e :: e in FaultsAbout(held, key) ==> e.tx <= faults[key].tx))
  }

  lemma {:induction false} FaultIndex(rows: seq<FaultEntry>, key: Ledger.Key, e: FaultEntry) returns (i: nat)
    requires e in rows && Qualifies(e) == Some(key)
    ensures Concerns(PlaceAll(rows), i, key) && PlaceAll(rows)[i] == Place(e)
  {
    i :| 0 <= i < |rows| && rows[i] == e;
  }

  lemma {:induction false} IndexFault(rows: seq<FaultEntry>, key: Ledger.Key, i: nat) returns (e: FaultEntry)
    requires Concerns(PlaceAll(rows), i, key)
    ensures e in rows && Qualifies(e) == Some(key) && PlaceAll(rows)[i] == Place(e)
  {
    e := rows[i];
  }

  lemma {:induction false} RowIsRight(rows: seq<FaultEntry>, held: set<FaultEntry>, faults: map<Ledger.Key, Shown>, key: Ledger.Key)
    requires FoldedOnto(PlaceAll(rows), faults) && Ascending(rows)
    requires forall e :: e in FaultsAbout(held, key) ==> e in rows
    requires forall e :: e in rows ==> e in held
    ensures RowShows(held, faults, key)
  {
    var placed := PlaceAll(rows);
    if key in faults {
      var i :| Concerns(placed, i, key) && placed[i].tx == faults[key].tx && placed[i].fault == faults[key].fault;
      var newest := IndexFault(rows, key, i);
      assert newest in FaultsAbout(held, key);
      CountMatches(rows, held, key);
    }
    forall e | e in FaultsAbout(held, key)
      ensures key in faults && e.tx <= faults[key].tx
    {
      var i := FaultIndex(rows, key, e);
    }
  }

  lemma {:induction false} NothingBorrowed(rows: seq<FaultEntry>, faults: map<Ledger.Key, Shown>, key: Ledger.Key)
    requires FoldedOnto(PlaceAll(rows), faults) && key in faults
    ensures exists e :: e in rows && About(e, key) && Displays(faults[key].fault, e)
  {
    var placed := PlaceAll(rows);
    var i :| Concerns(placed, i, key) && placed[i].tx == faults[key].tx && placed[i].fault == faults[key].fault;
    assert rows[i] in rows;
  }

  /** Every fault of a record on the page falls in the page's own window. */
  lemma {:induction false} FaultInWindow(log: Log, held: set<FaultEntry>, key: Ledger.Key, minTx: nat, maxTx: nat, e: FaultEntry)
    requires WellPlaced(log, held) && maxTx + 1 < LIMIT
    requires minTx <= LastTx(log, key) <= maxTx
    requires e in FaultsAbout(held, key)
    ensures InRange(e.key, Bound(minTx), Bound(maxTx + 1))
  {
    var tx := LastTx(log, key);
    var id, n :| e.key == FaultKey.Key(tx, id, n);
    WindowIsExact(tx, minTx, maxTx, id, n);
  }

  /** The page's own window: its transactions from the least to the greatest. */
  ghost predicate WindowOf(pageTxs: seq<nat>, minTx: nat, maxTx: nat) {
    minTx in pageTxs && maxTx in pageTxs && forall t :: t in pageTxs ==> minTx <= t <= maxTx
  }

  lemma {:induction false} OneWindow(pageTxs: seq<nat>, a: nat, b: nat, c: nat, d: nat)
    requires WindowOf(pageTxs, a, b) && WindowOf(pageTxs, c, d)
    ensures a == c && b == d
  {
  }

  /** The fault read of a page over this window did not come back whole. */
  ghost predicate ReadRefused(s: Server, minTx: nat, maxTx: nat) {
    Unanswered(WindowRead(s, minTx, maxTx)) || Strays(s, minTx, maxTx)
  }

  lemma {:induction false} PageRows(log: Log, writes: seq<FaultWrite>, server: Server, minTx: nat, maxTx: nat,
                 rows: seq<FaultEntry>, faults: map<Ledger.Key, Shown>, key: Ledger.Key)
    requires Honest(server) && WellPlaced(log, server.held) && maxTx + 1 < LIMIT
    requires Ascending(rows) && (forall e :: e in rows ==> e in server.held)
    requires forall e :: e in server.held && InRange(e.key, Bound(minTx), Bound(maxTx + 1)) ==> e in rows
    requires FoldedOnto(PlaceAll(rows), faults) && minTx <= LastTx(log, key) <= maxTx
    ensures RowShows(server.held, faults, key)
    ensures FromVerifier(log, writes, server.held) ==>
              (if key in faults then faults[key].count else 0) == CountLeft(log, writes, key)
  {
    forall e | e in FaultsAbout(server.held, key) ensures e in rows {
      FaultInWindow(log, server.held, key, minTx, maxTx, e);
    }
    RowIsRight(rows, server.held, faults, key);
    if FromVerifier(log, writes, server.held) { FaultsAreCounted(log, writes, server.held, key); }
  }

  /** The fault read of one audit page, from its window to its rows. */
  method PageFaults(ghost log: Log, ghost writes: seq<FaultWrite>, server: Server, pageTxs: seq<nat>)
    returns (ok: bool, faults: map<Ledger.Key, Shown>)
    requires AnswersFromHeld(server)
    requires forall i :: 0 <= i < |pageTxs| ==> pageTxs[i] + 1 < LIMIT
    // The page is refused when a call of its fault read failed or a row lay outside its bound, and for nothing else.
    ensures pageTxs == [] ==> ok && faults == map[]
    ensures forall minTx, maxTx :: WindowOf(pageTxs, minTx, maxTx) ==> (ok <==> !ReadRefused(server, minTx, maxTx))
    // A record on this page shows the newest of its faults and their number, or none when it has none.
    ensures ok && Honest(server) && WellPlaced(log, server.held) ==>
              forall key :: LastTx(log, key) in pageTxs ==> RowShows(server.held, faults, key)
    // Where the verifier wrote the faults, that number is the number of its attempts that left one.
    ensures ok && Honest(server) && FromVerifier(log, writes, server.held) ==>
              forall key :: LastTx(log, key) in pageTxs ==>
                && RowShows(server.held, faults, key)
                && (if key in faults then faults[key].count else 0) == CountLeft(log, writes, key)
    // And no row shows a fault about another record.
    ensures ok ==> forall key :: key in faults ==>
              exists e :: e in server.held && About(e, key) && Displays(faults[key].fault, e)
  {
    if pageTxs == [] { return true, map[]; }
    var minTx, maxTx := pageTxs[0], pageTxs[0];
    for i := 0 to |pageTxs|
      invariant minTx in pageTxs && maxTx in pageTxs
      invariant forall j :: 0 <= j < i ==> minTx <= pageTxs[j] <= maxTx
    {
      if pageTxs[i] < minTx { minTx := pageTxs[i]; }
      if pageTxs[i] > maxTx { maxTx := pageTxs[i]; }
    }
    forall a, b | WindowOf(pageTxs, a, b) ensures a == minTx && b == maxTx { OneWindow(pageTxs, a, b, minTx, maxTx); }
    var result, pages := FaultsInTxWindow(server, minTx, maxTx);
    if !result.Entries? { return false, map[]; }
    faults := FoldFaults(result.rows);
    ok := true;
    forall key | key in faults
      ensures exists e :: e in server.held && About(e, key) && Displays(faults[key].fault, e)
    {
      NothingBorrowed(result.rows, faults, key);
    }
    if Honest(server) && FromVerifier(log, writes, server.held) { VerifierPlacesWell(log, writes, server.held); }
    if Honest(server) && WellPlaced(log, server.held) {
      forall key | LastTx(log, key) in pageTxs
        ensures RowShows(server.held, faults, key)
        ensures FromVerifier(log, writes, server.held) ==>
                  (if key in faults then faults[key].count else 0) == CountLeft(log, writes, key)
      {
        PageRows(log, writes, server, minTx, maxTx, result.rows, faults, key);
      }
    }
  }
}
