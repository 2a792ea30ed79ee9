/** The offline backfill: put every record written before the index existed into
    its view, at the transaction that wrote it, below the reserve. */
module BackfillReads {
  import opened Wrappers
  import opened Ledger
  import opened ZScan
  import opened Paging

  /** One row of a key scan: the key and the transaction of its entry. */
  datatype Record = Record(key: Key, tx: nat)

  datatype Pending = Pending(view: View, key: Key, tx: nat)

  function ViewFor(prefix: Prefix): View { if prefix.ToolCall? then DecisionView else IntentView }

  predicate Under(key: Key, prefix: Prefix) { key.RecordKey? && key.prefix == prefix }

  // ----- the two reads -----

  ghost predicate StrictOrder(below: (Key, Key) -> bool) {
    && (forall a :: !below(a, a))
    && (forall a, b, c :: below(a, b) && below(b, c) ==> below(a, c))
    && (forall a, b :: a != b ==> below(a, b) || below(b, a))
  }

  /** A server for ascending key scans; a call may fail, and it may ignore the prefix, the seek key or both. */
  datatype KeyServer = KeyServer(held: set<Record>, below: (Key, Key) -> bool,
                                 answer: (nat, Option<Key>) -> Option<seq<Record>>)

  predicate Past(s: KeyServer, seek: Option<Key>, key: Key) { seek.None? || s.below(seek.value, key) }

  ghost predicate FromHeld(s: KeyServer) {
    && StrictOrder(s.below)
    && forall i: nat, seek, j :: s.answer(i, seek).Some? && 0 <= j < |s.answer(i, seek).value| ==>
         s.answer(i, seek).value[j] in s.held
  }

  predicate Rising(s: KeyServer, rows: seq<Record>) {
    forall i, j :: 0 <= i < j < |rows| ==> s.below(rows[i].key, rows[j].key)
  }

  ghost predicate KeyPage(s: KeyServer, prefix: Prefix, seek: Option<Key>, rows: seq<Record>) {
    && Rising(s, rows) && |rows| <= PAGE
    && (forall i :: 0 <= i < |rows| ==> rows[i] in s.held && Under(rows[i].key, prefix) && Past(s, seek, rows[i].key))
    && (forall r :: r in s.held && Under(r.key, prefix) && Past(s, seek, r.key) && r !in rows ==>
          |rows| == PAGE && s.below(rows[|rows| - 1].key, r.key))
  }

  ghost predicate HonestKeys(s: KeyServer, prefix: Prefix) {
    FromHeld(s) && forall i: nat, seek :: s.answer(i, seek).Some? ==> KeyPage(s, prefix, seek, s.answer(i, seek).value)
  }

  datatype ScanResult = ScanRefused | Scanned(rows: seq<Record>)

  type SeekPage = Page<Option<Key>, Record>

  /** Every row is under the prefix and past the seek key the page was asked for with. */
  predicate InScan(s: KeyServer, prefix: Prefix, page: SeekPage) {
    forall i :: 0 <= i < |page.rows| ==> Under(page.rows[i].key, prefix) && Past(s, page.cursor, page.rows[i].key)
  }

  predicate ScanGoesOn(s: KeyServer, prefix: Prefix, pages: seq<SeekPage>) {
    pages != [] && InScan(s, prefix, pages[|pages| - 1]) && |pages[|pages| - 1].rows| >= PAGE
  }

  ghost function KeyScan(s: KeyServer, prefix: Prefix): Read<Option<Key>, Record> {
    Read(s.answer, None, (r: Record) => Some(r.key), (pages: seq<SeekPage>) => ScanGoesOn(s, prefix, pages))
  }

  /** Some call of the scan fails, or some page of it holds a row outside what was asked for. */
  ghost predicate ScanRefuses(s: KeyServer, prefix: Prefix) {
    Unanswered(KeyScan(s, prefix)) || exists pages :: StrayScan(s, prefix, pages)
  }

  ghost predicate StrayScan(s: KeyServer, prefix: Prefix, pages: seq<SeekPage>) {
    StopsAt(KeyScan(s, prefix), pages) && !InScan(s, prefix, pages[|pages| - 1])
  }

  ghost function Beyond(s: KeyServer, seek: Option<Key>): set<Record> {
    set r | r in s.held && Past(s, seek, r.key)
  }

  lemma {:induction false} SeekAdvances(s: KeyServer, seek: Option<Key>, last: Record)
    requires FromHeld(s) && last in s.held && Past(s, seek, last.key)
    ensures |Beyond(s, Some(last.key))| < |Beyond(s, seek)|
  {
    assert last in Beyond(s, seek) && last !in Beyond(s, Some(last.key));
    SubsetSize(Beyond(s, Some(last.key)), Beyond(s, seek));
  }

  ghost predicate ScannedSoFar(s: KeyServer, prefix: Prefix, seek: Option<Key>, rows: seq<Record>) {
    && Rising(s, rows)
    && (seek.None? ==> rows == [])
    && (seek.Some? ==> rows != [] && rows[|rows| - 1].key == seek.value)
    && (forall r :: r in s.held && Under(r.key, prefix) && r !in rows ==> Past(s, seek, r.key))
  }

  lemma {:induction false} ScanPageExtends(s: KeyServer, prefix: Prefix, seek: Option<Key>, rows: seq<Record>, page: seq<Record>)
    requires FromHeld(s) && ScannedSoFar(s, prefix, seek, rows) && KeyPage(s, prefix, seek, page)
    ensures Rising(s, rows + page)
    ensures |page| < PAGE ==> forall r :: r in s.held && Under(r.key, prefix) ==> r in rows + page
    ensures |page| == PAGE ==> ScannedSoFar(s, prefix, Some(page[PAGE - 1].key), rows + page)
  {
    forall i, j | 0 <= i < |rows| && 0 <= j < |page| ensures s.below(rows[i].key, page[j].key) {
      assert i < |rows| - 1 ==> s.below(rows[i].key, seek.value);
    }
  }

  /** A finished scan was answered throughout, and every page of it stayed inside what was asked for. */
  lemma {:induction false} ScannedMeans(s: KeyServer, prefix: Prefix, pages: seq<SeekPage>)
    requires StopsAt(KeyScan(s, prefix), pages) && InScan(s, prefix, pages[|pages| - 1])
    ensures !ScanRefuses(s, prefix)
    ensures forall k :: 0 <= k < |pages| ==> InScan(s, prefix, pages[k])
  {
    var scan := KeyScan(s, prefix);
    forall other ensures !FailsAfter(scan, other) && !StrayScan(s, prefix, other) { OneEnd(scan, pages, other); }
    StopsThere(scan, pages);
    forall k | 0 <= k < |pages| - 1 ensures InScan(s, prefix, pages[k]) {
      assert WentOn(scan, pages, k) && pages[..k + 1][k] == pages[k];
    }
  }

  lemma {:induction false} HonestScanStays(s: KeyServer, prefix: Prefix, pages: seq<SeekPage>)
    requires HonestKeys(s, prefix) && StopsAt(KeyScan(s, prefix), pages)
    ensures InScan(s, prefix, pages[|pages| - 1])
  {
    var k := |pages| - 1;
    assert Answered(KeyScan(s, prefix), pages, k);
    assert KeyPage(s, prefix, pages[k].cursor, pages[k].rows);
  }

  /** A scan served within its bounds is refused for a failed call and for nothing else. */
  lemma {:induction false} HonestScanRefusal(s: KeyServer, prefix: Prefix)
    requires HonestKeys(s, prefix)
    ensures ScanRefuses(s, prefix) <==> Unanswered(KeyScan(s, prefix))
  {
    forall pages: seq<SeekPage> ensures !StrayScan(s, prefix, pages) {
      if StopsAt(KeyScan(s, prefix), pages) { HonestScanStays(s, prefix, pages); }
    }
  }

  /** Every record under a prefix, walked in pages. `pages` are the calls that were answered. */
  method ScanAll(prefix: Prefix, server: KeyServer) returns (result: ScanResult, ghost pages: seq<SeekPage>)
    requires FromHeld(server)
    ensures result.ScanRefused? <==> ScanRefuses(server, prefix)
    ensures result.ScanRefused? ==> FailsAfter(KeyScan(server, prefix), pages) || StrayScan(server, prefix, pages)
    ensures result.Scanned? ==>
              && StopsAt(KeyScan(server, prefix), pages) && result.rows == RowsOf(pages)
              && forall k :: 0 <= k < |pages| ==> InScan(server, prefix, pages[k])
    ensures result.Scanned? ==> forall r :: r in result.rows ==> r in server.held && Under(r.key, prefix)
    // From a server that honours its bounds every record is there, in order.
    ensures HonestKeys(server, prefix) && result.Scanned? ==>
              && Rising(server, result.rows)
              && forall r :: r in server.held && Under(r.key, prefix) ==> r in result.rows
  {
    var out: seq<Record> := [];
    var seek: Option<Key> := None;
    var calls := 0;
    ghost var scan := KeyScan(server, prefix);
    pages := [];
    while true
      invariant calls == |pages| && Underway(scan, pages) && seek == Cursor(scan, pages) && out == RowsOf(pages)
      invariant forall r :: r in out ==> r in server.held && Under(r.key, prefix)
      invariant HonestKeys(server, prefix) ==> ScannedSoFar(server, prefix, seek, out)
      decreases |Beyond(server, seek)|
    {
      var reply := server.answer(calls, seek);
      if reply.None? {
        assert FailsAfter(scan, pages);
        return ScanRefused, pages;
      }
      var entries := reply.value;
      ghost var page: SeekPage := Page(seek, entries);
      OnePage(scan, pages, page);
      RowsOfAppend(pages, page);
      if HonestKeys(server, prefix) { ScanPageExtends(server, prefix, seek, out, entries); }
      pages := pages + [page];
      calls := calls + 1;
      for i := 0 to |entries|
        invariant forall j :: 0 <= j < i ==> Under(entries[j].key, prefix) && Past(server, seek, entries[j].key)
      {
        if !Under(entries[i].key, prefix) || !Past(server, seek, entries[i].key) {
          assert StrayScan(server, prefix, pages);
          return ScanRefused, pages;
        }
      }
      out := out + entries;
      if |entries| < PAGE { break; }
      SeekAdvances(server, seek, entries[|entries| - 1]);
      seek := Some(entries[|entries| - 1].key);
    }
    ScannedMeans(server, prefix, pages);
    result := Scanned(out);
  }

  datatype IndexResult = IndexRefused | Seen(keys: set<Key>)

  ghost function KeysOf(view: set<Member>): set<Key> { set m | m in view :: m.key }

  /** The view does not change during the read, and an answered call honours its bound. */
  ghost predicate Still(s: ZScan.Server) {
    && Honest(s) && FewPerScore(s.final) && OneScorePerKey(s.final)
    && forall k: nat :: s.views(k) == s.final
  }

  ghost function KeysRead(pages: seq<ScorePage>): set<Key> {
    if pages == [] then {} else KeysRead(pages[..|pages| - 1]) + KeysOf(Members(pages[|pages| - 1].rows))
  }

  /** A full page inside its bound that brought a key not seen before. */
  ghost predicate IndexGoesOn(pages: seq<ScorePage>) {
    && pages != [] && InBound(pages[|pages| - 1]) && |pages[|pages| - 1].rows| >= PAGE
    && |KeysRead(pages)| != |KeysRead(pages[..|pages| - 1])|
  }

  ghost function IndexRead(s: ZScan.Server): Read<Option<real>, Member> {
    ScoreRead(s, (pages: seq<ScorePage>) => IndexGoesOn(pages))
  }

  /** Some call of the walk fails, or some page of it holds a row below the score it was asked for from. */
  ghost predicate IndexRefuses(s: ZScan.Server) {
    Unanswered(IndexRead(s)) || exists pages :: StrayIndex(s, pages)
  }

  ghost predicate StrayIndex(s: ZScan.Server, pages: seq<ScorePage>) {
    StopsAt(IndexRead(s), pages) && !InBound(pages[|pages| - 1])
  }

  /** A finished walk was answered throughout, and every page of it stayed inside its bound. */
  lemma {:induction false} SeenMeans(s: ZScan.Server, pages: seq<ScorePage>)
    requires StopsAt(IndexRead(s), pages) && InBound(pages[|pages| - 1])
    ensures !IndexRefuses(s)
    ensures forall k :: 0 <= k < |pages| ==> InBound(pages[k])
  {
    var walk := IndexRead(s);
    forall other ensures !FailsAfter(walk, other) && !StrayIndex(s, other) { OneEnd(walk, pages, other); }
    StopsThere(walk, pages);
    forall k | 0 <= k < |pages| - 1 ensures InBound(pages[k]) {
      assert WentOn(walk, pages, k) && pages[..k + 1][k] == pages[k];
    }
  }

  ghost predicate SeenSoFar(s: ZScan.Server, min: Option<real>, seen: set<Key>) {
    && seen <= KeysOf(s.final)
    && (min.None? ==> seen == {})
    && (min.Some? ==> forall m :: m in s.final && m.score < min.value ==> m.key in seen)
    && (min.Some? ==> forall m :: m in s.final && m.key in seen ==> m.score <= min.value)
  }

  lemma {:induction false} IndexPageExtends(s: ZScan.Server, k: nat, min: Option<real>, seen: set<Key>, rows: seq<Member>)
    requires Still(s) && SeenSoFar(s, min, seen) && IsPage(s.views(k), min, PAGE, rows)
    ensures var seen' := seen + KeysOf(Members(rows));
            && (|rows| < PAGE ==> seen' == KeysOf(s.final))
            && (|rows| == PAGE ==> seen' != seen && SeenSoFar(s, Some(rows[PAGE - 1].score), seen'))
  {
    var seen' := seen + KeysOf(Members(rows));
    assert s.views(k) == s.final;
    forall i | 0 <= i < |rows| ensures rows[i].key in seen' { assert rows[i] in Members(rows); }
    forall m | m in s.final && (|rows| < PAGE || m.score < rows[PAGE - 1].score) ensures m.key in seen' {
      if AtLeast(min, m.score) { assert m in rows; }
    }
    if |rows| == PAGE {
      var last := rows[PAGE - 1];
      if min.Some? { FullPageAdvances(s.final, min.value, rows); }
      assert last in s.final && last.key !in seen && last.key in seen';
      forall m | m in s.final && m.key in seen' ensures m.score <= last.score {
        if m.key !in seen {
          var r :| r in Members(rows) && r.key == m.key;
          var i :| 0 <= i < |rows| && rows[i] == r;
          assert m == r && (i < PAGE - 1 ==> rows[i].score <= last.score);
        }
      }
    }
  }

  /** The keys of one page, refusing a row below the cursor it asked for. */
  method AddKeys(rows: seq<Member>, min: Option<real>, seen: set<Key>) returns (ok: bool, seen': set<Key>)
    ensures ok <==> forall i :: 0 <= i < |rows| ==> AtLeast(min, rows[i].score)
    ensures ok ==> seen' == seen + KeysOf(Members(rows))
  {
    seen' := seen;
    for i := 0 to |rows|
      invariant seen' == seen + KeysOf(Members(rows[..i]))
      invariant forall j :: 0 <= j < i ==> AtLeast(min, rows[j].score)
    {
      assert Members(rows[..i + 1]) == Members(rows[..i]) + {rows[i]};
      if min.Some? && rows[i].score < min.value { return false, seen; }
      seen' := seen' + {rows[i].key};
    }
    assert rows[..|rows|] == rows;
    ok := true;
  }

  lemma {:induction false} PageInside(server: ZScan.Server, k: nat, min: Option<real>, rows: seq<Member>)
    requires AnswersFrom(server) && server.answer(k, min) == Some(rows)
    ensures KeysOf(Members(rows)) <= KeysOf(server.final)
  {
    forall m | m in Members(rows) ensures m in server.final {
      var i :| 0 <= i < |rows| && rows[i] == m;
    }
  }

  lemma {:induction false} GrownSetShrinksRest(all: set<Key>, before: set<Key>, after: set<Key>)
    requires before <= after <= all
    ensures before <= after && |after| != |before| ==> |all - after| < |all - before|
    ensures |after| == |before| ==> after == before
  {
    SubsetSize(before, after);
    SubsetSize(all - after, all - before);
    if all - after == all - before {
      assert after == all - (all - after) == all - (all - before) == before;
    }
  }

  /** What is known between two pages: only keys of the view and, over a still one, all up to the cursor. */
  ghost predicate IndexSoFar(s: ZScan.Server, min: Option<real>, seen: set<Key>) {
    seen <= KeysOf(s.final) && (Still(s) ==> SeenSoFar(s, min, seen))
  }

  lemma {:induction false} NextIndexPage(s: ZScan.Server, k: nat, min: Option<real>, seen: set<Key>, rows: seq<Member>)
    requires AnswersFrom(s) && IndexSoFar(s, min, seen) && s.answer(k, min) == Some(rows)
    ensures var seen' := seen + KeysOf(Members(rows));
            && seen' <= KeysOf(s.final)
            && |KeysOf(s.final) - seen'| <= |KeysOf(s.final) - seen|
            && (|seen'| != |seen| ==> |KeysOf(s.final) - seen'| < |KeysOf(s.final) - seen|)
            && (Still(s) && |rows| < PAGE ==> seen' == KeysOf(s.final))
            && (|rows| >= PAGE ==> IndexSoFar(s, Some(rows[|rows| - 1].score), seen') && (Still(s) ==> |seen'| != |seen|))
    ensures Still(s) ==> InBound(Page(min, rows))
  {
    var seen' := seen + KeysOf(Members(rows));
    PageInside(s, k, min, rows);
    GrownSetShrinksRest(KeysOf(s.final), seen, seen');
    SubsetSize(KeysOf(s.final) - seen', KeysOf(s.final) - seen);
    if Still(s) {
      assert IsPage(s.views(k), min, PAGE, rows);
      IndexPageExtends(s, k, min, seen, rows);
    }
  }

  lemma {:induction false} HonestIndexStays(s: ZScan.Server, pages: seq<ScorePage>)
    requires Honest(s) && StopsAt(IndexRead(s), pages)
    ensures InBound(pages[|pages| - 1])
  {
    var k := |pages| - 1;
    assert Answered(IndexRead(s), pages, k);
    assert IsPage(s.views(k), pages[k].cursor, PAGE, pages[k].rows);
  }

  /** A walk served within its bounds is refused for a failed call and for nothing else. */
  lemma {:induction false} HonestIndexRefusal(s: ZScan.Server)
    requires Honest(s)
    ensures IndexRefuses(s) <==> Unanswered(IndexRead(s))
  {
    forall pages: seq<ScorePage> ensures !StrayIndex(s, pages) {
      if StopsAt(IndexRead(s), pages) { HonestIndexStays(s, pages); }
    }
  }

  lemma {:induction false} KeysReadAppend(pages: seq<ScorePage>, page: ScorePage)
    ensures KeysRead(pages + [page]) == KeysRead(pages) + KeysOf(Members(page.rows))
  {
    assert (pages + [page])[..|pages|] == pages;
  }

  /** What one more answered call leaves: a stray row, the end of the walk, or a walk that goes on. */
  lemma {:induction false} IndexCall(s: ZScan.Server, pages: seq<ScorePage>, min: Option<real>, rows: seq<Member>)
    requires Underway(IndexRead(s), pages)
    requires min == Cursor(IndexRead(s), pages) && s.answer(|pages|, min) == Some(rows)
    ensures var pages' := pages + [Page(min, rows)];
            && KeysRead(pages') == KeysRead(pages) + KeysOf(Members(rows))
            && (!InBound(Page(min, rows)) ==> StrayIndex(s, pages'))
            && (InBound(Page(min, rows)) ==>
                  if |rows| >= PAGE && |KeysRead(pages')| != |KeysRead(pages)|
                  then Underway(IndexRead(s), pages') && Cursor(IndexRead(s), pages') == Some(rows[|rows| - 1].score)
                  else StopsAt(IndexRead(s), pages'))
  {
    var page: ScorePage := Page(min, rows);
    var pages' := pages + [page];
    assert pages'[..|pages|] == pages && pages'[|pages'| - 1] == page;
    OnePage(IndexRead(s), pages, page);
    KeysReadAppend(pages, page);
    assert IndexRead(s).more(pages') == IndexGoesOn(pages');
  }

  /** The walk is underway and has seen the keys of its pages. */
  ghost predicate IndexBetween(s: ZScan.Server, pages: seq<ScorePage>, min: Option<real>, seen: set<Key>) {
    && Underway(IndexRead(s), pages) && min == Cursor(IndexRead(s), pages)
    && seen == KeysRead(pages) && IndexSoFar(s, min, seen)
  }

  /** The walk has ended by itself, inside its bounds. */
  ghost predicate IndexDone(s: ZScan.Server, pages: seq<ScorePage>, seen: set<Key>) {
    && StopsAt(IndexRead(s), pages) && seen == KeysRead(pages) <= KeysOf(s.final)
    && (forall k :: 0 <= k < |pages| ==> InBound(pages[k])) && !IndexRefuses(s)
    && (Still(s) ==> seen == KeysOf(s.final))
  }

  lemma {:induction false} IndexStrays(s: ZScan.Server, pages: seq<ScorePage>, min: Option<real>, seen: set<Key>, rows: seq<Member>)
    requires IndexBetween(s, pages, min, seen) && s.answer(|pages|, min) == Some(rows) && !InBound(Page(min, rows))
    ensures StrayIndex(s, pages + [Page(min, rows)]) && IndexRefuses(s)
  {
    IndexCall(s, pages, min, rows);
  }

  lemma {:induction false} IndexEnds(s: ZScan.Server, pages: seq<ScorePage>, min: Option<real>, seen: set<Key>, rows: seq<Member>)
    requires AnswersFrom(s) && IndexBetween(s, pages, min, seen) && s.answer(|pages|, min) == Some(rows)
    requires InBound(Page(min, rows)) && (|rows| < PAGE || |seen + KeysOf(Members(rows))| == |seen|)
    ensures IndexDone(s, pages + [Page(min, rows)], seen + KeysOf(Members(rows)))
  {
    IndexCall(s, pages, min, rows);
    NextIndexPage(s, |pages|, min, seen, rows);
    SeenMeans(s, pages + [Page(min, rows)]);
  }

  lemma {:induction false} IndexMoves(s: ZScan.Server, pages: seq<ScorePage>, min: Option<real>, seen: set<Key>, rows: seq<Member>)
    requires AnswersFrom(s) && IndexBetween(s, pages, min, seen) && s.answer(|pages|, min) == Some(rows)
    requires InBound(Page(min, rows)) && |rows| >= PAGE && |seen + KeysOf(Members(rows))| != |seen|
    ensures var seen' := seen + KeysOf(Members(rows));
            && IndexBetween(s, pages + [Page(min, rows)], Some(rows[|rows| - 1].score), seen')
            && |KeysOf(s.final) - seen'| < |KeysOf(s.final) - seen|
  {
    IndexCall(s, pages, min, rows);
    NextIndexPage(s, |pages|, min, seen, rows);
  }

  /** Which keys a view already holds. Against any server the walk ends: a row below the cursor
      refuses it, and every further page brings a key not seen before. `pages` are the answered calls. */
  method IndexedKeys(server: ZScan.Server) returns (result: IndexResult, ghost pages: seq<ScorePage>)
    requires AnswersFrom(server)
    ensures result.IndexRefused? <==> IndexRefuses(server)
    ensures result.IndexRefused? ==> FailsAfter(IndexRead(server), pages) || StrayIndex(server, pages)
    ensures result.Seen? ==>
              && StopsAt(IndexRead(server), pages) && result.keys == KeysRead(pages) <= KeysOf(server.final)
              && forall k :: 0 <= k < |pages| ==> InBound(pages[k])
    // Over a still view, served within its bounds, they are all of its keys.
    ensures Still(server) && result.Seen? ==> result.keys == KeysOf(server.final)
  {
    var seen: set<Key> := {};
    var min: Option<real> := None;
    var calls := 0;
    pages := [];
    while true
      invariant calls == |pages| && IndexBetween(server, pages, min, seen)
      decreases |KeysOf(server.final) - seen|
    {
      var reply := server.answer(calls, min);
      if reply.None? {
        assert FailsAfter(IndexRead(server), pages);
        return IndexRefused, pages;
      }
      var rows := reply.value;
      ghost var at := pages;
      pages := pages + [Page(min, rows)];
      calls := calls + 1;
      var before := |seen|;
      var ok, seen' := AddKeys(rows, min, seen);
      if !ok {
        IndexStrays(server, at, min, seen, rows);
        return IndexRefused, pages;
      }
      if |rows| < PAGE || |seen'| == before {
        IndexEnds(server, at, min, seen, rows);
        return Seen(seen'), pages;
      }
      IndexMoves(server, at, min, seen, rows);
      seen := seen';
      min := Some(rows[|rows| - 1].score);
    }
  }
}
