/** A sorted-set view read in pages by an inclusive score cursor. */
module ZScan {
  import opened Wrappers
  import opened Ledger
  import opened Paging

  /** ImmuDB's own ceiling on one result. */
  const PAGE: nat := 2500

  /** A view member. Scores are arbitrary, so corrupted views are covered too. */
  datatype Member = Member(score: real, key: Key)

  predicate AtLeast(min: Option<real>, score: real) {
    min.None? || score >= min.value
  }

  /** `rows` is an ascending page of `view` from `min`, ties in any order. */
  ghost predicate IsPage(view: set<Member>, min: Option<real>, limit: nat, rows: seq<Member>) {
    && (forall i :: 0 <= i < |rows| ==> rows[i] in view && AtLeast(min, rows[i].score))
    && (forall i, j :: 0 <= i < j < |rows| ==> rows[i] != rows[j] && rows[i].score <= rows[j].score)
    && |rows| <= limit
    && (forall m :: m in view && AtLeast(min, m.score) && m !in rows ==>
          |rows| == limit && (rows != [] ==> m.score >= rows[|rows| - 1].score))
  }

  /** A server whose view may grow between calls: `views(i)` is the view at the
      i-th call, `final` bounds them all, and a call may fail. */
  datatype Server = Server(views: nat -> set<Member>, final: set<Member>,
                           answer: (nat, Option<real>) -> Option<seq<Member>>)

  ghost predicate Honest(s: Server) {
    && (forall i: nat, j: nat :: i <= j ==> s.views(i) <= s.views(j))
    && (forall i: nat :: s.views(i) <= s.final)
    && (forall i: nat, min :: s.answer(i, min).Some? ==> IsPage(s.views(i), min, PAGE, s.answer(i, min).value))
  }

  /** Rows come from the view, whatever bound they were asked for; a server may ignore it. */
  ghost predicate AnswersFrom(s: Server) {
    forall i: nat, min, j :: s.answer(i, min).Some? && 0 <= j < |s.answer(i, min).value| ==>
      s.answer(i, min).value[j] in s.final
  }

  type ScorePage = Page<Option<real>, Member>

  /** A walk of the view: no cursor at first, then the score of the last row read. */
  ghost function ScoreRead(s: Server, more: seq<ScorePage> -> bool): Read<Option<real>, Member> {
    Read(s.answer, None, (m: Member) => Some(m.score), more)
  }

  /** Every row of the page is at or above the score it was asked for from. */
  predicate InBound(page: ScorePage) {
    forall i :: 0 <= i < |page.rows| ==> AtLeast(page.cursor, page.rows[i].score)
  }

  ghost predicate OneScorePerKey(view: set<Member>) {
    forall a, b :: a in view && b in view && a.key == b.key ==> a == b
  }

  ghost function SharingScore(view: set<Member>, score: real): set<Member> {
    set m | m in view && m.score == score
  }

  ghost predicate FewPerScore(view: set<Member>) {
    forall score :: |SharingScore(view, score)| < PAGE
  }

  lemma {:induction false} SubsetSize<T>(a: set<T>, b: set<T>)
    requires a <= b
    ensures |a| <= |b|
    ensures a != b ==> |a| < |b|
  {
    assert b == a + (b - a);
  }

  ghost function Members(rows: seq<Member>): set<Member> {
    set m | m in rows
  }

  /** Pairwise distinct rows number as many as their set. */
  lemma {:induction false} DistinctRows(rows: seq<Member>)
    requires forall i, j :: 0 <= i < j < |rows| ==> rows[i] != rows[j]
    ensures |Members(rows)| == |rows|
  {
    if rows != [] {
      var init := rows[..|rows| - 1];
      DistinctRows(init);
      assert Members(rows) == Members(init) + {rows[|rows| - 1]};
    }
  }

  /** A full page reaches past its own cursor when fewer than a page share one score. */
  lemma {:induction false} FullPageAdvances(view: set<Member>, min: real, rows: seq<Member>)
    requires IsPage(view, Some(min), PAGE, rows) && |rows| == PAGE && FewPerScore(view)
    ensures rows[PAGE - 1].score > min
  {
    if rows[PAGE - 1].score <= min {
      DistinctRows(rows);
      assert Members(rows) <= SharingScore(view, min);
      SubsetSize(Members(rows), SharingScore(view, min));
      assert false;
    }
  }

  /** Such a page holds every member at its cursor's own score. */
  lemma {:induction false} PageHoldsCursor(view: set<Member>, m: Member, rows: seq<Member>)
    requires IsPage(view, Some(m.score), PAGE, rows) && FewPerScore(view) && m in view
    ensures m in rows
  {
    if m !in rows { FullPageAdvances(view, m.score, rows); }
  }

  lemma {:induction false} FewInSubset(view: set<Member>, final: set<Member>)
    requires view <= final && FewPerScore(final)
    ensures FewPerScore(view)
  {
    forall score ensures |SharingScore(view, score)| < PAGE {
      SubsetSize(SharingScore(view, score), SharingScore(final, score));
    }
  }

  /** The members of one view, as a walk reads them. */
  ghost function MembersOf(log: Log, view: View): (members: set<Member>)
    ensures forall m :: m in members <==> exists a :: InView(log, a) && a.view == view && m == Member(a.score as real, a.key)
  {
    if log == [] then {}
    else
      var tx := log[|log| - 1];
      var rest := MembersOf(log[..|log| - 1], view);
      assert log == log[..|log| - 1] + [tx];
      assert forall a :: InView(log, a) <==> InView(log[..|log| - 1], a) || a in tx.adds by {
        forall a ensures InView(log, a) <==> InView(log[..|log| - 1], a) || a in tx.adds {
          AddedAppend(log[..|log| - 1], tx, a);
        }
      }
      rest + (set a | a in tx.adds && a.view == view :: Member(a.score as real, a.key))
  }
}
