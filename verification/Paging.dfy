/** A read in pages: each call after the first carries a cursor taken from the last
    row of the page before it, and the read decides from the pages it has whether
    to ask for another. A call may fail. */
module Paging {
  import opened Wrappers

  /** One answered call. */
  datatype Page<C, R> = Page(cursor: C, rows: seq<R>)

  function RowsOf<C, R>(pages: seq<Page<C, R>>): seq<R> {
    if pages == [] then [] else RowsOf(pages[..|pages| - 1]) + pages[|pages| - 1].rows
  }

  lemma {:induction false} RowsOfAppend<C, R>(pages: seq<Page<C, R>>, page: Page<C, R>)
    ensures RowsOf(pages + [page]) == RowsOf(pages) + page.rows
  {
    assert (pages + [page])[..|pages|] == pages;
  }

  /** `answer` is the server, `more` the caller's test for another call. */
  datatype Read<!C, !R> = Read(answer: (nat, C) -> Option<seq<R>>, start: C, after: R -> C, more: seq<Page<C, R>> -> bool)

  ghost function Cursor<C, R>(r: Read<C, R>, pages: seq<Page<C, R>>): C {
    if pages == [] || pages[|pages| - 1].rows == [] then r.start
    else r.after(pages[|pages| - 1].rows[|pages[|pages| - 1].rows| - 1])
  }

  /** The `k`-th page is the server's answer to the `k`-th call. */
  ghost predicate Answered<C(!new), R(!new)>(r: Read<C, R>, pages: seq<Page<C, R>>, k: int) {
    && 0 <= k < |pages|
    && pages[k].cursor == Cursor(r, pages[..k])
    && r.answer(k, pages[k].cursor) == Some(pages[k].rows)
  }

  ghost predicate WentOn<C(!new), R(!new)>(r: Read<C, R>, pages: seq<Page<C, R>>, k: int) {
    Answered(r, pages, k) && r.more(pages[..k + 1])
  }

  /** The read has taken these pages and asks for another. */
  ghost predicate Underway<C(!new), R(!new)>(r: Read<C, R>, pages: seq<Page<C, R>>) {
    forall k :: 0 <= k < |pages| ==> WentOn(r, pages, k)
  }

  /** The read ended because the call after these pages failed. */
  ghost predicate FailsAfter<C(!new), R(!new)>(r: Read<C, R>, pages: seq<Page<C, R>>) {
    Underway(r, pages) && r.answer(|pages|, Cursor(r, pages)).None?
  }

  /** The read ended by itself, at the last of these pages. */
  ghost predicate StopsAt<C(!new), R(!new)>(r: Read<C, R>, pages: seq<Page<C, R>>) {
    && pages != [] && Underway(r, pages[..|pages| - 1])
    && Answered(r, pages, |pages| - 1) && !r.more(pages)
  }

  /** Some call of the read is not answered. */
  ghost predicate Unanswered<C(!new), R(!new)>(r: Read<C, R>) { exists pages :: FailsAfter(r, pages) }

  lemma {:induction false} OnePage<C(!new), R(!new)>(r: Read<C, R>, pages: seq<Page<C, R>>, page: Page<C, R>)
    requires Underway(r, pages) && page.cursor == Cursor(r, pages) && r.answer(|pages|, page.cursor) == Some(page.rows)
    ensures if r.more(pages + [page]) then Underway(r, pages + [page]) else StopsAt(r, pages + [page])
  {
    var longer := pages + [page];
    assert longer[..|pages|] == pages && longer[..|longer|] == longer;
    forall k | 0 <= k < |pages| ensures WentOn(r, longer, k) {
      assert WentOn(r, pages, k) && longer[..k] == pages[..k] && longer[..k + 1] == pages[..k + 1];
    }
    if r.more(longer) { assert WentOn(r, longer, |pages|); }
  }

  /** The pages of a read are determined: of two accounts of it, one continues the other. */
  lemma {:induction false} OneWalk<C(!new), R(!new)>(r: Read<C, R>, a: seq<Page<C, R>>, b: seq<Page<C, R>>)
    requires Underway(r, a) && |a| <= |b| && forall k :: 0 <= k < |a| ==> Answered(r, b, k)
    ensures b[..|a|] == a
  {
    if a != [] {
      var n := |a| - 1;
      forall k | 0 <= k < n ensures WentOn(r, a[..n], k) {
        assert WentOn(r, a, k) && a[..n][..k] == a[..k] && a[..n][..k + 1] == a[..k + 1];
      }
      OneWalk(r, a[..n], b);
      assert WentOn(r, a, n) && Answered(r, b, n);
      assert b[..n + 1] == b[..n] + [b[n]] && a == a[..n] + [a[n]];
    }
  }

  lemma {:induction false} StopsThere<C(!new), R(!new)>(r: Read<C, R>, a: seq<Page<C, R>>)
    requires StopsAt(r, a)
    ensures forall k :: 0 <= k < |a| ==> Answered(r, a, k)
    ensures forall k :: 0 <= k < |a| - 1 ==> WentOn(r, a, k)
  {
    var init := a[..|a| - 1];
    forall k | 0 <= k < |init| ensures WentOn(r, a, k) && Answered(r, a, k) {
      assert WentOn(r, init, k) && init[..k] == a[..k] && init[..k + 1] == a[..k + 1];
    }
    forall k | 0 <= k < |a| ensures Answered(r, a, k) {}
  }

  /** Where one account stops, no other goes on. */
  lemma {:induction false} StopFixes<C(!new), R(!new)>(r: Read<C, R>, a: seq<Page<C, R>>, b: seq<Page<C, R>>)
    requires StopsAt(r, a) && |a| <= |b| && forall k :: 0 <= k < |a| ==> Answered(r, b, k)
    ensures b[..|a|] == a && !WentOn(r, b, |a| - 1)
  {
    var n := |a| - 1;
    OneWalk(r, a[..n], b);
    assert Answered(r, a, n) && Answered(r, b, n);
    assert b[..n + 1] == b[..n] + [b[n]] && a == a[..n] + [a[n]];
  }

  /** Nothing is answered past a failed call. */
  lemma {:induction false} NoneAfterFailure<C(!new), R(!new)>(r: Read<C, R>, a: seq<Page<C, R>>, b: seq<Page<C, R>>)
    requires FailsAfter(r, b) && forall k :: 0 <= k < |a| ==> Answered(r, a, k)
    ensures |a| <= |b|
  {
    if |b| < |a| {
      assert Answered(r, a, |b|);
      OneWalk(r, b, a);
    }
  }

  /** So a read that stops by itself stops at one place, and every call of it was answered. */
  lemma {:induction false} OneEnd<C(!new), R(!new)>(r: Read<C, R>, a: seq<Page<C, R>>, b: seq<Page<C, R>>)
    requires StopsAt(r, a)
    ensures StopsAt(r, b) ==> a == b
    ensures !FailsAfter(r, b)
  {
    StopsThere(r, a);
    if StopsAt(r, b) {
      StopsThere(r, b);
      if |a| <= |b| { StopFixes(r, a, b); } else { StopFixes(r, b, a); }
      assert a[..|a|] == a && b[..|b|] == b;
    }
    if FailsAfter(r, b) {
      forall k | 0 <= k < |b| ensures Answered(r, b, k) { assert WentOn(r, b, k); }
      NoneAfterFailure(r, a, b);
      StopFixes(r, a, b);
    }
  }
}
