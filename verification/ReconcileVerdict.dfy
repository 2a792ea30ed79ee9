/** The reconciliation's verdict, and exactly what a clean one means. */
module ReconcileVerdict {
  import opened Wrappers
  import opened Ledger
  import opened ZScan
  import opened Paging
  import opened Reconcile

  predicate IsWhole(s: real) { s == s.Floor as real }

  function LivePositions(positions: Positions, reserve: nat): set<int> {
    set s | s in positions.Keys && s > reserve as real && IsWhole(s) :: s.Floor
  }

  function FractionalPositions(positions: Positions, reserve: nat): set<real> {
    set s | s in positions.Keys && s > reserve as real && !IsWhole(s)
  }

  /** The positions the counter has handed out. */
  function HandedOut(reserve: nat, counter: nat): (range: set<int>)
    ensures forall p :: p in range <==> reserve < p <= counter
  {
    if counter <= reserve then {} else HandedOut(reserve, counter - 1) + {counter}
  }

  datatype Report = Report(missing: set<int>, unallocated: set<real>, foreign: seq<Member>, shared: set<int>,
                           malformed: seq<Malformed>, duplicated: set<(View, Key)>)
  {
    predicate Clean() {
      missing == {} && unallocated == {} && foreign == [] && shared == {} && malformed == [] && duplicated == {}
    }
  }

  datatype Outcome = ReserveMismatch(bound: nat) | NoSequence | Reported(report: Report)

  function Duplicates(decisions: set<Key>, intents: set<Key>): set<(View, Key)> {
    (set k | k in decisions :: (DecisionView, k)) + (set k | k in intents :: (IntentView, k))
  }

  function MakeReport(reserve: nat, counter: nat, d: ViewData, i: ViewData,
                      decisions: set<Key>, intents: set<Key>): Report {
    var liveD, liveI := LivePositions(d.positions, reserve), LivePositions(i.positions, reserve);
    var handedOut := HandedOut(reserve, counter);
    Report(handedOut - (liveD + liveI),
           (set p | p in liveD + liveI - handedOut :: p as real)
             + FractionalPositions(d.positions, reserve) + FractionalPositions(i.positions, reserve),
           d.foreign + i.foreign, liveD * liveI, d.malformed + i.malformed, Duplicates(decisions, intents))
  }

  // ----- one key at more than one place -----

  predicate At(positions: Positions, s: real, i: int, key: Key) {
    s in positions && 0 <= i < |positions[s]| && positions[s][i] == key
  }

  ghost predicate TwoPlaces(positions: Positions, key: Key) {
    exists s, i, t, j :: At(positions, s, i, key) && At(positions, t, j, key) && (s != t || i != j)
  }

  ghost predicate OnePlace(positions: Positions, key: Key) {
    exists s, i :: At(positions, s, i, key)
  }

  ghost predicate KeyOnce(rows: seq<Member>, key: Key) {
    exists i :: 0 <= i < |rows| && rows[i].key == key
  }

  ghost predicate KeyTwice(rows: seq<Member>, key: Key) {
    exists i, j :: 0 <= i < j < |rows| && rows[i].key == key && rows[j].key == key
  }

  type Places = map<Key, seq<(real, int)>>

  /** `place` was visited: its score is done, or it comes before the cut in the score being visited. */
  predicate Visited(place: (real, int), done: set<real>, score: real, cut: nat) {
    place.0 in done || (place.0 == score && place.1 < cut)
  }

  /** For each key, every place visited so far, each once. */
  ghost predicate Lists(positions: Positions, done: set<real>, score: real, cut: nat, places: Places) {
    && (forall k, a :: k in places && 0 <= a < |places[k]| ==>
          At(positions, places[k][a].0, places[k][a].1, k) && Visited(places[k][a], done, score, cut))
    && (forall k, a, b :: k in places && 0 <= a < b < |places[k]| ==> places[k][a] != places[k][b])
    && (forall k, s, i :: At(positions, s, i, k) && Visited((s, i), done, score, cut) ==>
          k in places && (s, i) in places[k])
  }

  /** `byKey` records the score of each listed place. */
  ghost predicate Mirrors(byKey: map<Key, seq<real>>, places: Places) {
    byKey.Keys == places.Keys && forall k :: k in byKey ==> |byKey[k]| == |places[k]|
  }

  function Extend<T>(m: map<Key, seq<T>>, key: Key, x: T): map<Key, seq<T>> {
    m[key := (if key in m then m[key] else []) + [x]]
  }

  lemma {:induction false} ListsNext(positions: Positions, done: set<real>, score: real, cut: nat, places: Places)
    requires Lists(positions, done, score, cut, places)
    requires score in positions && score !in done && cut < |positions[score]|
    ensures Lists(positions, done, score, cut + 1, Extend(places, positions[score][cut], (score, cut)))
  {
    var key := positions[score][cut];
    var places' := Extend(places, key, (score, cut));
    forall k, a, b | k in places' && 0 <= a < b < |places'[k]| ensures places'[k][a] != places'[k][b] {
      if k == key && b == |places'[k]| - 1 && k in places {
        assert Visited(places[k][a], done, score, cut);
      }
    }
    forall k, s, i | At(positions, s, i, k) && Visited((s, i), done, score, cut + 1)
      ensures k in places' && (s, i) in places'[k]
    {
      if !Visited((s, i), done, score, cut) { assert places'[k][|places'[k]| - 1] == (s, i); }
    }
  }

  lemma {:induction false} ListsMeanPlaces(positions: Positions, score: real, places: Places, key: Key)
    requires Lists(positions, positions.Keys, score, 0, places)
    ensures key in places && |places[key]| > 1 <==> TwoPlaces(positions, key)
  {
    if key in places && |places[key]| > 1 {
      var p, q := places[key][0], places[key][1];
      assert p != q && At(positions, p.0, p.1, key) && At(positions, q.0, q.1, key);
    }
    if TwoPlaces(positions, key) {
      var s, i, t, j :| At(positions, s, i, key) && At(positions, t, j, key) && (s != t || i != j);
      assert Visited((s, i), positions.Keys, score, 0) && Visited((t, j), positions.Keys, score, 0);
      var a :| 0 <= a < |places[key]| && places[key][a] == (s, i);
      var b :| 0 <= b < |places[key]| && places[key][b] == (t, j);
    }
  }

  lemma {:induction false} Pick<T>(s: set<T>) returns (x: T)
    requires s != {}
    ensures x in s
  {
    x :| x in s;
  }

  /** The keys that hold more than one place, whatever order the scores are visited in. */
  method DuplicatedKeys(positions: Positions) returns (keys: set<Key>)
    ensures forall k :: k in keys <==> TwoPlaces(positions, k)
  {
    var byKey: map<Key, seq<real>> := map[];
    ghost var places: Places := map[];
    var todo := positions.Keys;
    while todo != {}
      invariant todo <= positions.Keys
      invariant Lists(positions, positions.Keys - todo, 0.0, 0, places)
      invariant Mirrors(byKey, places)
      decreases |todo|
    {
      var _ := Pick(todo);
      var s :| s in todo;
      ghost var done := positions.Keys - todo;
      for i := 0 to |positions[s]|
        invariant Lists(positions, done, s, i, places)
        invariant Mirrors(byKey, places)
      {
        ListsNext(positions, done, s, i, places);
        byKey := Extend(byKey, positions[s][i], s);
        places := Extend(places, positions[s][i], (s, i));
      }
      ListsClose(positions, done, s, places);
      todo := todo - {s};
      assert positions.Keys - todo == done + {s};
    }
    assert positions.Keys - {} == positions.Keys;
    forall k ensures k in places && |places[k]| > 1 <==> TwoPlaces(positions, k) {
      ListsMeanPlaces(positions, 0.0, places, k);
    }
    keys := set k | k in byKey && |byKey[k]| > 1;
  }

  lemma {:induction false} ListsClose(positions: Positions, done: set<real>, score: real, places: Places)
    requires score in positions && Lists(positions, done, score, |positions[score]|, places)
    ensures Lists(positions, done + {score}, 0.0, 0, places)
  {
    forall k, a | k in places && 0 <= a < |places[k]|
      ensures At(positions, places[k][a].0, places[k][a].1, k) && Visited(places[k][a], done + {score}, 0.0, 0)
    {
      assert Visited(places[k][a], done, score, |positions[score]|);
    }
    forall k, s, i | At(positions, s, i, k) && Visited((s, i), done + {score}, 0.0, 0)
      ensures k in places && (s, i) in places[k]
    {
      assert Visited((s, i), done, score, |positions[score]|);
    }
  }

  lemma {:induction false} AddRowAt(positions: Positions, m: Member, s: real, i: int, key: Key)
    ensures var n := if m.score in positions then |positions[m.score]| else 0;
            At(AddRow(positions, m), s, i, key) <==>
              At(positions, s, i, key) || (s == m.score && i == n && key == m.key)
  {
  }

  lemma {:induction false} AddRowPlaces(g: Positions, m: Member, key: Key)
    ensures OnePlace(AddRow(g, m), key) <==> OnePlace(g, key) || m.key == key
    ensures TwoPlaces(AddRow(g, m), key) <==> TwoPlaces(g, key) || (m.key == key && OnePlace(g, key))
  {
    var g' := AddRow(g, m);
    var n := if m.score in g then |g[m.score]| else 0;
    AddRowAt(g, m, m.score, n, key);
    if OnePlace(g, key) {
      var s, i :| At(g, s, i, key);
      AddRowAt(g, m, s, i, key);
    }
    if TwoPlaces(g, key) {
      var s, i, t, j :| At(g, s, i, key) && At(g, t, j, key) && (s != t || i != j);
      AddRowAt(g, m, s, i, key);
      AddRowAt(g, m, t, j, key);
    }
    if OnePlace(g', key) {
      var s, i :| At(g', s, i, key);
      AddRowAt(g, m, s, i, key);
    }
    if TwoPlaces(g', key) {
      var s, i, t, j :| At(g', s, i, key) && At(g', t, j, key) && (s != t || i != j);
      AddRowAt(g, m, s, i, key);
      AddRowAt(g, m, t, j, key);
    }
  }

  lemma {:induction false} KeyAppend(init: seq<Member>, m: Member, key: Key)
    ensures KeyOnce(init + [m], key) <==> KeyOnce(init, key) || m.key == key
    ensures KeyTwice(init + [m], key) <==> KeyTwice(init, key) || (m.key == key && KeyOnce(init, key))
  {
    var rows := init + [m];
    assert rows[|init|] == m;
    if KeyOnce(init, key) {
      var i :| 0 <= i < |init| && init[i].key == key;
      assert rows[i] == init[i];
    }
    if KeyTwice(init, key) {
      var i, j :| 0 <= i < j < |init| && init[i].key == key && init[j].key == key;
      assert rows[i] == init[i] && rows[j] == init[j];
    }
  }

  /** Grouping by score loses no occurrence of a key and invents none. */
  lemma {:induction false} GroupedKeepsPlaces(rows: seq<Member>, key: Key)
    ensures OnePlace(Grouped(rows), key) <==> KeyOnce(rows, key)
    ensures TwoPlaces(Grouped(rows), key) <==> KeyTwice(rows, key)
  {
    if rows != [] {
      var init, m := rows[..|rows| - 1], rows[|rows| - 1];
      GroupedKeepsPlaces(init, key);
      AddRowPlaces(Grouped(init), m, key);
      KeyAppend(init, m, key);
      assert rows == init + [m];
    }
  }

  // ----- what the verdict means -----

  ghost predicate HeldIn(view: set<Member>, p: int) {
    exists m :: m in view && m.score == p as real
  }

  /** Above the reserve the two views hold exactly the positions up to the counter. */
  ghost predicate ExactRange(decisions: set<Member>, intents: set<Member>, reserve: nat, counter: nat) {
    forall p: int :: p > reserve ==> (HeldIn(decisions, p) || HeldIn(intents, p) <==> p <= counter)
  }

  ghost predicate WholeAbove(view: set<Member>, reserve: nat) {
    forall m :: m in view && m.score > reserve as real ==> IsWhole(m.score)
  }

  ghost predicate NoneShared(decisions: set<Member>, intents: set<Member>, reserve: nat) {
    forall p: int :: p > reserve ==> !(HeldIn(decisions, p) && HeldIn(intents, p))
  }

  ghost predicate AllBelong(view: set<Member>, prefix: Prefix) {
    forall m :: m in view ==> Belongs(m.key, prefix)
  }

  ghost predicate NoZero(view: set<Member>) {
    forall m :: m in view ==> m.score != 0.0
  }

  /** Everything a pass checks, said of the views themselves. */
  ghost predicate Sound(decisions: set<Member>, intents: set<Member>, reserve: nat, counter: nat) {
    && ExactRange(decisions, intents, reserve, counter)
    && WholeAbove(decisions, reserve) && WholeAbove(intents, reserve)
    && NoneShared(decisions, intents, reserve)
    && OneScorePerKey(decisions) && OneScorePerKey(intents)
    && AllBelong(decisions, ToolCall) && AllBelong(intents, ToolCallIntent)
    && NoZero(decisions) && NoZero(intents)
  }

  lemma {:induction false} CleanRows(rows: seq<Member>, prefix: Prefix)
    ensures Foreign(rows, prefix) == [] <==> AllBelong(Members(rows), prefix)
    ensures Zeros(rows) == [] <==> NoZero(Members(rows))
  {
    if rows != [] {
      var init, m := rows[..|rows| - 1], rows[|rows| - 1];
      CleanRows(init, prefix);
      assert rows == init + [m];
      assert Members(rows) == Members(init) + {m};
    }
  }

  lemma {:induction false} LiveMeaning(rows: seq<Member>, reserve: nat, p: int)
    ensures p in LivePositions(Grouped(rows), reserve) <==> p > reserve && HeldIn(Members(rows), p)
  {
    GroupedScores(rows);
    if HeldIn(Members(rows), p) && p > reserve {
      var m :| m in Members(rows) && m.score == p as real;
      assert m.score in Scores(rows) && m.score.Floor == p;
    }
    if p in LivePositions(Grouped(rows), reserve) {
      var s :| s in Grouped(rows) && s > reserve as real && IsWhole(s) && s.Floor == p;
      assert s in Scores(rows);
      var m :| m in rows && m.score == s;
      assert m in Members(rows);
    }
  }

  lemma {:induction false} FractionalMeaning(rows: seq<Member>, reserve: nat)
    ensures FractionalPositions(Grouped(rows), reserve) == {} <==> WholeAbove(Members(rows), reserve)
  {
    GroupedScores(rows);
    if m: Member :| m in Members(rows) && m.score > reserve as real && !IsWhole(m.score) {
      assert m.score in Scores(rows);
      assert m.score in FractionalPositions(Grouped(rows), reserve);
    } else if FractionalPositions(Grouped(rows), reserve) != {} {
      var s := Pick(FractionalPositions(Grouped(rows), reserve));
      assert s in Scores(rows);
    }
  }

  lemma {:induction false} NoKeyTwice(rows: seq<Member>)
    ensures (forall k :: !KeyTwice(rows, k)) <==> OneScorePerKey(Members(rows)) && !Repeats(rows)
  {
    if forall k :: !KeyTwice(rows, k) {
      forall i, j | 0 <= i < j < |rows| ensures rows[i] != rows[j] { assert !KeyTwice(rows, rows[i].key); }
      forall a, b | a in Members(rows) && b in Members(rows) && a.key == b.key ensures a == b {
        var i :| 0 <= i < |rows| && rows[i] == a;
        var j :| 0 <= j < |rows| && rows[j] == b;
        assert !KeyTwice(rows, a.key);
      }
    } else {
      var k :| KeyTwice(rows, k);
      var i, j :| 0 <= i < j < |rows| && rows[i].key == k && rows[j].key == k;
      if OneScorePerKey(Members(rows)) { assert rows[i] == rows[j]; }
    }
  }

  ghost predicate NamesDuplicates(rows: seq<Member>, keys: set<Key>) {
    forall k :: k in keys <==> TwoPlaces(Grouped(rows), k)
  }

  lemma {:induction false} CleanParts(reserve: nat, counter: nat, d: seq<Member>, badD: seq<Malformed>, i: seq<Member>, badI: seq<Malformed>,
                   keysD: set<Key>, keysI: set<Key>)
    ensures var live := LivePositions(Grouped(d), reserve) + LivePositions(Grouped(i), reserve);
            MakeReport(reserve, counter, Walked(d, ToolCall, badD), Walked(i, ToolCallIntent, badI), keysD, keysI).Clean() <==>
            && HandedOut(reserve, counter) - live == {} && live - HandedOut(reserve, counter) == {}
            && FractionalPositions(Grouped(d), reserve) == {} && FractionalPositions(Grouped(i), reserve) == {}
            && Foreign(d, ToolCall) == [] && Foreign(i, ToolCallIntent) == []
            && LivePositions(Grouped(d), reserve) * LivePositions(Grouped(i), reserve) == {}
            && badD == [] && badI == []
            && Duplicates(keysD, keysI) == {}
  {
    var live := LivePositions(Grouped(d), reserve) + LivePositions(Grouped(i), reserve);
    NoScores(live - HandedOut(reserve, counter));
  }

  /** A report is clean exactly when nothing unreadable was met, no row was read twice and
      the members read satisfy every check. */
  lemma {:induction false} CleanMeans(reserve: nat, counter: nat, d: seq<Member>, badD: seq<Malformed>, i: seq<Member>, badI: seq<Malformed>,
                   keysD: set<Key>, keysI: set<Key>)
    requires NamesDuplicates(d, keysD) && NamesDuplicates(i, keysI)
    requires (badD == [] ==> Zeros(d) == []) && (badI == [] ==> Zeros(i) == [])
    ensures MakeReport(reserve, counter, Walked(d, ToolCall, badD), Walked(i, ToolCallIntent, badI), keysD, keysI).Clean() <==>
            badD == [] && badI == [] && !Repeats(d) && !Repeats(i) && Sound(Members(d), Members(i), reserve, counter)
  {
    CleanParts(reserve, counter, d, badD, i, badI, keysD, keysI);
    CleanRows(d, ToolCall);
    CleanRows(i, ToolCallIntent);
    RangeMeans(reserve, counter, d, i, LivePositions(Grouped(d), reserve) + LivePositions(Grouped(i), reserve));
    DuplicatesMean(d, i, keysD, keysI);
    FractionalMeaning(d, reserve);
    FractionalMeaning(i, reserve);
    SharedMeans(reserve, d, i);
  }

  lemma {:induction false} DuplicatesMean(d: seq<Member>, i: seq<Member>, keysD: set<Key>, keysI: set<Key>)
    requires NamesDuplicates(d, keysD) && NamesDuplicates(i, keysI)
    ensures Duplicates(keysD, keysI) == {} <==>
            OneScorePerKey(Members(d)) && !Repeats(d) && OneScorePerKey(Members(i)) && !Repeats(i)
  {
    NoKeyTwice(d);
    NoKeyTwice(i);
    forall k ensures (k in keysD <==> KeyTwice(d, k)) && (k in keysI <==> KeyTwice(i, k)) {
      GroupedKeepsPlaces(d, k);
      GroupedKeepsPlaces(i, k);
    }
    if k :| k in keysD { assert (DecisionView, k) in Duplicates(keysD, keysI); }
    if k :| k in keysI { assert (IntentView, k) in Duplicates(keysD, keysI); }
  }

  lemma {:induction false} SharedMeans(reserve: nat, d: seq<Member>, i: seq<Member>)
    ensures LivePositions(Grouped(d), reserve) * LivePositions(Grouped(i), reserve) == {} <==>
            NoneShared(Members(d), Members(i), reserve)
  {
    var shared := LivePositions(Grouped(d), reserve) * LivePositions(Grouped(i), reserve);
    forall p: int ensures p in shared <==> p > reserve && HeldIn(Members(d), p) && HeldIn(Members(i), p) {
      LiveMeaning(d, reserve, p);
      LiveMeaning(i, reserve, p);
    }
    if shared != {} { var p := Pick(shared); }
  }

  lemma {:induction false} LiveUnion(d: seq<Member>, i: seq<Member>, reserve: nat)
    ensures forall p: int :: p in LivePositions(Grouped(d), reserve) + LivePositions(Grouped(i), reserve) <==>
              p > reserve && (HeldIn(Members(d), p) || HeldIn(Members(i), p))
  {
    forall p: int ensures p in LivePositions(Grouped(d), reserve) + LivePositions(Grouped(i), reserve) <==>
              p > reserve && (HeldIn(Members(d), p) || HeldIn(Members(i), p)) {
      LiveMeaning(d, reserve, p);
      LiveMeaning(i, reserve, p);
    }
  }

  lemma {:induction false} NoScores(ps: set<int>)
    ensures (set p | p in ps :: p as real) == {} <==> ps == {}
  {
    var image := set p | p in ps :: p as real;
    if image != {} { var s := Pick(image); }
    if ps != {} {
      var p := Pick(ps);
      assert p as real in image;
    }
  }

  /** `missing` and `unallocated` are empty exactly when the live positions are the range handed out. */
  lemma {:induction false} RangeMeans(reserve: nat, counter: nat, d: seq<Member>, i: seq<Member>, live: set<int>)
    requires live == LivePositions(Grouped(d), reserve) + LivePositions(Grouped(i), reserve)
    ensures HandedOut(reserve, counter) - live == {} && live - HandedOut(reserve, counter) == {} <==>
            ExactRange(Members(d), Members(i), reserve, counter)
  {
    LiveUnion(d, i, reserve);
    if HandedOut(reserve, counter) - live == {} && live - HandedOut(reserve, counter) == {} {
      forall p: int | p > reserve ensures p in live <==> p <= counter {
        assert p !in HandedOut(reserve, counter) - live && p !in live - HandedOut(reserve, counter);
      }
    }
  }

  // ----- what each category holds -----

  /** The range categories, of the members read: what the counter handed out and no view held, and
      what a view held above the reserve that the counter never handed out. */
  ghost predicate RangeFound(report: Report, reserve: nat, counter: nat, d: seq<Member>, i: seq<Member>) {
    && (forall p :: p in report.missing <==>
          reserve < p <= counter && !HeldIn(Members(d), p) && !HeldIn(Members(i), p))
    && (forall s :: s in report.unallocated <==>
          s > reserve as real && (exists m :: m in d + i && m.score == s)
          && (IsWhole(s) ==> s > counter as real))
  }

  /** The other categories: members of the wrong prefix, live positions in both views, keys read at
      more than one place. */
  ghost predicate OthersFound(report: Report, reserve: nat, d: seq<Member>, i: seq<Member>) {
    && (forall m :: m in report.foreign <==>
          (m in d && !Belongs(m.key, ToolCall)) || (m in i && !Belongs(m.key, ToolCallIntent)))
    && (forall p :: p in report.shared <==> p > reserve && HeldIn(Members(d), p) && HeldIn(Members(i), p))
    && (forall v, k :: (v, k) in report.duplicated <==> KeyTwice(if v.DecisionView? then d else i, k))
  }

  lemma {:induction false} ForeignMeans(rows: seq<Member>, prefix: Prefix, m: Member)
    ensures m in Foreign(rows, prefix) <==> m in rows && !Belongs(m.key, prefix)
  {
    if rows != [] {
      ForeignMeans(rows[..|rows| - 1], prefix, m);
      assert rows == rows[..|rows| - 1] + [rows[|rows| - 1]];
    }
  }

  lemma {:induction false} ImageHas(ps: set<int>, s: real)
    ensures s in (set p | p in ps :: p as real) <==> IsWhole(s) && s.Floor in ps
  {
    if p :| p in ps && p as real == s { assert s.Floor == p; }
  }

  lemma {:induction false} HasScore(d: seq<Member>, i: seq<Member>, s: real)
    ensures s in Grouped(d) || s in Grouped(i) <==> exists m :: m in d + i && m.score == s
  {
    GroupedScores(d);
    GroupedScores(i);
    SameScores(d, i);
  }

  lemma {:induction false} UnallocatedMeans(reserve: nat, counter: nat, d: seq<Member>, i: seq<Member>, s: real)
    ensures var live := LivePositions(Grouped(d), reserve) + LivePositions(Grouped(i), reserve);
            s in (set p | p in live - HandedOut(reserve, counter) :: p as real)
                 + FractionalPositions(Grouped(d), reserve) + FractionalPositions(Grouped(i), reserve)
            <==> s > reserve as real && (exists m :: m in d + i && m.score == s) && (IsWhole(s) ==> s > counter as real)
  {
    ImageHas(LivePositions(Grouped(d), reserve) + LivePositions(Grouped(i), reserve) - HandedOut(reserve, counter), s);
    HasScore(d, i, s);
    GroupedScores(d);
    GroupedScores(i);
    if IsWhole(s) {
      LiveScore(d, reserve, s);
      LiveScore(i, reserve, s);
    }
  }

  lemma {:induction false} RangeIsFound(reserve: nat, counter: nat, d: seq<Member>, badD: seq<Malformed>, i: seq<Member>, badI: seq<Malformed>,
                     keysD: set<Key>, keysI: set<Key>)
    ensures RangeFound(MakeReport(reserve, counter, Walked(d, ToolCall, badD), Walked(i, ToolCallIntent, badI), keysD, keysI),
                       reserve, counter, d, i)
  {
    var report := MakeReport(reserve, counter, Walked(d, ToolCall, badD), Walked(i, ToolCallIntent, badI), keysD, keysI);
    forall p: int ensures p in report.missing <==> reserve < p <= counter && !HeldIn(Members(d), p) && !HeldIn(Members(i), p) {
      LiveMeaning(d, reserve, p);
      LiveMeaning(i, reserve, p);
    }
    forall s ensures s in report.unallocated <==>
                  s > reserve as real && (exists m :: m in d + i && m.score == s) && (IsWhole(s) ==> s > counter as real) {
      UnallocatedMeans(reserve, counter, d, i, s);
    }
  }

  lemma {:induction false} NamedIsTwice(rows: seq<Member>, keys: set<Key>, k: Key)
    requires NamesDuplicates(rows, keys)
    ensures k in keys <==> KeyTwice(rows, k)
  {
    GroupedKeepsPlaces(rows, k);
  }

  lemma {:induction false} DuplicatesAreFound(reserve: nat, counter: nat, d: seq<Member>, badD: seq<Malformed>, i: seq<Member>,
                                              badI: seq<Malformed>, keysD: set<Key>, keysI: set<Key>)
    requires NamesDuplicates(d, keysD) && NamesDuplicates(i, keysI)
    ensures var report := MakeReport(reserve, counter, Walked(d, ToolCall, badD), Walked(i, ToolCallIntent, badI), keysD, keysI);
            forall v, k :: (v, k) in report.duplicated <==> KeyTwice(if v.DecisionView? then d else i, k)
  {
    var report := MakeReport(reserve, counter, Walked(d, ToolCall, badD), Walked(i, ToolCallIntent, badI), keysD, keysI);
    forall v, k ensures (v, k) in report.duplicated <==> KeyTwice(if v.DecisionView? then d else i, k) {
      NamedIsTwice(d, keysD, k);
      NamedIsTwice(i, keysI, k);
    }
  }

  lemma {:induction false} OthersAreFound(reserve: nat, counter: nat, d: seq<Member>, badD: seq<Malformed>, i: seq<Member>,
                       badI: seq<Malformed>, keysD: set<Key>, keysI: set<Key>)
    requires NamesDuplicates(d, keysD) && NamesDuplicates(i, keysI)
    ensures OthersFound(MakeReport(reserve, counter, Walked(d, ToolCall, badD), Walked(i, ToolCallIntent, badI), keysD, keysI),
                        reserve, d, i)
  {
    var report := MakeReport(reserve, counter, Walked(d, ToolCall, badD), Walked(i, ToolCallIntent, badI), keysD, keysI);
    forall p: int ensures p in report.shared <==> p > reserve && HeldIn(Members(d), p) && HeldIn(Members(i), p) {
      LiveMeaning(d, reserve, p);
      LiveMeaning(i, reserve, p);
    }
    forall m ensures m in report.foreign <==>
                  (m in d && !Belongs(m.key, ToolCall)) || (m in i && !Belongs(m.key, ToolCallIntent)) {
      ForeignMeans(d, ToolCall, m);
      ForeignMeans(i, ToolCallIntent, m);
    }
    DuplicatesAreFound(reserve, counter, d, badD, i, badI, keysD, keysI);
  }

  /** What a report says of the members read, category by category. */
  lemma {:induction false} FindingsMean(reserve: nat, counter: nat, d: seq<Member>, badD: seq<Malformed>, i: seq<Member>, badI: seq<Malformed>,
                     keysD: set<Key>, keysI: set<Key>)
    requires NamesDuplicates(d, keysD) && NamesDuplicates(i, keysI)
    ensures var report := MakeReport(reserve, counter, Walked(d, ToolCall, badD), Walked(i, ToolCallIntent, badI), keysD, keysI);
            RangeFound(report, reserve, counter, d, i) && OthersFound(report, reserve, d, i) && report.malformed == badD + badI
  {
    var report := MakeReport(reserve, counter, Walked(d, ToolCall, badD), Walked(i, ToolCallIntent, badI), keysD, keysI);
    RangeIsFound(reserve, counter, d, badD, i, badI, keysD, keysI);
    OthersAreFound(reserve, counter, d, badD, i, badI, keysD, keysI);
  }

  lemma {:induction false} LiveScore(rows: seq<Member>, reserve: nat, s: real)
    requires IsWhole(s)
    ensures s.Floor in LivePositions(Grouped(rows), reserve) <==> s > reserve as real && s in Scores(rows)
  {
    GroupedScores(rows);
  }

  // ----- the pass -----

  /** The view does not change during the pass and no score is shared by a page of members. */
  ghost predicate Still(server: Server) {
    FewPerScore(server.final) && forall k: nat :: server.views(k) == server.final
  }

  lemma {:induction false} StillWalk(server: Server, read: seq<Member>)
    requires Still(server) && WalkDone(server, read)
    ensures Members(read) == server.final
    ensures Repeats(read) <==> |server.final| >= PAGE
  {
    assert server.views(0) == server.final;
  }

  /** What a pass read: the answered calls of each view, and their rows. */
  datatype Reading = Reading(d: seq<Member>, i: seq<Member>, pagesD: seq<ScorePage>, pagesI: seq<ScorePage>, okD: bool, okI: bool)

  ghost predicate ReadFrom(r: Reading, decision: Server, intent: Server) {
    && Collected(decision, r.d, r.pagesD, r.okD) && Collected(intent, r.i, r.pagesI, r.okI)
    && (r.okD <==> !Unanswered(CollectRead(decision))) && (r.okI <==> !Unanswered(CollectRead(intent)))
    && (Honest(decision) ==> BadPages(r.pagesD) == Zeros(r.d) && (r.okD ==> WalkDone(decision, r.d)))
    && (Honest(intent) ==> BadPages(r.pagesI) == Zeros(r.i) && (r.okI ==> WalkDone(intent, r.i)))
  }

  function Bad(pages: seq<ScorePage>, ok: bool): seq<Malformed> { BadPages(pages) + (if ok then [] else [ZscanFailed]) }

  /** One reconciliation pass: the reserve, then the counter, then every view. */
  method ReconcileOnce(reserve: nat, bound: Option<nat>, counter: Option<nat>, decision: Server, intent: Server)
    returns (outcome: Outcome, ghost r: Reading)
    requires AnswersFrom(decision) && AnswersFrom(intent)
    ensures outcome.ReserveMismatch? <==> bound.Some? && bound.value != reserve
    ensures outcome.NoSequence? <==> !(bound.Some? && bound.value != reserve) && counter.None?
    // Whatever the servers did with the bounds asked of them, each category is what was read.
    ensures outcome.Reported? ==>
            && counter.Some? && ReadFrom(r, decision, intent)
            && RangeFound(outcome.report, reserve, counter.value, r.d, r.i)
            && OthersFound(outcome.report, reserve, r.d, r.i)
            && outcome.report.malformed == Bad(r.pagesD, r.okD) + Bad(r.pagesI, r.okI)
    // Servers that honour them: clean exactly when every call was answered, nothing was read twice and every check holds.
    ensures outcome.Reported? && Honest(decision) && Honest(intent) ==>
            (outcome.report.Clean() <==>
              r.okD && r.okI && !Repeats(r.d) && !Repeats(r.i) && Sound(Members(r.d), Members(r.i), reserve, counter.value))
    // And views that do not move: clean exactly when both fit in one page and satisfy every check.
    ensures outcome.Reported? && Honest(decision) && Honest(intent) && Still(decision) && Still(intent) ==>
            (outcome.report.Clean() <==>
              && decision.answer(0, None).Some? && intent.answer(0, None).Some?
              && |decision.final| < PAGE && |intent.final| < PAGE
              && Sound(decision.final, intent.final, reserve, counter.value))
  {
    r := Reading([], [], [], [], true, true);
    if bound.Some? && bound.value != reserve { return ReserveMismatch(bound.value), r; }
    if counter.None? { return NoSequence, r; }
    var dataD, okD, d, pagesD := CollectView(ToolCall, decision);
    var dataI, okI, i, pagesI := CollectView(ToolCallIntent, intent);
    r := Reading(d, i, pagesD, pagesI, okD, okI);
    var keysD := DuplicatedKeys(dataD.positions);
    var keysI := DuplicatedKeys(dataI.positions);
    outcome := Reported(MakeReport(reserve, counter.value, dataD, dataI, keysD, keysI));
    FindingsMean(reserve, counter.value, d, Bad(pagesD, okD), i, Bad(pagesI, okI), keysD, keysI);
    if Honest(decision) && Honest(intent) {
      HonestClean(reserve, counter.value, r, keysD, keysI);
      if Still(decision) && Still(intent) { StillClean(reserve, counter.value, decision, intent, r); }
    }
  }

  lemma {:induction false} HonestClean(reserve: nat, counter: nat, r: Reading, keysD: set<Key>, keysI: set<Key>)
    requires NamesDuplicates(r.d, keysD) && NamesDuplicates(r.i, keysI)
    requires BadPages(r.pagesD) == Zeros(r.d) && BadPages(r.pagesI) == Zeros(r.i)
    ensures MakeReport(reserve, counter, Walked(r.d, ToolCall, Bad(r.pagesD, r.okD)),
                       Walked(r.i, ToolCallIntent, Bad(r.pagesI, r.okI)), keysD, keysI).Clean() <==>
            r.okD && r.okI && !Repeats(r.d) && !Repeats(r.i) && Sound(Members(r.d), Members(r.i), reserve, counter)
  {
    CleanMeans(reserve, counter, r.d, Bad(r.pagesD, r.okD), r.i, Bad(r.pagesI, r.okI), keysD, keysI);
    CleanRows(r.d, ToolCall);
    CleanRows(r.i, ToolCallIntent);
  }

  lemma {:induction false} StillClean(reserve: nat, counter: nat, decision: Server, intent: Server, r: Reading)
    requires Honest(decision) && Honest(intent) && Still(decision) && Still(intent) && ReadFrom(r, decision, intent)
    requires |decision.final| < PAGE ==> (r.okD <==> decision.answer(0, None).Some?)
    requires |intent.final| < PAGE ==> (r.okI <==> intent.answer(0, None).Some?)
    ensures r.okD && r.okI && !Repeats(r.d) && !Repeats(r.i) && Sound(Members(r.d), Members(r.i), reserve, counter) <==>
            && decision.answer(0, None).Some? && intent.answer(0, None).Some?
            && |decision.final| < PAGE && |intent.final| < PAGE
            && Sound(decision.final, intent.final, reserve, counter)
  {
    if r.okD { StillWalk(decision, r.d); }
    if r.okI { StillWalk(intent, r.i); }
  }
}
