/** The fault key `ledger_fault:{tx:020d}:{identity}:{nonce}`: how the writer builds it,
    how the page's range bounds order it, and how a reader parses it back. */
module FaultKey {
  import opened Wrappers

  type Byte = b: nat | b < 256
  type Bytes = seq<Byte>

  const COLON: Byte := 58
  const PREFIX: Bytes := [108, 101, 100, 103, 101, 114, 95, 102, 97, 117, 108, 116, 58]
  const TX_PAD: nat := 20
  const NONCE_BYTES: nat := 16
  const MAX_KEY_BYTES: nat := 1023
  const MAX_IDENTITY_BYTES: nat := MAX_KEY_BYTES - (|PREFIX| + TX_PAD + 1 + 1 + NONCE_BYTES)

  // ----- byte order -----

  predicate Less(a: Bytes, b: Bytes) {
    b != [] && (a == [] || a[0] < b[0] || (a[0] == b[0] && Less(a[1..], b[1..])))
  }

  lemma {:induction false} CommonPrefix(p: Bytes, a: Bytes, b: Bytes)
    ensures Less(p + a, p + b) <==> Less(a, b)
  {
    if p == [] {
      assert p + a == a && p + b == b;
    } else {
      CommonPrefix(p[1..], a, b);
      assert (p + a)[1..] == p[1..] + a && (p + b)[1..] == p[1..] + b;
    }
  }

  /** Byte order is a strict total order. */
  lemma {:induction false} LessOrder(a: Bytes, b: Bytes, c: Bytes)
    ensures !Less(a, a)
    ensures Less(a, b) ==> !Less(b, a)
    ensures Less(a, b) && Less(b, c) ==> Less(a, c)
    ensures a != b ==> Less(a, b) || Less(b, a)
    decreases |a|
  {
    if a != [] && b != [] {
      LessOrder(a[1..], b[1..], if c == [] then [] else c[1..]);
      assert a[0] == b[0] && a[1..] == b[1..] ==> a == [a[0]] + a[1..] == b;
    } else if a != [] {
      LessOrder(a[1..], [], []);
    }
  }

  // ----- decimal -----

  function Pow10(w: nat): (p: nat) ensures p > 0 { if w == 0 then 1 else 10 * Pow10(w - 1) }

  function Digit(n: nat): Byte { 48 + n % 10 }

  /** The last `w` decimal digits of n, leading zeros kept. */
  function Digits(n: nat, w: nat): (d: Bytes)
    ensures |d| == w
  {
    if w == 0 then [] else Digits(n / 10, w - 1) + [Digit(n)]
  }

  function Decimal(n: nat): (d: Bytes)
    ensures |d| >= 1
  {
    if n < 10 then [Digit(n)] else Decimal(n / 10) + [Digit(n)]
  }

  const LIMIT: nat := 100_000_000_000_000_000_000

  lemma {:induction false} LimitIsPow()
    ensures Pow10(TX_PAD) == LIMIT
  {
    assert Pow10(4) == 10_000;
    assert Pow10(8) == 10_000 * Pow10(4);
    assert Pow10(12) == 10_000 * Pow10(8);
    assert Pow10(16) == 10_000 * Pow10(12);
    assert Pow10(20) == 10_000 * Pow10(16);
  }

  /** Zero-padded to at least twenty digits. */
  function Pad(n: nat): Bytes { if n < LIMIT then Digits(n, TX_PAD) else Decimal(n) }

  predicate IsDigit(b: Byte) { 48 <= b <= 57 }

  function Number(d: Bytes): nat {
    if d == [] then 0 else
      var b := d[|d| - 1];
      Number(d[..|d| - 1]) * 10 + (if IsDigit(b) then b - 48 else 0)
  }

  lemma {:induction false} DigitsRead(n: nat, w: nat)
    requires n < Pow10(w)
    ensures Number(Digits(n, w)) == n
    ensures forall i :: 0 <= i < w ==> IsDigit(Digits(n, w)[i])
  {
    if w > 0 {
      DigitsRead(n / 10, w - 1);
      var d := Digits(n, w);
      assert d[..|d| - 1] == Digits(n / 10, w - 1);
    }
  }

  lemma {:induction false} DecimalIsLong(n: nat, w: nat)
    requires n >= Pow10(w)
    ensures |Decimal(n)| > w
    ensures forall i :: 0 <= i < |Decimal(n)| ==> IsDigit(Decimal(n)[i])
  {
    if n < 10 {
    } else if w == 0 {
      DecimalIsLong(n / 10, 0);
    } else {
      DecimalIsLong(n / 10, w - 1);
    }
  }

  /** Fixed-width digits order as the numbers do, whatever follows them. */
  lemma {:induction false} DigitsOrder(n: nat, m: nat, w: nat, x: Bytes, y: Bytes)
    requires n < m < Pow10(w)
    ensures Less(Digits(n, w) + x, Digits(m, w) + y)
  {
    if w > 0 {
      var a, b := [Digit(n)] + x, [Digit(m)] + y;
      assert Digits(n, w) + x == Digits(n / 10, w - 1) + a;
      assert Digits(m, w) + y == Digits(m / 10, w - 1) + b;
      if n / 10 < m / 10 {
        DigitsOrder(n / 10, m / 10, w - 1, a, b);
      } else {
        CommonPrefix(Digits(n / 10, w - 1), a, b);
      }
    }
  }

  // ----- the key -----

  function Bound(tx: nat): Bytes { PREFIX + Pad(tx) }

  function Tail(identity: Bytes, nonce: Bytes): Bytes { [COLON] + identity + [COLON] + nonce }

  function Key(tx: nat, identity: Bytes, nonce: Bytes): Bytes { Bound(tx) + Tail(identity, nonce) }

  /** The transaction a fault key names, or None if it names none. */
  function KeyTransaction(key: Bytes): Option<nat> {
    if !(PREFIX <= key) then None
    else
      var rest := key[|PREFIX|..];
      if |rest| < TX_PAD || !(forall i :: 0 <= i < TX_PAD ==> IsDigit(rest[i])) then None
      else if |rest| == TX_PAD || rest[TX_PAD] != COLON then None
      else Some(Number(rest[..TX_PAD]))
  }

  predicate InRange(key: Bytes, from: Bytes, to: Bytes) { !Less(key, from) && Less(key, to) }

  lemma {:induction false} KeyAgainstBound(tx: nat, other: nat, identity: Bytes, nonce: Bytes)
    requires tx < LIMIT && other < LIMIT
    ensures Less(Key(tx, identity, nonce), Bound(other)) <==> tx < other
  {
    LimitIsPow();
    var d, e, t := Digits(tx, TX_PAD), Digits(other, TX_PAD), Tail(identity, nonce);
    assert Key(tx, identity, nonce) == PREFIX + (d + t);
    CommonPrefix(PREFIX, d + t, e);
    assert e == e + [];
    if tx < other {
      DigitsOrder(tx, other, TX_PAD, t, []);
    } else if other < tx {
      DigitsOrder(other, tx, TX_PAD, [], t);
      LessOrder(e + [], d + t, e);
    } else {
      CommonPrefix(d, t, []);
    }
  }

  /** The half-open key range of a page's transactions holds exactly the faults of those transactions. */
  lemma {:induction false} WindowIsExact(tx: nat, lo: nat, hi: nat, identity: Bytes, nonce: Bytes)
    requires tx < LIMIT && lo < LIMIT && hi + 1 < LIMIT
    ensures InRange(Key(tx, identity, nonce), Bound(lo), Bound(hi + 1)) <==> lo <= tx <= hi
  {
    KeyAgainstBound(tx, lo, identity, nonce);
    KeyAgainstBound(tx, hi + 1, identity, nonce);
  }

  /** The bare inclusive bound of `hi` would drop every fault of the last transaction. */
  lemma {:induction false} InclusiveEndDropsLast(tx: nat, identity: Bytes, nonce: Bytes)
    requires tx < LIMIT
    ensures !Less(Key(tx, identity, nonce), Bound(tx)) && Key(tx, identity, nonce) != Bound(tx)
  {
    KeyAgainstBound(tx, tx, identity, nonce);
    assert |Key(tx, identity, nonce)| > |Bound(tx)|;
  }

  /** Parsing returns the transaction the writer padded, and refuses one wider than the pad. */
  lemma {:induction false} ParseInvertsPad(tx: nat, identity: Bytes, nonce: Bytes)
    ensures KeyTransaction(Key(tx, identity, nonce)) == if tx < LIMIT then Some(tx) else None
  {
    LimitIsPow();
    var key := Key(tx, identity, nonce);
    var rest := Pad(tx) + Tail(identity, nonce);
    assert key == PREFIX + rest && key[|PREFIX|..] == rest;
    if tx < LIMIT {
      DigitsRead(tx, TX_PAD);
      assert rest[..TX_PAD] == Digits(tx, TX_PAD);
      assert forall i :: 0 <= i < TX_PAD ==> rest[i] == Digits(tx, TX_PAD)[i];
      assert rest[TX_PAD] == COLON;
    } else {
      DecimalIsLong(tx, TX_PAD);
      assert rest[TX_PAD] == Decimal(tx)[TX_PAD];
    }
  }

  /** Distinct faults have distinct keys, colons in the identity included. */
  lemma {:induction false} KeyIsInjective(tx: nat, identity: Bytes, nonce: Bytes, tx': nat, identity': Bytes, nonce': Bytes)
    requires tx < LIMIT && tx' < LIMIT && |nonce| == |nonce'| == NONCE_BYTES
    requires Key(tx, identity, nonce) == Key(tx', identity', nonce')
    ensures tx == tx' && identity == identity' && nonce == nonce'
  {
    ParseInvertsPad(tx, identity, nonce);
    ParseInvertsPad(tx', identity', nonce');
    var key := Key(tx, identity, nonce);
    var n := |key|;
    assert key[n - NONCE_BYTES..] == nonce;
    assert key[n - NONCE_BYTES..] == nonce';
    assert key[|Bound(tx)| + 1..n - NONCE_BYTES - 1] == identity;
    assert key[|Bound(tx')| + 1..n - NONCE_BYTES - 1] == identity';
  }

  lemma {:induction false} NumberDigits(d: Bytes)
    requires forall i :: 0 <= i < |d| ==> IsDigit(d[i])
    ensures Number(d) < Pow10(|d|) && Digits(Number(d), |d|) == d
  {
    if d != [] {
      var init, last := d[..|d| - 1], d[|d| - 1];
      NumberDigits(init);
      assert Number(d) == Number(init) * 10 + (last - 48);
      assert Number(d) / 10 == Number(init) && Digit(Number(d)) == last;
      assert d == init + [last];
    }
  }

  lemma {:induction false} ParsedIsBound(key: Bytes, tx: nat)
    requires KeyTransaction(key) == Some(tx)
    ensures tx < LIMIT && Bound(tx) + [COLON] <= key
  {
    LimitIsPow();
    var rest := key[|PREFIX|..];
    var d, tail := rest[..TX_PAD], rest[TX_PAD..];
    NumberDigits(d);
    assert Pad(tx) == d;
    assert tail == [COLON] + tail[1..] && rest == d + tail && key == PREFIX + rest;
    assert key == (PREFIX + d + [COLON]) + tail[1..];
  }

  lemma {:induction false} BoundIsParsed(tx: nat, tail: Bytes)
    requires tx < LIMIT
    ensures KeyTransaction(Bound(tx) + [COLON] + tail) == Some(tx)
  {
    LimitIsPow();
    DigitsRead(tx, TX_PAD);
    var rest := Pad(tx) + [COLON] + tail;
    assert Bound(tx) + [COLON] + tail == PREFIX + rest && (PREFIX + rest)[|PREFIX|..] == rest;
    assert rest[..TX_PAD] == Pad(tx) && rest[TX_PAD] == COLON;
    assert forall i :: 0 <= i < TX_PAD ==> rest[i] == Pad(tx)[i];
  }

  /** A key names a transaction if and only if it is that transaction's own bound, a colon, and anything. */
  lemma {:induction false} ParsesExactly(key: Bytes, tx: nat)
    ensures KeyTransaction(key) == Some(tx) <==> tx < LIMIT && Bound(tx) + [COLON] <= key
  {
    if KeyTransaction(key) == Some(tx) { ParsedIsBound(key, tx); }
    if tx < LIMIT && Bound(tx) + [COLON] <= key {
      var start := Bound(tx) + [COLON];
      assert key == start + key[|start|..];
      BoundIsParsed(tx, key[|start|..]);
    }
  }
}
