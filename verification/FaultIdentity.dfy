/** What a fault names: the record's call_id when it can be a key component, or a
    digest of the record key. Text is a sequence of code points, lone surrogates
    included, because that is what a JSON string can hold. */
module FaultIdentity {
  import opened Wrappers
  import opened FaultKey

  type CodePoint = c: nat | c < 0x110000
  type Text = seq<CodePoint>

  predicate Surrogate(c: CodePoint) { 0xD800 <= c < 0xE000 }

  /** UTF-8, RFC 3629 section 3. */
  function Utf8(c: CodePoint): (b: Bytes)
    ensures 1 <= |b| <= 4
  {
    if c < 0x80 then [c]
    else if c < 0x800 then [0xC0 + c / 0x40, 0x80 + c % 0x40]
    else if c < 0x10000 then [0xE0 + c / 0x1000, 0x80 + c / 0x40 % 0x40, 0x80 + c % 0x40]
    else [0xF0 + c / 0x40000, 0x80 + c / 0x1000 % 0x40, 0x80 + c / 0x40 % 0x40, 0x80 + c % 0x40]
  }

  /** Strict encoding fails on the first surrogate. */
  function Encode(t: Text): Option<Bytes> {
    if t == [] then Some([])
    else
      var init := Encode(t[..|t| - 1]);
      if init.None? || Surrogate(t[|t| - 1]) then None else Some(init.value + Utf8(t[|t| - 1]))
  }

  /** Encoding with errors="replace": a surrogate becomes one question mark. */
  function Replaced(c: CodePoint): (b: Bytes)
    ensures |b| >= 1
  {
    if Surrogate(c) then [63] else Utf8(c)
  }

  function EncodeReplace(t: Text): Bytes {
    if t == [] then [] else EncodeReplace(t[..|t| - 1]) + Replaced(t[|t| - 1])
  }

  datatype CallId = Absent | Given(text: Text)

  /** `key:` and 32 hexadecimal digits of the record key's digest. */
  function DigestIdentity(digest: Text): Text { [107, 101, 121, 58] + digest }

  predicate Ascii(t: Text) { forall i :: 0 <= i < |t| ==> t[i] < 0x80 }

  function Identity(callId: CallId, digest: Text): Text {
    if callId.Given? && callId.text != []
       && |EncodeReplace(callId.text)| <= MAX_IDENTITY_BYTES && Encode(callId.text).Some?
    then callId.text
    else DigestIdentity(digest)
  }

  /** The text of a byte string that is plain ASCII. */
  function AsText(b: Bytes): Text { b }

  datatype KeyResult = TooLong(bytes: nat) | Built(key: Text)

  function BuildKey(tx: nat, callId: CallId, digest: Text, nonce: Text): KeyResult {
    var key := AsText(Bound(tx)) + [COLON] + Identity(callId, digest) + [COLON] + nonce;
    var encoded := |EncodeReplace(key)|;
    if encoded > MAX_KEY_BYTES then TooLong(encoded) else Built(key)
  }

  lemma {:induction false} ReplaceStep(t: Text, c: CodePoint)
    ensures EncodeReplace(t + [c]) == EncodeReplace(t) + Replaced(c)
  {
    assert (t + [c])[..|t|] == t;
  }

  lemma {:induction false} Regroup<T>(x: seq<T>, y: seq<T>, z: seq<T>)
    ensures (x + y) + z == x + (y + z)
  {
  }

  lemma {:induction false} ReplaceAppend(a: Text, b: Text)
    ensures EncodeReplace(a + b) == EncodeReplace(a) + EncodeReplace(b)
  {
    if b == [] {
      assert a + b == a;
      assert EncodeReplace(a) + [] == EncodeReplace(a);
    } else {
      var init, last := b[..|b| - 1], b[|b| - 1];
      ReplaceAppend(a, init);
      Regroup(a, init, [last]);
      assert init + [last] == b;
      ReplaceStep(a + init, last);
      ReplaceStep(init, last);
      Regroup(EncodeReplace(a), EncodeReplace(init), Replaced(last));
    }
  }

  /** Text that encodes strictly is the text whose lossy encoding lost nothing. */
  lemma {:induction false} StrictIsReplace(t: Text)
    ensures Encode(t) == if Writable(t) then Some(EncodeReplace(t)) else None
  {
    if t != [] {
      StrictIsReplace(t[..|t| - 1]);
      WritableStep(t[..|t| - 1], t[|t| - 1]);
      assert t[..|t| - 1] + [t[|t| - 1]] == t;
    }
  }

  predicate Writable(t: Text) { forall i :: 0 <= i < |t| ==> !Surrogate(t[i]) }

  lemma {:induction false} WritableStep(t: Text, c: CodePoint)
    ensures Writable(t + [c]) <==> Writable(t) && !Surrogate(c)
  {
    if Writable(t + [c]) {
      assert (t + [c])[|t|] == c;
      forall i | 0 <= i < |t| ensures !Surrogate(t[i]) { assert (t + [c])[i] == t[i]; }
    }
  }

  lemma {:induction false} EncodeAppend(a: Text, b: Text)
    ensures Encode(a + b) == if Encode(a).Some? && Encode(b).Some? then Some(Encode(a).value + Encode(b).value) else None
  {
    StrictIsReplace(a);
    StrictIsReplace(b);
    StrictIsReplace(a + b);
    ReplaceAppend(a, b);
    assert Writable(a + b) <==> Writable(a) && Writable(b) by {
      if Writable(a + b) {
        forall i | 0 <= i < |a| ensures !Surrogate(a[i]) { assert (a + b)[i] == a[i]; }
        forall i | 0 <= i < |b| ensures !Surrogate(b[i]) { assert (a + b)[|a| + i] == b[i]; }
      }
    }
  }

  lemma {:induction false} AsciiEncodes(t: Text)
    requires Ascii(t)
    ensures Encode(t).Some? && |Encode(t).value| == |t|
    ensures forall i :: 0 <= i < |t| ==> Encode(t).value[i] == t[i]
  {
    if t != [] { AsciiEncodes(t[..|t| - 1]); }
  }

  lemma {:induction false} BoundIsAscii(tx: nat)
    requires tx < LIMIT
    ensures Ascii(AsText(Bound(tx))) && |Bound(tx)| == |PREFIX| + TX_PAD
  {
    LimitIsPow();
    DigitsRead(tx, TX_PAD);
    forall i | 0 <= i < |Bound(tx)| ensures Bound(tx)[i] < 0x80 {
      if i >= |PREFIX| { assert Bound(tx)[i] == Pad(tx)[i - |PREFIX|]; }
    }
  }

  /** A call id is kept if and only if it is there, not empty, encodes, and fits; anything else becomes the digest. */
  lemma {:induction false} UsableIsKept(callId: CallId, digest: Text)
    ensures Identity(callId, digest)
         == if callId.Given? && callId.text != [] && Writable(callId.text) && Encode(callId.text).Some?
               && |Encode(callId.text).value| <= MAX_IDENTITY_BYTES
            then callId.text else [107, 101, 121, 58] + digest
  {
    if callId.Given? { StrictIsReplace(callId.text); }
  }

  /** The chosen identity is always writable and always within its budget. */
  lemma {:induction false} IdentityFits(callId: CallId, digest: Text)
    requires |digest| == 32 && Ascii(digest)
    ensures Encode(Identity(callId, digest)).Some?
    ensures 0 < |Encode(Identity(callId, digest)).value| <= MAX_IDENTITY_BYTES
  {
    var id := Identity(callId, digest);
    if id == DigestIdentity(digest) { AsciiEncodes(id); } else { StrictIsReplace(id); }
    EncodesSomething(id);
  }

  lemma {:induction false} EncodesSomething(t: Text)
    requires t != [] && Encode(t).Some?
    ensures Encode(t).value != []
  {
  }

  lemma {:induction false} EncodeFive(p: Text, q: Text, r: Text, s: Text, t: Text)
    requires Encode(p).Some? && Encode(q).Some? && Encode(r).Some? && Encode(s).Some? && Encode(t).Some?
    ensures Encode(p + q + r + s + t)
            == Some(Encode(p).value + Encode(q).value + Encode(r).value + Encode(s).value + Encode(t).value)
  {
    EncodeAppend(p, q);
    EncodeAppend(p + q, r);
    EncodeAppend(p + q + r, s);
    EncodeAppend(p + q + r + s, t);
  }

  lemma {:induction false} TailJoins(b: Bytes, i: Bytes, n: Bytes)
    ensures b + [COLON] + i + [COLON] + n == b + Tail(i, n)
  {
  }

  lemma {:induction false} ColonEncodes()
    ensures Encode([COLON]) == Some([COLON])
  {
    var colon: Text := [COLON];
    AsciiEncodes(colon);
    assert Encode(colon).value == [COLON];
  }

  lemma {:induction false} JoinEncodes(bound: Text, id: Text, nonce: Text)
    requires Encode(bound).Some? && Encode(id).Some? && Encode(nonce).Some?
    ensures var key := bound + [COLON] + id + [COLON] + nonce;
            Encode(key) == Some(Encode(bound).value + Tail(Encode(id).value, Encode(nonce).value))
  {
    ColonEncodes();
    EncodeFive(bound, [COLON], id, [COLON], nonce);
    TailJoins(Encode(bound).value, Encode(id).value, Encode(nonce).value);
  }

  /** For every call_id, of any length and any characters, the fault key is built, encodes, fits the
      ledger's limit and is the key the reader parses: the length error cannot happen. */
  lemma {:induction false} FaultKeyIsAlwaysWritable(tx: nat, callId: CallId, digest: Text, nonce: Text)
    requires tx < LIMIT && |digest| == 32 && Ascii(digest) && |nonce| == NONCE_BYTES && Ascii(nonce)
    ensures Encode(Identity(callId, digest)).Some? && Encode(nonce).Some?
    ensures var built := BuildKey(tx, callId, digest, nonce);
            && built.Built?
            && Encode(built.key) == Some(Key(tx, Encode(Identity(callId, digest)).value, Encode(nonce).value))
            && |Encode(built.key).value| <= MAX_KEY_BYTES
            && KeyTransaction(Encode(built.key).value) == Some(tx)
  {
    var id := Identity(callId, digest);
    var bound := AsText(Bound(tx));
    IdentityFits(callId, digest);
    BoundIsAscii(tx);
    AsciiEncodes(bound);
    AsciiEncodes(nonce);
    assert Encode(bound).value == Bound(tx);
    JoinEncodes(bound, id, nonce);
    var key := bound + [COLON] + id + [COLON] + nonce;
    StrictIsReplace(key);
    ParseInvertsPad(tx, Encode(id).value, Encode(nonce).value);
  }

  /** A call_id of lone surrogates passes every length check and cannot be written; the digest is used. */
  lemma {:induction false} SurrogatesAreRefused(callId: CallId, digest: Text)
    requires callId.Given? && exists i :: 0 <= i < |callId.text| && Surrogate(callId.text[i])
    ensures Encode(callId.text).None? && Identity(callId, digest) == DigestIdentity(digest)
  {
    StrictIsReplace(callId.text);
  }

  // ----- the encoding loses nothing -----

  predicate Continuation(b: Byte) { 0x80 <= b < 0xC0 }

  /** What is left of a byte when the bits that mark its place are taken off. */
  function Payload(b: Byte, mark: nat): int { b - mark }

  /** The code point a byte string spells, read as RFC 3629 section 3 reads it. */
  function Spelled(b: Bytes): int {
    if |b| == 1 then b[0]
    else if |b| == 2 then Payload(b[0], 0xC0) * 0x40 + Payload(b[1], 0x80)
    else if |b| == 3 then Payload(b[0], 0xE0) * 0x1000 + Payload(b[1], 0x80) * 0x40 + Payload(b[2], 0x80)
    else if |b| == 4 then
      Payload(b[0], 0xF0) * 0x40000 + Payload(b[1], 0x80) * 0x1000 + Payload(b[2], 0x80) * 0x40 + Payload(b[3], 0x80)
    else -1
  }

  lemma {:induction false} Sextets(c: nat)
    ensures c == c / 0x40 * 0x40 + c % 0x40 && 0 <= c % 0x40 < 0x40
    ensures c / 0x40 == c / 0x1000 * 0x40 + c / 0x40 % 0x40 && 0 <= c / 0x40 % 0x40 < 0x40
    ensures c / 0x1000 == c / 0x40000 * 0x40 + c / 0x1000 % 0x40 && 0 <= c / 0x1000 % 0x40 < 0x40
  {
  }

  /** A code point is spelled in as many bytes as its size needs: one lead byte, then continuation bytes. */
  lemma {:induction false} Utf8Reads(c: CodePoint)
    ensures |Utf8(c)| == if c < 0x80 then 1 else if c < 0x800 then 2 else if c < 0x10000 then 3 else 4
    ensures !Continuation(Utf8(c)[0]) && forall i :: 0 < i < |Utf8(c)| ==> Continuation(Utf8(c)[i])
    ensures Spelled(Utf8(c)) == c
  {
    Sextets(c);
  }

  /** The last code point of a byte string is where its last lead byte is. */
  lemma {:induction false} LastCodePoint(a: Bytes, c: CodePoint, b: Bytes, d: CodePoint)
    requires a + Utf8(c) == b + Utf8(d)
    ensures a == b && c == d
  {
    Utf8Reads(c);
    Utf8Reads(d);
    var joined := a + Utf8(c);
    var m, n := |Utf8(c)|, |Utf8(d)|;
    assert joined[|joined| - m] == Utf8(c)[0] && joined[|joined| - n] == Utf8(d)[0];
    if m == n {
      assert joined[..|joined| - m] == a && joined[|joined| - m..] == Utf8(c);
      assert joined[..|joined| - n] == b && joined[|joined| - n..] == Utf8(d);
    }
  }

  lemma {:induction false} EncodeTellsApart(t: Text, u: Text)
    requires Encode(t).Some? && Encode(t) == Encode(u)
    ensures t == u
  {
    if t == [] || u == [] {
      if t != [] { EncodesSomething(t); }
      if u != [] { EncodesSomething(u); }
    } else {
      LastCodePoint(Encode(t[..|t| - 1]).value, t[|t| - 1], Encode(u[..|u| - 1]).value, u[|u| - 1]);
      EncodeTellsApart(t[..|t| - 1], u[..|u| - 1]);
      assert t == t[..|t| - 1] + [t[|t| - 1]] && u == u[..|u| - 1] + [u[|u| - 1]];
    }
  }

  /** Faults that land under one key name one transaction and one identity, and drew one nonce: in particular no two
      call ids that can be kept share a key, whatever characters they hold. */
  lemma {:induction false} OneKeyOneFault(tx: nat, callId: CallId, digest: Text, nonce: Text,
                                          tx': nat, callId': CallId, digest': Text, nonce': Text)
    requires tx < LIMIT && |digest| == 32 && Ascii(digest) && |nonce| == NONCE_BYTES && Ascii(nonce)
    requires tx' < LIMIT && |digest'| == 32 && Ascii(digest') && |nonce'| == NONCE_BYTES && Ascii(nonce')
    requires BuildKey(tx, callId, digest, nonce) == BuildKey(tx', callId', digest', nonce')
    ensures tx == tx' && Identity(callId, digest) == Identity(callId', digest') && nonce == nonce'
  {
    FaultKeyIsAlwaysWritable(tx, callId, digest, nonce);
    FaultKeyIsAlwaysWritable(tx', callId', digest', nonce');
    AsciiEncodes(nonce);
    AsciiEncodes(nonce');
    KeyIsInjective(tx, Encode(Identity(callId, digest)).value, Encode(nonce).value,
                   tx', Encode(Identity(callId', digest')).value, Encode(nonce').value);
    EncodeTellsApart(Identity(callId, digest), Identity(callId', digest'));
    EncodeTellsApart(nonce, nonce');
  }
}
