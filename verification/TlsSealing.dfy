/**
 The sealing side of an established TLS 1.3 connection (`packages/tls/src/handshake.ts`): `write`,
 `close`, KeyUpdate responses, the rekey at 2^24 records and fatal alerts, one at a time off the
 write queue. `Perform` says which (generation, sequence number) each sealed record takes; the class
 does it in the source's own form.

 The queue runs its actions in call order and each to its end. What `read` does in between reaches
 the sealing side in one way only: a peer's request sets `keyUpdateResponseOwed`. An action looks at
 the flag once and clears it in the same step, so a request that arrives during an action is one that
 arrives after it: `RequestUpdate`.
 */
module TlsSealing {
  import opened Bytes
  import opened HandshakeCodec
  import opened HandshakeMessages
  import opened TlsRecord

  const REKEY_AFTER := 0x1000000

  datatype Suite = Suite(aead: Aead, update: bytes -> bytes, trafficKeys: bytes -> TrafficKeys)

  /** The traffic secret after `generation` KeyUpdates. */
  function SecretAt(suite: Suite, first: bytes, generation: nat): bytes {
    if generation == 0 then first else suite.update(SecretAt(suite, first, generation - 1))
  }

  function KeysAt(suite: Suite, first: bytes, generation: nat): TrafficKeys {
    suite.trafficKeys(SecretAt(suite, first, generation))
  }

  /** One use of an AEAD key: which generation, which sequence number, on what. */
  datatype Sealed = Sealed(generation: nat, seqNo: nat, content: ContentType, payload: bytes)

  function RecordOf(suite: Suite, first: bytes, s: Sealed): bytes {
    match SealAead(suite.aead, KeysAt(suite, first, s.generation), s.seqNo, s.content, s.payload, 0)
    case Some(record) => record
    case None => []
  }

  function WireOf(suite: Suite, first: bytes, sealed: seq<Sealed>): bytes {
    if sealed == [] then [] else RecordOf(suite, first, sealed[0]) + WireOf(suite, first, sealed[1..])
  }

  /**
   `clientAppKeys` and `clientAppSeq`, beside them the copy `clientWriteKeys` that fatal alerts use,
   and the two flags.
   */
  datatype Tx = Tx(generation: nat, seqNo: nat, copyGeneration: nat, copySeqNo: nat, owed: bool, closing: bool)

  const FRESH := Tx(0, 0, 0, 0, false, false)

  /** Whether the transport takes each write to come; it takes all past the list's end. */
  type Verdicts = seq<bool>

  function Accepts(v: Verdicts): bool {
    v == [] || v[0]
  }

  function Later(v: Verdicts): Verdicts {
    if v == [] then [] else v[1..]
  }

  datatype Sent = Sent(tx: Tx, sealed: seq<Sealed>, delivered: seq<Sealed>, verdicts: Verdicts, ok: bool)

  function Synced(tx: Tx): Tx {
    tx.(copyGeneration := tx.generation, copySeqNo := tx.seqNo)
  }

  const KEY_UPDATE: bytes := [24, 0, 0, 1, 0]

  lemma KeyUpdateEncoding()
    ensures EncodeMessage(KeyUpdate(false)) == Some(KEY_UPDATE)
    ensures DecodeMessage(KEY_UPDATE) == Ok(KeyUpdate(false))
  {
    assert MessageBody(KeyUpdate(false)) == [0];
    assert PutVec24([0]) == [0, 0, 1, 0];
    assert Put8(24) + [0, 0, 1, 0] == KEY_UPDATE;
    MessageRoundTrip(KeyUpdate(false));
  }

  function AlertBytes(fatal: bool, code: byte): bytes {
    [if fatal then 2 else 1, code]
  }

  /** One record under the application keys, then the transport's verdict on it. */
  function SealNext(tx: Tx, content: ContentType, payload: bytes, v: Verdicts): Sent {
    var one := Sealed(tx.generation, tx.seqNo, content, payload);
    Sent(tx.(seqNo := tx.seqNo + 1), [one], if Accepts(v) then [one] else [], Later(v), Accepts(v))
  }

  function NextGeneration(tx: Tx): Tx {
    tx.(generation := tx.generation + 1, seqNo := 0)
  }

  /** A KeyUpdate is sealed; the keys move on only when the transport took it. */
  function PayOwed(tx: Tx, v: Verdicts): Sent {
    if !tx.owed then Sent(tx, [], [], v, true)
    else
      var sent := SealNext(tx.(owed := false), HandshakeContent, KEY_UPDATE, v);
      if sent.ok then sent.(tx := Synced(NextGeneration(sent.tx))) else sent
  }

  /** The keys move on after 2^24 records; the copy does not follow here. */
  function Rekey(tx: Tx, v: Verdicts): Sent {
    if tx.seqNo < REKEY_AFTER then Sent(tx, [], [], v, true)
    else
      var sent := SealNext(tx, HandshakeContent, KEY_UPDATE, v);
      if sent.ok then sent.(tx := NextGeneration(sent.tx)) else sent
  }

  /** At most 2^14 octets a record; the copy follows each. */
  function SealData(tx: Tx, plaintext: bytes, v: Verdicts): Sent
    decreases |plaintext|
  {
    if plaintext == [] then Sent(tx, [], [], v, true)
    else
      var n := if |plaintext| < MAX_RECORD_PLAINTEXT then |plaintext| else MAX_RECORD_PLAINTEXT;
      var sent := SealNext(tx, ApplicationData, plaintext[..n], v);
      var synced := sent.(tx := Synced(sent.tx));
      if synced.ok then After(synced, SealData(synced.tx, plaintext[n..], synced.verdicts)) else synced
  }

  function After(first: Sent, second: Sent): Sent {
    second.(sealed := first.sealed + second.sealed, delivered := first.delivered + second.delivered)
  }

  function WriteRun(tx: Tx, plaintext: bytes, v: Verdicts): Sent {
    var paid := PayOwed(tx, v);
    if !paid.ok then paid
    else
      var rekeyed := After(paid, Rekey(paid.tx, paid.verdicts));
      if !rekeyed.ok then rekeyed else After(rekeyed, SealData(rekeyed.tx, plaintext, rekeyed.verdicts))
  }

  function CloseRun(tx: Tx, v: Verdicts): Sent {
    var paid := PayOwed(tx, v);
    if !paid.ok then paid
    else
      var sent := SealNext(paid.tx, AlertContent, AlertBytes(false, 0), paid.verdicts);
      After(paid, sent.(tx := Synced(sent.tx)))
  }

  /** A fatal alert takes its number from the copy, and moves only the copy. */
  function AlertRun(tx: Tx, code: byte, v: Verdicts): Sent {
    var one := Sealed(tx.copyGeneration, tx.copySeqNo, AlertContent, AlertBytes(true, code));
    Sent(tx.(copySeqNo := tx.copySeqNo + 1), [one], if Accepts(v) then [one] else [], Later(v), true)
  }

  datatype Action = Write(plaintext: bytes) | Close | RequestUpdate | FatalAlert(code: byte)

  predicate NoAlert(actions: seq<Action>) {
    forall k | 0 <= k < |actions| :: !actions[k].FatalAlert?
  }

  function Perform(tx: Tx, action: Action, v: Verdicts): Sent {
    match action
    case Write(plaintext) => if tx.closing then Sent(tx, [], [], v, false) else WriteRun(tx, plaintext, v)
    case Close => if tx.closing then Sent(tx, [], [], v, true) else CloseRun(tx.(closing := true), v)
    case RequestUpdate => Sent(tx.(owed := true), [], [], v, true)
    case FatalAlert(code) => AlertRun(tx, code, v)
  }

  /** The actions one after the other; a failed one does not stop the queue. */
  function Run(tx: Tx, actions: seq<Action>, v: Verdicts): Sent
    decreases |actions|
  {
    if actions == [] then Sent(tx, [], [], v, true)
    else
      var sent := Perform(tx, actions[0], v);
      After(sent, Run(sent.tx, actions[1..], sent.verdicts))
  }

  // ----- the connection in its own form

  class Sealer {
    const suite: Suite
    ghost const first: bytes
    var clientTrafficSecret: bytes
    var clientAppKeys: TrafficKeys
    var clientAppSeq: nat
    var clientWriteKeys: TrafficKeys
    var clientWriteSeq: nat
    var keyUpdateResponseOwed: bool
    var sentCloseNotify: bool
    /** The transport: its verdicts to come and the bytes it took. */
    var verdicts: Verdicts
    var written: bytes
    ghost var generation: nat
    ghost var copyGeneration: nat
    ghost var sealed: seq<Sealed>

    ghost predicate Valid()
      reads this
    {
      && clientTrafficSecret == SecretAt(suite, first, generation)
      && clientAppKeys == KeysAt(suite, first, generation)
      && clientWriteKeys == KeysAt(suite, first, copyGeneration)
    }

    ghost function State(): Tx
      reads this
    {
      Tx(generation, clientAppSeq, copyGeneration, clientWriteSeq, keyUpdateResponseOwed, sentCloseNotify)
    }

    /** `sent` happened on top of what `sealedBefore` and `writtenBefore` record. */
    ghost predicate Did(sent: Sent, sealedBefore: seq<Sealed>, writtenBefore: bytes)
      reads this
    {
      && Valid()
      && State() == sent.tx
      && sealed == sealedBefore + sent.sealed
      && written == writtenBefore + WireOf(suite, first, sent.delivered)
      && verdicts == sent.verdicts
    }

    lemma DidBoth(a: Sent, b: Sent, sealedFirst: seq<Sealed>, writtenFirst: bytes, sealedThen: seq<Sealed>, writtenThen: bytes)
      requires sealedThen == sealedFirst + a.sealed
      requires writtenThen == writtenFirst + WireOf(suite, first, a.delivered)
      requires Did(b, sealedThen, writtenThen)
      ensures Did(After(a, b), sealedFirst, writtenFirst)
    {
      WireConcat(suite, first, a.delivered, b.delivered);
      ConcatAssoc(sealedFirst, a.sealed, b.sealed);
      ConcatAssoc(writtenFirst, WireOf(suite, first, a.delivered), WireOf(suite, first, b.delivered));
    }

    constructor (suite: Suite, secret: bytes, verdicts: Verdicts)
      ensures Valid() && State() == FRESH && sealed == [] && written == []
      ensures this.suite == suite && first == secret && this.verdicts == verdicts
    {
      this.suite, first, this.verdicts := suite, secret, verdicts;
      clientTrafficSecret := secret;
      clientAppKeys, clientAppSeq := suite.trafficKeys(secret), 0;
      clientWriteKeys, clientWriteSeq := suite.trafficKeys(secret), 0;
      keyUpdateResponseOwed, sentCloseNotify := false, false;
      written := [];
      generation, copyGeneration, sealed := 0, 0, [];
    }

    /** `transport.write`, which may throw. */
    method TransportWrite(record: bytes) returns (ok: bool)
      modifies this`verdicts, this`written
      ensures ok == Accepts(old(verdicts)) && verdicts == Later(old(verdicts))
      ensures written == if ok then old(written) + record else old(written)
    {
      ok := Accepts(verdicts);
      verdicts := Later(verdicts);
      if ok {
        written := written + record;
      }
    }

    method SealAndWrite(content: ContentType, payload: bytes, sync: bool) returns (ok: bool)
      requires Valid() && |payload| <= MAX_RECORD_PLAINTEXT
      modifies this
      ensures var sent := SealNext(old(State()), content, payload, old(verdicts));
              ok == sent.ok && Did(if sync then sent.(tx := Synced(sent.tx)) else sent, old(sealed), old(written))
      ensures clientTrafficSecret == old(clientTrafficSecret)
    {
      var record := SealAead(suite.aead, clientAppKeys, clientAppSeq, content, payload, 0);
      ghost var one := Sealed(generation, clientAppSeq, content, payload);
      sealed := sealed + [one];
      clientAppSeq := clientAppSeq + 1;
      if sync {
        SyncClientWriteKeys();
      }
      ok := TransportWrite(record.value);
      OneRecord(suite, first, one);
    }

    method SyncClientWriteKeys()
      modifies this`clientWriteKeys, this`clientWriteSeq, this`copyGeneration
      ensures clientWriteKeys == clientAppKeys && clientWriteSeq == clientAppSeq && copyGeneration == generation
    {
      clientWriteKeys, clientWriteSeq := clientAppKeys, clientAppSeq;
      copyGeneration := generation;
    }

    method MoveKeysOn()
      requires Valid()
      modifies this`clientTrafficSecret, this`clientAppKeys, this`clientAppSeq, this`generation
      ensures Valid() && State() == NextGeneration(old(State()))
    {
      clientTrafficSecret := suite.update(clientTrafficSecret);
      clientAppKeys := suite.trafficKeys(clientTrafficSecret);
      clientAppSeq := 0;
      generation := generation + 1;
    }

    method PayKeyUpdateResponse() returns (ok: bool)
      requires Valid()
      modifies this
      ensures var sent := PayOwed(old(State()), old(verdicts)); ok == sent.ok && Did(sent, old(sealed), old(written))
    {
      if !keyUpdateResponseOwed {
        NothingSent(suite, first, sealed, written);
        return true;
      }
      keyUpdateResponseOwed := false;
      ok := SealAndWrite(HandshakeContent, KEY_UPDATE, false);
      if ok {
        MoveKeysOn();
        SyncClientWriteKeys();
      }
    }

    method RekeyIfDue() returns (ok: bool)
      requires Valid()
      modifies this
      ensures var sent := Rekey(old(State()), old(verdicts)); ok == sent.ok && Did(sent, old(sealed), old(written))
    {
      if clientAppSeq < REKEY_AFTER {
        NothingSent(suite, first, sealed, written);
        return true;
      }
      ok := SealAndWrite(HandshakeContent, KEY_UPDATE, false);
      if ok {
        MoveKeysOn();
      }
    }

    /** The data loop of `write`. */
    method WriteData(plaintext: bytes) returns (ok: bool)
      requires Valid()
      modifies this
      ensures var sent := SealData(old(State()), plaintext, old(verdicts)); ok == sent.ok && Did(sent, old(sealed), old(written))
    {
      hide WireOf, RecordOf, KeysAt, SecretAt;
      var offset := 0;
      ghost var whole := SealData(State(), plaintext, verdicts);
      ghost var soFar := Sent(State(), [], [], verdicts, true);
      NothingSent(suite, first, sealed, written);
      assert plaintext[0..] == plaintext;
      AfterNothing(soFar, whole);
      while offset < |plaintext|
        invariant 0 <= offset <= |plaintext|
        invariant Did(soFar, old(sealed), old(written)) && soFar.ok
        invariant whole == After(soFar, SealData(soFar.tx, plaintext[offset..], soFar.verdicts))
      {
        var end := if offset + MAX_RECORD_PLAINTEXT <= |plaintext| then offset + MAX_RECORD_PLAINTEXT else |plaintext|;
        ghost var sent := SealNext(State(), ApplicationData, plaintext[offset..end], verdicts);
        ghost var synced := sent.(tx := Synced(sent.tx));
        ghost var sealedBefore, writtenBefore := sealed, written;
        FirstChunk(State(), plaintext, offset, end, verdicts);
        ok := SealAndWrite(ApplicationData, plaintext[offset..end], true);
        DidBoth(soFar, synced, old(sealed), old(written), sealedBefore, writtenBefore);
        if !ok {
          return false;
        }
        AfterAssoc(soFar, synced, SealData(synced.tx, plaintext[end..], synced.verdicts));
        offset, soFar := end, After(soFar, synced);
      }
      AfterNothing'(soFar);
      return true;
    }

    /** What the write queue runs for `write`. */
    method RunWrite(plaintext: bytes) returns (ok: bool)
      requires Valid()
      modifies this
      ensures var sent := WriteRun(old(State()), plaintext, old(verdicts));
              ok == sent.ok && Did(sent, old(sealed), old(written))
    {
      hide WireOf, RecordOf, KeysAt, SecretAt, SealData;
      ghost var paid := PayOwed(State(), verdicts);
      ok := PayKeyUpdateResponse();
      if !ok {
        return;
      }
      ghost var sealedPaid, writtenPaid := sealed, written;
      ghost var rekey := Rekey(State(), verdicts);
      ok := RekeyIfDue();
      DidBoth(paid, rekey, old(sealed), old(written), sealedPaid, writtenPaid);
      if !ok {
        return;
      }
      ghost var rekeyed := After(paid, rekey);
      ghost var sealedRekeyed, writtenRekeyed := sealed, written;
      ghost var data := SealData(State(), plaintext, verdicts);
      ok := WriteData(plaintext);
      DidBoth(rekeyed, data, old(sealed), old(written), sealedRekeyed, writtenRekeyed);
    }

    /** `write`: refused after our own close_notify, else queued. */
    method WritePlaintext(plaintext: bytes) returns (ok: bool)
      requires Valid()
      modifies this
      ensures var sent := Perform(old(State()), Write(plaintext), old(verdicts));
              ok == sent.ok && Did(sent, old(sealed), old(written))
    {
      hide WireOf, WriteRun;
      if sentCloseNotify {
        NothingSent(suite, first, sealed, written);
        return false;
      }
      ok := RunWrite(plaintext);
    }

    method CloseConnection() returns (ok: bool)
      requires Valid()
      modifies this
      ensures var sent := Perform(old(State()), Close, old(verdicts));
              ok == sent.ok && Did(sent, old(sealed), old(written))
    {
      hide WireOf, RecordOf, KeysAt, SecretAt;
      if sentCloseNotify {
        NothingSent(suite, first, sealed, written);
        return true;
      }
      sentCloseNotify := true;
      ghost var paid := PayOwed(State(), verdicts);
      ok := PayKeyUpdateResponse();
      if !ok {
        return;
      }
      ghost var sealedPaid, writtenPaid := sealed, written;
      ghost var alert := SealNext(State(), AlertContent, AlertBytes(false, 0), verdicts);
      ok := SealAndWrite(AlertContent, AlertBytes(false, 0), true);
      DidBoth(paid, alert.(tx := Synced(alert.tx)), old(sealed), old(written), sealedPaid, writtenPaid);
    }

    /** A request the peer made is noted; the next `write` or `close` answers it. */
    method OweKeyUpdate()
      requires Valid()
      modifies this`keyUpdateResponseOwed
      ensures Did(Perform(old(State()), RequestUpdate, old(verdicts)), old(sealed), old(written))
    {
      keyUpdateResponseOwed := true;
      NothingSent(suite, first, sealed, written);
    }

    /** `sendFatalAlert` under the application keys, off the queue. */
    method SendFatalAlert(code: byte)
      requires Valid()
      modifies this
      ensures Did(Perform(old(State()), FatalAlert(code), old(verdicts)), old(sealed), old(written))
    {
      hide KeysAt, SecretAt;
      var record := SealAead(suite.aead, clientWriteKeys, clientWriteSeq, AlertContent, AlertBytes(true, code), 0);
      ghost var one := Sealed(copyGeneration, clientWriteSeq, AlertContent, AlertBytes(true, code));
      sealed := sealed + [one];
      clientWriteSeq := clientWriteSeq + 1;
      var taken := TransportWrite(record.value);
      OneRecord(suite, first, one);
      assert old(written) + [] == old(written);
    }
  }

  /** The first record's worth of what is left from `offset`. */
  lemma FirstChunk(tx: Tx, plaintext: bytes, offset: nat, end: nat, v: Verdicts)
    requires offset < |plaintext|
    requires end == if offset + MAX_RECORD_PLAINTEXT <= |plaintext| then offset + MAX_RECORD_PLAINTEXT else |plaintext|
    ensures var sent := SealNext(tx, ApplicationData, plaintext[offset..end], v);
            var synced := sent.(tx := Synced(sent.tx));
            SealData(tx, plaintext[offset..], v)
            == if synced.ok then After(synced, SealData(synced.tx, plaintext[end..], synced.verdicts)) else synced
  {
    SliceOfSuffix(plaintext, offset, end, end);
  }

  lemma OneRecord(suite: Suite, first: bytes, one: Sealed)
    ensures WireOf(suite, first, [one]) == RecordOf(suite, first, one)
    ensures WireOf(suite, first, []) == []
  {
    assert [one][1..] == [];
    assert RecordOf(suite, first, one) + [] == RecordOf(suite, first, one);
  }

  lemma NothingSent(suite: Suite, first: bytes, sealed: seq<Sealed>, written: bytes)
    ensures sealed + [] == sealed && written + WireOf(suite, first, []) == written
  {
  }

  lemma {:induction false} WireConcat(suite: Suite, first: bytes, a: seq<Sealed>, b: seq<Sealed>)
    ensures WireOf(suite, first, a + b) == WireOf(suite, first, a) + WireOf(suite, first, b)
  {
    if a == [] {
      assert a + b == b;
    } else {
      assert (a + b)[1..] == a[1..] + b;
      WireConcat(suite, first, a[1..], b);
      ConcatAssoc(RecordOf(suite, first, a[0]), WireOf(suite, first, a[1..]), WireOf(suite, first, b));
    }
  }

  lemma AfterAssoc(a: Sent, b: Sent, c: Sent)
    ensures After(a, After(b, c)) == After(After(a, b), c)
  {
    ConcatAssoc(a.sealed, b.sealed, c.sealed);
    ConcatAssoc(a.delivered, b.delivered, c.delivered);
  }

  lemma AfterNothing(nothing: Sent, sent: Sent)
    requires nothing.sealed == [] && nothing.delivered == []
    ensures After(nothing, sent) == sent
  {
    assert [] + sent.sealed == sent.sealed && [] + sent.delivered == sent.delivered;
  }

  lemma AfterNothing'(sent: Sent)
    requires sent.ok
    ensures After(sent, Sent(sent.tx, [], [], sent.verdicts, true)) == sent
  {
    assert sent.sealed + [] == sent.sealed && sent.delivered + [] == sent.delivered;
  }
}
