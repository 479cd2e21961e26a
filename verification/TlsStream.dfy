/**
 Both ends of a TLS 1.3 connection: one side's write path (`TlsSealing`) against the other side's
 `read` (`TlsReading`), on mirrored secrets. Whatever the interleaving of writes, KeyUpdates and the
 close, and wherever the stream is cut, the reader stays in step, delivers a prefix of what was
 written, and reports the close only behind all of it.
 */
module TlsStream {
  import opened Bytes
  import opened HandshakeCodec
  import opened HandshakeMessages
  import opened TlsRecord
  import opened TlsSealing
  import opened TlsReading

  /** A generation and the next sequence number in it. */
  datatype Position = At(generation: nat, seqNo: nat)

  function AfterOne(p: Position, s: Sealed): Position {
    if s.content == HandshakeContent then At(p.generation + 1, 0) else p.(seqNo := p.seqNo + 1)
  }

  function AfterAll(p: Position, log: seq<Sealed>): Position
    decreases |log|
  {
    if log == [] then p else AfterAll(AfterOne(p, log[0]), log[1..])
  }

  predicate IsClose(s: Sealed) {
    s.content == AlertContent && s.payload == AlertBytes(false, CLOSE_NOTIFY)
  }

  predicate IsData(s: Sealed) {
    s.content == ApplicationData && 0 < |s.payload| <= MAX_RECORD_PLAINTEXT
  }

  predicate IsKeyUpdate(s: Sealed) {
    s.content == HandshakeContent && s.payload == KEY_UPDATE
  }

  /** KeyUpdates since the last data, `updates` of them before the record. */
  function UpdatesAfter(updates: nat, s: Sealed): nat {
    if s.content == HandshakeContent then updates + 1 else 0
  }

  /** Each record at the position the ones before it lead to, data never empty, nothing behind a close. */
  predicate Chained(p: Position, log: seq<Sealed>)
    decreases |log|
  {
    log == [] ||
    (&& p == At(log[0].generation, log[0].seqNo)
     && (IsData(log[0]) || IsKeyUpdate(log[0]) || (IsClose(log[0]) && |log| == 1))
     && Chained(AfterOne(p, log[0]), log[1..]))
  }

  /** At most 32 KeyUpdates in a row, `updates` of them before the log. */
  predicate Within(updates: nat, log: seq<Sealed>)
    decreases |log|
  {
    log == [] ||
    ((log[0].content == HandshakeContent ==> updates < MAX_KEY_UPDATES) && Within(UpdatesAfter(updates, log[0]), log[1..]))
  }

  function Streak(updates: nat, log: seq<Sealed>): nat
    decreases |log|
  {
    if log == [] then updates else Streak(UpdatesAfter(updates, log[0]), log[1..])
  }

  function DataOf(log: seq<Sealed>): bytes {
    if log == [] then []
    else (if log[0].content == ApplicationData then log[0].payload else []) + DataOf(log[1..])
  }

  // ----- the write path makes such a log

  lemma {:induction false} DataConcat(a: seq<Sealed>, b: seq<Sealed>)
    ensures DataOf(a + b) == DataOf(a) + DataOf(b)
  {
    if a == [] {
      assert a + b == b;
    } else {
      assert (a + b)[1..] == a[1..] + b;
      DataConcat(a[1..], b);
      ConcatAssoc(if a[0].content == ApplicationData then a[0].payload else [], DataOf(a[1..]), DataOf(b));
    }
  }

  lemma DataOfOne(s: Sealed)
    ensures DataOf([s]) == if s.content == ApplicationData then s.payload else []
  {
    assert [s][1..] == [];
    assert DataOf([]) == [] && s.payload + [] == s.payload;
  }

  function PositionOf(tx: Tx): Position {
    At(tx.generation, tx.seqNo)
  }

  predicate EndsInClose(log: seq<Sealed>) {
    log != [] && IsClose(log[|log| - 1])
  }

  lemma {:induction false} ChainedConcat(p: Position, a: seq<Sealed>, b: seq<Sealed>)
    requires Chained(p, a) && !EndsInClose(a) && Chained(AfterAll(p, a), b)
    ensures Chained(p, a + b)
    decreases |a|
  {
    if a == [] {
      assert a + b == b;
    } else {
      assert (a + b)[1..] == a[1..] + b;
      assert !IsClose(a[0]) || |a| > 1;
      ChainedConcat(AfterOne(p, a[0]), a[1..], b);
    }
  }

  lemma {:induction false} AfterConcat(p: Position, a: seq<Sealed>, b: seq<Sealed>)
    ensures AfterAll(p, a + b) == AfterAll(AfterAll(p, a), b)
    decreases |a|
  {
    if a == [] {
      assert a + b == b;
    } else {
      assert (a + b)[1..] == a[1..] + b;
      AfterConcat(AfterOne(p, a[0]), a[1..], b);
    }
  }

  lemma {:induction false} WithinConcat(updates: nat, a: seq<Sealed>, b: seq<Sealed>)
    ensures Within(updates, a + b) <==> Within(updates, a) && Within(Streak(updates, a), b)
    ensures Streak(updates, a + b) == Streak(Streak(updates, a), b)
    decreases |a|
  {
    if a == [] {
      assert a + b == b;
    } else {
      assert (a + b)[1..] == a[1..] + b;
      WithinConcat(UpdatesAfter(updates, a[0]), a[1..], b);
    }
  }

  /** What the log `sealed` takes the keys from `tx` to `tx'` with: its shape, and the data it carries. */
  predicate Carries(tx: Tx, sealed: seq<Sealed>, tx': Tx, data: bytes) {
    && Chained(PositionOf(tx), sealed)
    && AfterAll(PositionOf(tx), sealed) == PositionOf(tx')
    && DataOf(sealed) == data
  }

  lemma CarriesConcat(tx: Tx, a: seq<Sealed>, tx1: Tx, dataA: bytes, b: seq<Sealed>, tx2: Tx, dataB: bytes)
    requires Carries(tx, a, tx1, dataA) && !EndsInClose(a) && Carries(tx1, b, tx2, dataB)
    ensures Carries(tx, a + b, tx2, dataA + dataB)
    ensures EndsInClose(a + b) <==> EndsInClose(b)
  {
    ChainedConcat(PositionOf(tx), a, b);
    AfterConcat(PositionOf(tx), a, b);
    DataConcat(a, b);
  }

  lemma OneCarries(tx: Tx, one: Sealed, tx': Tx, updates: nat)
    requires PositionOf(tx) == At(one.generation, one.seqNo) && PositionOf(tx') == AfterOne(PositionOf(tx), one)
    requires IsData(one) || IsKeyUpdate(one) || IsClose(one)
    ensures Carries(tx, [one], tx', if IsData(one) then one.payload else [])
    ensures EndsInClose([one]) <==> IsClose(one)
    ensures Within(updates, [one]) <==> (IsKeyUpdate(one) ==> updates < MAX_KEY_UPDATES)
    ensures Streak(updates, [one]) == if IsKeyUpdate(one) then updates + 1 else 0
  {
    assert [one][1..] == [];
    DataOfOne(one);
  }

  lemma NothingCarries(tx: Tx, tx': Tx, updates: nat)
    requires PositionOf(tx) == PositionOf(tx')
    ensures Carries(tx, [], tx', []) && Within(updates, []) && Streak(updates, []) == updates && !EndsInClose([])
  {
  }

  /** A transport that takes everything delivers what is sealed. */
  predicate Taken(tx: Tx, sent: Sent) {
    sent.ok && sent.verdicts == [] && sent.delivered == sent.sealed && (tx.closing ==> sent.tx.closing)
  }

  lemma {:induction false} SealDataCarries(tx: Tx, plaintext: bytes, updates: nat)
    ensures var sent := SealData(tx, plaintext, []);
            && Taken(tx, sent) && sent.tx.closing == tx.closing
            && Carries(tx, sent.sealed, sent.tx, plaintext) && !EndsInClose(sent.sealed)
            && Within(updates, sent.sealed)
            && Streak(updates, sent.sealed) == if plaintext == [] then updates else 0
    decreases |plaintext|
  {
    hide Carries, EndsInClose, Within, Streak;
    if plaintext == [] {
      NothingCarries(tx, tx, updates);
    } else {
      var n := if |plaintext| < MAX_RECORD_PLAINTEXT then |plaintext| else MAX_RECORD_PLAINTEXT;
      var head, rest := plaintext[..n], plaintext[n..];
      assert head + rest == plaintext;
      var sent := SealNext(tx, ApplicationData, head, []);
      var tx' := Synced(sent.tx);
      var more := SealData(tx', rest, []);
      assert SealData(tx, plaintext, []) == After(sent.(tx := tx'), more);
      OneCarries(tx, sent.sealed[0], tx', updates);
      SealDataCarries(tx', rest, 0);
      CarriesConcat(tx, sent.sealed, tx', head, more.sealed, more.tx, rest);
      WithinConcat(updates, sent.sealed, more.sealed);
    }
  }

  /** Does a write begin with a KeyUpdate? */
  predicate Updates(tx: Tx) {
    tx.owed || tx.seqNo >= REKEY_AFTER
  }

  /** Where a write's data starts: past at most one KeyUpdate. */
  function Updated(tx: Tx): Tx {
    if tx.owed then Synced(NextGeneration(tx.(owed := false)))
    else if tx.seqNo >= REKEY_AFTER then NextGeneration(tx)
    else tx
  }

  function UpdateRecord(tx: Tx): seq<Sealed> {
    if Updates(tx) then [Sealed(tx.generation, tx.seqNo, HandshakeContent, KEY_UPDATE)] else []
  }

  lemma WriteParts(tx: Tx, plaintext: bytes)
    ensures var data := SealData(Updated(tx), plaintext, []);
            data.ok ==>
              WriteRun(tx, plaintext, [])
              == data.(sealed := UpdateRecord(tx) + data.sealed, delivered := UpdateRecord(tx) + data.delivered)
  {
    hide SealData;
    var paid := PayOwed(tx, []);
    var rekey := Rekey(paid.tx, []);
    var one := [Sealed(tx.generation, tx.seqNo, HandshakeContent, KEY_UPDATE)];
    assert one + [] == one && [] + one == one;
    assert Updated(tx) == rekey.tx;
  }

  function StreakAfter(tx: Tx, updates: nat): nat {
    if Updates(tx) then updates + 1 else updates
  }

  lemma UpdateCarries(tx: Tx, updates: nat)
    ensures Carries(tx, UpdateRecord(tx), Updated(tx), []) && !EndsInClose(UpdateRecord(tx))
    ensures Within(updates, UpdateRecord(tx)) <==> (Updates(tx) ==> updates < MAX_KEY_UPDATES)
    ensures Streak(updates, UpdateRecord(tx)) == StreakAfter(tx, updates)
  {
    if Updates(tx) {
      OneCarries(tx, UpdateRecord(tx)[0], Updated(tx), updates);
    }
  }

  lemma WriteCarries(tx: Tx, plaintext: bytes, updates: nat)
    ensures var sent := WriteRun(tx, plaintext, []);
            && Taken(tx, sent) && sent.tx.closing == tx.closing
            && Carries(tx, sent.sealed, sent.tx, plaintext) && !EndsInClose(sent.sealed)
            && (Within(updates, sent.sealed) <==> (Updates(tx) ==> updates < MAX_KEY_UPDATES))
            && Streak(updates, sent.sealed) == if plaintext == [] then StreakAfter(tx, updates) else 0
  {
    hide SealData, WriteRun, Carries, EndsInClose, Within, Streak;
    var data := SealData(Updated(tx), plaintext, []);
    SealDataCarries(Updated(tx), plaintext, StreakAfter(tx, updates));
    WriteParts(tx, plaintext);
    UpdateCarries(tx, updates);
    CarriesConcat(tx, UpdateRecord(tx), Updated(tx), [], data.sealed, data.tx, plaintext);
    WithinConcat(updates, UpdateRecord(tx), data.sealed);
    assert [] + plaintext == plaintext;
  }

  lemma CloseCarries(tx: Tx, updates: nat)
    requires !tx.closing
    ensures var sent := Perform(tx, Close, []);
            && Taken(tx, sent) && sent.tx.closing
            && Carries(tx, sent.sealed, sent.tx, []) && EndsInClose(sent.sealed)
            && (Within(updates, sent.sealed) <==> (tx.owed ==> updates < MAX_KEY_UPDATES))
  {
    hide Carries, EndsInClose, Within, Streak;
    var start := tx.(closing := true);
    var paid := PayOwed(start, []);
    var alert := Sealed(paid.tx.generation, paid.tx.seqNo, AlertContent, AlertBytes(false, 0));
    var sent := Perform(tx, Close, []);
    assert sent.sealed == paid.sealed + [alert];
    if tx.owed {
      OneCarries(tx, paid.sealed[0], paid.tx, updates);
      assert paid.sealed == [paid.sealed[0]];
    } else {
      NothingCarries(tx, paid.tx, updates);
    }
    OneCarries(paid.tx, alert, sent.tx, Streak(updates, paid.sealed));
    CarriesConcat(tx, paid.sealed, paid.tx, [], [alert], sent.tx, []);
    WithinConcat(updates, paid.sealed, [alert]);
  }

  /** What a caller of `write` hands over before its first `close`. */
  function Written(actions: seq<Action>): bytes {
    if actions == [] || actions[0].Close? then []
    else (if actions[0].Write? then actions[0].plaintext else []) + Written(actions[1..])
  }

  predicate Closes(actions: seq<Action>) {
    exists k | 0 <= k < |actions| :: actions[k].Close?
  }

  /**
   No KeyUpdate is the 33rd since the last write that was not empty: one goes out where a request is
   owed or a rekey is due, with the next write or, for a request, with the close. `updates` went out before.
   */
  predicate Paced(tx: Tx, updates: nat, actions: seq<Action>)
    decreases |actions|
  {
    if actions == [] || tx.closing then true
    else
      var tx' := Perform(tx, actions[0], []).tx;
      match actions[0]
      case Write(plaintext) =>
        && (Updates(tx) ==> updates < MAX_KEY_UPDATES)
        && Paced(tx', if plaintext == [] then StreakAfter(tx, updates) else 0, actions[1..])
      case Close => tx.owed ==> updates < MAX_KEY_UPDATES
      case _ => Paced(tx', updates, actions[1..])
  }

  /** A caller that never writes nothing needs no count. */
  lemma {:induction false} NoEmptyWriteIsPaced(tx: Tx, actions: seq<Action>)
    requires NoAlert(actions) && Write([]) !in actions
    ensures Paced(tx, 0, actions)
    decreases |actions|
  {
    hide Perform;
    if actions != [] {
      NoEmptyWriteIsPaced(Perform(tx, actions[0], []).tx, actions[1..]);
    }
  }

  lemma {:induction false} ClosedRun(tx: Tx, actions: seq<Action>)
    requires tx.closing && NoAlert(actions)
    ensures var sent := Run(tx, actions, []);
            sent.verdicts == [] && sent.sealed == [] && sent.delivered == [] && PositionOf(sent.tx) == PositionOf(tx)
    decreases |actions|
  {
    if actions != [] {
      ClosedRun(Perform(tx, actions[0], []).tx, actions[1..]);
    }
  }

  lemma ClosesStep(actions: seq<Action>)
    requires actions != []
    ensures Closes(actions) <==> actions[0].Close? || Closes(actions[1..])
    ensures NoAlert(actions) ==> NoAlert(actions[1..])
  {
    if k :| 0 <= k < |actions| && actions[k].Close? {
      assert k > 0 ==> actions[1..][k - 1].Close?;
    }
    if j :| 0 <= j < |actions[1..]| && actions[1..][j].Close? {
      assert actions[j + 1].Close?;
    }
  }

  /**
   Every run without a fatal alert, on a transport that takes everything, makes a chained log that
   carries just what was written and ends in a close if there was one; and it has no 33 KeyUpdates in
   a row if and only if the run is paced.
   */
  lemma {:induction false} RunCarries(tx: Tx, actions: seq<Action>, updates: nat)
    requires !tx.closing && NoAlert(actions)
    ensures var sent := Run(tx, actions, []);
            && sent.verdicts == [] && sent.delivered == sent.sealed
            && Carries(tx, sent.sealed, sent.tx, Written(actions))
            && (EndsInClose(sent.sealed) <==> Closes(actions))
            && (Within(updates, sent.sealed) <==> Paced(tx, updates, actions))
    decreases |actions|
  {
    hide Carries, EndsInClose, Within, Streak, WriteRun, CloseRun;
    if actions == [] {
      NothingCarries(tx, tx, updates);
    } else {
      var sent := Perform(tx, actions[0], []);
      var more := Run(sent.tx, actions[1..], sent.verdicts);
      ClosesStep(actions);
      match actions[0]
      case Close =>
        CloseCarries(tx, updates);
        ClosedRun(sent.tx, actions[1..]);
        CarriesSame(tx, sent.sealed, sent.tx, more.tx, []);
        assert sent.sealed + more.sealed == sent.sealed;
      case RequestUpdate =>
        RunCarries(sent.tx, actions[1..], updates);
        assert [] + more.sealed == more.sealed && [] + Written(actions[1..]) == Written(actions[1..]);
        CarriesFrom(sent.tx, tx, more.sealed, more.tx, Written(actions[1..]));
      case Write(plaintext) =>
        var updates' := if plaintext == [] then StreakAfter(tx, updates) else 0;
        WriteCarries(tx, plaintext, updates);
        RunCarries(sent.tx, actions[1..], updates');
        CarriesConcat(tx, sent.sealed, sent.tx, plaintext, more.sealed, more.tx, Written(actions[1..]));
        WithinConcat(updates, sent.sealed, more.sealed);
    }
  }

  lemma CarriesSame(tx: Tx, sealed: seq<Sealed>, a: Tx, b: Tx, data: bytes)
    requires Carries(tx, sealed, a, data) && PositionOf(a) == PositionOf(b)
    ensures Carries(tx, sealed, b, data)
  {
  }

  lemma CarriesFrom(a: Tx, b: Tx, sealed: seq<Sealed>, tx: Tx, data: bytes)
    requires Carries(a, sealed, tx, data) && PositionOf(a) == PositionOf(b)
    ensures Carries(b, sealed, tx, data)
  {
  }

  // ----- the reader stays in step

  predicate Fits(s: Sealed) {
    |s.payload| <= MAX_RECORD_PLAINTEXT
  }

  /** A sealed record comes off the stream whole, opens to what was sealed, and leaves the rest. */
  lemma RecordArrives(suite: Suite, first: bytes, s: Sealed, tail: bytes)
    requires Lawful(suite.aead) && Fits(s)
    ensures var record := RecordOf(suite, first, s);
            && |record| == 22 + |s.payload| && record[0] == 0x17
            && FrameRecord(record + tail) == Framed.Record(record)
            && (record + tail)[|record|..] == tail
            && OpenAead(suite.aead, KeysAt(suite, first, s.generation), s.seqNo, record) == Opened(s.content, s.payload)
  {
    hide OpenAead, KeysAt;
    SealOpen(suite.aead, KeysAt(suite, first, s.generation), s.seqNo, s.content, s.payload, 0);
    var record := RecordOf(suite, first, s);
    assert (record + tail)[3..][0] == record[3..][0] && (record + tail)[3..][1] == record[3..][1];
    assert (record + tail)[..|record|] == record;
  }

  lemma RecordCut(suite: Suite, first: bytes, s: Sealed, stream: bytes)
    requires Lawful(suite.aead) && Fits(s)
    requires var record := RecordOf(suite, first, s); stream <= record && |stream| < |record|
    ensures FrameRecord(stream) in {EndOfStream, Truncated}
  {
    hide OpenAead, KeysAt;
    SealOpen(suite.aead, KeysAt(suite, first, s.generation), s.seqNo, s.content, s.payload, 0);
    var record := RecordOf(suite, first, s);
    if |stream| >= 5 {
      assert stream[3..][0] == record[3..][0] && stream[3..][1] == record[3..][1];
    }
  }

  /** Between messages, before any close, at the position of the next record. */
  predicate Standing(rx: Rx, p: Position) {
    rx.buffer == [] && !rx.peerClosed && At(rx.generation, rx.seqNo) == p
  }

  lemma NextTurn(suite: Suite, first: bytes, rx: Rx, s: Sealed, tail: bytes)
    requires Lawful(suite.aead) && Fits(s) && Standing(rx, At(s.generation, s.seqNo))
    ensures TurnOf(suite, first, false, rx, RecordOf(suite, first, s) + tail)
         == OpenedTurn(false, rx.(seqNo := rx.seqNo + 1), s.content, s.payload, tail)
  {
    hide FrameRecord, OpenAead, OpenedTurn, RecordOf, KeysAt;
    RecordArrives(suite, first, s, tail);
  }

  lemma ReadData(suite: Suite, first: bytes, rx: Rx, s: Sealed, tail: bytes)
    requires Lawful(suite.aead) && IsData(s) && Standing(rx, At(s.generation, s.seqNo))
    ensures Read(suite, first, false, rx, RecordOf(suite, first, s) + tail)
         == ReadOut(Data(s.payload), Delivered(rx.(seqNo := rx.seqNo + 1)), tail, 1, 0)
  {
    hide TurnOf, RecordOf;
    NextTurn(suite, first, rx, s, tail);
  }

  lemma ReadClose(suite: Suite, first: bytes, rx: Rx, s: Sealed, tail: bytes)
    requires Lawful(suite.aead) && IsClose(s) && Standing(rx, At(s.generation, s.seqNo))
    ensures Read(suite, first, false, rx, RecordOf(suite, first, s) + tail)
         == ReadOut(PeerClosed, rx.(seqNo := rx.seqNo + 1, peerClosed := true), tail, 1, 0)
  {
    hide TurnOf, RecordOf;
    NextTurn(suite, first, rx, s, tail);
  }

  lemma KeyUpdateExtracted()
    ensures Extract(KEY_UPDATE) == Whole(KEY_UPDATE, [])
    ensures DecodeMessage(KEY_UPDATE) == Ok(KeyUpdate(false))
  {
    KeyUpdateEncoding();
    assert KEY_UPDATE[1..] == [0, 0, 1, 0];
    assert KEY_UPDATE[..5] == KEY_UPDATE && KEY_UPDATE[5..] == [];
  }

  function Rolled(rx: Rx): Rx {
    rx.(generation := rx.generation + 1, seqNo := 0, keyUpdates := rx.keyUpdates + 1)
  }

  lemma ReadUpdate(suite: Suite, first: bytes, rx: Rx, s: Sealed, tail: bytes)
    requires Lawful(suite.aead) && IsKeyUpdate(s) && Standing(rx, At(s.generation, s.seqNo))
    requires rx.keyUpdates < MAX_KEY_UPDATES
    ensures SameAnswer(Read(suite, first, false, rx, RecordOf(suite, first, s) + tail),
                       Read(suite, first, false, Rolled(rx), tail))
  {
    hide TurnOf, RecordOf, Extract, DecodeMessage;
    NextTurn(suite, first, rx, s, tail);
    assert [] + KEY_UPDATE == KEY_UPDATE;
    var rx1 := rx.(seqNo := rx.seqNo + 1, buffer := KEY_UPDATE);
    UpdateTurn(suite, first, rx1, tail);
    assert rx1.(buffer := [], generation := rx1.generation + 1, seqNo := 0, keyUpdates := rx1.keyUpdates + 1) == Rolled(rx);
  }

  lemma UpdateTurn(suite: Suite, first: bytes, rx: Rx, tail: bytes)
    requires rx.buffer == KEY_UPDATE && rx.keyUpdates < MAX_KEY_UPDATES
    ensures TurnOf(suite, first, true, rx, tail)
         == Again(false, rx.(buffer := [], generation := rx.generation + 1, seqNo := 0, keyUpdates := rx.keyUpdates + 1), tail, 0, 0)
  {
    hide Extract, DecodeMessage, RecordTurn;
    KeyUpdateExtracted();
  }

  lemma ReadCut(suite: Suite, first: bytes, rx: Rx, stream: bytes)
    requires rx.buffer == [] && !rx.peerClosed && FrameRecord(stream) in {EndOfStream, Truncated}
    ensures Read(suite, first, false, rx, stream) == ReadOut(Failed(StreamTruncated), rx, stream, 0, 0)
  {
    hide FrameRecord;
  }

  /** The answer to a KeyUpdate past the ceiling. */
  const REFUSED := Failed(AlertSent(UnexpectedMessage))

  /** The record is taken and its number spent; the keys stay. */
  predicate RefusesAt(out: ReadOut, rx: Rx, rest: bytes) {
    out.result == REFUSED && out.rest == rest && out.rx.generation == rx.generation && out.rx.seqNo == rx.seqNo + 1
  }

  /** One more KeyUpdate than the ceiling, with no data in between, ends the connection. */
  lemma UpdateTooMany(suite: Suite, first: bytes, rx: Rx, s: Sealed, tail: bytes)
    requires Lawful(suite.aead) && IsKeyUpdate(s) && Standing(rx, At(s.generation, s.seqNo))
    requires rx.keyUpdates >= MAX_KEY_UPDATES
    ensures RefusesAt(Read(suite, first, false, rx, RecordOf(suite, first, s) + tail), rx, tail)
  {
    hide TurnOf, RecordOf, Extract, DecodeMessage;
    NextTurn(suite, first, rx, s, tail);
    assert [] + KEY_UPDATE == KEY_UPDATE;
    OverTurn(suite, first, rx.(seqNo := rx.seqNo + 1, buffer := KEY_UPDATE), tail);
  }

  lemma OverTurn(suite: Suite, first: bytes, rx: Rx, tail: bytes)
    requires rx.buffer == KEY_UPDATE && rx.keyUpdates >= MAX_KEY_UPDATES
    ensures TurnOf(suite, first, true, rx, tail)
         == Stop(REFUSED, rx.(buffer := [], keyUpdates := rx.keyUpdates + 1), tail, 0)
  {
    hide Extract, DecodeMessage, RecordTurn;
    KeyUpdateExtracted();
  }

  // ----- many reads

  /** `n` reads, or as many as answer data before one that does not. */
  datatype Reads = Reads(data: bytes, last: Option<ReadResult>, rx: Rx, rest: bytes)

  function ReadMany(suite: Suite, first: bytes, rx: Rx, stream: bytes, n: nat): Reads
    decreases n
  {
    if n == 0 then Reads([], None, rx, stream)
    else
      var out := Read(suite, first, false, rx, stream);
      if !out.result.Data? then Reads([], Some(out.result), out.rx, out.rest)
      else
        var more := ReadMany(suite, first, out.rx, out.rest, n - 1);
        more.(data := out.result.payload + more.data)
  }

  /**
   What the reads `r` over a stream that stops somewhere in `log` come to, `c` records in. A record
   that is refused is taken, and its number spent, but does nothing.
   */
  ghost predicate InStep(suite: Suite, first: bytes, p: Position, updates: nat, log: seq<Sealed>, stream: bytes, r: Reads, c: nat) {
    && c <= |log|
    && Within(updates, log[..c])
    && r.data == DataOf(log[..c])
    && if r.last == Some(REFUSED) then
         && c < |log| && !Within(updates, log[..c + 1])
         && stream == WireOf(suite, first, log[..c + 1]) + r.rest
         && At(r.rx.generation, r.rx.seqNo) == Past(AfterAll(p, log[..c]))
       else
         && stream == WireOf(suite, first, log[..c]) + r.rest
         && At(r.rx.generation, r.rx.seqNo) == AfterAll(p, log[..c])
         && Ended(suite, first, log, r, c)
  }

  function Past(p: Position): Position {
    p.(seqNo := p.seqNo + 1)
  }

  ghost predicate Ended(suite: Suite, first: bytes, log: seq<Sealed>, r: Reads, c: nat)
    requires c <= |log|
  {
    match r.last {
         case None => true
         case Some(PeerClosed) => c == |log| && EndsInClose(log)
         case Some(Failed(reason)) =>
           reason == StreamTruncated && !EndsInClose(log[..c])
           && (c < |log| ==> |r.rest| < |RecordOf(suite, first, log[c])|)
         case Some(_) => false
       }
  }

  lemma WireFirst(suite: Suite, first: bytes, log: seq<Sealed>, stream: bytes)
    requires Lawful(suite.aead) && log != [] && Fits(log[0])
    requires stream <= WireOf(suite, first, log)
    ensures var record := RecordOf(suite, first, log[0]);
            if |stream| < |record| then stream <= record
            else stream == record + stream[|record|..] && stream[|record|..] <= WireOf(suite, first, log[1..])
  {
    hide RecordOf;
    var record := RecordOf(suite, first, log[0]);
    var whole := WireOf(suite, first, log);
    assert whole == record + WireOf(suite, first, log[1..]);
    if |stream| < |record| {
      assert whole[..|stream|] == record[..|stream|];
    } else {
      assert whole[..|stream|][..|record|] == record;
      assert whole[..|stream|][|record|..] == WireOf(suite, first, log[1..])[..|stream| - |record|];
    }
  }

  /** Facts about the first `c` records, from those about all but the first of them. */
  lemma OneMore(suite: Suite, first: bytes, p: Position, updates: nat, log: seq<Sealed>, c: nat)
    requires log != [] && c < |log|
    ensures var one, rest := log[0], log[1..];
            && DataOf(log[..c + 1]) == (if one.content == ApplicationData then one.payload else []) + DataOf(rest[..c])
            && WireOf(suite, first, log[..c + 1]) == RecordOf(suite, first, one) + WireOf(suite, first, rest[..c])
            && (Within(updates, log[..c + 1]) <==>
                  (one.content == HandshakeContent ==> updates < MAX_KEY_UPDATES) && Within(UpdatesAfter(updates, one), rest[..c]))
            && AfterAll(p, log[..c + 1]) == AfterAll(AfterOne(p, one), rest[..c])
            && (c > 0 ==> EndsInClose(log[..c + 1]) == EndsInClose(rest[..c]))
            && (c + 1 < |log| ==> log[c + 1] == rest[c])
  {
    hide RecordOf;
    assert log[..c + 1][0] == log[0];
    assert log[..c + 1][1..] == log[1..][..c];
  }

  lemma {:induction false} ReadsInStep(suite: Suite, first: bytes, p: Position, rx: Rx, log: seq<Sealed>, stream: bytes, n: nat)
    returns (c: nat)
    requires Lawful(suite.aead) && Standing(rx, p) && Chained(p, log)
    requires stream <= WireOf(suite, first, log)
    ensures InStep(suite, first, p, rx.keyUpdates, log, stream, ReadMany(suite, first, rx, stream, n), c)
    ensures ReadMany(suite, first, rx, stream, n).last == None ==> c >= n
    decreases |log|
  {
    hide *;
    c := 0;
    if n == 0 || log == [] || |stream| < |RecordOf(suite, first, log[0])| {
      NothingMore(suite, first, p, rx, log, stream, n);
    } else {
      var one := log[0];
      ChainedFirst(p, log);
      WireFirst(suite, first, log, stream);
      var record := RecordOf(suite, first, one);
      var tail := stream[|record|..];
      Standing'(rx, one, p);
      if IsData(one) {
        ReadData(suite, first, rx, one, tail);
        ManyData(suite, first, rx, stream, n, one.payload);
        var rx' := Delivered(rx.(seqNo := rx.seqNo + 1));
        c := ReadsInStep(suite, first, AfterOne(p, one), rx', log[1..], tail, n - 1);
        OneMoreInStep(suite, first, p, rx.keyUpdates, log, stream, ReadMany(suite, first, rx', tail, n - 1), c);
        c := c + 1;
      } else if IsKeyUpdate(one) && rx.keyUpdates < MAX_KEY_UPDATES {
        ReadUpdate(suite, first, rx, one, tail);
        ManySame(suite, first, rx, stream, Rolled(rx), tail, n);
        c := ReadsInStep(suite, first, AfterOne(p, one), Rolled(rx), log[1..], tail, n);
        assert [] + ReadMany(suite, first, rx, stream, n).data == ReadMany(suite, first, rx, stream, n).data;
        OneMoreInStep(suite, first, p, rx.keyUpdates, log, stream, ReadMany(suite, first, Rolled(rx), tail, n), c);
        c := c + 1;
      } else if IsKeyUpdate(one) {
        UpdateTooMany(suite, first, rx, one, tail);
        RefusedInStep(suite, first, p, rx, log, stream, n);
      } else {
        ReadClose(suite, first, rx, one, tail);
        CloseInStep(suite, first, p, rx, log, stream, n);
        c := 1;
      }
    }
  }

  /** The reader stands at the next record, and past it where the next one goes. */
  lemma Standing'(rx: Rx, one: Sealed, p: Position)
    requires Standing(rx, p) && p == At(one.generation, one.seqNo)
    ensures Standing(rx, At(one.generation, one.seqNo))
    ensures var rx' := Delivered(rx.(seqNo := rx.seqNo + 1));
            IsData(one) ==> Standing(rx', AfterOne(p, one)) && rx'.keyUpdates == UpdatesAfter(rx.keyUpdates, one)
    ensures IsKeyUpdate(one) ==> Standing(Rolled(rx), AfterOne(p, one)) && Rolled(rx).keyUpdates == UpdatesAfter(rx.keyUpdates, one)
  {
  }

  lemma ManyData(suite: Suite, first: bytes, rx: Rx, stream: bytes, n: nat, payload: bytes)
    requires n > 0
    requires Read(suite, first, false, rx, stream).result == Data(payload)
    ensures var out := Read(suite, first, false, rx, stream);
            var more := ReadMany(suite, first, out.rx, out.rest, n - 1);
            ReadMany(suite, first, rx, stream, n) == more.(data := payload + more.data)
  {
    hide Read;
  }

  lemma ManySame(suite: Suite, first: bytes, rx: Rx, stream: bytes, rx': Rx, stream': bytes, n: nat)
    requires n > 0
    requires SameAnswer(Read(suite, first, false, rx, stream), Read(suite, first, false, rx', stream'))
    ensures ReadMany(suite, first, rx, stream, n) == ReadMany(suite, first, rx', stream', n)
  {
    hide Read;
  }

  lemma NothingMore(suite: Suite, first: bytes, p: Position, rx: Rx, log: seq<Sealed>, stream: bytes, n: nat)
    requires Lawful(suite.aead) && Standing(rx, p) && Chained(p, log)
    requires stream <= WireOf(suite, first, log)
    requires n == 0 || log == [] || |stream| < |RecordOf(suite, first, log[0])|
    ensures InStep(suite, first, p, rx.keyUpdates, log, stream, ReadMany(suite, first, rx, stream, n), 0)
    ensures n > 0 ==> ReadMany(suite, first, rx, stream, n).last != None
  {
    hide Lawful, RecordOf, Read, FrameRecord, Chained;
    NothingArrives(suite, first, p, log, stream);
    if n > 0 {
      if log == [] {
        NoRecord();
      } else {
        ChainedFirst(p, log);
        WireFirst(suite, first, log, stream);
        RecordCut(suite, first, log[0], stream);
      }
      ReadCut(suite, first, rx, stream);
    }
  }

  lemma NoRecord()
    ensures FrameRecord([]) == EndOfStream
  {
  }

  /** In step below the first record, in step with it. */
  lemma OneMoreInStep(suite: Suite, first: bytes, p: Position, updates: nat, log: seq<Sealed>, stream: bytes, r: Reads, c: nat)
    requires log != [] && !IsClose(log[0]) && (log[0].content == HandshakeContent ==> updates < MAX_KEY_UPDATES)
    requires var record := RecordOf(suite, first, log[0]);
             |stream| >= |record| && stream == record + stream[|record|..]
             && InStep(suite, first, AfterOne(p, log[0]), UpdatesAfter(updates, log[0]), log[1..], stream[|record|..], r, c)
    ensures var data := if log[0].content == ApplicationData then log[0].payload else [];
            InStep(suite, first, p, updates, log, stream, r.(data := data + r.data), c + 1)
  {
    hide RecordOf, WireOf, DataOf, AfterAll, IsClose, AfterOne, Within, UpdatesAfter;
    OneMore(suite, first, p, updates, log, c);
    ConcatAssoc(RecordOf(suite, first, log[0]), WireOf(suite, first, log[1..][..c]), r.rest);
    if c + 1 < |log| {
      OneMore(suite, first, p, updates, log, c + 1);
      ConcatAssoc(RecordOf(suite, first, log[0]), WireOf(suite, first, log[1..][..c + 1]), r.rest);
    }
    assert log[..1] == [log[0]];
  }

  lemma CloseInStep(suite: Suite, first: bytes, p: Position, rx: Rx, log: seq<Sealed>, stream: bytes, n: nat)
    requires n > 0 && |log| == 1 && IsClose(log[0]) && Standing(rx, p)
    requires var record := RecordOf(suite, first, log[0]);
             |stream| >= |record| && stream == record + stream[|record|..]
             && Read(suite, first, false, rx, stream)
                == ReadOut(PeerClosed, rx.(seqNo := rx.seqNo + 1, peerClosed := true), stream[|record|..], 1, 0)
    ensures InStep(suite, first, p, rx.keyUpdates, log, stream, ReadMany(suite, first, rx, stream, n), 1)
    ensures ReadMany(suite, first, rx, stream, n).last != None
  {
    hide RecordOf, Read, AlertBytes;
    OneRecord(suite, first, log[0]);
    assert log[..1] == [log[0]] && log == [log[0]];
    DataOfOne(log[0]);
    assert log[1..] == [];
    assert AfterAll(p, log) == AfterOne(p, log[0]) && Within(rx.keyUpdates, log);
    assert EndsInClose(log);
    assert ReadMany(suite, first, rx, stream, n).last == Some(PeerClosed);
    assert ReadMany(suite, first, rx, stream, n).data == DataOf(log[..1]);
    assert stream == WireOf(suite, first, log[..1]) + stream[|RecordOf(suite, first, log[0])|..];
  }

  lemma NothingArrives(suite: Suite, first: bytes, p: Position, log: seq<Sealed>, stream: bytes)
    ensures stream == WireOf(suite, first, log[..0]) + stream
    ensures AfterAll(p, log[..0]) == p && DataOf(log[..0]) == [] && forall updates :: Within(updates, log[..0])
    ensures log == [] ==> WireOf(suite, first, log) == []
  {
  }

  lemma RefusedInStep(suite: Suite, first: bytes, p: Position, rx: Rx, log: seq<Sealed>, stream: bytes, n: nat)
    requires n > 0 && log != [] && IsKeyUpdate(log[0]) && Standing(rx, p) && rx.keyUpdates >= MAX_KEY_UPDATES
    requires var record := RecordOf(suite, first, log[0]);
             && |stream| >= |record| && stream == record + stream[|record|..]
             && RefusesAt(Read(suite, first, false, rx, stream), rx, stream[|record|..])
    ensures InStep(suite, first, p, rx.keyUpdates, log, stream, ReadMany(suite, first, rx, stream, n), 0)
    ensures ReadMany(suite, first, rx, stream, n).last != None
  {
    hide RecordOf, Read;
    NothingArrives(suite, first, p, log, stream);
    OneRecord(suite, first, log[0]);
    assert log[..1] == [log[0]];
    var r := ReadMany(suite, first, rx, stream, n);
    assert r.data == [] && r.last == Some(REFUSED);
    assert !Within(rx.keyUpdates, [log[0]]);
  }

  lemma ChainedFirst(p: Position, log: seq<Sealed>)
    requires Chained(p, log) && log != []
    ensures Fits(log[0]) && p == At(log[0].generation, log[0].seqNo)
    ensures IsData(log[0]) || IsKeyUpdate(log[0]) || (IsClose(log[0]) && |log| == 1)
    ensures Chained(AfterOne(p, log[0]), log[1..])
    ensures IsData(log[0]) ==> !IsClose(log[0]) && log[0].content == ApplicationData
    ensures IsKeyUpdate(log[0]) ==> !IsClose(log[0]) && log[0].content == HandshakeContent
  {
  }

  lemma {:induction false} DataPrefix(log: seq<Sealed>, c: nat)
    requires c <= |log|
    ensures DataOf(log[..c]) <= DataOf(log)
  {
    assert log == log[..c] + log[c..];
    DataConcat(log[..c], log[c..]);
  }

  /**
   End to end. The peer performs any run without a fatal alert on a transport that takes everything;
   some prefix of its stream arrives; we read `n` times. What we have is the start of what was
   written, both sides agree on generation and sequence number after the `c` records we took, the
   close is reported only behind every octet, and we fail only where the stream stopped or, of a run
   that is not paced, at a KeyUpdate too many.
   */
  lemma EndToEnd(suite: Suite, secret: bytes, actions: seq<Action>, stream: bytes, n: nat) returns (c: nat)
    requires Lawful(suite.aead) && NoAlert(actions)
    requires stream <= WireOf(suite, secret, Run(FRESH, actions, []).delivered)
    ensures var peer, r := Run(FRESH, actions, []), ReadMany(suite, secret, RX_FRESH, stream, n);
            && c <= |peer.sealed|
            && r.data == DataOf(peer.sealed[..c]) && r.data <= Written(actions)
            && At(r.rx.generation, r.rx.seqNo)
               == (if r.last == Some(REFUSED) then Past(AfterAll(At(0, 0), peer.sealed[..c])) else AfterAll(At(0, 0), peer.sealed[..c]))
            && (r.last == Some(PeerClosed) ==>
                  Closes(actions) && r.data == Written(actions) && At(r.rx.generation, r.rx.seqNo) == PositionOf(peer.tx))
            && (r.last.Some? ==> r.last.value in {PeerClosed, Failed(StreamTruncated), REFUSED})
            && (Paced(FRESH, 0, actions) ==> r.last != Some(REFUSED))
  {
    hide Lawful, Run, WireOf, Read, ReadMany, Chained, Within, DataOf, AfterAll, EndsInClose, Paced;
    var log := Run(FRESH, actions, []).sealed;
    RunCarries(FRESH, actions, 0);
    c := ReadsInStep(suite, secret, At(0, 0), RX_FRESH, log, stream, n);
    DataPrefix(log, c);
    assert log[..|log|] == log;
    if c < |log| {
      LogSplits(log, c + 1);
      WithinConcat(0, log[..c + 1], log[c + 1..]);
    }
  }

  /**
   When all of it arrives, enough reads of a paced run deliver all of it, and then the close if there
   was one; of any other run they end in a refusal.
   */
  lemma AllArrives(suite: Suite, secret: bytes, actions: seq<Action>, n: nat)
    requires Lawful(suite.aead) && NoAlert(actions)
    requires n > |Run(FRESH, actions, []).sealed|
    ensures var peer := Run(FRESH, actions, []);
            var r := ReadMany(suite, secret, RX_FRESH, WireOf(suite, secret, peer.delivered), n);
            if Paced(FRESH, 0, actions) then
              && r.data == Written(actions) && r.rest == []
              && At(r.rx.generation, r.rx.seqNo) == PositionOf(peer.tx)
              && r.last == Some(if Closes(actions) then PeerClosed else Failed(StreamTruncated))
            else r.last == Some(REFUSED)
  {
    hide Lawful, Run, Read, ReadMany, Chained, Within, DataOf, AfterAll, EndsInClose, RecordOf, Paced;
    var log := Run(FRESH, actions, []).sealed;
    RunCarries(FRESH, actions, 0);
    var stream := WireOf(suite, secret, log);
    var c := ReadsInStep(suite, secret, At(0, 0), RX_FRESH, log, stream, n);
    assert log[..|log|] == log;
    var r := ReadMany(suite, secret, RX_FRESH, stream, n);
    if r.last == Some(REFUSED) {
      LogSplits(log, c + 1);
      WithinConcat(0, log[..c + 1], log[c + 1..]);
    } else {
      LogSplits(log, c);
      WireConcat(suite, secret, log[..c], log[c..]);
      SameRest(WireOf(suite, secret, log[..c]), r.rest, WireOf(suite, secret, log[c..]));
      WireAtLeast(suite, secret, log, c);
    }
  }

  lemma LogSplits(log: seq<Sealed>, c: nat)
    requires c <= |log|
    ensures log == log[..c] + log[c..]
  {
  }

  lemma SameRest(a: bytes, b: bytes, c: bytes)
    requires a + b == a + c
    ensures b == c
  {
    assert (a + b)[|a|..] == b && (a + c)[|a|..] == c;
  }

  lemma WireAtLeast(suite: Suite, first: bytes, log: seq<Sealed>, c: nat)
    requires c <= |log|
    ensures if c < |log| then |WireOf(suite, first, log[c..])| >= |RecordOf(suite, first, log[c])| else WireOf(suite, first, log[c..]) == []
  {
    if c < |log| {
      assert log[c..][0] == log[c];
    }
  }

  // ----- what the two conditions keep out

  /** `n` times: the peer is asked for an update and writes nothing. */
  function EmptyAnswers(n: nat): seq<Action> {
    if n == 0 then [] else [RequestUpdate, Write([])] + EmptyAnswers(n - 1)
  }

  lemma {:induction false} EmptyAnswersNoAlert(n: nat)
    ensures NoAlert(EmptyAnswers(n))
  {
    if n > 0 {
      EmptyAnswersNoAlert(n - 1);
    }
  }

  lemma EmptyAnswer(tx: Tx, updates: nat, n: nat)
    requires !tx.closing && n > 0
    ensures var tx' := Tx(tx.generation + 1, 0, tx.generation + 1, 0, false, false);
            Paced(tx, updates, EmptyAnswers(n))
            <==> updates < MAX_KEY_UPDATES && Paced(tx', updates + 1, EmptyAnswers(n - 1))
  {
    var actions := EmptyAnswers(n);
    var asked := tx.(owed := true);
    assert actions[1..] == [Write([])] + EmptyAnswers(n - 1);
    assert actions[1..][1..] == EmptyAnswers(n - 1);
    assert Paced(tx, updates, actions) == Paced(asked, updates, actions[1..]);
  }

  lemma {:induction false} EmptyAnswersPaced(tx: Tx, updates: nat, n: nat)
    requires !tx.closing && updates <= MAX_KEY_UPDATES
    ensures Paced(tx, updates, EmptyAnswers(n)) <==> updates + n <= MAX_KEY_UPDATES
    decreases n
  {
    hide Perform;
    if n > 0 {
      EmptyAnswer(tx, updates, n);
      if updates < MAX_KEY_UPDATES {
        EmptyAnswersPaced(Tx(tx.generation + 1, 0, tx.generation + 1, 0, false, false), updates + 1, n - 1);
      }
    }
  }

  /** An honest peer that answers requests with empty writes is read to the end exactly up to the 32nd. */
  lemma EmptyWritesAreRefused(suite: Suite, secret: bytes, n: nat, calls: nat)
    requires Lawful(suite.aead) && calls > |Run(FRESH, EmptyAnswers(n), []).sealed|
    ensures var stream := WireOf(suite, secret, Run(FRESH, EmptyAnswers(n), []).delivered);
            ReadMany(suite, secret, RX_FRESH, stream, calls).last == Some(REFUSED) <==> n > MAX_KEY_UPDATES
  {
    hide Run, ReadMany, WireOf, Paced, Lawful, EmptyAnswers;
    EmptyAnswersNoAlert(n);
    EmptyAnswersPaced(FRESH, 0, n);
    AllArrives(suite, secret, EmptyAnswers(n), calls);
  }

  /** `n` handshake fragments without content. */
  function Hollow(p: Position, n: nat): seq<Sealed>
    decreases n
  {
    if n == 0 then [] else [Sealed(p.generation, p.seqNo, HandshakeContent, [])] + Hollow(p.(seqNo := p.seqNo + 1), n - 1)
  }

  /** Why the bound counts hollow fragments apart: one `read` takes as many as the peer likes to send. */
  lemma {:induction false} HollowIsUnbounded(suite: Suite, first: bytes, isInside: bool, rx: Rx, n: nat)
    requires Lawful(suite.aead) && Standing(rx, At(rx.generation, rx.seqNo))
    ensures var out := Read(suite, first, isInside, rx, WireOf(suite, first, Hollow(At(rx.generation, rx.seqNo), n)));
            out.used == n && out.hollow == n && out.result == Failed(StreamTruncated)
    decreases n
  {
    hide RecordOf, Lawful, OpenAead, FrameRecord, DecodeMessage, KeysAt;
    if n == 0 {
      NoRecord();
    } else {
      var p := At(rx.generation, rx.seqNo);
      var one := Sealed(rx.generation, rx.seqNo, HandshakeContent, []);
      var more := Hollow(p.(seqNo := p.seqNo + 1), n - 1);
      assert ([one] + more)[1..] == more;
      RecordArrives(suite, first, one, WireOf(suite, first, more));
      assert rx.buffer + [] == rx.buffer;
      HollowIsUnbounded(suite, first, true, rx.(seqNo := rx.seqNo + 1), n - 1);
    }
  }
}
