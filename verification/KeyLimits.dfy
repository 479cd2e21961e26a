/**
 How much is sealed under one key: the rekey of `packages/tls/src/handshake.ts` keeps every sequence
 number within 2^24, the records of one write, and what the transport refused.
 */
module KeyLimits {
  import opened Bytes
  import opened TlsRecord
  import opened TlsSealing

  /** How many writes the transport is going to refuse. */
  function Refusals(v: Verdicts): nat {
    if v == [] then 0 else (if v[0] then 0 else 1) + Refusals(v[1..])
  }

  /** How many records some octets take. */
  function RecordsFor(octets: nat): nat {
    (octets + 16383) / 16384
  }

  predicate AreBelow(sealed: seq<Sealed>, bound: nat) {
    forall s | s in sealed :: s.seqNo < bound
  }

  /** No write takes more than `most` records. */
  predicate WritesWithin(actions: seq<Action>, most: nat) {
    forall action | action in actions :: action.Write? ==> RecordsFor(|action.plaintext|) <= most
  }

  /** Behind a step: nothing above the bound, and room for the refusals to come. */
  predicate KeepsRoom(sent: Sent, v: Verdicts, bound: nat) {
    && AreBelow(sent.sealed, bound)
    && Refusals(sent.verdicts) <= Refusals(v) && sent.tx.seqNo + Refusals(sent.verdicts) < bound
  }

  lemma SealNextKeeps(tx: Tx, content: ContentType, payload: bytes, v: Verdicts, bound: nat)
    requires tx.seqNo + Refusals(v) < bound
    ensures var sent := SealNext(tx, content, payload, v);
            && AreBelow(sent.sealed, bound) && Refusals(sent.verdicts) <= Refusals(v)
            && (!sent.ok ==> sent.tx.seqNo + Refusals(sent.verdicts) < bound)
  {
  }

  lemma PayKeeps(tx: Tx, v: Verdicts, bound: nat)
    requires tx.seqNo + Refusals(v) < bound
    ensures KeepsRoom(PayOwed(tx, v), v, bound)
  {
    if tx.owed {
      SealNextKeeps(tx.(owed := false), HandshakeContent, KEY_UPDATE, v, bound);
    }
  }

  lemma RekeyKeeps(tx: Tx, v: Verdicts, bound: nat)
    requires tx.seqNo + Refusals(v) < bound
    ensures KeepsRoom(Rekey(tx, v), v, bound)
    ensures Rekey(tx, v).ok ==> Rekey(tx, v).tx.seqNo < 0x1000000
  {
    if tx.seqNo >= REKEY_AFTER {
      SealNextKeeps(tx, HandshakeContent, KEY_UPDATE, v, bound);
    }
  }

  lemma {:induction false} DataTakes(tx: Tx, plaintext: bytes, v: Verdicts)
    ensures var sent, most := SealData(tx, plaintext, v), tx.seqNo + RecordsFor(|plaintext|);
            && AreBelow(sent.sealed, most) && sent.tx.seqNo <= most
            && Refusals(sent.verdicts) <= Refusals(v) && sent.tx.closing == tx.closing
    decreases |plaintext|
  {
    if plaintext != [] {
      var n := if |plaintext| < MAX_RECORD_PLAINTEXT then |plaintext| else MAX_RECORD_PLAINTEXT;
      var sent := SealNext(tx, ApplicationData, plaintext[..n], v);
      DataTakes(Synced(sent.tx), plaintext[n..], sent.verdicts);
    }
  }

  lemma BelowBoth(a: seq<Sealed>, b: seq<Sealed>, bound: nat)
    requires AreBelow(a, bound) && AreBelow(b, bound)
    ensures AreBelow(a + b, bound)
  {
  }

  lemma WriteKeeps(tx: Tx, plaintext: bytes, v: Verdicts, most: nat, bound: nat)
    requires tx.seqNo + Refusals(v) < bound && RecordsFor(|plaintext|) <= most
    requires bound >= 0x1000000 + most + Refusals(v)
    ensures KeepsRoom(WriteRun(tx, plaintext, v), v, bound)
  {
    hide PayOwed, Rekey, SealData, AreBelow, RecordsFor, Refusals;
    var paid := PayOwed(tx, v);
    PayKeeps(tx, v, bound);
    if paid.ok {
      var rekey := Rekey(paid.tx, paid.verdicts);
      RekeyKeeps(paid.tx, paid.verdicts, bound);
      BelowBoth(paid.sealed, rekey.sealed, bound);
      if rekey.ok {
        var data := SealData(rekey.tx, plaintext, rekey.verdicts);
        DataTakes(rekey.tx, plaintext, rekey.verdicts);
        BelowMore(data.sealed, rekey.tx.seqNo + RecordsFor(|plaintext|), bound);
        BelowBoth(paid.sealed + rekey.sealed, data.sealed, bound);
      }
    }
  }

  lemma BelowMore(sealed: seq<Sealed>, a: nat, b: nat)
    requires AreBelow(sealed, a) && a <= b
    ensures AreBelow(sealed, b)
  {
  }

  /** A step but a fatal alert; behind a close only requests come to anything. */
  lemma StepKeeps(tx: Tx, action: Action, v: Verdicts, most: nat, bound: nat)
    requires tx.seqNo + Refusals(v) < bound && !tx.closing && !action.FatalAlert?
    requires action.Write? ==> RecordsFor(|action.plaintext|) <= most
    requires bound >= 0x1000000 + most + Refusals(v)
    ensures var sent := Perform(tx, action, v);
            && AreBelow(sent.sealed, bound) && (sent.tx.closing || KeepsRoom(sent, v, bound))
  {
    hide PayOwed, WriteRun, AreBelow, RecordsFor, Refusals;
    match action
    case Write(plaintext) => WriteKeeps(tx, plaintext, v, most, bound);
    case Close => CloseKeeps(tx.(closing := true), v, bound);
    case RequestUpdate => NothingBelow(bound);
  }

  lemma NothingBelow(bound: nat)
    ensures AreBelow([], bound)
  {
  }

  lemma CloseKeeps(tx: Tx, v: Verdicts, bound: nat)
    requires tx.seqNo + Refusals(v) < bound
    ensures AreBelow(CloseRun(tx, v).sealed, bound) && CloseRun(tx, v).tx.closing == tx.closing
  {
    var paid := PayOwed(tx, v);
    PayKeeps(tx, v, bound);
    if paid.ok {
      var alert := SealNext(paid.tx, AlertContent, AlertBytes(false, 0), paid.verdicts);
      SealNextKeeps(paid.tx, AlertContent, AlertBytes(false, 0), paid.verdicts, bound);
      BelowBoth(paid.sealed, alert.sealed, bound);
    }
  }

  lemma {:induction false} ClosedSealsNothing(tx: Tx, actions: seq<Action>, v: Verdicts)
    requires tx.closing && NoAlert(actions)
    ensures Run(tx, actions, v).sealed == []
    decreases |actions|
  {
    if actions != [] {
      assert !actions[0].FatalAlert?;
      ClosedSealsNothing(Perform(tx, actions[0], v).tx, actions[1..], v);
    }
  }

  lemma {:induction false} RunKeeps(tx: Tx, actions: seq<Action>, v: Verdicts, most: nat, bound: nat)
    requires NoAlert(actions) && WritesWithin(actions, most)
    requires tx.closing || (tx.seqNo + Refusals(v) < bound && bound >= 0x1000000 + most + Refusals(v))
    ensures AreBelow(Run(tx, actions, v).sealed, bound)
    decreases |actions|
  {
    hide Perform, AreBelow, RecordsFor, Refusals;
    if tx.closing {
      ClosedSealsNothing(tx, actions, v);
      NothingBelow(bound);
    } else if actions == [] {
      NothingBelow(bound);
    } else {
      assert actions[0] in actions && !actions[0].FatalAlert?;
      var sent := Perform(tx, actions[0], v);
      StepKeeps(tx, actions[0], v, most, bound);
      RunKeeps(sent.tx, actions[1..], sent.verdicts, most, bound);
      BelowBoth(sent.sealed, Run(sent.tx, actions[1..], sent.verdicts).sealed, bound);
    }
  }

  /**
   From a fresh connection, whatever is called and whatever the transport refuses, no record takes a
   sequence number past 2^24, the records of the longest write and the refusals together.
   */
  lemma KeysAreRetired(actions: seq<Action>, v: Verdicts, most: nat)
    requires NoAlert(actions) && WritesWithin(actions, most)
    ensures AreBelow(Run(FRESH, actions, v).sealed, 0x1000000 + most + Refusals(v))
  {
    RunKeeps(FRESH, actions, v, most, 0x1000000 + most + Refusals(v));
  }
}
