/**
 No (generation, sequence number) pair seals two records, over every run of the write queue without a
 fatal alert. The first fatal alert behind a run seals with a copy of the write keys, and repeats a
 pair if and only if the last step that moved the keys or the copy left the copy behind.
 */
module SealingSafety {
  import opened Bytes
  import opened TlsRecord
  import opened TlsSealing

  ghost predicate SamePair(a: Sealed, b: Sealed) {
    a.generation == b.generation && a.seqNo == b.seqNo
  }

  ghost predicate NoRepeats(log: seq<Sealed>) {
    forall i, j | 0 <= i < j < |log| :: !SamePair(log[i], log[j])
  }

  /** Used up before the position `tx` stands at. */
  ghost predicate Below(s: Sealed, tx: Tx) {
    s.generation < tx.generation || (s.generation == tx.generation && s.seqNo < tx.seqNo)
  }

  ghost predicate Bounded(tx: Tx, log: seq<Sealed>) {
    NoRepeats(log) && forall i | 0 <= i < |log| :: Below(log[i], tx)
  }

  /** The alert's copy stands where the application keys stand. */
  predicate Mirrors(tx: Tx) {
    tx.copyGeneration == tx.generation && tx.copySeqNo == tx.seqNo
  }

  /** What a step does about the copy: bring it to the keys, leave it behind them, or neither. */
  datatype Effect = Together | Behind | Neither

  /**
   Behind: the KeyUpdate that answers a request or rekeys was refused, or nothing was written behind
   a rekey. Together: the answer was taken, data went out, or the close_notify did.
   */
  function EffectOf(tx: Tx, action: Action, v: Verdicts): Effect {
    match action
    case Write(plaintext) =>
      if tx.closing then Neither
      else if tx.owed then if Accepts(v) then Together else Behind
      else if tx.seqNo >= REKEY_AFTER then if Accepts(v) && plaintext != [] then Together else Behind
      else if plaintext != [] then Together else Neither
    case Close => if tx.closing then Neither else if tx.owed && !Accepts(v) then Behind else Together
    case RequestUpdate => Neither
    case FatalAlert(_) => Behind
  }

  /** What the last step that did anything about the copy did. */
  function LastEffect(tx: Tx, actions: seq<Action>, v: Verdicts, before: Effect): Effect
    decreases |actions|
  {
    if actions == [] then before
    else
      var sent := Perform(tx, actions[0], v);
      var effect := EffectOf(tx, actions[0], v);
      LastEffect(sent.tx, actions[1..], sent.verdicts, if effect == Neither then before else effect)
  }

  /** The next fatal alert would repeat a pair. */
  ghost predicate CopySpent(tx: Tx, log: seq<Sealed>) {
    exists i | 0 <= i < |log| :: log[i].generation == tx.copyGeneration && log[i].seqNo == tx.copySeqNo
  }

  /** Every pair is used once, and the copy stands with the keys or on a pair that is used. */
  ghost predicate Settled(tx: Tx, log: seq<Sealed>) {
    Bounded(tx, log) && (Mirrors(tx) || CopySpent(tx, log))
  }

  lemma SealNextBounded(tx: Tx, content: ContentType, payload: bytes, v: Verdicts, log: seq<Sealed>)
    requires Bounded(tx, log)
    ensures var sent := SealNext(tx, content, payload, v); Bounded(sent.tx, log + sent.sealed)
  {
    var sent := SealNext(tx, content, payload, v);
    var log' := log + sent.sealed;
    forall i, j | 0 <= i < j < |log'|
      ensures !SamePair(log'[i], log'[j])
    {
      assert Below(log'[i], tx);
    }
  }

  lemma MovesUp(tx: Tx, tx': Tx, log: seq<Sealed>)
    requires Bounded(tx, log)
    requires tx'.generation > tx.generation || (tx'.generation == tx.generation && tx'.seqNo >= tx.seqNo)
    ensures Bounded(tx', log)
  {
    forall i | 0 <= i < |log|
      ensures Below(log[i], tx')
    {
      assert Below(log[i], tx);
    }
  }

  lemma {:induction false} SealDataBounded(tx: Tx, plaintext: bytes, v: Verdicts, log: seq<Sealed>)
    requires Bounded(tx, log)
    ensures var sent := SealData(tx, plaintext, v);
            Bounded(sent.tx, log + sent.sealed) && (plaintext != [] || Mirrors(tx) ==> Mirrors(sent.tx))
    decreases |plaintext|
  {
    if plaintext == [] {
      assert log + [] == log;
    } else {
      var n := if |plaintext| < MAX_RECORD_PLAINTEXT then |plaintext| else MAX_RECORD_PLAINTEXT;
      var sent := SealNext(tx, ApplicationData, plaintext[..n], v);
      SealNextBounded(tx, ApplicationData, plaintext[..n], v, log);
      MovesUp(sent.tx, Synced(sent.tx), log + sent.sealed);
      if sent.ok {
        SealDataBounded(Synced(sent.tx), plaintext[n..], sent.verdicts, log + sent.sealed);
        ConcatAssoc(log, sent.sealed, SealData(Synced(sent.tx), plaintext[n..], sent.verdicts).sealed);
      }
    }
  }

  lemma PayBounded(tx: Tx, v: Verdicts, log: seq<Sealed>)
    requires Bounded(tx, log)
    ensures var sent := PayOwed(tx, v); Bounded(sent.tx, log + sent.sealed)
  {
    if tx.owed {
      var start := tx.(owed := false);
      MovesUp(tx, start, log);
      SealNextBounded(start, HandshakeContent, KEY_UPDATE, v, log);
      var sent := SealNext(start, HandshakeContent, KEY_UPDATE, v);
      MovesUp(sent.tx, Synced(NextGeneration(sent.tx)), log + sent.sealed);
    } else {
      assert log + [] == log;
    }
  }

  lemma RekeyBounded(tx: Tx, v: Verdicts, log: seq<Sealed>)
    requires Bounded(tx, log)
    ensures var sent := Rekey(tx, v); Bounded(sent.tx, log + sent.sealed)
  {
    if tx.seqNo < REKEY_AFTER {
      assert log + [] == log;
    } else {
      SealNextBounded(tx, HandshakeContent, KEY_UPDATE, v, log);
      var sent := SealNext(tx, HandshakeContent, KEY_UPDATE, v);
      MovesUp(sent.tx, NextGeneration(sent.tx), log + sent.sealed);
    }
  }

  /** Whatever the transport refuses, the application keys themselves never repeat a pair. */
  lemma StepBounded(tx: Tx, action: Action, v: Verdicts, log: seq<Sealed>)
    requires Bounded(tx, log) && !action.FatalAlert?
    ensures var sent := Perform(tx, action, v); Bounded(sent.tx, log + sent.sealed)
  {
    assert log + [] == log;
    match action
    case Write(plaintext) =>
      if !tx.closing {
        var paid := PayOwed(tx, v);
        PayBounded(tx, v, log);
        if paid.ok {
          var log1 := log + paid.sealed;
          var rekey := Rekey(paid.tx, paid.verdicts);
          RekeyBounded(paid.tx, paid.verdicts, log1);
          ConcatAssoc(log, paid.sealed, rekey.sealed);
          if rekey.ok {
            var data := SealData(rekey.tx, plaintext, rekey.verdicts);
            SealDataBounded(rekey.tx, plaintext, rekey.verdicts, log1 + rekey.sealed);
            ConcatAssoc(log, paid.sealed + rekey.sealed, data.sealed);
          }
        }
      }
    case Close =>
      if !tx.closing {
        var start := tx.(closing := true);
        MovesUp(tx, start, log);
        var paid := PayOwed(start, v);
        PayBounded(start, v, log);
        if paid.ok {
          var alert := SealNext(paid.tx, AlertContent, AlertBytes(false, 0), paid.verdicts);
          SealNextBounded(paid.tx, AlertContent, AlertBytes(false, 0), paid.verdicts, log + paid.sealed);
          ConcatAssoc(log, paid.sealed, alert.sealed);
          MovesUp(alert.tx, Synced(alert.tx), log + paid.sealed + alert.sealed);
        }
      }
    case RequestUpdate => MovesUp(tx, tx.(owed := true), log);
  }

  lemma {:induction false} SealDataMirrors(tx: Tx, plaintext: bytes, v: Verdicts)
    ensures Mirrors(SealData(tx, plaintext, v).tx) <==> plaintext != [] || Mirrors(tx)
    decreases |plaintext|
  {
    if plaintext != [] {
      var n := if |plaintext| < MAX_RECORD_PLAINTEXT then |plaintext| else MAX_RECORD_PLAINTEXT;
      var sent := SealNext(tx, ApplicationData, plaintext[..n], v);
      SealDataMirrors(Synced(sent.tx), plaintext[n..], sent.verdicts);
    }
  }

  /** The copy stands with the keys after a step if the step saw to it, or left both as they were. */
  lemma StepMirrors(tx: Tx, action: Action, v: Verdicts, log: seq<Sealed>)
    requires Settled(tx, log) && !action.FatalAlert?
    ensures var effect := EffectOf(tx, action, v);
            Mirrors(Perform(tx, action, v).tx) <==> effect == Together || (effect == Neither && Mirrors(tx))
  {
    CopyIsBehind(tx, log);
    if action.Write? && !tx.closing {
      var paid := PayOwed(tx, v);
      if paid.ok {
        var rekey := Rekey(paid.tx, paid.verdicts);
        if rekey.ok {
          SealDataMirrors(rekey.tx, action.plaintext, rekey.verdicts);
        }
      }
    }
  }

  lemma CopyIsBehind(tx: Tx, log: seq<Sealed>)
    requires Settled(tx, log)
    ensures tx.copyGeneration < tx.generation || (tx.copyGeneration == tx.generation && tx.copySeqNo <= tx.seqNo)
  {
  }

  /** A copy left behind stands where the step's first record was sealed, or where it stood before. */
  lemma StepSpends(tx: Tx, action: Action, v: Verdicts, log: seq<Sealed>)
    requires Settled(tx, log) && !action.FatalAlert?
    ensures var sent := Perform(tx, action, v); Mirrors(sent.tx) || CopySpent(sent.tx, log + sent.sealed)
  {
    var sent := Perform(tx, action, v);
    var log' := log + sent.sealed;
    StepMirrors(tx, action, v, log);
    if !Mirrors(sent.tx) {
      LeftBehind(tx, action, v);
      if Mirrors(tx) {
        FirstSealed(tx, action, v);
        assert log'[|log|] == sent.sealed[0];
      } else {
        var i :| 0 <= i < |log| && log[i].generation == tx.copyGeneration && log[i].seqNo == tx.copySeqNo;
        assert log'[i] == log[i];
      }
    }
  }

  lemma LeftBehind(tx: Tx, action: Action, v: Verdicts)
    requires !action.FatalAlert? && EffectOf(tx, action, v) != Together
    ensures var sent := Perform(tx, action, v);
            && sent.tx.copyGeneration == tx.copyGeneration && sent.tx.copySeqNo == tx.copySeqNo
            && (EffectOf(tx, action, v) == Behind ==> sent.sealed != [])
  {
  }

  lemma {:induction false} RunSettles(tx: Tx, actions: seq<Action>, v: Verdicts, log: seq<Sealed>, before: Effect)
    requires Settled(tx, log) && NoAlert(actions) && (Mirrors(tx) <==> before != Behind)
    ensures var sent := Run(tx, actions, v);
            && Settled(sent.tx, log + sent.sealed)
            && (Mirrors(sent.tx) <==> LastEffect(tx, actions, v, before) != Behind)
    decreases |actions|
  {
    hide Settled, Mirrors, Perform, EffectOf;
    if actions == [] {
      assert log + [] == log;
    } else {
      var sent := Perform(tx, actions[0], v);
      var effect := EffectOf(tx, actions[0], v);
      StepSettles(tx, actions[0], v, log);
      RunSettles(sent.tx, actions[1..], sent.verdicts, log + sent.sealed, if effect == Neither then before else effect);
      ConcatAssoc(log, sent.sealed, Run(sent.tx, actions[1..], sent.verdicts).sealed);
    }
  }

  lemma StepSettles(tx: Tx, action: Action, v: Verdicts, log: seq<Sealed>)
    requires Settled(tx, log) && !action.FatalAlert?
    ensures var sent := Perform(tx, action, v);
            var effect := EffectOf(tx, action, v);
            && Settled(sent.tx, log + sent.sealed)
            && (Mirrors(sent.tx) <==> effect == Together || (effect == Neither && Mirrors(tx)))
  {
    hide Perform, EffectOf;
    StepBounded(tx, action, v, log);
    StepMirrors(tx, action, v, log);
    StepSpends(tx, action, v, log);
  }

  lemma AlertNoRepeat(tx: Tx, log: seq<Sealed>, code: byte, v: Verdicts)
    requires Bounded(tx, log) && Mirrors(tx)
    ensures NoRepeats(log + Perform(tx, FatalAlert(code), v).sealed)
  {
    var alert := Perform(tx, FatalAlert(code), v).sealed[0];
    var log' := log + [alert];
    forall i, j | 0 <= i < j < |log'|
      ensures !SamePair(log'[i], log'[j])
    {
      assert Below(log'[i], tx);
    }
  }

  lemma AlertIsExact(tx: Tx, log: seq<Sealed>, code: byte, v: Verdicts)
    requires Settled(tx, log)
    ensures NoRepeats(log + Perform(tx, FatalAlert(code), v).sealed) <==> Mirrors(tx)
  {
    var alert := Perform(tx, FatalAlert(code), v).sealed;
    var log' := log + alert;
    if Mirrors(tx) {
      AlertNoRepeat(tx, log, code, v);
    } else {
      var i :| 0 <= i < |log| && log[i].generation == tx.copyGeneration && log[i].seqNo == tx.copySeqNo;
      assert log'[i] == log[i] && log'[|log|] == alert[0];
      assert SamePair(log'[i], log'[|log|]);
    }
  }

  /**
   From a fresh connection, any interleaving of writes, KeyUpdate requests and a close seals no pair
   twice, and neither does the first fatal alert behind it, if and only if the last step that did
   anything about the alert's copy of the keys brought it to them.
   */
  lemma SealsNeverRepeat(actions: seq<Action>, v: Verdicts, code: byte)
    requires NoAlert(actions)
    ensures var sent := Run(FRESH, actions, v);
            && NoRepeats(sent.sealed)
            && (NoRepeats(sent.sealed + Perform(sent.tx, FatalAlert(code), sent.verdicts).sealed)
                <==> LastEffect(FRESH, actions, v, Together) != Behind)
  {
    hide Perform, LastEffect;
    var sent := Run(FRESH, actions, v);
    GuardIsExact(FRESH, [], actions, v, code);
    assert [] + sent.sealed == sent.sealed;
  }

  /** The same from any state in which every pair is used once and the copy stands with the keys. */
  lemma GuardIsExact(tx: Tx, log: seq<Sealed>, actions: seq<Action>, v: Verdicts, code: byte)
    requires Bounded(tx, log) && Mirrors(tx) && NoAlert(actions)
    ensures var sent := Run(tx, actions, v);
            && NoRepeats(log + sent.sealed)
            && (NoRepeats(log + sent.sealed + Perform(sent.tx, FatalAlert(code), sent.verdicts).sealed)
                <==> LastEffect(tx, actions, v, Together) != Behind)
  {
    hide Perform, LastEffect;
    var sent := Run(tx, actions, v);
    RunSettles(tx, actions, v, log, Together);
    AlertIsExact(sent.tx, log + sent.sealed, code, sent.verdicts);
  }

  /** With no fatal alert at all, no refusal by the transport and no empty write matters. */
  lemma {:induction false} WithoutAlerts(tx: Tx, actions: seq<Action>, v: Verdicts, log: seq<Sealed>)
    requires Bounded(tx, log)
    requires NoAlert(actions)
    ensures var sent := Run(tx, actions, v); Bounded(sent.tx, log + sent.sealed)
    decreases |actions|
  {
    if actions == [] {
      assert log + [] == log;
    } else {
      var sent := Perform(tx, actions[0], v);
      StepBounded(tx, actions[0], v, log);
      WithoutAlerts(sent.tx, actions[1..], sent.verdicts, log + sent.sealed);
      ConcatAssoc(log, sent.sealed, Run(sent.tx, actions[1..], sent.verdicts).sealed);
    }
  }

  /** What a step seals first stands at the application keys' own position. */
  lemma FirstSealed(tx: Tx, action: Action, v: Verdicts)
    requires !action.FatalAlert?
    ensures var sealed := Perform(tx, action, v).sealed;
            sealed != [] ==> sealed[0].generation == tx.generation && sealed[0].seqNo == tx.seqNo
  {
  }

  lemma {:induction false} RunFirstSealed(tx: Tx, actions: seq<Action>, v: Verdicts)
    requires NoAlert(actions)
    ensures var sealed := Run(tx, actions, v).sealed;
            sealed != [] ==> sealed[0].generation == tx.generation && sealed[0].seqNo == tx.seqNo
    decreases |actions|
  {
    hide Perform;
    if actions != [] {
      var sent := Perform(tx, actions[0], v);
      FirstSealed(tx, actions[0], v);
      RunFirstSealed(sent.tx, actions[1..], sent.verdicts);
      if sent.sealed == [] {
        SilentStep(tx, actions[0], v);
      }
    }
  }

  lemma SilentStep(tx: Tx, action: Action, v: Verdicts)
    requires Perform(tx, action, v).sealed == []
    ensures Perform(tx, action, v).tx.generation == tx.generation && Perform(tx, action, v).tx.seqNo == tx.seqNo
  {
  }

  /** Behind a fatal alert, only a run that seals nothing leaves every pair used once. */
  lemma AlertIsLast(tx: Tx, log: seq<Sealed>, code: byte, actions: seq<Action>, v: Verdicts)
    requires Settled(tx, log) && NoAlert(actions)
    ensures var alert := Perform(tx, FatalAlert(code), v);
            var sent := Run(alert.tx, actions, alert.verdicts);
            NoRepeats(log + alert.sealed + sent.sealed) <==> Mirrors(tx) && sent.sealed == []
  {
    var alert := Perform(tx, FatalAlert(code), v);
    var sent := Run(alert.tx, actions, alert.verdicts);
    var log1 := log + alert.sealed;
    var log' := log1 + sent.sealed;
    AlertIsExact(tx, log, code, v);
    if sent.sealed == [] {
      assert log' == log1;
    } else if Mirrors(tx) {
      RunFirstSealed(alert.tx, actions, alert.verdicts);
      assert log'[|log|] == alert.sealed[0] && log'[|log| + 1] == sent.sealed[0];
      assert SamePair(log'[|log|], log'[|log| + 1]);
    } else {
      PrefixRepeats(log1, sent.sealed);
    }
  }

  lemma PrefixRepeats(log: seq<Sealed>, rest: seq<Sealed>)
    requires !NoRepeats(log)
    ensures !NoRepeats(log + rest)
  {
    var i, j :| 0 <= i < j < |log| && SamePair(log[i], log[j]);
    assert SamePair((log + rest)[i], (log + rest)[j]);
  }

  /** Distinct pairs are distinct nonces under each generation's key. */
  lemma NoncesNeverRepeat(suite: Suite, first: bytes, log: seq<Sealed>, i: nat, j: nat)
    requires NoRepeats(log) && i < j < |log|
    requires log[i].generation == log[j].generation
    requires log[i].seqNo < OctetRange(8) && log[j].seqNo < OctetRange(8)
    ensures var iv := KeysAt(suite, first, log[i].generation).iv;
            NonceOf(iv, log[i].seqNo) != NonceOf(iv, log[j].seqNo)
  {
    var iv := KeysAt(suite, first, log[i].generation).iv;
    assert !SamePair(log[i], log[j]);
    if NonceOf(iv, log[i].seqNo) == NonceOf(iv, log[j].seqNo) {
      NonceInjective(iv, log[i].seqNo, log[j].seqNo);
    }
  }
}
