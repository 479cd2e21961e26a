/**
 COPYUID (section 3 of RFC 4315) in `packages/imap/src/client.ts`: the n-th UID of `source` became
 the n-th of `target`. Both are kept as ranges; here the ranges are shown to answer as the lists
 they stand for.
 */
module CopyUid {
  import opened Bytes
  import opened Splitting
  import opened UidRanges

  // ----- reading a UID set

  predicate IsNumeral(s: text) {
    s != [] && s[0] != 0x30 && forall i | 0 <= i < |s| :: IsDigit(s[i])
  }

  /** A UID, from 1 to 2^32 - 1, written without leading zeros. */
  function UidOf(s: text): Option<nat> {
    if !IsNumeral(s) then None
    else
      var digits: bytes := s;
      if DecimalValue(digits) <= MAX_UID then Some(DecimalValue(digits)) else None
  }

  /** One UID, or two in either order. */
  function RangeOf(part: text): (r: Option<Range>)
    ensures r.Some? ==> r.value.first <= r.value.last
  {
    var bounds := Split(COLON, part);
    if |bounds| > 2 || UidOf(bounds[0]).None? || UidOf(bounds[|bounds| - 1]).None? then None
    else
      var a, b := UidOf(bounds[0]).value, UidOf(bounds[|bounds| - 1]).value;
      Some(if a <= b then Range(a, b) else Range(b, a))
  }

  function RangesOfParts(parts: seq<text>): (r: Option<seq<Range>>)
    ensures r.Some? ==> |r.value| == |parts| && IsProper(r.value)
  {
    if parts == [] then Some([])
    else
      match RangeOf(parts[0])
      case None => None
      case Some(range) => Prepended([range], RangesOfParts(parts[1..]))
  }

  function RangesOf(s: text): Option<seq<Range>> {
    RangesOfParts(Split(COMMA, s))
  }

  method UidRangesOf(s: text) returns (r: Option<seq<Range>>)
    ensures r == RangesOf(s)
  {
    var parts := Split(COMMA, s);
    var ranges: seq<Range> := [];
    PrependedNothing(RangesOfParts(parts));
    assert parts[0..] == parts;
    for i := 0 to |parts|
      invariant RangesOf(s) == Prepended(ranges, RangesOfParts(parts[i..]))
    {
      assert parts[i..][1..] == parts[i + 1..];
      var bounds := Split(COLON, parts[i]);
      var uids: seq<nat> := [];
      for k := 0 to |bounds|
        invariant |uids| <= k
        invariant |uids| == k <==> forall j | 0 <= j < k :: UidOf(bounds[j]).Some?
        invariant |uids| == k ==> forall j | 0 <= j < k :: Some(uids[j]) == UidOf(bounds[j])
      {
        var uid := UidOf(bounds[k]);
        if uid.Some? {
          uids := uids + [uid.value];
        }
      }
      if |uids| == 0 || |uids| < |bounds| || |uids| > 2 {
        assert RangeOf(parts[i]) == None;
        return None;
      }
      var end := if |uids| == 2 then uids[1] else uids[0];
      var range := if uids[0] <= end then Range(uids[0], end) else Range(end, uids[0]);
      PrependedOne(ranges, range, RangesOfParts(parts[i + 1..]));
      ranges := ranges + [range];
    }
    assert ranges + [] == ranges;
    return Some(ranges);
  }

  predicate IsUid(uid: nat) {
    0 < uid <= MAX_UID
  }

  lemma NumeralOf(uid: nat)
    requires IsUid(uid)
    ensures UidOf(Decimal(uid)) == Some(uid)
    ensures COLON !in Decimal(uid) && COMMA !in Decimal(uid)
  {
  }

  lemma RangeReadsBack(r: Range)
    requires IsUidRange(r)
    ensures RangeOf(RangeText(r)) == Some(r)
    ensures COMMA !in RangeText(r)
  {
    NumeralOf(r.first);
    NumeralOf(r.last);
    if r.first == r.last {
      SplitOne(COLON, Decimal(r.first));
    } else {
      SplitFirst(COLON, Decimal(r.first), Decimal(r.last));
      SplitOne(COLON, Decimal(r.last));
    }
  }

  /** There is one way to write a number without leading zeros. */
  lemma {:induction false} NumeralIs(s: bytes)
    requires AllDigits(s) && s != [] && (s[0] != 0x30 || |s| == 1)
    ensures Decimal(DecimalValue(s)) == s
    ensures s[0] != 0x30 ==> DecimalValue(s) > 0
  {
    var front, last := s[..|s| - 1], s[|s| - 1];
    if front != [] {
      NumeralIs(front);
      assert DecimalValue(s) == 10 * DecimalValue(front) + (last - 0x30);
      assert DecimalValue(s) / 10 == DecimalValue(front) && DecimalValue(s) % 10 == last - 0x30;
    } else {
      assert DecimalValue(front) == 0;
    }
  }

  lemma UidExactly(s: text, uid: nat)
    ensures UidOf(s) == Some(uid) <==> IsUid(uid) && s == Decimal(uid)
  {
    hide Decimal, DecimalValue;
    if IsNumeral(s) {
      NumeralIs(s);
    }
    if IsUid(uid) {
      NumeralOf(uid);
    }
  }

  /** One UID, or two in either order with a colon between them. */
  ghost predicate IsSpelled(part: text, r: Range) {
    exists x, y :: IsUid(x) && IsUid(y) && IsSpelledOf(part, r, x, y)
  }

  predicate IsSpelledOf(part: text, r: Range, x: nat, y: nat) {
    && r.first == (if x <= y then x else y) && r.last == (if x <= y then y else x)
    && (part == Decimal(x) + [COLON] + Decimal(y) || (x == y && part == Decimal(x)))
  }

  lemma RangeExactly(part: text, r: Range)
    ensures RangeOf(part) == Some(r) <==> IsSpelled(part, r)
  {
    hide UidOf, Split, Decimal, DecimalValue;
    var bounds := Split(COLON, part);
    JoinSplit(COLON, part);
    if RangeOf(part) == Some(r) {
      var x, y := UidOf(bounds[0]).value, UidOf(bounds[|bounds| - 1]).value;
      UidExactly(bounds[0], x);
      UidExactly(bounds[|bounds| - 1], y);
      assert IsSpelledOf(part, r, x, y);
    }
    if x, y :| IsUid(x) && IsUid(y) && IsSpelledOf(part, r, x, y) {
      NumeralOf(x);
      NumeralOf(y);
      if part == Decimal(x) + [COLON] + Decimal(y) {
        SplitFirst(COLON, Decimal(x), Decimal(y));
        SplitOne(COLON, Decimal(y));
      } else {
        SplitOne(COLON, Decimal(x));
      }
    }
  }

  lemma {:induction false} PartsExactly(parts: seq<text>, ranges: seq<Range>)
    ensures RangesOfParts(parts) == Some(ranges)
       <==> |parts| == |ranges| && forall k | 0 <= k < |parts| :: IsSpelled(parts[k], ranges[k])
  {
    hide RangeOf, IsSpelled;
    if parts != [] && ranges != [] {
      PartsExactly(parts[1..], ranges[1..]);
      RangeExactly(parts[0], ranges[0]);
      assert [ranges[0]] + ranges[1..] == ranges;
      assert forall k | 1 <= k < |parts| :: parts[k] == parts[1..][k - 1];
      assert forall k | 1 <= k < |ranges| :: ranges[k] == ranges[1..][k - 1];
    }
  }

  lemma SpelledHasNoComma(part: text, r: Range)
    requires IsSpelled(part, r)
    ensures COMMA !in part
  {
    hide Decimal;
    var x, y :| IsUid(x) && IsUid(y) && IsSpelledOf(part, r, x, y);
    NumeralOf(x);
    NumeralOf(y);
  }

  /** A text is a set of these ranges if and only if it is a UID or two for each of them, between commas. */
  lemma SetsExactly(s: text, ranges: seq<Range>)
    ensures RangesOf(s) == Some(ranges)
       <==> exists parts ::
              && parts != [] && |parts| == |ranges| && s == Join(COMMA, parts)
              && forall k | 0 <= k < |parts| :: IsSpelled(parts[k], ranges[k])
  {
    hide IsSpelled, RangesOfParts, Join, Split;
    JoinSplit(COMMA, s);
    PartsExactly(Split(COMMA, s), ranges);
    if parts :| && parts != [] && |parts| == |ranges| && s == Join(COMMA, parts)
                && forall k | 0 <= k < |parts| :: IsSpelled(parts[k], ranges[k]) {
      forall k | 0 <= k < |parts|
        ensures COMMA !in parts[k]
      {
        SpelledHasNoComma(parts[k], ranges[k]);
      }
      SplitJoin(COMMA, parts);
    }
  }

  /** A set the client writes, read as the client reads sets, is the same ranges. */
  lemma SetReadsBack(ranges: seq<Range>)
    requires ranges != []
    requires forall k | 0 <= k < |ranges| :: IsUidRange(ranges[k])
    ensures RangesOf(SetText(ranges)) == Some(ranges)
  {
    PartsReadBack(ranges);
    SplitJoin(COMMA, RangeTexts(ranges));
  }

  lemma {:induction false} PartsReadBack(ranges: seq<Range>)
    requires forall k | 0 <= k < |ranges| :: IsUidRange(ranges[k])
    ensures RangesOfParts(RangeTexts(ranges)) == Some(ranges)
    ensures forall k | 0 <= k < |ranges| :: COMMA !in RangeTexts(ranges)[k]
  {
    hide RangeOf, RangeText;
    if ranges != [] {
      RangeReadsBack(ranges[0]);
      PartsReadBack(ranges[1..]);
      assert RangeTexts(ranges)[1..] == RangeTexts(ranges[1..]);
      assert ranges == [ranges[0]] + ranges[1..];
    }
  }

  /**
   What the client asks of a server for a set of UIDs: sets that say exactly those UIDs, as the
   fewest maximal ranges, each within the bound or else one range.
   */
  lemma UidSetsSayUids(uids: seq<nat>, maxLength: nat)
    requires forall uid :: uid in uids ==> IsUid(uid)
    ensures var ranges := Runs(Sorted(uids));
            var groups := Pack([], ranges, maxLength);
            && Maximal(ranges) && (forall uid :: Covers(ranges, uid) <==> uid in uids)
            && Flatten(groups) == ranges
            && forall k | 0 <= k < |groups| ::
                 && RangesOf(SetText(groups[k])) == Some(groups[k])
                 && (|SetText(groups[k])| <= maxLength || |groups[k]| == 1)
  {
    hide *;
    var ranges := Runs(Sorted(uids));
    RunsMaximal(Sorted(uids));
    forall uid: nat
      ensures Covers(ranges, uid) <==> uid in uids
    {
      RunsCover(Sorted(uids), uid);
    }
    var none: seq<Range> := [];
    PackKeeps(none, ranges, maxLength);
    assert none + ranges == ranges;
    RunsAreUids(uids, ranges);
    GroupsReadBack(ranges, Pack([], ranges, maxLength));
  }

  predicate IsUidRange(r: Range) {
    IsUid(r.first) && IsUid(r.last) && r.first <= r.last
  }

  lemma RunsAreUids(uids: seq<nat>, ranges: seq<Range>)
    requires ranges == Runs(Sorted(uids)) && forall uid :: uid in uids ==> IsUid(uid)
    ensures forall k | 0 <= k < |ranges| :: IsUidRange(ranges[k])
  {
    hide Runs, Sorted, IsUid;
    forall k | 0 <= k < |ranges|
      ensures IsUidRange(ranges[k])
    {
      assert Holds(ranges[k], ranges[k].first) && Holds(ranges[k], ranges[k].last);
      RunsCover(Sorted(uids), ranges[k].first);
      RunsCover(Sorted(uids), ranges[k].last);
    }
  }

  lemma GroupsReadBack(ranges: seq<Range>, groups: seq<seq<Range>>)
    requires Flatten(groups) == ranges && forall k | 0 <= k < |groups| :: groups[k] != []
    requires forall k | 0 <= k < |ranges| :: IsUidRange(ranges[k])
    ensures forall k | 0 <= k < |groups| :: RangesOf(SetText(groups[k])) == Some(groups[k])
  {
    hide SetText, RangesOf, IsUid, Flatten;
    forall k | 0 <= k < |groups|
      ensures RangesOf(SetText(groups[k])) == Some(groups[k])
    {
      forall j | 0 <= j < |groups[k]|
        ensures IsUidRange(groups[k][j])
      {
        FlattenHolds(groups, k, j);
      }
      SetReadsBack(groups[k]);
    }
  }

  lemma {:induction false} FlattenHolds<T>(parts: seq<seq<T>>, k: nat, j: nat)
    requires k < |parts| && j < |parts[k]|
    ensures parts[k][j] in Flatten(parts)
  {
    if k == 0 {
      assert Flatten(parts)[j] == parts[0][j];
    } else {
      FlattenHolds(parts[1..], k - 1, j);
    }
  }

  // ----- ranges as the lists they stand for

  predicate IsProper(ranges: seq<Range>) {
    forall k | 0 <= k < |ranges| :: ranges[k].first <= ranges[k].last
  }

  /** Its UIDs one by one. */
  ghost function Expanded(ranges: seq<Range>): seq<nat>
    requires IsProper(ranges)
  {
    if ranges == [] then []
    else seq<nat>(SizeOfRange(ranges[0]), i requires 0 <= i => ranges[0].first + i) + Expanded(ranges[1..])
  }

  function SizeOfRange(r: Range): nat
    requires r.first <= r.last
  {
    r.last - r.first + 1
  }

  /** Where an element first stands. */
  ghost function FirstIndex(list: seq<nat>, uid: nat): (r: Option<nat>)
    ensures r.Some? ==> r.value < |list| && list[r.value] == uid && uid !in list[..r.value]
    ensures r.None? ==> uid !in list
  {
    if list == [] then None
    else if list[0] == uid then Some(0)
    else
      match FirstIndex(list[1..], uid)
      case None => None
      case Some(i) =>
        assert list[..i + 1] == [list[0]] + list[1..][..i];
        Some(i + 1)
  }

  lemma {:induction false} IndexUnique(list: seq<nat>, uid: nat, i: nat)
    requires i < |list| && list[i] == uid && uid !in list[..i]
    ensures FirstIndex(list, uid) == Some(i)
  {
    if i > 0 {
      assert list[..i][0] == list[0];
      assert list[..i] == [list[0]] + list[1..][..i - 1];
      IndexUnique(list[1..], uid, i - 1);
    }
  }

  lemma {:induction false} ExpandedConcat(a: seq<Range>, b: seq<Range>)
    requires IsProper(a) && IsProper(b)
    ensures IsProper(a + b) && Expanded(a + b) == Expanded(a) + Expanded(b)
  {
    if a == [] {
      assert a + b == b;
    } else {
      assert (a + b)[1..] == a[1..] + b;
      ExpandedConcat(a[1..], b);
    }
  }

  lemma ExpandedNothing()
    ensures Expanded([]) == []
  {
  }

  lemma ExpandedOne(r: Range)
    requires r.first <= r.last
    ensures Expanded([r]) == seq<nat>(SizeOfRange(r), i requires 0 <= i => r.first + i)
  {
    assert [r][1..] == [];
  }

  /** The list a range further on, and the range's own place in it. */
  lemma NextRange(ranges: seq<Range>, k: nat)
    requires IsProper(ranges) && k < |ranges|
    ensures IsProper(ranges[..k]) && IsProper(ranges[..k + 1])
    ensures var before := |Expanded(ranges[..k])|;
            && |Expanded(ranges[..k + 1])| == before + SizeOfRange(ranges[k]) <= |Expanded(ranges)|
            && Expanded(ranges)[..before] == Expanded(ranges[..k])
            && Expanded(ranges)[..before + SizeOfRange(ranges[k])] == Expanded(ranges[..k + 1])
            && Expanded(ranges[..k + 1]) == Expanded(ranges[..k]) + Expanded([ranges[k]])
            && forall i | before <= i < before + SizeOfRange(ranges[k]) ::
                 Expanded(ranges)[i] == ranges[k].first + i - before
  {
    var one := [ranges[k]];
    assert ranges[..k + 1] == ranges[..k] + one;
    assert ranges == ranges[..k + 1] + ranges[k + 1..];
    ExpandedConcat(ranges[..k], one);
    ExpandedConcat(ranges[..k + 1], ranges[k + 1..]);
    ExpandedOne(ranges[k]);
  }

  method SizeOf(ranges: seq<Range>) returns (size: nat)
    requires IsProper(ranges)
    ensures size == |Expanded(ranges)|
  {
    size := 0;
    for k := 0 to |ranges|
      invariant size == |Expanded(ranges[..k])|
    {
      NextRange(ranges, k);
      size := size + SizeOfRange(ranges[k]);
    }
    assert ranges[..|ranges|] == ranges;
  }

  method PositionOf(ranges: seq<Range>, uid: nat) returns (position: Option<nat>)
    requires IsProper(ranges)
    ensures position == FirstIndex(Expanded(ranges), uid)
  {
    hide Expanded, FirstIndex;
    var before := 0;
    ExpandedNothing();
    for k := 0 to |ranges|
      invariant before == |Expanded(ranges[..k])| && uid !in Expanded(ranges[..k])
    {
      NextRange(ranges, k);
      ExpandedOne(ranges[k]);
      if uid >= ranges[k].first && uid <= ranges[k].last {
        IndexUnique(Expanded(ranges), uid, before + uid - ranges[k].first);
        return Some(before + uid - ranges[k].first);
      }
      before := before + SizeOfRange(ranges[k]);
    }
    assert ranges[..|ranges|] == ranges;
    return None;
  }

  method UidAt(ranges: seq<Range>, position: nat) returns (uid: Option<nat>)
    requires IsProper(ranges)
    ensures uid == if position < |Expanded(ranges)| then Some(Expanded(ranges)[position]) else None
  {
    hide Expanded;
    var before := 0;
    ExpandedNothing();
    for k := 0 to |ranges|
      invariant before == |Expanded(ranges[..k])| <= position
    {
      NextRange(ranges, k);
      if position < before + SizeOfRange(ranges[k]) {
        return Some(ranges[k].first + position - before);
      }
      before := before + SizeOfRange(ranges[k]);
    }
    assert ranges[..|ranges|] == ranges;
    return None;
  }

  // ----- answers

  datatype RawAnswer = Answer(uidValidity: nat, source: seq<Range>, target: seq<Range>)

  ghost predicate IsAnswer(a: RawAnswer) {
    IsProper(a.source) && IsProper(a.target) && |Expanded(a.source)| == |Expanded(a.target)|
  }

  /** Where a list of source UIDs and one of targets say a message went. */
  ghost function Destination(source: seq<nat>, target: seq<nat>, uid: nat): Option<nat>
    requires |source| == |target|
  {
    match FirstIndex(source, uid)
    case None => None
    case Some(i) => Some(target[i])
  }

  /** The range form answers as the lists do: null exactly when the source lacks the UID. */
  method CopiedUid(a: RawAnswer, uid: nat) returns (went: Option<nat>)
    requires IsAnswer(a)
    ensures went == Destination(Expanded(a.source), Expanded(a.target), uid)
    ensures went.None? <==> uid !in Expanded(a.source)
  {
    hide Expanded;
    var position := PositionOf(a.source, uid);
    if position.None? {
      return None;
    }
    went := UidAt(a.target, position.value);
  }

  /** A response code as parsed: its atom and its arguments. */
  datatype Code = Code(atom: text, args: seq<text>)

  /** An answer, when there is a code and it is a well-formed COPYUID with as many UIDs on either side. */
  ghost function AnswerOf(code: Option<Code>): Option<RawAnswer> {
    if code.None? || code.value.atom != Ascii("COPYUID") || |code.value.args| < 3 then None
    else
      var validity, source, target := UidOf(code.value.args[0]), RangesOf(code.value.args[1]), RangesOf(code.value.args[2]);
      if validity.None? || source.None? || target.None? then None
      else if |Expanded(source.value)| != |Expanded(target.value)| then None
      else Some(Answer(validity.value, source.value, target.value))
  }

  lemma AnswerIsAnswer(code: Option<Code>)
    ensures AnswerOf(code).Some? ==> IsAnswer(AnswerOf(code).value)
  {
  }

  method ReadCode(code: Option<Code>) returns (answer: Option<RawAnswer>)
    ensures answer == AnswerOf(code)
  {
    hide UidOf, RangesOfParts, Expanded;
    if code.None? || code.value.atom != Ascii("COPYUID") || |code.value.args| < 3 {
      return None;
    }
    var validity := UidOf(code.value.args[0]);
    var source := UidRangesOf(code.value.args[1]);
    var target := UidRangesOf(code.value.args[2]);
    if validity.None? || source.None? || target.None? {
      return None;
    }
    var sourceSize := SizeOf(source.value);
    var targetSize := SizeOf(target.value);
    return if sourceSize == targetSize then Some(Answer(validity.value, source.value, target.value)) else None;
  }

  ghost function AnswersOf(codes: seq<Option<Code>>): seq<RawAnswer> {
    if codes == [] then []
    else
      (match AnswerOf(codes[0]) case None => [] case Some(a) => [a]) + AnswersOf(codes[1..])
  }

  /** All of them as one, if they agree on the mailbox. */
  ghost function Merged(answers: seq<RawAnswer>): Option<RawAnswer> {
    if answers == [] || exists k | 0 <= k < |answers| :: answers[k].uidValidity != answers[0].uidValidity then None
    else Some(Answer(answers[0].uidValidity, Sources(answers), Targets(answers)))
  }

  function Sources(answers: seq<RawAnswer>): seq<Range> {
    if answers == [] then [] else answers[0].source + Sources(answers[1..])
  }

  function Targets(answers: seq<RawAnswer>): seq<Range> {
    if answers == [] then [] else answers[0].target + Targets(answers[1..])
  }

  lemma {:induction false} AnswersGrow(codes: seq<Option<Code>>, code: Option<Code>)
    ensures AnswersOf(codes + [code])
         == AnswersOf(codes) + (match AnswerOf(code) case None => [] case Some(a) => [a])
  {
    hide AnswerOf;
    if codes == [] {
      assert [code][1..] == [];
      assert [] + [code] == [code];
    } else {
      assert (codes + [code])[1..] == codes[1..] + [code];
      AnswersGrow(codes[1..], code);
    }
  }

  lemma {:induction false} SourcesGrow(answers: seq<RawAnswer>, a: RawAnswer)
    ensures Sources(answers + [a]) == Sources(answers) + a.source
    ensures Targets(answers + [a]) == Targets(answers) + a.target
  {
    if answers == [] {
      assert [a][1..] == [] && [] + [a] == [a];
      assert a.source + [] == a.source && a.target + [] == a.target;
    } else {
      assert (answers + [a])[1..] == answers[1..] + [a];
      SourcesGrow(answers[1..], a);
    }
  }

  method ReadCodes(codes: seq<Option<Code>>) returns (answers: seq<RawAnswer>)
    ensures answers == AnswersOf(codes)
  {
    hide AnswerOf;
    answers := [];
    for k := 0 to |codes|
      invariant answers == AnswersOf(codes[..k])
    {
      var answer := ReadCode(codes[k]);
      assert codes[..k + 1] == codes[..k] + [codes[k]];
      AnswersGrow(codes[..k], codes[k]);
      if answer.Some? {
        answers := answers + [answer.value];
      }
    }
    assert codes[..|codes|] == codes;
  }

  /** The codes of the untagged status responses, then the tagged one's. */
  method CopyUidOf(codes: seq<Option<Code>>) returns (merged: Option<RawAnswer>)
    ensures merged == Merged(AnswersOf(codes))
  {
    hide AnswersOf, Sources, Targets;
    var answers := ReadCodes(codes);
    if |answers| == 0 {
      return None;
    }
    var source: seq<Range>, target: seq<Range> := [], [];
    NoSources();
    for k := 0 to |answers|
      invariant forall j | 0 <= j < k :: answers[j].uidValidity == answers[0].uidValidity
      invariant source == Sources(answers[..k]) && target == Targets(answers[..k])
    {
      if answers[k].uidValidity != answers[0].uidValidity {
        return None;
      }
      assert answers[..k + 1] == answers[..k] + [answers[k]];
      SourcesGrow(answers[..k], answers[k]);
      source := source + answers[k].source;
      target := target + answers[k].target;
    }
    assert answers[..|answers|] == answers;
    return Some(Answer(answers[0].uidValidity, source, target));
  }

  lemma NoSources()
    ensures Sources([]) == [] && Targets([]) == []
  {
  }

  // ----- one merged answer is as good as the several

  ghost predicate AreAnswers(answers: seq<RawAnswer>) {
    forall k | 0 <= k < |answers| :: IsAnswer(answers[k])
  }

  lemma {:induction false} MergedIsAnswer(answers: seq<RawAnswer>)
    requires AreAnswers(answers)
    ensures IsProper(Sources(answers)) && IsProper(Targets(answers))
    ensures |Expanded(Sources(answers))| == |Expanded(Targets(answers))|
    ensures answers != [] ==>
              var rest := answers[1..];
              && IsProper(Sources(rest)) && IsProper(Targets(rest))
              && Expanded(Sources(answers)) == Expanded(answers[0].source) + Expanded(Sources(rest))
              && Expanded(Targets(answers)) == Expanded(answers[0].target) + Expanded(Targets(rest))
  {
    hide Expanded;
    if answers == [] {
      ExpandedNothing();
    } else {
      assert IsAnswer(answers[0]);
      assert AreAnswers(answers[1..]) by {
        forall k | 0 <= k < |answers[1..]|
          ensures IsAnswer(answers[1..][k])
        {
          assert IsAnswer(answers[k + 1]);
        }
      }
      MergedIsAnswer(answers[1..]);
      ExpandedConcat(answers[0].source, Sources(answers[1..]));
      ExpandedConcat(answers[0].target, Targets(answers[1..]));
    }
  }

  /** Asking the answers one after the other, until one mentions the UID. */
  ghost function FirstMention(answers: seq<RawAnswer>, uid: nat): Option<nat>
    requires AreAnswers(answers)
  {
    if answers == [] then None
    else
      assert IsAnswer(answers[0]) && forall k | 0 <= k < |answers[1..]| :: answers[1..][k] == answers[k + 1];
      if uid in Expanded(answers[0].source) then
        Destination(Expanded(answers[0].source), Expanded(answers[0].target), uid)
      else FirstMention(answers[1..], uid)
  }

  lemma DestinationConcat(s: seq<nat>, t: seq<nat>, s': seq<nat>, t': seq<nat>, uid: nat)
    requires |s| == |t| && |s'| == |t'|
    ensures Destination(s + s', t + t', uid) == if uid in s then Destination(s, t, uid) else Destination(s', t', uid)
  {
    var i, j := FirstIndex(s, uid), FirstIndex(s', uid);
    if i.Some? {
      assert (s + s')[..i.value] == s[..i.value];
      IndexUnique(s + s', uid, i.value);
    } else if j.Some? {
      assert (s + s')[..|s| + j.value] == s + s'[..j.value];
      IndexUnique(s + s', uid, |s| + j.value);
    }
  }

  lemma {:induction false} MergingKeepsAnswers(answers: seq<RawAnswer>, uid: nat)
    requires AreAnswers(answers)
    ensures IsProper(Sources(answers)) && IsProper(Targets(answers))
    ensures |Expanded(Sources(answers))| == |Expanded(Targets(answers))|
    ensures Destination(Expanded(Sources(answers)), Expanded(Targets(answers)), uid) == FirstMention(answers, uid)
  {
    hide Expanded, Destination, FirstIndex;
    MergedIsAnswer(answers);
    if answers == [] {
      ExpandedNothing();
      DestinationNothing(uid);
    } else {
      forall k | 0 <= k < |answers[1..]|
        ensures IsAnswer(answers[1..][k])
      {
        assert IsAnswer(answers[k + 1]);
      }
      assert IsAnswer(answers[0]);
      MergingKeepsAnswers(answers[1..], uid);
      DestinationConcat(Expanded(answers[0].source), Expanded(answers[0].target),
                        Expanded(Sources(answers[1..])), Expanded(Targets(answers[1..])), uid);
    }
  }

  lemma DestinationNothing(uid: nat)
    ensures Destination([], [], uid) == None
  {
  }

  /** One merged COPYUID answers as the first of the server's that mentions the UID. */
  lemma MergedAnswers(codes: seq<Option<Code>>, uid: nat)
    ensures AreAnswers(AnswersOf(codes))
    ensures var merged := Merged(AnswersOf(codes));
            merged.Some? ==>
              && IsAnswer(merged.value)
              && Destination(Expanded(merged.value.source), Expanded(merged.value.target), uid)
                 == FirstMention(AnswersOf(codes), uid)
  {
    hide Expanded, Destination, AnswerOf;
    AnswersAre(codes);
    MergingKeepsAnswers(AnswersOf(codes), uid);
  }

  lemma {:induction false} AnswersAre(codes: seq<Option<Code>>)
    ensures AreAnswers(AnswersOf(codes))
  {
    hide AnswerOf, Expanded;
    if codes != [] {
      AnswerIsAnswer(codes[0]);
      AnswersAre(codes[1..]);
    }
  }
}
