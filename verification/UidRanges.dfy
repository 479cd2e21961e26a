/**
 UIDs as ranges: the sets a client writes (`packages/imap/src/uid-set.ts`) and the ones it reads out
 of a COPYUID (`packages/imap/src/client.ts`).
 */
module UidRanges {
  import opened Bytes
  import opened Splitting

  const COMMA: codeunit := 0x2c
  const COLON: codeunit := 0x3a

  /** RFC 3501 nz-number. */
  const MAX_UID: nat := 4294967295

  /** `first` to `last` inclusive. */
  datatype Range = Range(first: nat, last: nat)

  predicate Holds(r: Range, uid: nat) {
    r.first <= uid <= r.last
  }

  predicate Covers(ranges: seq<Range>, uid: nat) {
    exists k | 0 <= k < |ranges| :: Holds(ranges[k], uid)
  }

  // ----- runs

  predicate Ascending(uids: seq<nat>) {
    forall i, j | 0 <= i < j < |uids| :: uids[i] < uids[j]
  }

  /** `[...new Set(uids)].toSorted(…)`. */
  function Sorted(uids: seq<nat>): (r: seq<nat>)
    ensures Ascending(r)
    ensures forall uid :: uid in r <==> uid in uids
  {
    if uids == [] then [] else Insert(uids[0], Sorted(uids[1..]))
  }

  function Insert(uid: nat, sorted: seq<nat>): (r: seq<nat>)
    requires Ascending(sorted)
    ensures Ascending(r)
    ensures forall u :: u in r <==> u == uid || u in sorted
  {
    if sorted == [] || uid < sorted[0] then
      assert forall k | 1 <= k < |[uid] + sorted| :: ([uid] + sorted)[k] == sorted[k - 1];
      [uid] + sorted
    else if uid == sorted[0] then sorted
    else
      var rest := Insert(uid, sorted[1..]);
      assert forall k | 0 <= k < |rest| :: rest[k] in rest;
      assert sorted == [sorted[0]] + sorted[1..];
      [sorted[0]] + rest
  }

  /** One more uid: the last range grows, or a new one begins. */
  function Extended(ranges: seq<Range>, uid: nat): seq<Range> {
    if ranges != [] && uid == ranges[|ranges| - 1].last + 1
    then ranges[|ranges| - 1 := ranges[|ranges| - 1].(last := uid)]
    else ranges + [Range(uid, uid)]
  }

  function Runs(uids: seq<nat>): (r: seq<Range>)
    ensures forall k | 0 <= k < |r| :: r[k].first <= r[k].last
  {
    if uids == [] then [] else Extended(Runs(uids[..|uids| - 1]), uids[|uids| - 1])
  }

  method FindRuns(uids: seq<nat>) returns (ranges: seq<Range>)
    ensures ranges == Runs(Sorted(uids))
  {
    var sorted := Sorted(uids);
    ranges := [];
    for i := 0 to |sorted|
      invariant ranges == Runs(sorted[..i])
    {
      var uid := sorted[i];
      assert sorted[..i + 1][..i] == sorted[..i];
      if |ranges| > 0 && uid == ranges[|ranges| - 1].last + 1 {
        ranges := ranges[|ranges| - 1 := ranges[|ranges| - 1].(last := uid)];
      } else {
        ranges := ranges + [Range(uid, uid)];
      }
    }
    assert sorted[..|sorted|] == sorted;
  }

  /** Ascending, disjoint, and no two that could be one. */
  predicate Maximal(ranges: seq<Range>) {
    && (forall k | 0 <= k < |ranges| :: ranges[k].first <= ranges[k].last)
    && forall k | 0 < k < |ranges| :: ranges[k - 1].last + 1 < ranges[k].first
  }

  lemma {:induction false} MaximalOrder(ranges: seq<Range>, i: nat, j: nat)
    requires Maximal(ranges) && i < j < |ranges|
    ensures ranges[i].last + 1 < ranges[j].first
    decreases j - i
  {
    if i < j - 1 {
      MaximalOrder(ranges, i, j - 1);
    }
  }

  lemma {:induction false} RunsMaximal(uids: seq<nat>)
    requires Ascending(uids)
    ensures Maximal(Runs(uids))
    ensures uids != [] ==> Runs(uids) != [] && Runs(uids)[|Runs(uids)| - 1].last == uids[|uids| - 1]
  {
    if uids != [] {
      RunsMaximal(uids[..|uids| - 1]);
    }
  }

  lemma {:induction false} RunsCover(uids: seq<nat>, uid: nat)
    ensures Covers(Runs(uids), uid) <==> uid in uids
  {
    if uids != [] {
      var most, last := uids[..|uids| - 1], uids[|uids| - 1];
      RunsCover(most, uid);
      ExtendedCovers(Runs(most), last, uid);
      assert uids == most + [last];
    }
  }

  lemma ExtendedCovers(ranges: seq<Range>, last: nat, uid: nat)
    requires forall k | 0 <= k < |ranges| :: ranges[k].first <= ranges[k].last
    ensures Covers(Extended(ranges, last), uid) <==> uid == last || Covers(ranges, uid)
  {
    var n, extended := |ranges|, Extended(ranges, last);
    if |extended| == n {
      assert Holds(extended[n - 1], uid) <==> uid == last || Holds(ranges[n - 1], uid);
      assert forall k | 0 <= k < n - 1 :: extended[k] == ranges[k];
    } else {
      assert Holds(extended[n], uid) <==> uid == last;
      assert forall k | 0 <= k < n :: extended[k] == ranges[k];
    }
  }

  lemma Below(ranges: seq<Range>, uid: nat)
    requires Maximal(ranges) && ranges != []
    ensures uid < ranges[0].first ==> !Covers(ranges, uid)
    ensures uid == ranges[0].last + 1 ==> !Covers(ranges, uid)
    ensures Covers(ranges[1..], uid) <==> Covers(ranges, uid) && uid > ranges[0].last
  {
    forall k | 1 <= k < |ranges|
      ensures ranges[0].last + 1 < ranges[k].first && ranges[1..][k - 1] == ranges[k]
    {
      MaximalOrder(ranges, 0, k);
    }
    if k :| 0 <= k < |ranges| && Holds(ranges[k], uid) {
      assert k > 0 ==> Holds(ranges[1..][k - 1], uid);
    }
    if j :| 0 <= j < |ranges[1..]| && Holds(ranges[1..][j], uid) {
      assert Holds(ranges[j + 1], uid);
    }
  }

  /** A set of UIDs has one list of maximal ranges. */
  lemma {:induction false} MaximalUnique(a: seq<Range>, b: seq<Range>)
    requires Maximal(a) && Maximal(b)
    requires forall uid :: Covers(a, uid) <==> Covers(b, uid)
    ensures a == b
  {
    hide Covers, Maximal;
    CoversSome(a);
    CoversSome(b);
    if a != [] && b != [] {
      SameStart(a, b);
      SameStart(b, a);
      Tail(a);
      Tail(b);
      forall uid: nat
        ensures Covers(a[1..], uid) <==> Covers(b[1..], uid)
      {
        Below(a, uid);
        Below(b, uid);
      }
      MaximalUnique(a[1..], b[1..]);
      assert a == [a[0]] + a[1..] && b == [b[0]] + b[1..];
    }
  }

  lemma Tail(ranges: seq<Range>)
    requires Maximal(ranges) && ranges != []
    ensures Maximal(ranges[1..])
  {
    assert forall k | 1 <= k < |ranges| :: ranges[1..][k - 1] == ranges[k];
  }

  lemma CoversSome(ranges: seq<Range>)
    requires Maximal(ranges)
    ensures if ranges != [] then Covers(ranges, ranges[0].first) else forall uid :: !Covers(ranges, uid)
  {
    assert ranges != [] ==> Holds(ranges[0], ranges[0].first);
  }

  lemma SameStart(a: seq<Range>, b: seq<Range>)
    requires Maximal(a) && Maximal(b) && a != [] && b != []
    requires forall uid :: Covers(a, uid) <==> Covers(b, uid)
    ensures b[0].first <= a[0].first && (a[0].first == b[0].first ==> a[0].last >= b[0].last)
  {
    assert Holds(a[0], a[0].first);
    Below(b, a[0].first);
    Below(a, a[0].last + 1);
    assert b[0].first <= a[0].last + 1 <= b[0].last ==> Holds(b[0], a[0].last + 1);
  }

  // ----- how ranges are written

  function RangeText(r: Range): text {
    if r.first == r.last then Decimal(r.first) else Decimal(r.first) + [COLON] + Decimal(r.last)
  }

  function RangeTexts(ranges: seq<Range>): (r: seq<text>)
    ensures |r| == |ranges|
  {
    if ranges == [] then [] else [RangeText(ranges[0])] + RangeTexts(ranges[1..])
  }

  function SetText(ranges: seq<Range>): text {
    Join(COMMA, RangeTexts(ranges))
  }

  /** `group` is the set under way; a range that would take it past `maxLength` starts the next one. */
  function Pack(group: seq<Range>, ranges: seq<Range>, maxLength: nat): seq<seq<Range>>
    decreases |ranges|
  {
    if ranges == [] then if group == [] then [] else [group]
    else if group != [] && |SetText(group)| + 1 + |RangeText(ranges[0])| > maxLength then
      [group] + Pack([ranges[0]], ranges[1..], maxLength)
    else Pack(group + [ranges[0]], ranges[1..], maxLength)
  }

  function SetTexts(groups: seq<seq<Range>>): seq<text> {
    if groups == [] then [] else [SetText(groups[0])] + SetTexts(groups[1..])
  }

  lemma {:induction false} RangeTextsConcat(a: seq<Range>, b: seq<Range>)
    ensures RangeTexts(a + b) == RangeTexts(a) + RangeTexts(b)
  {
    if a == [] {
      assert a + b == b;
    } else {
      assert (a + b)[1..] == a[1..] + b;
      RangeTextsConcat(a[1..], b);
    }
  }

  lemma SetTextConcat(a: seq<Range>, b: seq<Range>)
    requires a != [] && b != []
    ensures SetText(a + b) == SetText(a) + [COMMA] + SetText(b)
  {
    RangeTextsConcat(a, b);
    JoinConcat(COMMA, RangeTexts(a), RangeTexts(b));
  }

  lemma SetTextOne(r: Range)
    ensures SetText([r]) == RangeText(r) && RangeText(r) != []
  {
    assert [r][1..] == [];
  }

  lemma SetTextNonempty(ranges: seq<Range>)
    ensures SetText(ranges) == [] <==> ranges == []
  {
    if ranges != [] {
      SetTextOne(ranges[0]);
      if |ranges| > 1 {
        SetTextConcat([ranges[0]], ranges[1..]);
        assert [ranges[0]] + ranges[1..] == ranges;
      } else {
        assert ranges == [ranges[0]];
      }
    }
  }

  /** `uidSets`: the ranges written out and packed, in order. */
  method UidSets(uids: seq<nat>, maxLength: nat) returns (sets: seq<text>)
    ensures sets == SetTexts(Pack([], Runs(Sorted(uids)), maxLength))
  {
    hide SetText, RangeText, Runs, Sorted;
    var ranges := FindRuns(uids);
    ghost var group: seq<Range>, done: seq<seq<Range>> := [], [];
    sets := [];
    var current: text := [];
    SetTextNonempty([]);
    assert ranges[0..] == ranges;
    for i := 0 to |ranges|
      invariant current == SetText(group) && sets == SetTexts(done)
      invariant Pack([], ranges, maxLength) == done + Pack(group, ranges[i..], maxLength)
    {
      var range := RangeText(ranges[i]);
      SetTextNonempty(group);
      SetTextOne(ranges[i]);
      assert ranges[i..][1..] == ranges[i + 1..];
      if current != [] && |current| + 1 + |range| > maxLength {
        sets := sets + [current];
        current := [];
        SetTextsConcat(done, [group]);
        ConcatAssoc(done, [group], Pack([ranges[i]], ranges[i + 1..], maxLength));
        done, group := done + [group], [];
      }
      if group != [] {
        SetTextConcat(group, [ranges[i]]);
      }
      assert [] + [ranges[i]] == [ranges[i]];
      current := if current == [] then range else current + [COMMA] + range;
      group := group + [ranges[i]];
    }
    SetTextNonempty(group);
    SetTextsConcat(done, [group]);
    if current != [] {
      sets := sets + [current];
    } else {
      assert done + [] == done;
    }
  }

  lemma {:induction false} SetTextsConcat(a: seq<seq<Range>>, b: seq<seq<Range>>)
    ensures SetTexts(a + b) == SetTexts(a) + SetTexts(b)
    ensures |b| == 1 ==> SetTexts(b) == [SetText(b[0])]
  {
    hide SetText;
    if a == [] {
      assert a + b == b;
    } else {
      assert (a + b)[1..] == a[1..] + b;
      SetTextsConcat(a[1..], b);
    }
  }

  // ----- what packing comes to

  /** The length of a set, from the lengths of its parts. */
  lemma SetLength(group: seq<Range>, more: seq<Range>)
    ensures |SetText(group + more)|
         == |SetText(group)| + |SetText(more)| + (if group != [] && more != [] then 1 else 0)
  {
    SetTextNonempty(group);
    SetTextNonempty(more);
    if group == [] {
      assert group + more == more;
    } else if more == [] {
      assert group + more == group;
    } else {
      SetTextConcat(group, more);
    }
  }

  /** Every range is in one set, in order; a set past the bound is a single range past it. */
  lemma {:induction false} PackKeeps(group: seq<Range>, ranges: seq<Range>, maxLength: nat)
    requires |SetText(group)| <= maxLength || |group| <= 1
    ensures var sets := Pack(group, ranges, maxLength);
            && Flatten(sets) == group + ranges
            && forall k | 0 <= k < |sets| :: sets[k] != [] && (|SetText(sets[k])| <= maxLength || |sets[k]| == 1)
    decreases |ranges|
  {
    hide SetText;
    if ranges == [] {
      FlattenOne(group);
      assert group + [] == group;
    } else {
      var one := [ranges[0]];
      assert one + ranges[1..] == ranges;
      SetLength(group, one);
      SetTextOne(ranges[0]);
      assert [] + one == one;
      if group != [] && |SetText(group)| + 1 + |RangeText(ranges[0])| > maxLength {
        PackKeeps(one, ranges[1..], maxLength);
      } else {
        PackKeeps(group + one, ranges[1..], maxLength);
        ConcatAssoc(group, one, ranges[1..]);
      }
    }
  }

  /** What still fits is taken. */
  lemma {:induction false} PackTakes(group: seq<Range>, more: seq<Range>, ranges: seq<Range>, maxLength: nat)
    requires |SetText(group + more)| <= maxLength
    ensures Pack(group, more + ranges, maxLength) == Pack(group + more, ranges, maxLength)
    decreases |more|
  {
    hide SetText, RangeText;
    if more == [] {
      assert more + ranges == ranges && group + more == group;
    } else {
      var one, rest := [more[0]], more[1..];
      assert more == one + rest;
      assert (more + ranges)[1..] == rest + ranges;
      ConcatAssoc(group, one, rest);
      SetLength(group + one, rest);
      SetLength(group, one);
      SetTextOne(more[0]);
      PackTakes(group + one, rest, ranges, maxLength);
    }
  }

  /** A group that fits a set ends at most one set that was under way. */
  lemma {:induction false} PackGroup(group: seq<Range>, more: seq<Range>, ranges: seq<Range>, maxLength: nat)
    returns (next: seq<Range>)
    requires |SetText(more)| <= maxLength
    ensures next != [] || (group == [] && more == [])
    ensures |Pack(group, more + ranges, maxLength)|
         <= |Pack(next, ranges, maxLength)| + (if group == [] then 0 else 1)
    ensures group == [] ==> next == more
    decreases |more|
  {
    hide SetText, RangeText;
    if group == [] {
      assert [] + more == more;
      PackTakes([], more, ranges, maxLength);
      next := more;
    } else if more == [] {
      assert more + ranges == ranges;
      next := group;
    } else {
      var one, rest := [more[0]], more[1..];
      assert more == one + rest;
      assert (more + ranges)[1..] == rest + ranges;
      SetLength(one, rest);
      if |SetText(group)| + 1 + |RangeText(more[0])| > maxLength {
        PackTakes(one, rest, ranges, maxLength);
        next := more;
      } else {
        next := PackGroup(group + one, rest, ranges, maxLength);
      }
    }
  }

  /** No split of the ranges in order, each part within the bound, has fewer sets. */
  lemma {:induction false} PackFewest(group: seq<Range>, split: seq<seq<Range>>, maxLength: nat)
    requires forall k | 0 <= k < |split| :: split[k] != [] && |SetText(split[k])| <= maxLength
    ensures |Pack(group, Flatten(split), maxLength)| <= |split| + (if group == [] then 0 else 1)
    decreases |split|
  {
    hide SetText;
    if split != [] {
      var next := PackGroup(group, split[0], Flatten(split[1..]), maxLength);
      PackFewest(next, split[1..], maxLength);
    }
  }
}
