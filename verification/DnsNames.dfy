/**
 DNS names, wildcards and name-constraint subtrees of `packages/x509/src/names.ts`. Strings are
 sequences of UTF-16 code units.
 */
module DnsNames {
  import opened Bytes
  import opened Splitting

  const DOT: codeunit := 0x2e
  const STAR: codeunit := 0x2a
  const DASH: codeunit := 0x2d
  const ACE_PREFIX: text := [0x78, 0x6e, 0x2d, 0x2d]

  function AsciiLower(s: text): (r: text)
    ensures |r| == |s| && forall i | 0 <= i < |s| :: r[i] == LowerUnit(s[i])
  {
    seq<codeunit>(|s|, i requires 0 <= i < |s| => LowerUnit(s[i]))
  }

  predicate StartsWith(s: text, t: text) {
    |t| <= |s| && s[..|t|] == t
  }

  predicate IsLdh(u: codeunit) {
    0x61 <= u <= 0x7a || 0x30 <= u <= 0x39 || u == DASH
  }

  predicate IsLabel(head: text) {
    && 0 < |head| <= 63
    && (forall i | 0 <= i < |head| :: IsLdh(LowerUnit(head[i])))
    && head[0] != DASH && head[|head| - 1] != DASH
  }

  /** `isComparableHostname`. */
  predicate IsHostname(host: text) {
    0 < |host| <= 253 && AreLabels(Split(DOT, host))
  }

  predicate AreLabels(labels: seq<text>) {
    forall k | 0 <= k < |labels| :: IsLabel(labels[k])
  }

  predicate IsWildcard(name: text) {
    |name| >= 2 && name[0] == STAR && name[1] == DOT
  }

  /** `matchesDnsName`: a wildcard is the whole leftmost label and stands for one label that is no A-head. */
  predicate Matches(presented: text, host: text) {
    var name, target := AsciiLower(presented), AsciiLower(host);
    && IsHostname(target)
    && if !IsWildcard(name) then IsHostname(name) && name == target
       else
         var suffix := name[2..];
         && IsHostname(suffix) && |Split(DOT, suffix)| >= 2
         && !StartsWith(suffix, ACE_PREFIX)
         && var labels := Split(DOT, target);
            !StartsWith(labels[0], ACE_PREFIX) && Join(DOT, labels[1..]) == suffix
  }

  // ----- subtrees

  /** Null of the source: the pair cannot be evaluated. */
  datatype Verdict = Within | Outside | Unclear

  function VerdictOf(b: bool): Verdict {
    if b then Within else Outside
  }

  predicate IsBelow(target: text, base: text) {
    target == base || EndsWith(target, [DOT] + base)
  }

  function DnsWithinSubtree(name: text, constraint: text): Verdict {
    var target, base := AsciiLower(name), AsciiLower(constraint);
    if base == [] then Within
    else if base[0] == DOT then Unclear
    else if !IsHostname(target) then Outside
    else VerdictOf(IsBelow(target, base))
  }

  function DnsMatchesSubtree(name: text, constraint: text, isExclusion: bool): Verdict {
    if !IsWildcard(name) then DnsWithinSubtree(name, constraint)
    else
      var base := name[2..];
      if !isExclusion then DnsWithinSubtree(base, constraint)
      else
        var covers, reaches := DnsWithinSubtree(base, constraint), DnsWithinSubtree(constraint, base);
        if covers == Unclear || reaches == Unclear then Unclear
        else VerdictOf(covers == Within || reaches == Within)
  }

  // ----- what a wildcard stands for

  lemma LowerTail(s: text, k: nat)
    requires k <= |s|
    ensures AsciiLower(s)[k..] == AsciiLower(s[k..])
  {
  }

  lemma NoDotInLabels(host: text)
    requires IsHostname(host)
    ensures host[0] != DOT && !IsWildcard(host)
  {
    JoinSplit(DOT, host);
    assert IsLabel(Split(DOT, host)[0]);
    var first := Split(DOT, host)[0];
    assert host[..|first|] == first;
    assert host[0] == first[0];
  }

  /** A host a wildcard matches is one dotless label in front of the wildcard's suffix. */
  lemma MatchedShape(w: text, h: text) returns (head: text)
    requires Matches(w, h) && IsWildcard(w)
    ensures var suffix := AsciiLower(w[2..]);
            && IsHostname(suffix) && DOT !in head && head != []
            && AsciiLower(h) == head + [DOT] + suffix
  {
    LowerTail(w, 2);
    var target := AsciiLower(h);
    var labels := Split(DOT, target);
    head := labels[0];
    JoinSplit(DOT, target);
    assert IsLabel(labels[0]);
    assert Join(DOT, labels[1..]) != [];
  }

  /** The dots line up: below a base, either the whole name is the base, or the base is below the suffix. */
  lemma BelowSuffix(head: text, suffix: text, base: text)
    requires DOT !in head
    ensures EndsWith(head + [DOT] + suffix, [DOT] + base) <==> IsBelow(suffix, base)
  {
    var whole, tail := head + [DOT] + suffix, [DOT] + base;
    if EndsWith(whole, tail) {
      var at := |whole| - |tail|;
      assert whole[at..][0] == whole[at] == DOT;
      assert forall i | 0 <= i < |head| :: whole[i] == head[i];
      if at == |head| {
        assert base == whole[at..][1..] == suffix;
      } else {
        assert whole[at..] == suffix[at - |head| - 1..];
      }
    }
    if suffix == base {
      assert whole[|head|..] == tail;
    }
    if EndsWith(suffix, tail) {
      assert whole[|whole| - |tail|..] == suffix[|suffix| - |tail|..];
    }
  }

  /** Whatever a name can authenticate is where the name was judged to be: inside a permitted subtree, outside an excluded one. */
  lemma MatchedVerdict(w: text, h: text, constraint: text)
    requires Matches(w, h)
    ensures !IsWildcard(h)
    ensures DnsMatchesSubtree(w, constraint, false) == Within ==> DnsMatchesSubtree(h, constraint, false) == Within
    ensures DnsMatchesSubtree(w, constraint, true) == Outside ==> DnsMatchesSubtree(h, constraint, true) == Outside
  {
    hide IsHostname, EndsWith;
    var target := AsciiLower(h);
    NoDotInLabels(target);
    if IsWildcard(w) {
      var base := AsciiLower(constraint);
      var head := MatchedShape(w, h);
      var suffix := AsciiLower(w[2..]);
      BelowSuffix(head, suffix, base);
      BelowSuffix(head, suffix, suffix);
      NoDotInLabels(suffix);
    }
  }

  /** The labels of the base are the last ones of the name. */
  ghost predicate EndsInLabels(target: text, base: text) {
    exists k | 0 <= k < |Split(DOT, target)| :: Split(DOT, target)[k..] == Split(DOT, base)
  }

  lemma BelowByLabels(target: text, base: text)
    ensures IsBelow(target, base) <==> EndsInLabels(target, base)
  {
    hide Split, Join;
    var labels, ends := Split(DOT, target), Split(DOT, base);
    JoinSplit(DOT, target);
    JoinSplit(DOT, base);
    if target == base {
      assert labels[0..] == ends;
    } else if EndsWith(target, [DOT] + base) {
      var head := target[..|target| - |base| - 1];
      assert target == head + [DOT] + base;
      SplitConcat(DOT, head, base);
      assert labels[|Split(DOT, head)|..] == ends;
    }
    if k :| 0 <= k < |labels| && labels[k..] == ends {
      if k == 0 {
        assert labels[0..] == labels;
      } else {
        JoinConcat(DOT, labels[..k], labels[k..]);
        assert labels[..k] + labels[k..] == labels;
        var head := Join(DOT, labels[..k]);
        assert target == head + [DOT] + base;
        assert target[|head|..] == [DOT] + base;
      }
    }
  }

  /** A name is within a subtree when it is a hostname that ends in its labels, in any letter case; everything is within the empty one. */
  lemma WithinExactly(name: text, constraint: text)
    ensures DnsWithinSubtree(name, constraint) == Within
       <==> constraint == []
            || (constraint[0] != DOT && IsHostname(AsciiLower(name)) && EndsInLabels(AsciiLower(name), AsciiLower(constraint)))
    ensures DnsWithinSubtree(name, constraint) == Unclear <==> constraint != [] && constraint[0] == DOT
  {
    hide IsHostname, IsBelow, EndsInLabels;
    BelowByLabels(AsciiLower(name), AsciiLower(constraint));
    if constraint != [] {
      assert AsciiLower(constraint)[0] == LowerUnit(constraint[0]);
    }
  }

  // ----- how exact the two verdicts are

  /** A wildcard that matches some host at all, with room for a label in front of its suffix. */
  predicate IsUsableWildcard(w: text) {
    && IsWildcard(w) && |w| <= 253
    && var suffix := AsciiLower(w[2..]);
       IsHostname(suffix) && |Split(DOT, suffix)| >= 2 && !StartsWith(suffix, ACE_PREFIX)
  }

  lemma LetterLabel(letter: codeunit)
    requires 0x61 <= letter <= 0x7a
    ensures IsLabel([letter])
  {
  }

  lemma LetterHostname(letter: codeunit, rest: text)
    requires IsHostname(rest) && |rest| <= 251 && 0x61 <= letter <= 0x7a
    ensures IsHostname([letter, DOT] + rest)
    ensures Split(DOT, [letter, DOT] + rest) == [[letter]] + Split(DOT, rest)
  {
    hide Split, IsLabel;
    assert [letter, DOT] + rest == [letter] + [DOT] + rest;
    SplitFirst(DOT, [letter], rest);
    LetterLabel(letter);
    forall k | 0 <= k < |Split(DOT, [letter, DOT] + rest)|
      ensures IsLabel(Split(DOT, [letter, DOT] + rest)[k])
    {
      assert k > 0 ==> Split(DOT, [letter, DOT] + rest)[k] == Split(DOT, rest)[k - 1];
    }
  }

  /** One of the hosts it matches: `letter` and the suffix. */
  lemma MatchesLetter(w: text, letter: codeunit) returns (h: text)
    requires IsUsableWildcard(w) && 0x61 <= letter <= 0x7a
    ensures Matches(w, h) && h == [letter, DOT] + AsciiLower(w[2..]) && AsciiLower(h) == h
  {
    hide IsHostname, Split, Join;
    LowerTail(w, 2);
    var suffix := AsciiLower(w[2..]);
    h := [letter, DOT] + suffix;
    LetterHostname(letter, suffix);
    JoinSplit(DOT, suffix);
    assert ([[letter]] + Split(DOT, suffix))[1..] == Split(DOT, suffix);
    assert AsciiLower(h) == h;
  }

  /** A permitted subtree takes a wildcard exactly when every host it matches is inside. */
  lemma PermittedIsExact(w: text, constraint: text)
    requires IsUsableWildcard(w)
    ensures DnsMatchesSubtree(w, constraint, false) == Within
       <==> forall h :: Matches(w, h) ==> DnsWithinSubtree(h, constraint) == Within
  {
    hide IsHostname, EndsWith, Matches, IsUsableWildcard;
    if forall h :: Matches(w, h) ==> DnsWithinSubtree(h, constraint) == Within {
      var base := AsciiLower(constraint);
      var suffix := SuffixOf(w);
      var a := MatchesLetter(w, 0x61);
      var b := MatchesLetter(w, 0x62);
      assert [0x61, DOT] + suffix == [0x61] + [DOT] + suffix && [0x62, DOT] + suffix == [0x62] + [DOT] + suffix;
      BelowSuffix([0x61], suffix, base);
      BelowSuffix([0x62], suffix, base);
      assert a[0] != b[0];
    }
    forall h | DnsMatchesSubtree(w, constraint, false) == Within && Matches(w, h)
      ensures DnsWithinSubtree(h, constraint) == Within
    {
      MatchedVerdict(w, h, constraint);
    }
  }

  lemma SuffixOf(w: text) returns (suffix: text)
    requires IsUsableWildcard(w)
    ensures |w| >= 2 && suffix == AsciiLower(w[2..]) && IsWildcard(w) && IsHostname(suffix)
  {
    suffix := AsciiLower(w[2..]);
  }

  /** Some host of a wildcard is inside an excluded subtree exactly when the suffix is, or the wildcard matches the subtree's own name. */
  lemma ExclusionIsExact(w: text, constraint: text)
    requires IsUsableWildcard(w)
    ensures (exists h :: Matches(w, h) && DnsWithinSubtree(h, constraint) == Within)
       <==> DnsWithinSubtree(w[2..], constraint) == Within || Matches(w, constraint)
  {
    hide IsHostname, EndsWith, Matches, IsUsableWildcard;
    var base := AsciiLower(constraint);
    var suffix := SuffixOf(w);
    if h :| Matches(w, h) && DnsWithinSubtree(h, constraint) == Within {
      var head := MatchedShape(w, h);
      BelowSuffix(head, suffix, base);
      if AsciiLower(h) == base && base != [] {
        SameMatch(w, h, constraint);
      }
    }
    if DnsWithinSubtree(w[2..], constraint) == Within {
      var a := MatchesLetter(w, 0x61);
      assert [0x61, DOT] + suffix == [0x61] + [DOT] + suffix;
      BelowSuffix([0x61], suffix, base);
      AHostname(w, a);
      assert DnsWithinSubtree(a, constraint) == Within;
    }
    if Matches(w, constraint) {
      AHostname(w, constraint);
      NoDotInLabels(base);
      assert DnsWithinSubtree(constraint, constraint) == Within;
    }
  }

  lemma SameMatch(w: text, h: text, h': text)
    requires Matches(w, h) && AsciiLower(h) == AsciiLower(h')
    ensures Matches(w, h')
  {
  }

  lemma AHostname(w: text, h: text)
    requires Matches(w, h)
    ensures IsHostname(AsciiLower(h)) && AsciiLower(h) != []
  {
  }

  lemma NoInnerDot(w: text, h: text)
    requires IsWildcard(w)
    ensures Matches(w, h) ==> forall i | 0 <= i < |h| - |w| + 1 :: AsciiLower(h)[i] != DOT
  {
    hide Matches;
    if Matches(w, h) {
      var head := MatchedShape(w, h);
      assert forall i | 0 <= i < |head| :: AsciiLower(h)[i] == head[i];
    }
  }

  /** The code's own test refuses a wildcard that has no host inside exactly for names below its suffix that it does not match. */
  lemma ExclusionOverreaches(w: text, constraint: text)
    requires IsUsableWildcard(w)
    ensures DnsMatchesSubtree(w, constraint, true) == Within
            && !(exists h :: Matches(w, h) && DnsWithinSubtree(h, constraint) == Within)
       <==> IsHostname(AsciiLower(constraint)) && EndsWith(AsciiLower(constraint), [DOT] + AsciiLower(w[2..]))
            && !Matches(w, constraint)
  {
    hide IsHostname, EndsWith, Matches, IsUsableWildcard;
    var base := AsciiLower(constraint);
    var suffix := SuffixOf(w);
    ExclusionIsExact(w, constraint);
    NoDotInLabels(suffix);
    if IsHostname(base) {
      NoDotInLabels(base);
    }
    LongerOne(base, suffix);
  }

  lemma LongerOne(a: text, b: text)
    ensures EndsWith(a, [DOT] + b) ==> a != b && !EndsWith(b, [DOT] + a) && a != []
  {
  }

  /** There are such names for every wildcard with room for them: two labels below the suffix. */
  lemma TwoLabelsBelow(w: text)
    requires IsUsableWildcard(w) && |w| <= 251
    ensures var constraint := [0x61, DOT, 0x62, DOT] + AsciiLower(w[2..]);
            && DnsMatchesSubtree(w, constraint, true) == Within
            && !exists h :: Matches(w, h) && DnsWithinSubtree(h, constraint) == Within
  {
    hide IsHostname, Split;
    var suffix := AsciiLower(w[2..]);
    var below := [0x62, DOT] + suffix;
    var constraint := [0x61, DOT, 0x62, DOT] + suffix;
    assert constraint == [0x61, DOT] + below;
    LetterHostname(0x62, suffix);
    LetterHostname(0x61, below);
    assert AsciiLower(constraint) == constraint;
    assert constraint[3..] == [DOT] + suffix;
    NoInnerDot(w, constraint);
    assert constraint[1] == DOT;
    ExclusionOverreaches(w, constraint);
  }

  // ----- which names match which hosts

  lemma DotsSplit(s: text)
    ensures |Split(DOT, s)| >= 2 <==> DOT in s
  {
    JoinSplit(DOT, s);
    if DOT !in s {
      SplitOne(DOT, s);
    }
  }

  /** The hosts of a wildcard: one label, no A-label, in front of a suffix of two labels or more. */
  ghost predicate IsOneLabelBelow(h: text, suffix: text) {
    exists head :: head != [] && DOT !in head && !StartsWith(head, ACE_PREFIX) && h == head + [DOT] + suffix
  }

  /**
   A plain name matches exactly its own hostname, in any letter case; a wildcard exactly the hostnames
   one label below its suffix, when that suffix is a hostname with a dot in it and no A-label in front.
   */
  lemma MatchesExactly(w: text, h: text)
    ensures !IsWildcard(w) ==> (Matches(w, h) <==> IsHostname(AsciiLower(h)) && AsciiLower(w) == AsciiLower(h))
    ensures IsWildcard(w) ==>
              var suffix := AsciiLower(w[2..]);
              (Matches(w, h) <==>
               && IsHostname(suffix) && DOT in suffix && !StartsWith(suffix, ACE_PREFIX)
               && IsHostname(AsciiLower(h)) && IsOneLabelBelow(AsciiLower(h), suffix))
  {
    hide IsHostname, Split, Join;
    if IsWildcard(w) {
      LowerTail(w, 2);
      var suffix, target := AsciiLower(w[2..]), AsciiLower(h);
      DotsSplit(suffix);
      var labels := Split(DOT, target);
      if Matches(w, h) {
        var head := MatchedShape(w, h);
        SplitFirst(DOT, head, suffix);
        assert labels[0] == head;
      }
      if head :| head != [] && DOT !in head && !StartsWith(head, ACE_PREFIX) && target == head + [DOT] + suffix {
        SplitFirst(DOT, head, suffix);
        assert labels[1..] == Split(DOT, suffix);
        JoinSplit(DOT, suffix);
      }
    }
  }

  /** What a label may be made of, and what may stand beside a dot or at either end. */
  predicate IsPlain(s: text) {
    && s != []
    && (forall i | 0 <= i < |s| :: s[i] == DOT || IsLdh(LowerUnit(s[i])))
    && IsInner(s[0]) && IsInner(s[|s| - 1])
    && (forall i | 0 < i < |s| - 1 :: s[i] == DOT ==> IsInner(s[i - 1]) && IsInner(s[i + 1]))
  }

  predicate IsInner(u: codeunit) {
    u != DOT && u != DASH
  }

  /** No 64 code units in a row without a dot. */
  ghost predicate HasDots(s: text) {
    forall i, j | 0 <= i && i + 64 == j <= |s| :: DOT in s[i..j]
  }

  lemma FirstDot(s: text) returns (d: nat)
    requires DOT in s
    ensures d < |s| && s[d] == DOT && DOT !in s[..d]
  {
    d := 0;
    while s[d] != DOT
      invariant d < |s| && DOT !in s[..d] && DOT in s[d..]
      decreases |s| - d
    {
      d := d + 1;
    }
  }

  lemma PlainAtDot(s: text, d: nat)
    requires d < |s| && s[d] == DOT && DOT !in s[..d]
    ensures IsPlain(s) <==> IsPlain(s[..d]) && IsPlain(s[d + 1..])
  {
    hide IsLdh;
    var head, rest := s[..d], s[d + 1..];
    assert forall i | 0 <= i < |rest| :: rest[i] == s[d + 1 + i];
    assert forall i | 0 <= i < d :: head[i] == s[i];
    assert forall i | d < i < |s| :: s[i] == rest[i - d - 1];
  }

  lemma DotsAtDot(s: text, d: nat)
    requires d < |s| && s[d] == DOT && DOT !in s[..d]
    ensures HasDots(s) <==> d < 64 && HasDots(s[d + 1..])
  {
    var rest := s[d + 1..];
    assert d >= 64 ==> s[0..64] <= s[..d] && DOT !in s[0..64];
    if HasDots(s) {
      forall i, j | 0 <= i && i + 64 == j <= |rest|
        ensures DOT in rest[i..j]
      {
        assert rest[i..j] == s[d + 1 + i..d + 1 + j];
      }
    }
    if d < 64 && HasDots(rest) {
      forall i, j | 0 <= i && i + 64 == j <= |s|
        ensures DOT in s[i..j]
      {
        if i <= d {
          assert s[i..j][d - i] == DOT;
        } else {
          assert s[i..j] == rest[i - d - 1..j - d - 1];
        }
      }
    }
  }

  lemma OneLabel(s: text)
    requires DOT !in s
    ensures IsLabel(s) <==> IsPlain(s) && HasDots(s)
  {
    ShortHasDots(s);
  }

  lemma {:induction false} LabelsArePlain(s: text)
    ensures AreLabels(Split(DOT, s)) <==> IsPlain(s) && HasDots(s)
    decreases |s|
  {
    hide AreLabels, IsLabel, IsPlain, HasDots, Split;
    if DOT in s {
      var d := FirstDot(s);
      var head, rest := s[..d], s[d + 1..];
      assert s == head + [DOT] + rest;
      SplitFirst(DOT, head, rest);
      assert Split(DOT, s)[0] == head && Split(DOT, s)[1..] == Split(DOT, rest);
      LabelsArePlain(rest);
      OneLabel(head);
      PlainAtDot(s, d);
      DotsAtDot(s, d);
      ShortHasDots(head);
      AllButFirst(Split(DOT, s));
    } else {
      SplitOne(DOT, s);
      AllButFirst([s]);
      NoLabels([s][1..]);
      OneLabel(s);
    }
  }

  lemma ShortHasDots(s: text)
    requires DOT !in s
    ensures HasDots(s) <==> |s| < 64
  {
    assert |s| >= 64 ==> DOT !in s[0..64];
  }

  lemma NoLabels(labels: seq<text>)
    ensures labels == [] ==> AreLabels(labels)
  {
  }

  lemma AllButFirst(labels: seq<text>)
    requires labels != []
    ensures AreLabels(labels) <==> IsLabel(labels[0]) && AreLabels(labels[1..])
  {
    hide IsLabel;
    var rest := labels[1..];
    assert forall k | 0 < k < |labels| :: labels[k] == rest[k - 1];
  }

  /** A hostname: up to 253 letters, digits, dashes and dots, no dot or dash at an end or beside a dot, and no label past 63. */
  lemma HostnamesAre(s: text)
    ensures IsHostname(s) <==> |s| <= 253 && IsPlain(s) && HasDots(s)
  {
    assert IsPlain(s) ==> s != [];
    hide AreLabels, Split, IsPlain, HasDots;
    LabelsArePlain(s);
  }
}
