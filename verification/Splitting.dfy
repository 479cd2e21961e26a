/** `split` and `join` of strings on one separator. */
module Splitting {
  import opened Bytes

  /** `split(sep)`. */
  function Split(sep: codeunit, s: text): (labels: seq<text>)
    ensures labels != []
  {
    if s == [] then [[]]
    else
      var rest := Split(sep, s[1..]);
      if s[0] == sep then [[]] + rest else [[s[0]] + rest[0]] + rest[1..]
  }

  /** `join(sep)`. */
  function Join(sep: codeunit, labels: seq<text>): text {
    if labels == [] then []
    else if |labels| == 1 then labels[0]
    else labels[0] + [sep] + Join(sep, labels[1..])
  }

  lemma {:induction false} JoinSplit(sep: codeunit, s: text)
    ensures Join(sep, Split(sep, s)) == s
    ensures forall k | 0 <= k < |Split(sep, s)| :: sep !in Split(sep, s)[k]
  {
    if s != [] {
      JoinSplit(sep, s[1..]);
      var rest := Split(sep, s[1..]);
      assert s == [s[0]] + s[1..];
      if s[0] == sep {
        assert ([[]] + rest)[1..] == rest;
        assert [] + [sep] + s[1..] == s;
      } else if |rest| > 1 {
        var labels := [[s[0]] + rest[0]] + rest[1..];
        assert labels[1..] == rest[1..];
        assert [s[0]] + rest[0] + [sep] + Join(sep, rest[1..]) == [s[0]] + (rest[0] + [sep] + Join(sep, rest[1..]));
      }
    }
  }

  /** Splitting at the first separator. */
  lemma {:induction false} SplitFirst(sep: codeunit, head: text, rest: text)
    requires sep !in head
    ensures Split(sep, head + [sep] + rest) == [head] + Split(sep, rest)
  {
    if head == [] {
      assert [] + [sep] + rest == [sep] + rest;
      assert ([sep] + rest)[1..] == rest;
    } else {
      var s := head + [sep] + rest;
      assert s[1..] == head[1..] + [sep] + rest;
      SplitFirst(sep, head[1..], rest);
      assert [s[0]] + head[1..] == head;
      assert ([head[1..]] + Split(sep, rest))[1..] == Split(sep, rest);
    }
  }

  /** Joining and splitting again gives the parts, when none holds the separator. */
  lemma {:induction false} SplitJoin(sep: codeunit, parts: seq<text>)
    requires parts != [] && forall k | 0 <= k < |parts| :: sep !in parts[k]
    ensures Split(sep, Join(sep, parts)) == parts
  {
    if |parts| == 1 {
      SplitOne(sep, parts[0]);
    } else {
      SplitFirst(sep, parts[0], Join(sep, parts[1..]));
      SplitJoin(sep, parts[1..]);
    }
  }

  lemma {:induction false} SplitOne(sep: codeunit, part: text)
    requires sep !in part
    ensures Split(sep, part) == [part]
  {
    if part != [] {
      SplitOne(sep, part[1..]);
      assert [part[0]] + part[1..] == part;
    }
  }

  lemma {:induction false} JoinConcat(sep: codeunit, a: seq<text>, b: seq<text>)
    requires a != [] && b != []
    ensures Join(sep, a + b) == Join(sep, a) + [sep] + Join(sep, b)
  {
    assert (a + b)[1..] == a[1..] + b;
    if |a| == 1 {
      assert a[1..] + b == b;
    } else {
      JoinConcat(sep, a[1..], b);
      ConcatAssoc(a[0] + [sep], Join(sep, a[1..]), [sep] + Join(sep, b));
      ConcatAssoc(Join(sep, a[1..]), [sep], Join(sep, b));
      ConcatAssoc(a[0] + [sep] + Join(sep, a[1..]), [sep], Join(sep, b));
    }
  }

  /** Splitting on both sides of a separator. */
  lemma SplitConcat(sep: codeunit, a: text, b: text)
    ensures Split(sep, a + [sep] + b) == Split(sep, a) + Split(sep, b)
  {
    JoinSplit(sep, a);
    JoinSplit(sep, b);
    JoinConcat(sep, Split(sep, a), Split(sep, b));
    SplitJoin(sep, Split(sep, a) + Split(sep, b));
  }
}
