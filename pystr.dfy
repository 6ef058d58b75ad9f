/** The Python `str` operations the browser's filename arithmetic relies on,
    restricted to a one-character separator: `split` and `rsplit` with a
    maximum number of splits (built on a forward and a backward search for
    the separator), `join` and `endswith`. */
module PyStr {
  import opened Base

  /** The separator search inside `split`: the first position of `c` in `s`,
      if any. */
  function IndexOf(s: string, c: char): (r: Option<nat>)
    ensures r.Some? ==> r.value < |s| && s[r.value] == c && forall k :: 0 <= k < r.value ==> s[k] != c
    ensures r.None? ==> forall k :: 0 <= k < |s| ==> s[k] != c
  {
    if |s| == 0 then None
    else if s[0] == c then Some(0)
    else match IndexOf(s[1..], c)
      case None => None
      case Some(i) => Some(i + 1)
  }

  /** The separator search inside `rsplit`: the last position of `c` in `s`,
      if any. */
  function LastIndexOf(s: string, c: char): (r: Option<nat>)
    ensures r.Some? ==> r.value < |s| && s[r.value] == c && forall k :: r.value < k < |s| ==> s[k] != c
    ensures r.None? ==> forall k :: 0 <= k < |s| ==> s[k] != c
  {
    if |s| == 0 then None
    else if s[|s| - 1] == c then Some(|s| - 1)
    else LastIndexOf(s[..|s| - 1], c)
  }

  /** `s.split(sep, maxsplit)`: cut `s` at its first `maxsplit` separators,
      counted from the left. */
  function Split(s: string, sep: char, maxsplit: nat): (parts: seq<string>)
    ensures 1 <= |parts| <= maxsplit + 1
    ensures |parts[0]| <= |s| && s[..|parts[0]|] == parts[0]
    decreases maxsplit
  {
    if maxsplit == 0 then [s]
    else match IndexOf(s, sep)
      case None => [s]
      case Some(i) => [s[..i]] + Split(s[i + 1..], sep, maxsplit - 1)
  }

  /** `s.rsplit(sep, maxsplit)`: cut `s` at its last `maxsplit` separators,
      counted from the right. */
  function RSplit(s: string, sep: char, maxsplit: nat): (parts: seq<string>)
    ensures 1 <= |parts| <= maxsplit + 1
    ensures |parts[0]| <= |s| && s[..|parts[0]|] == parts[0]
    decreases maxsplit
  {
    if maxsplit == 0 then [s]
    else match LastIndexOf(s, sep)
      case None => [s]
      case Some(i) => RSplit(s[..i], sep, maxsplit - 1) + [s[i + 1..]]
  }

  /** `sep.join(parts)`: the first part, then, when there are more, a
      separator and the join of the rest. */
  function Join(sep: char, parts: seq<string>): (joined: string)
    ensures |parts| >= 1 ==> |parts[0]| <= |joined| && joined[..|parts[0]|] == parts[0]
    ensures |parts| >= 2 ==> |parts[0]| < |joined| && joined[|parts[0]|] == sep
  {
    if |parts| == 0 then ""
    else if |parts| == 1 then parts[0]
    else parts[0] + [sep] + Join(sep, parts[1..])
  }

  /** `s.endswith(suffix)`: `s` is something followed by `suffix`. */
  predicate EndsWith(s: string, suffix: string): (ends: bool)
    ensures ends <==> exists head :: s == head + suffix
  {
    var ends := |suffix| <= |s| && s[|s| - |suffix|..] == suffix;
    assert ends ==> s == s[..|s| - |suffix|] + suffix;
    assert forall head :: s == head + suffix ==> (head + suffix)[|head|..] == suffix;
    ends
  }

  /** A sequence is what lies before position `i`, the element there, and
      what lies after it. */
  lemma CutAt<T>(s: seq<T>, i: nat)
    requires i < |s|
    ensures s == s[..i] + [s[i]] + s[i + 1..]
  {
  }

  /** `split` cuts at the first separator, right after a separator-free head. */
  lemma SplitAtFirst(head: string, sep: char, tail: string, maxsplit: nat)
    requires sep !in head && maxsplit > 0
    ensures Split(head + [sep] + tail, sep, maxsplit) == [head] + Split(tail, sep, maxsplit - 1)
  {
    var s := head + [sep] + tail;
    assert s[|head|] == sep;
    assert IndexOf(s, sep) == Some(|head|);
    assert s[..|head|] == head;
    assert s[|head| + 1..] == tail;
  }

  /** Joining one more part at the front adds that part and one separator. */
  lemma JoinCons(sep: char, first: string, parts: seq<string>)
    requires |parts| >= 1
    ensures Join(sep, [first] + parts) == first + [sep] + Join(sep, parts)
  {
    assert ([first] + parts)[1..] == parts;
  }

  /** Joining one more part at the end adds one separator and that part. */
  lemma {:induction false} JoinSnoc(sep: char, parts: seq<string>, last: string)
    requires |parts| >= 1
    ensures Join(sep, parts + [last]) == Join(sep, parts) + [sep] + last
    decreases |parts|
  {
    if |parts| == 1 {
      assert parts + [last] == [parts[0], last];
      assert [last][1..] == [];
    } else {
      assert (parts + [last])[1..] == parts[1..] + [last];
      JoinSnoc(sep, parts[1..], last);
    }
  }

  /** `split` loses nothing: joining the parts with the separator gives `s`
      back. */
  lemma {:induction false} SplitJoin(s: string, sep: char, maxsplit: nat)
    ensures Join(sep, Split(s, sep, maxsplit)) == s
    decreases maxsplit
  {
    var found := IndexOf(s, sep);
    if maxsplit == 0 || found.None? {
      assert Split(s, sep, maxsplit) == [s];
    } else {
      var i := found.value;
      var rest := Split(s[i + 1..], sep, maxsplit - 1);
      SplitJoin(s[i + 1..], sep, maxsplit - 1);
      SplitUnfold(s, sep, maxsplit, i);
      JoinAround(s, sep, i, rest);
    }
  }

  /** `split` with a separator at `i`, the first one: the head, then the
      split of what follows. */
  lemma SplitUnfold(s: string, sep: char, maxsplit: nat, i: nat)
    requires maxsplit > 0 && IndexOf(s, sep) == Some(i)
    ensures Split(s, sep, maxsplit) == [s[..i]] + Split(s[i + 1..], sep, maxsplit - 1)
  {
  }

  /** Parts that join back to what follows a separator at `i`, preceded by
      what lies before it, join back to `s`. */
  lemma JoinAround(s: string, sep: char, i: nat, rest: seq<string>)
    requires i < |s| && s[i] == sep && |rest| >= 1 && Join(sep, rest) == s[i + 1..]
    ensures Join(sep, [s[..i]] + rest) == s
  {
    JoinCons(sep, s[..i], rest);
    CutAt(s, i);
  }

  /** No part of `split` but the last holds a separator, and the last holds
      none either unless the split limit was reached. */
  lemma {:induction false} SplitPartsSepFree(s: string, sep: char, maxsplit: nat)
    ensures forall k :: 0 <= k < |Split(s, sep, maxsplit)| - 1 ==> sep !in Split(s, sep, maxsplit)[k]
    ensures |Split(s, sep, maxsplit)| <= maxsplit ==> sep !in Split(s, sep, maxsplit)[|Split(s, sep, maxsplit)| - 1]
    decreases maxsplit
  {
    var found := IndexOf(s, sep);
    if maxsplit > 0 && found.Some? {
      var i := found.value;
      var rest := Split(s[i + 1..], sep, maxsplit - 1);
      SplitPartsSepFree(s[i + 1..], sep, maxsplit - 1);
      var parts := [s[..i]] + rest;
      assert Split(s, sep, maxsplit) == parts;
      assert sep !in parts[0];
      assert forall k :: 1 <= k < |parts| ==> parts[k] == rest[k - 1];
    }
  }

  /** `rsplit` loses nothing: joining the parts with the separator gives `s`
      back. */
  lemma {:induction false} RSplitJoin(s: string, sep: char, maxsplit: nat)
    ensures Join(sep, RSplit(s, sep, maxsplit)) == s
    decreases maxsplit
  {
    var found := LastIndexOf(s, sep);
    if maxsplit > 0 && found.Some? {
      var i := found.value;
      var init := RSplit(s[..i], sep, maxsplit - 1);
      assert RSplit(s, sep, maxsplit) == init + [s[i + 1..]];
      RSplitJoin(s[..i], sep, maxsplit - 1);
      JoinSnoc(sep, init, s[i + 1..]);
      assert s == s[..i] + [sep] + s[i + 1..];
    }
  }

  /** No part of `rsplit` but the first holds a separator, and the first
      holds none either unless the split limit was reached. */
  lemma {:induction false} RSplitPartsSepFree(s: string, sep: char, maxsplit: nat)
    ensures forall k :: 1 <= k < |RSplit(s, sep, maxsplit)| ==> sep !in RSplit(s, sep, maxsplit)[k]
    ensures |RSplit(s, sep, maxsplit)| <= maxsplit ==> sep !in RSplit(s, sep, maxsplit)[0]
    decreases maxsplit
  {
    if maxsplit > 0 {
      match LastIndexOf(s, sep)
      case None =>
      case Some(i) =>
        var init := RSplit(s[..i], sep, maxsplit - 1);
        RSplitPartsSepFree(s[..i], sep, maxsplit - 1);
        var parts := init + [s[i + 1..]];
        assert RSplit(s, sep, maxsplit) == parts;
        forall k | 1 <= k < |parts| ensures sep !in parts[k] {
          if k < |init| { assert parts[k] == init[k]; }
        }
        assert parts[0] == init[0];
    }
  }
}
