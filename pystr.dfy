/** The Python string operations the text pipeline relies on, over `string`
    (a sequence of characters). */
module PyStr {

  /** `s.count(c)` for a one-character string c. */
  function Count(c: char, s: string): nat
  {
    if s == [] then 0 else (if s[0] == c then 1 else 0) + Count(c, s[1..])
  }

  /** The sum of the lengths of the parts. */
  function TotalLength(parts: seq<string>): nat
  {
    if parts == [] then 0 else |parts[0]| + TotalLength(parts[1..])
  }

  /** `sep.join(parts)`: the parts in order with one copy of sep between
      neighbours, none before the first or after the last. */
  function Join(sep: string, parts: seq<string>): (r: string)
    ensures |parts| > 0 ==> |r| == TotalLength(parts) + (|parts| - 1) * |sep|
    ensures |parts| > 0 ==> r[..|parts[0]|] == parts[0]
  {
    if |parts| == 0 then ""
    else if |parts| == 1 then parts[0]
    else parts[0] + sep + Join(sep, parts[1..])
  }

  /** `s.split(c)` for a one-character separator c: the pieces of s between
      occurrences of c, in order; there is always one piece more than there
      are separators, and no piece contains c. */
  function Split(c: char, s: string): (r: seq<string>)
    ensures |r| == Count(c, s) + 1
    ensures forall i :: 0 <= i < |r| ==> c !in r[i]
  {
    if s == [] then [""]
    else
      var rest := Split(c, s[1..]);
      if s[0] == c then [""] + rest else [[s[0]] + rest[0]] + rest[1..]
  }

  /** A string without the separator is a single piece. */
  lemma {:induction false} SplitWithout(c: char, t: string)
    requires c !in t
    ensures Split(c, t) == [t]
  {
    if t != [] {
      SplitWithout(c, t[1..]);
      assert [t[0]] + t[1..] == t;
    }
  }

  /** A separator-free piece followed by the separator splits off as one piece. */
  lemma {:induction false} SplitAfter(c: char, t: string, s: string)
    requires c !in t
    ensures Split(c, t + [c] + s) == [t] + Split(c, s)
  {
    if t == [] {
      assert t + [c] + s == [c] + s;
      assert ([c] + s)[1..] == s;
    } else {
      SplitAfter(c, t[1..], s);
      assert (t + [c] + s)[1..] == t[1..] + [c] + s;
      assert [t[0]] + t[1..] == t;
    }
  }

  /** Joining the pieces of a split with the separator gives back the string. */
  lemma {:induction false} SplitThenJoin(c: char, s: string)
    ensures Join([c], Split(c, s)) == s
    decreases |s|
  {
    if s != [] {
      var rest := Split(c, s[1..]);
      SplitThenJoin(c, s[1..]);
      if s[0] == c {
        assert [""] + rest == [""] + rest;
        assert ([""] + rest)[1..] == rest;
      } else if |rest| > 1 {
        var r := [[s[0]] + rest[0]] + rest[1..];
        assert r[1..] == rest[1..];
        assert Join([c], rest) == rest[0] + [c] + Join([c], rest[1..]);
      }
    }
  }

  /** Splitting a join recovers the parts, provided no part contains the separator. */
  lemma {:induction false} JoinThenSplit(c: char, parts: seq<string>)
    requires |parts| > 0
    requires forall i :: 0 <= i < |parts| ==> c !in parts[i]
    ensures Split(c, Join([c], parts)) == parts
    decreases |parts|
  {
    if |parts| == 1 {
      SplitWithout(c, parts[0]);
    } else {
      JoinThenSplit(c, parts[1..]);
      SplitAfter(c, parts[0], Join([c], parts[1..]));
      assert [parts[0]] + parts[1..] == parts;
    }
  }

  /** A character in neither the separator nor any part is not in the join. */
  lemma {:induction false} JoinAvoids(c: char, sep: string, parts: seq<string>)
    requires c !in sep
    requires forall i :: 0 <= i < |parts| ==> c !in parts[i]
    ensures c !in Join(sep, parts)
    decreases |parts|
  {
    if |parts| > 1 {
      JoinAvoids(c, sep, parts[1..]);
    }
  }

  /** With a non-empty separator, the join is empty exactly when there is no
      part or a single empty part. */
  lemma JoinEmptyIff(sep: string, parts: seq<string>)
    requires sep != ""
    ensures Join(sep, parts) == "" <==> |parts| == 0 || (|parts| == 1 && parts[0] == "")
  {
  }
}
