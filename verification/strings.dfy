/**
  The two functions of Go's `strings` package that the layer backend relies on,
  specialised to a one-character separator: `strings.Split(s, sep)` and
  `strings.Join(parts, sep)`. Both are modelled on `string` (a sequence of
  characters); the lemmas at the end show that they are inverse to each other.
 */
module Strings {

  /** Number of occurrences of `c` in `s`. */
  function Count(s: string, c: char): nat
  {
    multiset(s)[c]
  }

  /** `strings.Split(s, [sep])`: the maximal separator-free pieces of `s`, in order.
      Like Go's, it never returns an empty slice: `Split("", sep) == [""]`. */
  function Split(s: string, sep: char): (fields: seq<string>)
    ensures |fields| >= 1
    decreases |s|
  {
    if |s| == 0 then [""]
    else
      var rest := Split(s[1..], sep);
      if s[0] == sep then [""] + rest
      else [[s[0]] + rest[0]] + rest[1..]
  }

  /** `strings.Join(parts, [sep])`: the parts with one separator between neighbours. */
  function JoinWith(parts: seq<string>, sep: char): string
    decreases |parts|
  {
    if |parts| == 0 then ""
    else if |parts| == 1 then parts[0]
    else parts[0] + [sep] + JoinWith(parts[1..], sep)
  }

  /** No field of a split contains the separator. */
  lemma {:induction false} SplitFieldsFree(s: string, sep: char)
    ensures forall i :: 0 <= i < |Split(s, sep)| ==> sep !in Split(s, sep)[i]
    decreases |s|
  {
    if |s| > 0 {
      SplitFieldsFree(s[1..], sep);
      var rest := Split(s[1..], sep);
      if s[0] != sep {
        assert sep !in [s[0]] + rest[0];
      }
    }
  }

  /** `Split` returns one more field than there are separators. */
  lemma {:induction false} SplitCount(s: string, sep: char)
    ensures |Split(s, sep)| == Count(s, sep) + 1
    decreases |s|
  {
    if |s| > 0 {
      SplitCount(s[1..], sep);
      assert s == [s[0]] + s[1..];
      assert multiset(s) == multiset([s[0]]) + multiset(s[1..]);
    }
  }

  /** A string splits into more than one field exactly when it holds the separator. */
  lemma SplitHasSecondField(s: string, sep: char)
    ensures |Split(s, sep)| >= 2 <==> sep in s
  {
    SplitCount(s, sep);
    assert sep in s <==> sep in multiset(s);
  }

  /** Joining the fields of a split gives back the original string. */
  lemma {:induction false} JoinSplit(s: string, sep: char)
    ensures JoinWith(Split(s, sep), sep) == s
    decreases |s|
  {
    if |s| > 0 {
      var rest := Split(s[1..], sep);
      JoinSplit(s[1..], sep);
      assert [s[0]] + s[1..] == s;
      if s[0] == sep {
        JoinWithCons("", rest, sep);
      } else if |rest| > 1 {
        assert rest == [rest[0]] + rest[1..];
        JoinWithCons(rest[0], rest[1..], sep);
        JoinWithCons([s[0]] + rest[0], rest[1..], sep);
      }
    }
  }

  /** A separator-free prefix followed by a separator is split off as one field. */
  lemma {:induction false} SplitAfterField(a: string, sep: char, t: string)
    requires sep !in a
    ensures Split(a + [sep] + t, sep) == [a] + Split(t, sep)
    decreases |a|
  {
    var s := a + [sep] + t;
    if |a| == 0 {
      assert s[1..] == t;
    } else {
      assert s[1..] == a[1..] + [sep] + t;
      SplitAfterField(a[1..], sep, t);
      assert [a[0]] + a[1..] == a;
    }
  }

  /** A separator-free string is a single field. */
  lemma {:induction false} SplitNoSeparator(a: string, sep: char)
    requires sep !in a
    ensures Split(a, sep) == [a]
    decreases |a|
  {
    if |a| > 0 {
      SplitNoSeparator(a[1..], sep);
      assert [a[0]] + a[1..] == a;
    }
  }

  /** Splitting a join of separator-free parts gives back the parts. */
  lemma {:induction false} SplitJoin(parts: seq<string>, sep: char)
    requires |parts| >= 1
    requires forall i :: 0 <= i < |parts| ==> sep !in parts[i]
    ensures Split(JoinWith(parts, sep), sep) == parts
    decreases |parts|
  {
    if |parts| == 1 {
      SplitNoSeparator(parts[0], sep);
    } else {
      SplitJoin(parts[1..], sep);
      SplitAfterField(parts[0], sep, JoinWith(parts[1..], sep));
      assert [parts[0]] + parts[1..] == parts;
    }
  }

  /** The join starts with the first part. */
  lemma {:induction false} JoinWithStartsWithFirst(parts: seq<string>, sep: char)
    requires |parts| >= 1
    ensures parts[0] <= JoinWith(parts, sep)
  {
    if |parts| > 1 {
      assert JoinWith(parts, sep) == parts[0] + ([sep] + JoinWith(parts[1..], sep));
    }
  }

  /** Joining with one more part at the end appends a separator and that part. */
  lemma {:induction false} JoinWithSnoc(parts: seq<string>, x: string, sep: char)
    requires |parts| >= 1
    ensures JoinWith(parts + [x], sep) == JoinWith(parts, sep) + [sep] + x
    decreases |parts|
  {
    if |parts| == 1 {
      assert parts + [x] == [parts[0], x];
    } else {
      assert (parts + [x])[1..] == parts[1..] + [x];
      JoinWithSnoc(parts[1..], x, sep);
    }
  }

  /** Joining two non-empty lists one after the other puts one separator between their joins. */
  lemma {:induction false} JoinWithAppend(a: seq<string>, b: seq<string>, sep: char)
    requires |a| >= 1 && |b| >= 1
    ensures JoinWith(a + b, sep) == JoinWith(a, sep) + [sep] + JoinWith(b, sep)
    decreases |a|
  {
    if |a| == 1 {
      assert a + b == [a[0]] + b;
      JoinWithCons(a[0], b, sep);
    } else {
      assert a + b == [a[0]] + (a[1..] + b);
      JoinWithCons(a[0], a[1..] + b, sep);
      JoinWithAppend(a[1..], b, sep);
      JoinWithCons(a[0], a[1..], sep);
    }
  }

  /** Joining a non-empty list of parts puts the first part in front. */
  lemma JoinWithCons(x: string, rest: seq<string>, sep: char)
    requires |rest| >= 1
    ensures JoinWith([x] + rest, sep) == x + [sep] + JoinWith(rest, sep)
  {
    assert ([x] + rest)[1..] == rest;
  }
}
