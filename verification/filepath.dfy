/**
  Go's `path/filepath.Join` and `path/filepath.Clean` on a Unix host, following
  the lexical rules Go documents for `Clean`: collapse repeated `/`, drop `.`
  elements, let `..` cancel the element before it, drop `..` right after the
  root, and return `.` for an empty relative result. A path is modelled as the
  list of its `/`-separated elements, reduced with a stack.
 */
module FilePath {
  import opened Strings

  /** An element that `Clean` keeps untouched: non-empty, no `/`, not `.` or `..`. */
  predicate IsPlainElement(e: string)
  {
    e != "" && e != "." && e != ".." && '/' !in e
  }

  predicate AllPlain(elems: seq<string>)
  {
    forall i :: 0 <= i < |elems| ==> IsPlainElement(elems[i])
  }

  /** Every element is non-empty and free of `/`. */
  predicate AllElements(elems: seq<string>)
  {
    forall i :: 0 <= i < |elems| ==> elems[i] != "" && '/' !in elems[i]
  }

  predicate SlashFree(segs: seq<string>)
  {
    forall i :: 0 <= i < |segs| ==> '/' !in segs[i]
  }

  /** Processes `segs` left to right on top of the already-reduced stack `acc`. */
  function Reduce(segs: seq<string>, rooted: bool, acc: seq<string>): (st: seq<string>)
    ensures SlashFree(segs) && AllElements(acc) ==> AllElements(st)
    ensures SlashFree(segs) && rooted && AllPlain(acc) ==> AllPlain(st)
    decreases |segs|
  {
    if |segs| == 0 then acc
    else
      var s := segs[0];
      if s == "" || s == "." then Reduce(segs[1..], rooted, acc)
      else if s == ".." then
        if |acc| > 0 && acc[|acc| - 1] != ".." then Reduce(segs[1..], rooted, acc[..|acc| - 1])
        else if rooted then Reduce(segs[1..], rooted, acc)
        else Reduce(segs[1..], rooted, acc + [".."])
      else Reduce(segs[1..], rooted, acc + [s])
  }

  predicate IsRooted(p: string)
  {
    |p| > 0 && p[0] == '/'
  }

  /** `filepath.Clean(p)`. */
  function Clean(p: string): (c: string)
    ensures c != ""
    ensures IsRooted(p) <==> IsRooted(c)
  {
    var st := Reduce(Split(p, '/'), IsRooted(p), []);
    SplitFieldsFree(p, '/');
    if IsRooted(p) then "/" + JoinWith(st, '/')
    else if st == [] then "."
    else
      assert st[0] <= JoinWith(st, '/') by { JoinWithStartsWithFirst(st, '/'); }
      JoinWith(st, '/')
  }

  /** Index of the first non-empty element, or `|elems|` if there is none. */
  function FirstNonEmpty(elems: seq<string>): (i: nat)
    ensures i <= |elems|
    ensures forall j :: 0 <= j < i ==> elems[j] == ""
    ensures i < |elems| ==> elems[i] != ""
    decreases |elems|
  {
    if |elems| == 0 || elems[0] != "" then 0
    else 1 + FirstNonEmpty(elems[1..])
  }

  /** `filepath.Join(elems...)`: empty elements before the first non-empty one are
      skipped, the rest are joined with `/` and the result is cleaned; all-empty
      input gives the empty string. */
  function Join(elems: seq<string>): (p: string)
    ensures p == "" <==> forall j :: 0 <= j < |elems| ==> elems[j] == ""
  {
    var i := FirstNonEmpty(elems);
    if i == |elems| then "" else Clean(JoinWith(elems[i..], '/'))
  }

  /** Plain elements are pushed onto the stack unchanged. */
  lemma {:induction false} ReducePlain(segs: seq<string>, rooted: bool, acc: seq<string>)
    requires AllPlain(segs)
    ensures Reduce(segs, rooted, acc) == acc + segs
    decreases |segs|
  {
    if |segs| > 0 {
      ReducePlain(segs[1..], rooted, acc + [segs[0]]);
      assert acc + [segs[0]] + segs[1..] == acc + segs;
    }
  }

  /** The stack reduction handles the elements left to right, so a list can be
      reduced piece by piece. */
  lemma {:induction false} ReduceAppend(a: seq<string>, b: seq<string>, rooted: bool, acc: seq<string>)
    ensures Reduce(a + b, rooted, acc) == Reduce(b, rooted, Reduce(a, rooted, acc))
    decreases |a|
  {
    if |a| == 0 {
      assert a + b == b;
    } else {
      assert (a + b)[0] == a[0] && (a + b)[1..] == a[1..] + b;
      var s := a[0];
      if s == "" || s == "." {
        ReduceAppend(a[1..], b, rooted, acc);
      } else if s == ".." {
        if |acc| > 0 && acc[|acc| - 1] != ".." {
          ReduceAppend(a[1..], b, rooted, acc[..|acc| - 1]);
        } else if rooted {
          ReduceAppend(a[1..], b, rooted, acc);
        } else {
          ReduceAppend(a[1..], b, rooted, acc + [".."]);
        }
      } else {
        ReduceAppend(a[1..], b, rooted, acc + [s]);
      }
    }
  }

  /** Clean of a rooted path is the root followed by the reduced stack. */
  lemma CleanRooted(p: string, st: seq<string>)
    requires IsRooted(p) && Reduce(Split(p, '/'), true, []) == st
    ensures Clean(p) == "/" + JoinWith(st, '/')
  {
  }

  /** A rooted path made of plain elements is already clean. */
  lemma CleanCanonical(elems: seq<string>)
    requires AllPlain(elems)
    ensures Clean("/" + JoinWith(elems, '/')) == "/" + JoinWith(elems, '/')
  {
    var p := "/" + JoinWith(elems, '/');
    if |elems| == 0 {
      assert p == JoinWith(["", ""], '/');
      assert Split(p, '/') == ["", ""] by { SplitJoin(["", ""], '/'); }
      assert Reduce(["", ""], true, []) == [];
      CleanRooted(p, []);
    } else {
      var parts := [""] + elems;
      assert JoinWith(parts, '/') == p by { JoinWithCons("", elems, '/'); }
      assert Split(p, '/') == parts by { SplitJoin(parts, '/'); }
      assert Reduce(parts, true, []) == elems by {
        assert parts[1..] == elems;
        ReducePlain(elems, true, []);
      }
      CleanRooted(p, elems);
    }
  }

  /** Cleaning a rooted path twice is the same as cleaning it once. */
  lemma CleanIdempotentRooted(p: string)
    requires IsRooted(p)
    ensures Clean(Clean(p)) == Clean(p)
  {
    var st := Reduce(Split(p, '/'), true, []);
    SplitFieldsFree(p, '/');
    CleanRooted(p, st);
    CleanCanonical(st);
  }

  /** The root element `/` joins like two empty elements. */
  lemma JoinRootText(elems: seq<string>)
    requires |elems| >= 1
    ensures JoinWith(["/"] + elems, '/') == JoinWith([""] + ([""] + elems), '/')
  {
    RootJoin(elems);
    EmptyJoin(elems);
    EmptyJoin([""] + elems);
    var j := JoinWith(elems, '/');
    assert ['/', '/'] + j == ['/'] + (['/'] + j);
  }

  lemma RootJoin(elems: seq<string>)
    requires |elems| >= 1
    ensures JoinWith(["/"] + elems, '/') == ['/', '/'] + JoinWith(elems, '/')
  {
    JoinWithCons("/", elems, '/');
  }

  lemma EmptyJoin(elems: seq<string>)
    requires |elems| >= 1
    ensures JoinWith([""] + elems, '/') == ['/'] + JoinWith(elems, '/')
  {
    JoinWithCons("", elems, '/');
  }

  /** Two leading empty elements followed by plain ones clean to a single root. */
  lemma CleanDoubleRoot(elems: seq<string>)
    requires |elems| >= 1 && AllPlain(elems)
    ensures Clean(JoinWith([""] + ([""] + elems), '/')) == "/" + JoinWith(elems, '/')
  {
    var parts := [""] + ([""] + elems);
    var p := JoinWith(parts, '/');
    DoubleRootSlashFree(elems);
    assert Split(p, '/') == parts by { SplitJoin(parts, '/'); }
    DoubleRootReduces(elems);
    CleanRooted(p, elems);
  }

  lemma DoubleRootSlashFree(elems: seq<string>)
    requires AllPlain(elems)
    ensures SlashFree([""] + ([""] + elems))
  {
    var parts := [""] + ([""] + elems);
    forall i | 0 <= i < |parts| ensures '/' !in parts[i] {
      if i >= 2 {
        assert parts[i] == elems[i - 2];
      }
    }
  }

  lemma DoubleRootReduces(elems: seq<string>)
    requires AllPlain(elems)
    ensures Reduce([""] + ([""] + elems), true, []) == elems
  {
    var parts := [""] + ([""] + elems);
    assert parts[1..] == [""] + elems;
    assert ([""] + elems)[1..] == elems;
    ReducePlain(elems, true, []);
  }

  /** Joining the root with plain elements is plain `/`-concatenation. */
  lemma JoinRootedPlain(elems: seq<string>)
    requires |elems| >= 1 && AllPlain(elems)
    ensures Join(["/"] + elems) == "/" + JoinWith(elems, '/')
  {
    var all := ["/"] + elems;
    assert Join(all) == Clean(JoinWith(all, '/')) by {
      assert FirstNonEmpty(all) == 0;
      assert all[0..] == all;
    }
    JoinRootText(elems);
    CleanDoubleRoot(elems);
  }
}
