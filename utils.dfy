/** Episode range selection, grouping of episodes into export files and
    parsing of a comic id or link (src/utils.rs). */
module Utils {
  import opened Wrappers
  import opened Text
  import opened Seqs
  import opened Entities

  /* ---------------- apply_range ---------------- */

  /** Every comma-separated fragment of `range` holds a `-`: a fragment
      without one has no second part, and `apply_range` panics on it. */
  predicate RangeWellFormed(range: string) {
    var fragments := Split(range, ",");
    forall k :: 0 <= k < |fragments| ==> Contains(fragments[k], "-")
  }

  predicate AllFragments(fragments: seq<string>) {
    forall k :: 0 <= k < |fragments| ==> Contains(fragments[k], "-")
  }

  /** The closed interval a fragment `a-b` stands for: `from` is `a` parsed,
      or 0 when that fails; `to` is `b` parsed, or the key of the last item
      of the list when that fails. */
  function Bounds(fragment: string, lastOrd: real, parse: string -> Option<real>): (real, real)
    requires Contains(fragment, "-")
  {
    SplitTwoPieces(fragment, "-");
    var parts := Split(fragment, "-");
    (parse(parts[0]).GetOr(0.0), parse(parts[1]).GetOr(lastOrd))
  }

  /** `key` lies within the interval of `fragment`. */
  predicate InFragment(fragment: string, lastOrd: real, parse: string -> Option<real>, key: real)
    requires Contains(fragment, "-")
  {
    var (from, to) := Bounds(fragment, lastOrd, parse);
    from <= key <= to
  }

  /** `key` lies within the interval of some fragment. */
  predicate Selects(fragments: seq<string>, lastOrd: real, parse: string -> Option<real>, key: real)
    requires AllFragments(fragments)
  {
    exists k :: 0 <= k < |fragments| && InFragment(fragments[k], lastOrd, parse, key)
  }

  /** The retention test of a range: an item is kept when its key is selected. */
  function Keeper<T>(fragments: seq<string>, lastOrd: real, parse: string -> Option<real>, ord: T -> real): T -> bool
    requires AllFragments(fragments)
  {
    x => Selects(fragments, lastOrd, parse, ord(x))
  }

  /** What `apply_range` returns: the whole list when the list or the range
      is empty, and otherwise the items, in their order, whose key lies in
      the interval of some fragment. */
  function RangeSelection<T(!new)>(list: seq<T>, range: string, ord: T -> real, parse: string -> Option<real>): (r: seq<T>)
    requires list == [] || range == "" || RangeWellFormed(range)
    ensures list == [] || range == "" ==> r == list
    ensures list != [] && range != "" ==>
      forall x :: x in r <==> x in list && Selects(Split(range, ","), ord(list[|list| - 1]), parse, ord(x))
    ensures forall x, y :: x in list && y in list && ord(x) == ord(y) ==> (x in r <==> y in r)
  {
    if list == [] || range == "" then list
    else Filter(list, Keeper(Split(range, ","), ord(list[|list| - 1]), parse, ord))
  }

  /** The selection keeps the order of the list: it is a subsequence. */
  lemma RangeSelectionIsSubseq<T(!new)>(list: seq<T>, range: string, ord: T -> real, parse: string -> Option<real>)
    requires list == [] || range == "" || RangeWellFormed(range)
    ensures IsSubseq(RangeSelection(list, range, ord, parse), list)
  {
    if list == [] || range == "" {
      SubseqRefl(list);
    } else {
      FilterIsSubseq(list, Keeper(Split(range, ","), ord(list[|list| - 1]), parse, ord));
    }
  }

  lemma {:induction false} SubseqRefl<T>(s: seq<T>)
    ensures IsSubseq(s, s)
    decreases |s|
  {
    if s != [] {
      SubseqRefl(s[..|s| - 1]);
    }
  }

  /** `apply_range`: collects the selected keys fragment by fragment, then
      retains the items whose key was collected. */
  method ApplyRange<T(!new)>(list: seq<T>, range: string, ord: T -> real, parse: string -> Option<real>)
    returns (r: seq<T>)
    requires list == [] || range == "" || RangeWellFormed(range)
    ensures r == RangeSelection(list, range, ord, parse)
  {
    if list == [] || range == "" {
      return list;
    }
    var lastOrd := ord(list[|list| - 1]);
    var fragments := Split(range, ",");
    var result: seq<real> := [];
    for i := 0 to |fragments|
      invariant forall x :: x in result <==>
        (exists k :: 0 <= k < |list| && ord(list[k]) == x) && Selects(fragments[..i], lastOrd, parse, x)
    {
      result := CollectFragment(list, ord, fragments, i, lastOrd, parse, result);
    }
    assert fragments[..|fragments|] == fragments;
    var keep := Keeper(fragments, lastOrd, parse, ord);
    FilterCongruent(list, item => ord(item) in result, keep);
    r := Filter(list, item => ord(item) in result);
  }

  /** One fragment of `apply_range`: its bounds, and the keys within them
      when the interval is not empty. */
  method CollectFragment<T>(list: seq<T>, ord: T -> real, fragments: seq<string>, i: nat,
                            lastOrd: real, parse: string -> Option<real>, result: seq<real>)
    returns (r: seq<real>)
    requires i < |fragments| && AllFragments(fragments)
    requires forall x :: x in result <==>
      (exists k :: 0 <= k < |list| && ord(list[k]) == x) && Selects(fragments[..i], lastOrd, parse, x)
    ensures forall x :: x in r <==>
      (exists k :: 0 <= k < |list| && ord(list[k]) == x) && Selects(fragments[..i + 1], lastOrd, parse, x)
  {
    SplitTwoPieces(fragments[i], "-");
    var parts := Split(fragments[i], "-");
    var from := parse(parts[0]).GetOr(0.0);
    var to := parse(parts[1]).GetOr(lastOrd);
    SelectsSnoc(fragments, i, lastOrd, parse);
    assert forall x :: InFragment(fragments[i], lastOrd, parse, x) <==> from <= x <= to;
    if from > to {
      return result;
    }
    r := CollectKeys(list, ord, from, to, result);
  }

  /** The inner loop of `apply_range`: adds to `result`, in list order and
      once each, the keys of `list` within `[from, to]`. */
  method CollectKeys<T>(list: seq<T>, ord: T -> real, from: real, to: real, result: seq<real>)
    returns (r: seq<real>)
    ensures forall x :: x in r <==>
      x in result || ((exists k :: 0 <= k < |list| && ord(list[k]) == x) && from <= x <= to)
  {
    r := result;
    for j := 0 to |list|
      invariant forall x :: x in r <==>
        x in result || ((exists k :: 0 <= k < j && ord(list[k]) == x) && from <= x <= to)
    {
      var key := ord(list[j]);
      if from <= key && key <= to {
        if key in r {
          continue;
        }
        r := r + [key];
      }
    }
  }

  /** One more fragment widens the selection by its interval. */
  lemma SelectsSnoc(fragments: seq<string>, i: nat, lastOrd: real, parse: string -> Option<real>)
    requires i < |fragments| && AllFragments(fragments)
    ensures forall x :: Selects(fragments[..i + 1], lastOrd, parse, x) <==>
      Selects(fragments[..i], lastOrd, parse, x) || InFragment(fragments[i], lastOrd, parse, x)
  {
    forall x ensures Selects(fragments[..i + 1], lastOrd, parse, x) <==>
      Selects(fragments[..i], lastOrd, parse, x) || InFragment(fragments[i], lastOrd, parse, x)
    {
      SelectsSnocAt(fragments, i, lastOrd, parse, x);
    }
  }

  lemma SelectsSnocAt(fragments: seq<string>, i: nat, lastOrd: real, parse: string -> Option<real>, x: real)
    requires i < |fragments| && AllFragments(fragments)
    ensures Selects(fragments[..i + 1], lastOrd, parse, x) <==>
      Selects(fragments[..i], lastOrd, parse, x) || InFragment(fragments[i], lastOrd, parse, x)
  {
    var pre, pre' := fragments[..i], fragments[..i + 1];
    assert pre'[i] == fragments[i];
    if Selects(pre', lastOrd, parse, x) {
      var k :| 0 <= k < |pre'| && InFragment(pre'[k], lastOrd, parse, x);
      if k < i {
        assert pre[k] == pre'[k];
      }
    }
    if Selects(pre, lastOrd, parse, x) {
      var k :| 0 <= k < |pre| && InFragment(pre[k], lastOrd, parse, x);
      assert pre[k] == pre'[k];
    }
  }

  /** Applying a range to its own result changes nothing: an open-ended
      fragment that selects anything selects the last item, so the last
      key, and with it every interval, is the same the second time. */
  lemma {:induction false} RangeIdempotent<T(!new)>(list: seq<T>, range: string, ord: T -> real, parse: string -> Option<real>)
    requires list == [] || range == "" || RangeWellFormed(range)
    ensures var once := RangeSelection(list, range, ord, parse);
      RangeSelection(once, range, ord, parse) == once
  {
    var once := RangeSelection(list, range, ord, parse);
    if list == [] || range == "" || once == [] {
      return;
    }
    var fragments := Split(range, ",");
    var last := list[|list| - 1];
    var lastOrd := ord(last);
    var keep := Keeper(fragments, lastOrd, parse, ord);
    assert once == Filter(list, keep);
    var lastOrd' := ord(once[|once| - 1]);
    forall x | x in once ensures Selects(fragments, lastOrd', parse, ord(x)) {
      var k :| 0 <= k < |fragments| && InFragment(fragments[k], lastOrd, parse, ord(x));
      SplitTwoPieces(fragments[k], "-");
      var parts := Split(fragments[k], "-");
      if parse(parts[1]).None? {
        assert InFragment(fragments[k], lastOrd, parse, lastOrd);
        assert keep(last);
        FilterKeepsLast(list, keep);
      }
      assert InFragment(fragments[k], lastOrd', parse, ord(x));
    }
    FilterAllKept(once, Keeper(fragments, lastOrd', parse, ord));
  }

  /** A worked example of the range syntax on keys 1 to 5: `4-` runs to
      the last key. */
  lemma RangeExampleOpenEnd(key: real -> real, parse: string -> Option<real>)
    requires forall x :: key(x) == x
    requires parse("1") == Some(1.0) && parse("2") == Some(2.0)
    requires parse("4") == Some(4.0) && parse("") == None
    ensures RangeWellFormed("1-2,4-")
    ensures RangeSelection([1.0, 2.0, 3.0, 4.0, 5.0], "1-2,4-", key, parse) == [1.0, 2.0, 4.0, 5.0]
  {
    SplitOpenEnd();
    SelectsOpenEnd(parse);
    SelectionOpenEnd(key, parse);
  }

  lemma SelectionOpenEnd(key: real -> real, parse: string -> Option<real>)
    requires forall x :: key(x) == x
    requires Split("1-2,4-", ",") == ["1-2", "4-"] && AllFragments(["1-2", "4-"])
    requires var fragments := ["1-2", "4-"];
      && Selects(fragments, 5.0, parse, 1.0) && Selects(fragments, 5.0, parse, 2.0)
      && !Selects(fragments, 5.0, parse, 3.0)
      && Selects(fragments, 5.0, parse, 4.0) && Selects(fragments, 5.0, parse, 5.0)
    ensures RangeWellFormed("1-2,4-")
    ensures RangeSelection([1.0, 2.0, 3.0, 4.0, 5.0], "1-2,4-", key, parse) == [1.0, 2.0, 4.0, 5.0]
  {
    KeeperOpenEnd(key, parse);
    FilterOpenEnd(Keeper(["1-2", "4-"], 5.0, parse, key));
    assert RangeSelection([1.0, 2.0, 3.0, 4.0, 5.0], "1-2,4-", key, parse)
        == Filter([1.0, 2.0, 3.0, 4.0, 5.0], Keeper(["1-2", "4-"], 5.0, parse, key));
  }

  lemma KeeperOpenEnd(key: real -> real, parse: string -> Option<real>)
    requires forall x :: key(x) == x
    requires AllFragments(["1-2", "4-"])
    requires var fragments := ["1-2", "4-"];
      && Selects(fragments, 5.0, parse, 1.0) && Selects(fragments, 5.0, parse, 2.0)
      && !Selects(fragments, 5.0, parse, 3.0)
      && Selects(fragments, 5.0, parse, 4.0) && Selects(fragments, 5.0, parse, 5.0)
    ensures var keep := Keeper(["1-2", "4-"], 5.0, parse, key);
      keep(1.0) && keep(2.0) && !keep(3.0) && keep(4.0) && keep(5.0)
  {
  }

  lemma FilterOpenEnd(keep: real -> bool)
    requires keep(1.0) && keep(2.0) && !keep(3.0) && keep(4.0) && keep(5.0)
    ensures Filter([1.0, 2.0, 3.0, 4.0, 5.0], keep) == [1.0, 2.0, 4.0, 5.0]
  {
    FilterFive(keep, 1.0, 2.0, 3.0, 4.0, 5.0);
    assert [1.0] + [2.0] + [] + [4.0] + [5.0] == [1.0, 2.0, 4.0, 5.0];
  }

  lemma BoundsOpenEnd(parse: string -> Option<real>)
    requires parse("1") == Some(1.0) && parse("2") == Some(2.0)
    requires parse("4") == Some(4.0) && parse("") == None
    ensures Contains("1-2", "-") && Contains("4-", "-")
    ensures Bounds("1-2", 5.0, parse) == (1.0, 2.0) && Bounds("4-", 5.0, parse) == (4.0, 5.0)
  {
    SplitOpenEnd();
  }

  lemma SelectsOpenEnd(parse: string -> Option<real>)
    requires parse("1") == Some(1.0) && parse("2") == Some(2.0)
    requires parse("4") == Some(4.0) && parse("") == None
    ensures AllFragments(["1-2", "4-"])
    ensures var fragments := ["1-2", "4-"];
      && Selects(fragments, 5.0, parse, 1.0) && Selects(fragments, 5.0, parse, 2.0)
      && !Selects(fragments, 5.0, parse, 3.0)
      && Selects(fragments, 5.0, parse, 4.0) && Selects(fragments, 5.0, parse, 5.0)
  {
    BoundsOpenEnd(parse);
    SelectsTwo("1-2", "4-", 5.0, parse);
  }

  /** A worked example of the range syntax on keys 1 to 5: `5-2` is empty
      and contributes nothing. */
  lemma RangeExampleEmptyFragment(key: real -> real, parse: string -> Option<real>)
    requires forall x :: key(x) == x
    requires parse("1") == Some(1.0) && parse("2") == Some(2.0)
    requires parse("3") == Some(3.0) && parse("5") == Some(5.0)
    ensures RangeWellFormed("5-2,1-3")
    ensures RangeSelection([1.0, 2.0, 3.0, 4.0, 5.0], "5-2,1-3", key, parse) == [1.0, 2.0, 3.0]
  {
    SplitEmptyFragment();
    SelectsEmptyFragment(parse);
    SelectionEmptyFragment(key, parse);
  }

  lemma SelectionEmptyFragment(key: real -> real, parse: string -> Option<real>)
    requires forall x :: key(x) == x
    requires Split("5-2,1-3", ",") == ["5-2", "1-3"] && AllFragments(["5-2", "1-3"])
    requires var fragments := ["5-2", "1-3"];
      && Selects(fragments, 5.0, parse, 1.0) && Selects(fragments, 5.0, parse, 2.0)
      && Selects(fragments, 5.0, parse, 3.0)
      && !Selects(fragments, 5.0, parse, 4.0) && !Selects(fragments, 5.0, parse, 5.0)
    ensures RangeWellFormed("5-2,1-3")
    ensures RangeSelection([1.0, 2.0, 3.0, 4.0, 5.0], "5-2,1-3", key, parse) == [1.0, 2.0, 3.0]
  {
    KeeperEmptyFragment(key, parse);
    FilterEmptyFragment(Keeper(["5-2", "1-3"], 5.0, parse, key));
    assert RangeSelection([1.0, 2.0, 3.0, 4.0, 5.0], "5-2,1-3", key, parse)
        == Filter([1.0, 2.0, 3.0, 4.0, 5.0], Keeper(["5-2", "1-3"], 5.0, parse, key));
  }

  lemma KeeperEmptyFragment(key: real -> real, parse: string -> Option<real>)
    requires forall x :: key(x) == x
    requires AllFragments(["5-2", "1-3"])
    requires var fragments := ["5-2", "1-3"];
      && Selects(fragments, 5.0, parse, 1.0) && Selects(fragments, 5.0, parse, 2.0)
      && Selects(fragments, 5.0, parse, 3.0)
      && !Selects(fragments, 5.0, parse, 4.0) && !Selects(fragments, 5.0, parse, 5.0)
    ensures var keep := Keeper(["5-2", "1-3"], 5.0, parse, key);
      keep(1.0) && keep(2.0) && keep(3.0) && !keep(4.0) && !keep(5.0)
  {
  }

  lemma FilterEmptyFragment(keep: real -> bool)
    requires keep(1.0) && keep(2.0) && keep(3.0) && !keep(4.0) && !keep(5.0)
    ensures Filter([1.0, 2.0, 3.0, 4.0, 5.0], keep) == [1.0, 2.0, 3.0]
  {
    FilterFive(keep, 1.0, 2.0, 3.0, 4.0, 5.0);
  }

  lemma BoundsEmptyFragment(parse: string -> Option<real>)
    requires parse("1") == Some(1.0) && parse("2") == Some(2.0)
    requires parse("3") == Some(3.0) && parse("5") == Some(5.0)
    ensures Contains("5-2", "-") && Contains("1-3", "-")
    ensures Bounds("5-2", 5.0, parse) == (5.0, 2.0) && Bounds("1-3", 5.0, parse) == (1.0, 3.0)
  {
    SplitEmptyFragment();
  }

  lemma SelectsEmptyFragment(parse: string -> Option<real>)
    requires parse("1") == Some(1.0) && parse("2") == Some(2.0)
    requires parse("3") == Some(3.0) && parse("5") == Some(5.0)
    ensures AllFragments(["5-2", "1-3"])
    ensures var fragments := ["5-2", "1-3"];
      && Selects(fragments, 5.0, parse, 1.0) && Selects(fragments, 5.0, parse, 2.0)
      && Selects(fragments, 5.0, parse, 3.0)
      && !Selects(fragments, 5.0, parse, 4.0) && !Selects(fragments, 5.0, parse, 5.0)
  {
    BoundsEmptyFragment(parse);
    SelectsTwo("5-2", "1-3", 5.0, parse);
  }

  /** A range of two fragments selects a key when either interval holds it. */
  lemma SelectsTwo(f1: string, f2: string, lastOrd: real, parse: string -> Option<real>)
    requires Contains(f1, "-") && Contains(f2, "-")
    ensures AllFragments([f1, f2])
    ensures forall key :: Selects([f1, f2], lastOrd, parse, key) <==>
      (Bounds(f1, lastOrd, parse).0 <= key <= Bounds(f1, lastOrd, parse).1)
      || (Bounds(f2, lastOrd, parse).0 <= key <= Bounds(f2, lastOrd, parse).1)
  {
    var fragments := [f1, f2];
    assert fragments[0] == f1 && fragments[1] == f2;
    forall key ensures Selects(fragments, lastOrd, parse, key) <==>
      InFragment(f1, lastOrd, parse, key) || InFragment(f2, lastOrd, parse, key)
    {
      if InFragment(f2, lastOrd, parse, key) {
        assert InFragment(fragments[1], lastOrd, parse, key);
      }
    }
  }

  lemma SplitOpenEnd()
    ensures Split("1-2,4-", ",") == ["1-2", "4-"]
    ensures Split("1-2", "-") == ["1", "2"] && Split("4-", "-") == ["4", ""]
    ensures Contains("1-2", "-") && Contains("4-", "-")
  {
    SplitOpenEndCommas();
    SplitFragment12();
    SplitFragment4();
  }

  lemma SplitOpenEndCommas()
    ensures Split("1-2,4-", ",") == ["1-2", "4-"]
  {
    SplitOnce("1-2,4-", ',', 3, "1-2", "4-");
  }

  lemma SplitEmptyFragment()
    ensures Split("5-2,1-3", ",") == ["5-2", "1-3"]
    ensures Split("5-2", "-") == ["5", "2"] && Split("1-3", "-") == ["1", "3"]
    ensures Contains("5-2", "-") && Contains("1-3", "-")
  {
    SplitEmptyFragmentCommas();
    SplitFragment52();
    SplitFragment13();
  }

  lemma SplitEmptyFragmentCommas()
    ensures Split("5-2,1-3", ",") == ["5-2", "1-3"]
  {
    SplitOnce("5-2,1-3", ',', 3, "5-2", "1-3");
  }

  lemma SplitFragment12()
    ensures Split("1-2", "-") == ["1", "2"] && Contains("1-2", "-")
  {
    SplitDash("1-2", "1", "2");
  }

  lemma SplitFragment4()
    ensures Split("4-", "-") == ["4", ""] && Contains("4-", "-")
  {
    SplitDash("4-", "4", "");
  }

  lemma SplitFragment52()
    ensures Split("5-2", "-") == ["5", "2"] && Contains("5-2", "-")
  {
    SplitDash("5-2", "5", "2");
  }

  lemma SplitFragment13()
    ensures Split("1-3", "-") == ["1", "3"] && Contains("1-3", "-")
  {
    SplitDash("1-3", "1", "3");
  }

  /** A fragment `a-b` with no other dash splits into `a` and `b`. */
  lemma SplitDash(s: string, a: string, b: string)
    requires s == a + "-" + b && '-' !in a && '-' !in b
    ensures Split(s, "-") == [a, b] && Contains(s, "-")
  {
    SplitOnce(s, '-', |a|, a, b);
  }

  lemma SplitOnce(s: string, c: char, i: nat, before: string, after: string)
    requires s == before + [c] + after && |before| == i
    requires c !in before && c !in after
    ensures Split(s, [c]) == [before, after] && Contains(s, [c])
  {
    assert s[i] == c;
    assert forall j :: 0 <= j < |s| && j != i ==> s[j] != c by {
      forall j | 0 <= j < |s| && j != i ensures s[j] != c {
        if j < i {
          assert s[j] == before[j];
        } else {
          assert s[j] == after[j - i - 1];
        }
      }
    }
    SplitAt(s, c, i);
    assert s[..i] == before && s[i + 1..] == after;
    SplitTwoPieces(s, [c]);
  }

  /** Filtering the keys 1 to 5 by a test whose outcome on each is known. */
  lemma FilterFive(keep: real -> bool, a: real, b: real, c: real, d: real, e: real)
    ensures Filter([a, b, c, d, e], keep) ==
      (if keep(a) then [a] else []) + (if keep(b) then [b] else []) + (if keep(c) then [c] else [])
      + (if keep(d) then [d] else []) + (if keep(e) then [e] else [])
  {
    FilterThree(keep, a, b, c);
    FilterSnoc([a, b, c], d, keep);
    assert [a, b, c] + [d] == [a, b, c, d];
    FilterSnoc([a, b, c, d], e, keep);
    assert [a, b, c, d] + [e] == [a, b, c, d, e];
  }

  lemma FilterThree(keep: real -> bool, a: real, b: real, c: real)
    ensures Filter([a, b, c], keep) ==
      (if keep(a) then [a] else []) + (if keep(b) then [b] else []) + (if keep(c) then [c] else [])
  {
    FilterSnoc([], a, keep);
    assert [] + [a] == [a];
    FilterSnoc([a], b, keep);
    assert [a] + [b] == [a, b];
    FilterSnoc([a, b], c, keep);
    assert [a, b] + [c] == [a, b, c];
  }

  /** An open upper bound is the key of the last item, not the largest
      key: on keys 3 then 1, `2-` selects nothing although 3 is above 2. */
  lemma OpenRangeEndsAtLastKey(key: real -> real, parse: string -> Option<real>)
    requires forall x :: key(x) == x
    requires parse("2") == Some(2.0) && parse("") == None
    ensures RangeWellFormed("2-")
    ensures RangeSelection([3.0, 1.0], "2-", key, parse) == []
  {
    SplitAt("2-", '-', 1);
    assert "2-"[..1] == "2" && "2-"[2..] == "";
    assert Split("2-", "-") == ["2", ""];
    FindNone("2-", ',');
    assert Split("2-", ",") == ["2-"];
    assert Bounds("2-", 1.0, parse) == (2.0, 1.0);
    assert !InFragment("2-", 1.0, parse, 3.0) && !InFragment("2-", 1.0, parse, 1.0);
    assert !Selects(["2-"], 1.0, parse, 3.0) && !Selects(["2-"], 1.0, parse, 1.0);
    assert [3.0, 1.0][..1] == [3.0];
  }

  /** Splitting a string at the only occurrence of a character. */
  lemma SplitAt(s: string, c: char, i: nat)
    requires i < |s| && s[i] == c
    requires forall j :: 0 <= j < |s| && j != i ==> s[j] != c
    ensures Split(s, [c]) == [s[..i], s[i + 1..]]
  {
    assert s[i..i + 1] == [c];
    FindFirst(s, c, i);
    var rest := s[i + 1..];
    assert forall j :: 0 <= j < |rest| ==> rest[j] != c by {
      forall j | 0 <= j < |rest| ensures rest[j] != c {
        assert rest[j] == s[i + 1 + j];
      }
    }
    FindNone(rest, c);
    assert Split(rest, [c]) == [rest];
  }

  lemma FindFirst(s: string, c: char, i: nat)
    requires i < |s| && s[i] == c
    requires forall j :: 0 <= j < i ==> s[j] != c
    ensures Find(s, [c]) == Some(i)
  {
    assert IsAt(s, i, [c]) by { assert s[i..i + 1] == [c]; }
  }

  lemma FindNone(s: string, c: char)
    requires forall j :: 0 <= j < |s| ==> s[j] != c
    ensures Find(s, [c]) == None
  {
    forall j | 0 <= j < |s| ensures !IsAt(s, j, [c]) {
      assert s[j..j + 1][0] == s[j];
    }
  }

  /* ---------------- make_groups ---------------- */

  /** `make_groups`: cuts the list into consecutive groups of `num`
      episodes; the last group holds what is left over. With `num == 0`
      no group is ever full, so everything lands in one group. */
  method MakeGroups(list: seq<EpisodeCache>, num: nat) returns (groups: seq<Item>)
    ensures Episodes(groups) == list
    ensures NonEmptyGroups(groups)
    ensures num > 0 ==> forall k :: 0 <= k < |groups| - 1 ==> |groups[k].eps| == num
    ensures num > 0 && groups != [] ==> |groups[|groups| - 1].eps| <= num
    ensures list == [] <==> groups == []
    ensures num == 0 && list != [] ==> groups == [Group(list)]
    ensures num > 0 ==> groups == Chunks(list, num)
  {
    groups := [];
    var group: seq<EpisodeCache> := [];
    for i := 0 to |list|
      invariant Episodes(groups) + group == list[..i]
      invariant Grouping(groups, group, num)
    {
      assert list[..i + 1] == list[..i] + [list[i]];
      groups, group := PushEpisode(groups, group, list[i], num);
    }
    assert list[..|list|] == list;
    groups := CloseLastGroup(groups, group, list, num);
    if num > 0 {
      ChunksUnique(groups, list, num);
    }
  }

  /** The chunks of `num` episodes, the last one shorter when `num` does
      not divide the length, cut from the front. */
  function Chunks(list: seq<EpisodeCache>, num: nat): (r: seq<Item>)
    requires num > 0
    ensures NonEmptyGroups(r)
    ensures list == [] <==> r == []
    decreases |list|
  {
    if list == [] then []
    else if |list| <= num then [Group(list)]
    else [Group(list[..num])] + Chunks(list[num..], num)
  }

  /** Cutting a list into non-empty groups that are all full but the last,
      which is not over-full, can be done in one way only: `Chunks`. */
  lemma {:induction false} ChunksUnique(groups: seq<Item>, list: seq<EpisodeCache>, num: nat)
    requires num > 0 && Episodes(groups) == list && NonEmptyGroups(groups)
    requires forall k :: 0 <= k < |groups| - 1 ==> |groups[k].eps| == num
    requires groups != [] ==> |groups[|groups| - 1].eps| <= num
    ensures groups == Chunks(list, num)
    decreases |groups|
  {
    if groups != [] {
      var g, rest := groups[0], groups[1..];
      assert groups == [g] + rest;
      EpisodesCons(g, rest);
      if rest == [] {
        assert list == g.eps;
      } else {
        assert |g.eps| == num;
        assert NonEmptyGroups(rest) by {
          forall k | 0 <= k < |rest| ensures rest[k].Group? && rest[k].eps != [] {
            assert rest[k] == groups[k + 1];
          }
        }
        EpisodesNonEmpty(rest);
        assert list[..num] == g.eps && list[num..] == Episodes(rest);
        forall k | 0 <= k < |rest| - 1 ensures |rest[k].eps| == num {
          assert rest[k] == groups[k + 1];
        }
        ChunksUnique(rest, list[num..], num);
      }
    }
  }

  /** The end of `make_groups`: a non-empty left-over group is closed. */
  method CloseLastGroup(groups: seq<Item>, group: seq<EpisodeCache>, list: seq<EpisodeCache>, num: nat)
    returns (groups': seq<Item>)
    requires Episodes(groups) + group == list
    requires Grouping(groups, group, num)
    ensures Episodes(groups') == list
    ensures NonEmptyGroups(groups')
    ensures num > 0 ==> forall k :: 0 <= k < |groups'| - 1 ==> |groups'[k].eps| == num
    ensures num > 0 && groups' != [] ==> |groups'[|groups'| - 1].eps| <= num
    ensures list == [] <==> groups' == []
    ensures num == 0 && list != [] ==> groups' == [Group(list)]
  {
    groups' := groups;
    if group != [] {
      CloseGroup(groups, group, num);
      LastGroupSize(groups, group, num);
      groups' := groups + [Group(group)];
      if num == 0 {
        assert Episodes(groups) == [] && group == list;
      }
    } else if groups != [] {
      EpisodesNonEmpty(groups);
    }
  }

  /** Closing the left-over group keeps every group but the last full. */
  lemma LastGroupSize(groups: seq<Item>, group: seq<EpisodeCache>, num: nat)
    requires num > 0 ==> GroupsOfSize(groups, num) && |group| < num
    ensures var all := groups + [Group(group)];
      num > 0 ==> (forall k :: 0 <= k < |all| - 1 ==> |all[k].eps| == num) && |all[|all| - 1].eps| <= num
  {
  }

  /** One step of `make_groups`: the episode joins the open group, which is
      closed once it holds `num` episodes. */
  method PushEpisode(groups: seq<Item>, group: seq<EpisodeCache>, x: EpisodeCache, num: nat)
    returns (groups': seq<Item>, group': seq<EpisodeCache>)
    requires Grouping(groups, group, num)
    ensures Episodes(groups') + group' == Episodes(groups) + group + [x]
    ensures Grouping(groups', group', num)
  {
    group' := group + [x];
    groups' := groups;
    if |group'| == num {
      CloseGroup(groups, group', num);
      groups' := groups + [Group(group')];
      group' := [];
    }
  }

  /** Closing a non-empty group appends its episodes and keeps every group
      non-empty and, when it is full, of the chunk size. */
  lemma CloseGroup(groups: seq<Item>, group: seq<EpisodeCache>, num: nat)
    requires group != [] && NonEmptyGroups(groups)
    ensures Episodes(groups + [Group(group)]) == Episodes(groups) + group
    ensures NonEmptyGroups(groups + [Group(group)])
    ensures GroupsOfSize(groups, num) && |group| == num ==> GroupsOfSize(groups + [Group(group)], num)
  {
    EpisodesSnoc(groups, Group(group));
  }

  /** The state of `make_groups` between episodes: the closed groups are
      non-empty and full, and the open group is not yet full; with a chunk
      size of 0 no group is ever closed. */
  predicate Grouping(groups: seq<Item>, group: seq<EpisodeCache>, num: nat) {
    NonEmptyGroups(groups)
    && (num > 0 ==> GroupsOfSize(groups, num) && |group| < num)
    && (num == 0 ==> groups == [])
  }

  /** Every item is a group with at least one episode. */
  predicate NonEmptyGroups(groups: seq<Item>) {
    forall k :: 0 <= k < |groups| ==> groups[k].Group? && groups[k].eps != []
  }

  /** Non-empty groups hold at least one episode between them. */
  lemma EpisodesNonEmpty(groups: seq<Item>)
    requires groups != [] && NonEmptyGroups(groups)
    ensures Episodes(groups) != []
  {
    assert |ItemEpisodes(groups[|groups| - 1])| > 0;
  }

  /** Every item is a group of exactly `num` episodes. */
  predicate GroupsOfSize(groups: seq<Item>, num: nat) {
    forall k :: 0 <= k < |groups| ==> groups[k].Group? && |groups[k].eps| == num
  }

  /* ---------------- parse_id ---------------- */

  /** `parse_id`: the whole string as a `u32`; failing that, the leading
      characters satisfying `isNumeric` (Rust's `char::is_numeric`) of the
      second `mc`-separated piece, as a `u32`. */
  function ParseId(s: string, isNumeric: char -> bool): (r: Option<u32>)
    ensures ParseU32(s).Some? ==> r == ParseU32(s)
    ensures ParseU32(s).None? && !Contains(s, "mc") ==> r == None
    ensures ParseU32(s).None? && Contains(s, "mc") && !isNumeric('m') ==>
      r == ParseU32(TakeWhile(AfterFirst(s, "mc"), isNumeric))
  {
    if ParseU32(s).Some? then ParseU32(s)
    else if Contains(s, "mc") then
      var digits := TakeWhile(SecondPiece(s, "mc"), isNumeric);
      SecondPieceNumericPrefix(s, isNumeric);
      ParseU32(digits)
    else None
  }

  /** The numeric prefix of the piece between the first and the second
      `mc` is the numeric prefix of everything after the first `mc`: the
      piece ends where an `m` begins, and `m` is not numeric. */
  lemma SecondPieceNumericPrefix(s: string, isNumeric: char -> bool)
    requires Contains(s, "mc")
    ensures !isNumeric('m') ==>
      TakeWhile(SecondPiece(s, "mc"), isNumeric) == TakeWhile(AfterFirst(s, "mc"), isNumeric)
  {
    var i := Find(s, "mc").value;
    var rest := s[i + 2..];
    assert AfterFirst(s, "mc") == rest;
    assert SecondPiece(s, "mc") == Split(rest, "mc")[0];
    if !isNumeric('m') {
      FirstPieceNumericPrefix(rest, isNumeric);
    }
  }

  /** The numeric prefix of the first `mc`-separated piece of `rest` is
      that of `rest` itself when `m` is not numeric. */
  lemma FirstPieceNumericPrefix(rest: string, isNumeric: char -> bool)
    requires !isNumeric('m')
    ensures TakeWhile(Split(rest, "mc")[0], isNumeric) == TakeWhile(rest, isNumeric)
  {
    match Find(rest, "mc")
    case None =>
    case Some(j) =>
      assert Split(rest, "mc")[0] == rest[..j];
      assert rest[j] == 'm' by { assert rest[j..j + 2] == "mc"; }
      TakeWhilePrefix(rest, j, isNumeric);
  }

  /** Cutting a string just before a character that fails `p` leaves its
      longest `p`-prefix alone. */
  lemma {:induction false} TakeWhilePrefix(s: string, n: nat, p: char -> bool)
    requires n < |s| && !p(s[n])
    ensures TakeWhile(s[..n], p) == TakeWhile(s, p)
    decreases n
  {
    if n > 0 && p(s[0]) {
      TakeWhilePrefix(s[1..], n - 1, p);
      assert s[..n][1..] == s[1..][..n - 1];
    }
  }

  /** A bare id parses as itself. */
  lemma ParseIdPlain(isNumeric: char -> bool)
    ensures ParseId("29911", isNumeric) == Some(29911)
  {
    DigitsExample();
  }

  lemma DigitsExample()
    ensures ParseU32("29911") == Some(29911)
  {
    DigitsValueSnoc("", '2');
    assert "" + ['2'] == "2";
    DigitsValueSnoc("2", '9');
    assert "2" + ['9'] == "29";
    DigitsValueSnoc("29", '9');
    assert "29" + ['9'] == "299";
    DigitsValueSnoc("299", '1');
    assert "299" + ['1'] == "2991";
    DigitsValueSnoc("2991", '1');
    assert "2991" + ['1'] == "29911";
  }

  /** An id after `mc` is read up to the first non-numeric character. */
  lemma ParseIdLink(isNumeric: char -> bool)
    requires forall c :: '0' <= c <= '9' ==> isNumeric(c)
    requires !isNumeric('m') && !isNumeric('?')
    ensures ParseId("mc" + "29911" + "?from=manga_detail", isNumeric) == Some(29911)
  {
    DigitsExample();
    LinkId("29911", "?from=manga_detail", isNumeric);
  }

  /** A link `mc<digits><tail>` whose tail starts with a non-numeric
      character yields the value of its digits. */
  lemma LinkId(digits: string, tail: string, isNumeric: char -> bool)
    requires ParseU32(digits).Some? && digits[0] != '+'
    requires forall c :: '0' <= c <= '9' ==> isNumeric(c)
    requires !isNumeric('m') && tail != [] && !isNumeric(tail[0])
    ensures ParseId("mc" + digits + tail, isNumeric) == ParseU32(digits)
  {
    var s := "mc" + digits + tail;
    assert s[..2] == "mc";
    assert Find(s, "mc") == Some(0);
    assert !IsDigit(s[0]) && UnsignedDigits(s) == s;
    assert AfterFirst(s, "mc") == digits + tail;
    TakeWhileUpTo(digits, tail, isNumeric);
  }

  /** The longest `p`-prefix of `a + b` is `a` when `a` satisfies `p`
      throughout and `b` starts with a character that does not. */
  lemma TakeWhileUpTo(a: string, b: string, p: char -> bool)
    requires forall i :: 0 <= i < |a| ==> p(a[i])
    requires b != [] && !p(b[0])
    ensures TakeWhile(a + b, p) == a
  {
    TakeWhileStops(a + b, |a|, p);
    assert (a + b)[..|a|] == a;
  }

  /** The longest `p`-prefix ends at the first character failing `p`. */
  lemma TakeWhileStops(s: string, n: nat, p: char -> bool)
    requires n < |s| && !p(s[n])
    requires forall i :: 0 <= i < n ==> p(s[i])
    ensures TakeWhile(s, p) == s[..n]
  {
    var r := TakeWhile(s, p);
    if |r| < n {
      assert p(s[|r|]);
    }
  }

  /** A number too large for 32 bits with no `mc` in it is no id. */
  lemma ParseIdOverflow(isNumeric: char -> bool)
    ensures ParseId("4294967296", isNumeric) == None
  {
    OverflowDigits();
    FindNoChar("4294967296", "mc");
  }

  lemma OverflowDigits()
    ensures ParseU32("4294967296") == None
  {
    OverflowHead();
    DigitsValueSnoc("42949", '6');
    assert "42949" + ['6'] == "429496";
    DigitsValueSnoc("429496", '7');
    assert "429496" + ['7'] == "4294967";
    DigitsValueSnoc("4294967", '2');
    assert "4294967" + ['2'] == "42949672";
    DigitsValueSnoc("42949672", '9');
    assert "42949672" + ['9'] == "429496729";
    DigitsValueSnoc("429496729", '6');
    assert "429496729" + ['6'] == "4294967296";
  }

  lemma OverflowHead()
    ensures AllDigits("42949") && DigitsValue("42949") == 42949
  {
    DigitsValueSnoc("", '4');
    assert "" + ['4'] == "4";
    DigitsValueSnoc("4", '2');
    assert "4" + ['2'] == "42";
    DigitsValueSnoc("42", '9');
    assert "42" + ['9'] == "429";
    DigitsValueSnoc("429", '4');
    assert "429" + ['4'] == "4294";
    DigitsValueSnoc("4294", '9');
    assert "4294" + ['9'] == "42949";
  }

  /** A pattern whose first character does not occur is not found. */
  lemma FindNoChar(s: string, pat: string)
    requires |pat| > 0 && pat[0] !in s
    ensures Find(s, pat) == None
  {
    forall j | 0 <= j <= |s| ensures !IsAt(s, j, pat) {
      if j + |pat| <= |s| {
        assert s[j..j + |pat|][0] == s[j];
      }
    }
  }
}
