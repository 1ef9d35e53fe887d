/** Sequence operations the engine's list handling is stated with: ordered
    filtering and Python's `list.remove`. */
module Lists {

  /** No element occurs twice; a list built only by appending fresh objects.
      The quantifier fires only on `Apart` terms, so each use names the two
      positions it needs (see `DistinctAt`). */
  predicate Distinct<T(==)>(s: seq<T>) {
    forall i, j {:trigger Apart(s, i, j)} :: 0 <= i < j < |s| ==> Apart(s, i, j)
  }

  /** Positions `i` and `j` of `s` hold different elements. */
  predicate Apart<T(==)>(s: seq<T>, i: int, j: int) {
    0 <= i < |s| && 0 <= j < |s| && s[i] != s[j]
  }

  /** Two different positions of a duplicate-free list hold different elements. */
  lemma DistinctAt<T>(s: seq<T>, i: int, j: int)
    requires Distinct(s) && 0 <= i < |s| && 0 <= j < |s| && i != j
    ensures s[i] != s[j]
  {
    if i < j {
      assert Apart(s, i, j);
    } else {
      assert Apart(s, j, i);
    }
  }

  /** In a duplicate-free list, no other position holds the element at `i`. */
  lemma DistinctOthers<T>(s: seq<T>, i: int)
    requires Distinct(s) && 0 <= i < |s|
    ensures forall j :: 0 <= j < |s| && j != i ==> s[j] != s[i]
  {
    forall j | 0 <= j < |s| && j != i
      ensures s[j] != s[i]
    {
      DistinctAt(s, i, j);
    }
  }

  /** Putting a new element in front keeps a list duplicate-free. */
  lemma DistinctCons<T>(x: T, s: seq<T>)
    requires Distinct(s) && x !in s
    ensures Distinct([x] + s)
  {
    forall i, j | 0 <= i < j < |s| + 1
      ensures Apart([x] + s, i, j)
    {
      if i == 0 {
        assert ([x] + s)[j] == s[j - 1];
      } else {
        assert Apart(s, i - 1, j - 1);
      }
    }
  }

  /** Appending a new element keeps a list duplicate-free. */
  lemma DistinctSnoc<T>(s: seq<T>, x: T)
    requires Distinct(s) && x !in s
    ensures Distinct(s + [x])
  {
    forall i, j | 0 <= i < j < |s| + 1
      ensures Apart(s + [x], i, j)
    {
      if j < |s| {
        assert Apart(s, i, j);
      }
    }
  }

  /** Pointwise negation of a mask. */
  function Not(m: seq<bool>): seq<bool> {
    seq(|m|, i requires 0 <= i < |m| => !m[i])
  }

  /** The elements of `s` whose flag in `m` is set, in their original order. */
  function Select<T>(s: seq<T>, m: seq<bool>): (r: seq<T>)
    requires |s| == |m|
    ensures |r| <= |s|
  {
    if s == [] then [] else (if m[0] then [s[0]] else []) + Select(s[1..], m[1..])
  }

  /** Python's `list.remove(x)`: deletes the first occurrence of `x`; the
      Python call raises when `x` is absent, hence the precondition. */
  function RemoveFirst<T(==)>(s: seq<T>, x: T): (r: seq<T>)
    requires x in s
    ensures |r| == |s| - 1
    ensures multiset(r) == multiset(s) - multiset{x}
  {
    if s[0] == x then
      assert s == [s[0]] + s[1..];
      s[1..]
    else
      assert s == [s[0]] + s[1..];
      [s[0]] + RemoveFirst(s[1..], x)
  }

  /** An element survives the filter exactly when one of its occurrences is flagged. */
  lemma {:induction false} SelectMember<T>(s: seq<T>, m: seq<bool>, x: T)
    requires |s| == |m|
    ensures x in Select(s, m) <==> exists i :: 0 <= i < |s| && m[i] && s[i] == x
  {
    if s != [] {
      SelectMember(s[1..], m[1..], x);
      if x in Select(s[1..], m[1..]) {
        var i :| 0 <= i < |s[1..]| && m[1..][i] && s[1..][i] == x;
        assert m[i + 1] && s[i + 1] == x;
      }
      if exists i :: 0 <= i < |s| && m[i] && s[i] == x {
        var i :| 0 <= i < |s| && m[i] && s[i] == x;
        if i > 0 {
          assert m[1..][i - 1] && s[1..][i - 1] == x;
        }
      }
    }
  }

  /** Filtering a list extended by one element. */
  lemma {:induction false} SelectSnoc<T>(s: seq<T>, m: seq<bool>, x: T, b: bool)
    requires |s| == |m|
    ensures Select(s + [x], m + [b]) == Select(s, m) + (if b then [x] else [])
  {
    if s == [] {
      assert s + [x] == [x] && m + [b] == [b];
    } else {
      SelectSnoc(s[1..], m[1..], x, b);
      assert (s + [x])[1..] == s[1..] + [x];
      assert (m + [b])[1..] == m[1..] + [b];
    }
  }

  /** Filtering one more position of a list and its mask. */
  lemma SelectStep<T>(s: seq<T>, m: seq<bool>, i: nat)
    requires |s| == |m| && i < |s|
    ensures Select(s[..i + 1], m[..i + 1]) == Select(s[..i], m[..i]) + (if m[i] then [s[i]] else [])
  {
    SelectSnoc(s[..i], m[..i], s[i], m[i]);
    assert s[..i + 1] == s[..i] + [s[i]] && m[..i + 1] == m[..i] + [m[i]];
  }

  /** The filter keeps something iff some flag is set. */
  lemma {:induction false} SelectEmpty<T>(s: seq<T>, m: seq<bool>)
    requires |s| == |m|
    ensures Select(s, m) == [] <==> forall i :: 0 <= i < |m| ==> !m[i]
  {
    if s != [] {
      SelectEmpty(s[1..], m[1..]);
      if Select(s, m) == [] {
        forall i | 0 <= i < |m| ensures !m[i] {
          if i > 0 { assert m[1..][i - 1] == m[i]; }
        }
      }
    }
  }

  /** Flags that are all clear past `i` select only from the first `i`. */
  lemma {:induction false} SelectPrefix<T>(s: seq<T>, m: seq<bool>, i: nat)
    requires |s| == |m| && i <= |s|
    requires forall j :: i <= j < |m| ==> !m[j]
    ensures Select(s, m) == Select(s[..i], m[..i])
  {
    if s != [] {
      if i == 0 {
        SelectPrefix(s[1..], m[1..], 0);
      } else {
        SelectPrefix(s[1..], m[1..], i - 1);
        assert s[..i][1..] == s[1..][..i - 1] && m[..i][1..] == m[1..][..i - 1];
      }
    }
  }

  /** Filtering a duplicate-free list leaves it duplicate-free. */
  lemma {:induction false} SelectDistinct<T>(s: seq<T>, m: seq<bool>)
    requires |s| == |m| && Distinct(s)
    ensures Distinct(Select(s, m))
  {
    if s != [] {
      DistinctTail(s);
      SelectDistinct(s[1..], m[1..]);
      if m[0] {
        SelectMember(s[1..], m[1..], s[0]);
        DistinctCons(s[0], Select(s[1..], m[1..]));
        assert Select(s, m) == [s[0]] + Select(s[1..], m[1..]);
      } else {
        assert Select(s, m) == Select(s[1..], m[1..]);
      }
    }
  }

  /** The tail of a duplicate-free list is duplicate-free and lacks the head. */
  lemma DistinctTail<T>(s: seq<T>)
    requires Distinct(s) && s != []
    ensures Distinct(s[1..]) && s[0] !in s[1..]
  {
    forall i, j | 0 <= i < j < |s| - 1
      ensures Apart(s[1..], i, j)
    {
      assert Apart(s, i + 1, j + 1);
    }
    forall i | 0 <= i < |s| - 1
      ensures s[1..][i] != s[0]
    {
      assert Apart(s, 0, i + 1);
    }
  }

  /** `list.remove` keeps a duplicate-free list duplicate-free. */
  lemma {:induction false} RemoveFirstDistinct<T>(s: seq<T>, x: T)
    requires Distinct(s) && x in s
    ensures Distinct(RemoveFirst(s, x))
  {
    DistinctTail(s);
    if s[0] != x {
      RemoveFirstDistinct(s[1..], x);
      var r := RemoveFirst(s[1..], x);
      assert s[0] !in r by {
        assert s[0] !in multiset(s[1..]);
        assert multiset(r) <= multiset(s[1..]);
      }
      DistinctCons(s[0], r);
    }
  }

  /** Removing elements one by one keeps a duplicate-free list duplicate-free. */
  lemma {:induction false} RemoveEachDistinct<T>(s: seq<T>, gone: seq<T>)
    requires Distinct(s) && Removable(s, gone)
    ensures Distinct(RemoveEach(s, gone))
    decreases |gone|
  {
    if gone != [] {
      RemoveFirstDistinct(s, gone[0]);
      RemoveEachDistinct(RemoveFirst(s, gone[0]), gone[1..]);
    }
  }

  /** Python's `list.remove` on a list whose first element is not `x`. */
  lemma RemoveFirstCons<T>(h: T, d: seq<T>, x: T)
    requires h != x && x in d
    ensures RemoveFirst([h] + d, x) == [h] + RemoveFirst(d, x)
  {
    assert ([h] + d)[0] == h && ([h] + d)[1..] == d;
  }

  /** `list.remove` cuts out the first occurrence of `x` and keeps the rest
      in order. */
  lemma {:induction false} RemoveFirstSplice<T>(s: seq<T>, x: T, i: nat)
    requires i < |s| && s[i] == x && x !in s[..i]
    ensures RemoveFirst(s, x) == s[..i] + s[i + 1..]
  {
    if i > 0 {
      assert s[0] != x by { assert s[0] == s[..i][0]; }
      assert s[1..][..i - 1] == s[1..i];
      RemoveFirstSplice(s[1..], x, i - 1);
      assert s[..i] == [s[0]] + s[1..i];
    }
  }

  /** Whether `list.remove` succeeds for each element of `gone` in turn:
      every call must find its element in what the earlier calls left. */
  predicate Removable<T(==)>(s: seq<T>, gone: seq<T>)
    decreases |gone|
  {
    gone == [] || (gone[0] in s && Removable(RemoveFirst(s, gone[0]), gone[1..]))
  }

  /** `list.remove` applied to each element of `gone` in turn, as a loop
      over a list of tiles to remove does. */
  function RemoveEach<T(==)>(s: seq<T>, gone: seq<T>): (r: seq<T>)
    requires Removable(s, gone)
    ensures |r| == |s| - |gone|
    decreases |gone|
  {
    if gone == [] then s
    else
      assert gone == [gone[0]] + gone[1..];
      RemoveEach(RemoveFirst(s, gone[0]), gone[1..])
  }

  /** Removing elements other than the head leaves the head in front. */
  lemma {:induction false} RemoveEachCons<T>(h: T, t: seq<T>, gone: seq<T>)
    requires h !in gone && Removable(t, gone)
    ensures Removable([h] + t, gone)
    ensures RemoveEach([h] + t, gone) == [h] + RemoveEach(t, gone)
    decreases |gone|
  {
    if gone != [] {
      assert gone[0] != h;
      RemoveFirstCons(h, t, gone[0]);
      RemoveEachCons(h, RemoveFirst(t, gone[0]), gone[1..]);
    }
  }

  /** On a duplicate-free list, removing the flagged elements one by one
      keeps exactly the unflagged ones, in their order. */
  lemma {:induction false} RemoveEachSelected<T>(s: seq<T>, m: seq<bool>)
    requires |s| == |m| && Distinct(s)
    ensures Removable(s, Select(s, m))
    ensures RemoveEach(s, Select(s, m)) == Select(s, Not(m))
  {
    if s != [] {
      DistinctTail(s);
      RemoveEachSelected(s[1..], m[1..]);
      RemoveEachSelectedStep(s, m);
    }
  }

  /** The inductive step of `RemoveEachSelected`: from the tail to the list. */
  lemma RemoveEachSelectedStep<T>(s: seq<T>, m: seq<bool>)
    requires |s| == |m| && s != [] && s[0] !in s[1..]
    requires Removable(s[1..], Select(s[1..], m[1..]))
    requires RemoveEach(s[1..], Select(s[1..], m[1..])) == Select(s[1..], Not(m[1..]))
    ensures Removable(s, Select(s, m))
    ensures RemoveEach(s, Select(s, m)) == Select(s, Not(m))
  {
    NotTail(m);
    if m[0] {
      RemoveEachSelectedFlagged(s, m);
    } else {
      RemoveEachSelectedKept(s, m);
    }
  }

  /** The step when the head is flagged: it goes first. */
  lemma RemoveEachSelectedFlagged<T>(s: seq<T>, m: seq<bool>)
    requires |s| == |m| && s != [] && m[0] && !Not(m)[0] && Not(m)[1..] == Not(m[1..])
    requires Removable(s[1..], Select(s[1..], m[1..]))
    requires RemoveEach(s[1..], Select(s[1..], m[1..])) == Select(s[1..], Not(m[1..]))
    ensures Removable(s, Select(s, m))
    ensures RemoveEach(s, Select(s, m)) == Select(s, Not(m))
  {
    assert Select(s, m) == [s[0]] + Select(s[1..], m[1..]);
    RemoveEachFromHead(s, Select(s[1..], m[1..]));
  }

  /** The step when the head is kept: it stays in front. */
  lemma RemoveEachSelectedKept<T>(s: seq<T>, m: seq<bool>)
    requires |s| == |m| && s != [] && s[0] !in s[1..] && !m[0] && Not(m)[0] && Not(m)[1..] == Not(m[1..])
    requires Removable(s[1..], Select(s[1..], m[1..]))
    requires RemoveEach(s[1..], Select(s[1..], m[1..])) == Select(s[1..], Not(m[1..]))
    ensures Removable(s, Select(s, m))
    ensures RemoveEach(s, Select(s, m)) == Select(s, Not(m))
  {
    var rest := Select(s[1..], m[1..]);
    assert Select(s, m) == rest;
    SelectMember(s[1..], m[1..], s[0]);
    RemoveEachCons(s[0], s[1..], rest);
    assert s == [s[0]] + s[1..];
  }

  /** Negating a mask commutes with dropping its first flag. */
  lemma NotTail(m: seq<bool>)
    requires m != []
    ensures Not(m)[1..] == Not(m[1..]) && Not(m)[0] == !m[0]
  {
  }

  /** Removing the head first and then `gone` from the tail. */
  lemma RemoveEachFromHead<T>(s: seq<T>, gone: seq<T>)
    requires s != [] && Removable(s[1..], gone)
    ensures Removable(s, [s[0]] + gone)
    ensures RemoveEach(s, [s[0]] + gone) == RemoveEach(s[1..], gone)
  {
    assert ([s[0]] + gone)[0] == s[0] && ([s[0]] + gone)[1..] == gone;
  }
}
