/**
 * The list operations the scanner applies to its bundle-name list:
 * the guarded append `if (!in_array($x, $l)) $l[] = $x;` and
 * `array_diff($l, $exclude)`, with an independent first-occurrence
 * de-duplication to compare the guarded appends against.
 */
module Lists {
  import opened Strings

  predicate NoDup(s: seq<string>) {
    forall i, j | 0 <= i < j < |s| :: s[i] != s[j]
  }

  /** One guarded append: `x` is added at the end unless already present. */
  function AddName(bs: seq<string>, x: string): (r: seq<string>)
    ensures bs <= r && x in r
  {
    if x in bs then bs else bs + [x]
  }

  /** Guarded appends of every element of `xs`, in order. */
  function AddAll(bs: seq<string>, xs: seq<string>): (r: seq<string>)
    ensures bs <= r
    decreases |xs|
  {
    if xs == [] then bs else AddAll(AddName(bs, xs[0]), xs[1..])
  }

  /** Guarded appends add exactly the new elements, and never a duplicate. */
  lemma {:induction false} AddAllMembers(bs: seq<string>, xs: seq<string>)
    ensures forall y :: y in AddAll(bs, xs) <==> y in bs || y in xs
    ensures NoDup(bs) ==> NoDup(AddAll(bs, xs))
    decreases |xs|
  {
    if xs != [] {
      var b := AddName(bs, xs[0]);
      AddAllMembers(b, xs[1..]);
      assert forall y :: y in xs <==> y == xs[0] || y in xs[1..];
      if NoDup(bs) && xs[0] !in bs {
        assert NoDup(b);
      }
    }
  }

  /** A batch of one is one guarded append. */
  lemma AddAllOne(bs: seq<string>, x: string)
    ensures AddAll(bs, [x]) == AddName(bs, x)
  {
    assert AddAll(bs, [x]) == AddAll(AddName(bs, x), []);
  }

  /** Appending two batches one after the other is appending their concatenation. */
  lemma {:induction false} AddAllConcat(bs: seq<string>, xs: seq<string>, ys: seq<string>)
    ensures AddAll(bs, xs + ys) == AddAll(AddAll(bs, xs), ys)
    decreases |xs|
  {
    if xs == [] {
      assert xs + ys == ys;
    } else {
      assert (xs + ys)[0] == xs[0] && (xs + ys)[1..] == xs[1..] + ys;
      AddAllConcat(AddName(bs, xs[0]), xs[1..], ys);
    }
  }

  /** Appending one more element is one more guarded append. */
  lemma AddAllSnoc(bs: seq<string>, xs: seq<string>, x: string)
    ensures AddAll(bs, xs + [x]) == AddName(AddAll(bs, xs), x)
  {
    AddAllConcat(bs, xs, [x]);
    assert AddAll(AddName(AddAll(bs, xs), x), []) == AddName(AddAll(bs, xs), x);
  }

  /**
   * First-occurrence de-duplication, a reference definition independent
   * of `AddAll`: an element is kept when it does not occur earlier in `s`.
   */
  function Dedup(s: seq<string>): (r: seq<string>)
    ensures forall y :: y in r <==> y in s
    ensures NoDup(r)
  {
    if s == [] then []
    else
      var init, last := s[..|s| - 1], s[|s| - 1];
      assert forall y :: y in s <==> y in init || y == last;
      Dedup(init) + (if last in init then [] else [last])
  }

  /** A duplicate-free sequence is its own de-duplication. */
  lemma {:induction false} DedupOfNoDup(s: seq<string>)
    requires NoDup(s)
    ensures Dedup(s) == s
  {
    if s != [] {
      var init := s[..|s| - 1];
      assert NoDup(init);
      DedupOfNoDup(init);
      assert s[|s| - 1] !in init;
      assert init + [s[|s| - 1]] == s;
    }
  }

  /**
   * With a duplicate-free start, guarded appends produce exactly the
   * first-occurrence de-duplication of everything seen so far: no
   * duplicates, first occurrences kept in their original order.
   */
  lemma {:induction false} AddAllIsDedup(bs: seq<string>, xs: seq<string>)
    requires NoDup(bs)
    ensures AddAll(bs, xs) == Dedup(bs + xs)
    decreases |xs|
  {
    if xs == [] {
      assert bs + xs == bs;
      DedupOfNoDup(bs);
    } else {
      var init, x := xs[..|xs| - 1], xs[|xs| - 1];
      assert xs == init + [x];
      AddAllIsDedup(bs, init);
      AddAllSnoc(bs, init, x);
      AppendAssoc(bs, init, [x]);
      var all := (bs + init) + [x];
      assert all[..|all| - 1] == bs + init && all[|all| - 1] == x;
      var d := Dedup(bs + init);
      assert x in d <==> x in bs + init;
      assert Dedup(all) == d + (if x in bs + init then [] else [x]);
    }
  }

  /** `a` is `b` with some elements removed, the rest in the same order. */
  predicate IsSubsequence(a: seq<string>, b: seq<string>) {
    if a == [] then true
    else if b == [] then false
    else if a[0] == b[0] then IsSubsequence(a[1..], b[1..])
    else IsSubsequence(a, b[1..])
  }

  /** PHP `array_diff($s, $exclude)`: the elements of `s` not in `exclude`, in order. */
  function Without(s: seq<string>, exclude: seq<string>): (r: seq<string>)
    ensures forall y :: y in r <==> y in s && y !in exclude
    ensures NoDup(s) ==> NoDup(r)
  {
    if s == [] then []
    else if s[0] in exclude then Without(s[1..], exclude)
    else [s[0]] + Without(s[1..], exclude)
  }

  /** The survivors of `array_diff` keep their relative order. */
  lemma {:induction false} WithoutIsSubsequence(s: seq<string>, exclude: seq<string>)
    ensures IsSubsequence(Without(s, exclude), s)
  {
    if s != [] {
      WithoutIsSubsequence(s[1..], exclude);
      var w := Without(s[1..], exclude);
      if s[0] !in exclude {
        assert ([s[0]] + w)[0] == s[0] && ([s[0]] + w)[1..] == w;
      } else if w != [] {
        assert w[0] != s[0];
      }
    }
  }

  /** An empty exclude list changes nothing. */
  lemma {:induction false} WithoutNothing(s: seq<string>)
    ensures Without(s, []) == s
  {
    if s != [] {
      WithoutNothing(s[1..]);
    }
  }
}
