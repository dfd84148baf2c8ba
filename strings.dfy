/** Small option/result wrappers used throughout the model. */
module Wrappers {
  datatype Option<+T> = None | Some(value: T)

  datatype Result<+T, +E> = Ok(value: T) | Err(error: E)
}

/**
 * The PHP string primitives the scanner relies on, on `seq<char>`:
 * `strrpos` (and the truthiness test the scanner applies to it),
 * `str_replace` with an empty replacement, `basename`, `strtolower`,
 * `trim` and `substr`.
 */
module Strings {
  import opened Wrappers

  /** `pat` occurs in `s` starting at index `k`. */
  predicate OccursAt(s: string, pat: string, k: nat) {
    k + |pat| <= |s| && s[k..k + |pat|] == pat
  }

  /** `pat` occurs in `a + pat + b` right after `a`. */
  lemma OccursIn(a: string, pat: string, b: string)
    ensures OccursAt(a + pat + b, pat, |a|)
  {
    assert (a + pat + b)[|a|..|a| + |pat|] == pat;
  }

  /** Last index `<= k` at which `pat` occurs, searching downwards. */
  function LastAtOrBefore(s: string, pat: string, k: nat): (r: Option<nat>)
    ensures r.Some? ==> r.value <= k && OccursAt(s, pat, r.value)
    ensures r.Some? ==> forall j :: r.value < j <= k ==> !OccursAt(s, pat, j)
    ensures r.None? ==> forall j :: 0 <= j <= k ==> !OccursAt(s, pat, j)
    decreases k
  {
    if OccursAt(s, pat, k) then Some(k)
    else if k == 0 then None
    else LastAtOrBefore(s, pat, k - 1)
  }

  /** PHP `strrpos(s, pat)`: the index of the last occurrence, or false (None). */
  function LastIndexOf(s: string, pat: string): (r: Option<nat>)
    ensures r.Some? ==> OccursAt(s, pat, r.value)
    ensures r.Some? ==> forall j :: r.value < j ==> !OccursAt(s, pat, j)
    ensures r.None? ==> forall j :: !OccursAt(s, pat, j)
  {
    LastAtOrBefore(s, pat, |s|)
  }

  /**
   * The scanner's test `if (strrpos($s, $pat))`: PHP reads the index 0
   * as false, so only a last occurrence at a positive index passes.
   */
  predicate StrrposTruthy(s: string, pat: string) {
    match LastIndexOf(s, pat)
    case Some(k) => k != 0
    case None => false
  }

  /** The test passes exactly when `pat` occurs somewhere after index 0. */
  lemma StrrposTruthyIff(s: string, pat: string)
    ensures StrrposTruthy(s, pat) <==> exists k :: 0 < k && OccursAt(s, pat, k)
  {
    if k :| 0 < k && OccursAt(s, pat, k) {
      var r := LastIndexOf(s, pat);
      assert r.Some?;
      assert r.value >= k;
    }
  }

  /** A string that is exactly `pat` never passes the test (position 0 reads as false). */
  lemma StrrposOfItself(pat: string)
    requires pat != []
    ensures !StrrposTruthy(pat, pat)
  {
    StrrposTruthyIff(pat, pat);
  }

  /** Passing the test needs at least one character before the occurrence. */
  lemma StrrposTruthyLength(s: string, pat: string)
    requires StrrposTruthy(s, pat)
    ensures |s| > |pat|
  {
    StrrposTruthyIff(s, pat);
    var k :| 0 < k && OccursAt(s, pat, k);
  }

  /** PHP `str_replace(pat, '', s)`: removes every occurrence, left to right, without rescanning. */
  function RemoveAll(s: string, pat: string): (r: string)
    requires pat != []
    ensures |r| <= |s|
    decreases |s|
  {
    if OccursAt(s, pat, 0) then RemoveAll(s[|pat|..], pat)
    else if s == [] then []
    else [s[0]] + RemoveAll(s[1..], pat)
  }

  /** An occurrence after the first character is an occurrence in the tail. */
  lemma OccursAtTail(s: string, pat: string, k: nat)
    requires s != []
    ensures OccursAt(s, pat, k + 1) <==> OccursAt(s[1..], pat, k)
  {
    if k + 1 + |pat| <= |s| {
      var a, b := s[k + 1..k + 1 + |pat|], s[1..][k..k + |pat|];
      forall j | 0 <= j < |a| ensures a[j] == b[j] {
        assert a[j] == s[k + 1 + j];
      }
      assert a == b;
    }
  }

  /** A string shorter than the pattern is left as it is. */
  lemma {:induction false} RemoveAllShort(s: string, pat: string)
    requires pat != [] && |s| < |pat|
    ensures RemoveAll(s, pat) == s
  {
    if s != [] {
      RemoveAllShort(s[1..], pat);
      assert [s[0]] + s[1..] == s;
    }
  }

  /** Removing `pat` from `w + pat`, where it does not start inside `w`, gives back `w`. */
  lemma {:induction false} RemoveAllSuffix(w: string, pat: string)
    requires pat != []
    requires forall k: nat :: k < |w| ==> !OccursAt(w + pat, pat, k)
    ensures RemoveAll(w + pat, pat) == w
  {
    var s := w + pat;
    if w == [] {
      assert s == pat && s[|pat|..] == [];
      assert OccursAt(s, pat, 0);
    } else {
      assert !OccursAt(s, pat, 0);
      assert s[1..] == w[1..] + pat;
      forall k: nat | k < |w| - 1 ensures !OccursAt(w[1..] + pat, pat, k) {
        OccursAtTail(s, pat, k);
      }
      RemoveAllSuffix(w[1..], pat);
      assert [w[0]] + w[1..] == w;
    }
  }

  /**
   * The first occurrence is removed and the search resumes after it, so
   * every later occurrence that does not overlap it is removed as well.
   */
  lemma {:induction false} RemoveAllFirst(a: string, pat: string, b: string)
    requires pat != []
    requires forall k: nat :: k < |a| ==> !OccursAt(a + pat + b, pat, k)
    ensures RemoveAll(a + pat + b, pat) == a + RemoveAll(b, pat)
    decreases |a|
  {
    var s := a + pat + b;
    if a == [] {
      assert s == pat + b && s[|pat|..] == b;
      assert OccursAt(s, pat, 0);
    } else {
      assert !OccursAt(s, pat, 0);
      assert s[1..] == a[1..] + pat + b;
      forall k: nat | k < |a| - 1 ensures !OccursAt(a[1..] + pat + b, pat, k) {
        OccursAtTail(s, pat, k);
      }
      RemoveAllFirst(a[1..], pat, b);
      assert [a[0]] + a[1..] == a;
      AppendAssoc([a[0]], a[1..], RemoveAll(b, pat));
    }
  }

  /** Removal changes nothing exactly when the pattern does not occur. */
  lemma {:induction false} RemoveAllUnchangedIff(s: string, pat: string)
    requires pat != []
    ensures RemoveAll(s, pat) == s <==> forall k :: !OccursAt(s, pat, k)
    decreases |s|
  {
    if OccursAt(s, pat, 0) {
      assert |RemoveAll(s[|pat|..], pat)| <= |s| - |pat|;
    } else if s == [] {
    } else {
      RemoveAllUnchangedIff(s[1..], pat);
      forall k: nat ensures OccursAt(s, pat, k + 1) <==> OccursAt(s[1..], pat, k) {
        OccursAtTail(s, pat, k);
      }
      if forall k :: !OccursAt(s[1..], pat, k) {
        forall k: nat ensures !OccursAt(s, pat, k) {
          if k > 0 { assert !OccursAt(s[1..], pat, k - 1); }
        }
      } else {
        var k: nat :| OccursAt(s[1..], pat, k);
        assert OccursAt(s, pat, k + 1);
      }
    }
  }

  /** PHP `basename` on a '/'-separated path: trailing separators are dropped first. */
  function Basename(p: string): (r: string)
    ensures '/' !in r
    ensures |r| <= |p|
  {
    if |p| > 0 && p[|p| - 1] == '/' then Basename(p[..|p| - 1])
    else AfterLastSlash(p)
  }

  function AfterLastSlash(p: string): (r: string)
    ensures '/' !in r
    ensures |r| <= |p| && r == p[|p| - |r|..]
  {
    if p == [] then []
    else if p[|p| - 1] == '/' then []
    else AfterLastSlash(p[..|p| - 1]) + [p[|p| - 1]]
  }

  /** The basename of `dir/name` is `name` for a plain entry name. */
  lemma {:induction false} BasenameOfChild(dir: string, name: string)
    requires name != [] && '/' !in name
    ensures Basename(dir + "/" + name) == name
  {
    AfterLastSlashOfChild(dir, name);
  }

  lemma {:induction false} AfterLastSlashOfChild(dir: string, name: string)
    requires '/' !in name
    ensures AfterLastSlash(dir + "/" + name) == name
    decreases |name|
  {
    var d := dir + "/";
    if name == [] {
      assert d + name == d;
      assert d[|d| - 1] == '/';
    } else {
      var init, c := name[..|name| - 1], name[|name| - 1];
      assert name == init + [c];
      AppendAssoc(d, init, [c]);
      AfterLastSlashOfChild(dir, init);
      var p := (d + init) + [c];
      assert p[..|p| - 1] == d + init;
    }
  }

  /** Concatenation is associative (stated once so that proofs need not rediscover it). */
  lemma AppendAssoc<T>(a: seq<T>, b: seq<T>, c: seq<T>)
    ensures (a + b) + c == a + (b + c)
  {
  }

  predicate IsUpper(c: char) { 'A' <= c <= 'Z' }

  /** PHP `strtolower`: ASCII upper-case letters become lower-case, all else is kept. */
  function ToLower(s: string): (r: string)
    ensures |r| == |s|
    ensures forall i :: 0 <= i < |r| ==> !IsUpper(r[i])
    ensures forall i :: 0 <= i < |s| && !IsUpper(s[i]) ==> r[i] == s[i]
    ensures forall i :: 0 <= i < |s| && IsUpper(s[i]) ==> r[i] == (s[i] as int + 32) as char
  {
    if s == [] then []
    else
      var c := s[0];
      [if IsUpper(c) then (c as int + 32) as char else c] + ToLower(s[1..])
  }

  /** The characters PHP `trim` strips by default: " \t\n\r\0\x0B". */
  predicate IsTrimmed(c: char) {
    c == ' ' || c == '\t' || c == '\n' || c == '\r' || c == '\0' || c == '\U{B}'
  }

  function TrimLeft(s: string): (r: string)
    ensures |r| <= |s| && r == s[|s| - |r|..]
    ensures r != [] ==> !IsTrimmed(r[0])
    ensures forall i :: 0 <= i < |s| - |r| ==> IsTrimmed(s[i])
  {
    if s != [] && IsTrimmed(s[0]) then TrimLeft(s[1..]) else s
  }

  function TrimRight(s: string): (r: string)
    ensures |r| <= |s| && r == s[..|r|]
    ensures r != [] ==> !IsTrimmed(r[|r| - 1])
    ensures forall i :: |r| <= i < |s| ==> IsTrimmed(s[i])
  {
    if s != [] && IsTrimmed(s[|s| - 1]) then TrimRight(s[..|s| - 1]) else s
  }

  /** `s` is `r` with the strippable characters before index `i` and after `i + |r|` around it. */
  predicate TrimSplit(s: string, r: string, i: nat) {
    OccursAt(s, r, i)
    && (forall k | 0 <= k < i :: IsTrimmed(s[k]))
    && (forall k | i + |r| <= k < |s| :: IsTrimmed(s[k]))
  }

  /**
   * PHP `trim`: `s` is the result with only strippable characters before
   * and after it, and the result neither starts nor ends with one.
   */
  function Trim(s: string): (r: string)
    ensures r != [] ==> !IsTrimmed(r[0]) && !IsTrimmed(r[|r| - 1])
    ensures exists i :: TrimSplit(s, r, i)
    ensures |r| <= |s|
  {
    TrimLeftRight(s);
    TrimRight(TrimLeft(s))
  }

  lemma TrimLeftRight(s: string)
    ensures TrimSplit(s, TrimRight(TrimLeft(s)), |s| - |TrimLeft(s)|)
  {
    TrimSplitOf(s, TrimLeft(s), TrimRight(TrimLeft(s)));
  }

  /** Stripping a prefix `s -> l`, then a suffix `l -> r`, leaves `r` split out of `s`. */
  lemma TrimSplitOf(s: string, l: string, r: string)
    requires |l| <= |s| && l == s[|s| - |l|..] && |r| <= |l| && r == l[..|r|]
    requires forall k | 0 <= k < |s| - |l| :: IsTrimmed(s[k])
    requires forall k | |r| <= k < |l| :: IsTrimmed(l[k])
    ensures TrimSplit(s, r, |s| - |l|)
  {
    var i := |s| - |l|;
    assert s[i..i + |r|] == r;
    forall k | i + |r| <= k < |s| ensures IsTrimmed(s[k]) {
      assert s[k] == l[k - i];
    }
  }

  /** A string that neither starts nor ends with a strippable character is its own trim. */
  lemma TrimUnchanged(s: string)
    requires s != [] && !IsTrimmed(s[0]) && !IsTrimmed(s[|s| - 1])
    ensures Trim(s) == s
  {
    assert TrimLeft(s) == s;
    assert TrimRight(s) == s;
  }

  /** PHP `substr(s, 1, -1)`: drops the first and last characters; too short gives "". */
  function DropEnds(s: string): (r: string)
    ensures |s| >= 2 ==> |r| == |s| - 2 && s == [s[0]] + r + [s[|s| - 1]]
    ensures |s| < 2 ==> r == []
  {
    if |s| >= 2 then s[1..|s| - 1] else []
  }

  /** PHP `substr(s, 0, -n)`: drops the last `n` characters; too short gives "". */
  function DropLast(s: string, n: nat): (r: string)
    ensures |s| >= n ==> s == r + s[|s| - n..]
    ensures |s| < n ==> r == []
  {
    if |s| >= n then s[..|s| - n] else []
  }

  predicate EndsWith(s: string, suffix: string) {
    |suffix| <= |s| && s[|s| - |suffix|..] == suffix
  }
}
