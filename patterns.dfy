/**
 * The three regular expressions of the scanner, each as a first-match
 * search over one line (PCRE without flags, so `\w` is `[A-Za-z0-9_]`
 * and `.` is any character except a line feed):
 *   - `(\w+Asset)::register` in view files,
 *   - `render\((.*?)(\)|,)` in controller files,
 *   - `\\(\w+Asset)` on a configured source entry.
 */
module Patterns {
  import opened Wrappers
  import opened Strings

  predicate IsWordChar(c: char) {
    'a' <= c <= 'z' || 'A' <= c <= 'Z' || '0' <= c <= '9' || c == '_'
  }

  /** Every character of `s[a..b]` is a word character. */
  predicate AllWord(s: string, a: nat, b: nat)
    requires a <= b <= |s|
  {
    forall k | a <= k < b :: IsWordChar(s[k])
  }

  /** End of the longest run of word characters that starts at `p`. */
  function WordEnd(s: string, p: nat): (e: nat)
    requires p <= |s|
    ensures p <= e <= |s| && AllWord(s, p, e)
    ensures e < |s| ==> !IsWordChar(s[e])
    decreases |s| - p
  {
    if p < |s| && IsWordChar(s[p]) then WordEnd(s, p + 1) else p
  }

  /** A word run from `p` that stops at `m` ends at `m`. */
  lemma {:induction false} WordEndAt(s: string, p: nat, m: nat)
    requires p <= m <= |s| && AllWord(s, p, m)
    requires m < |s| ==> !IsWordChar(s[m])
    ensures WordEnd(s, p) == m
    decreases m - p
  {
    if p < m {
      WordEndAt(s, p + 1, m);
    }
  }

  // ---------------------------------------------------------------------
  // `(\w+Asset)::register`

  /**
   * The regular expression matches at `p`, with `\w+` ending at `q`:
   * a non-empty word run `s[p..q]`, then `Asset`, then `::register`.
   */
  predicate RegisterMatch(s: string, p: nat, q: nat) {
    p < q <= |s| && AllWord(s, p, q) && OccursAt(s, "Asset", q) && OccursAt(s, "::register", q + 5)
  }

  /** The match that starts exactly at `p`, as its captured group. */
  function RegisterAt(s: string, p: nat): (r: Option<string>)
    requires p <= |s|
  {
    var e := WordEnd(s, p);
    if e - p >= 6 && OccursAt(s, "Asset", e - 5) && OccursAt(s, "::register", e)
    then Some(s[p..e])
    else None
  }

  /**
   * `RegisterAt` is the regular expression's semantics at `p`: it finds a
   * match exactly when one exists, and captures everything up to `Asset`.
   */
  lemma RegisterAtIff(s: string, p: nat)
    requires p <= |s|
    ensures RegisterAt(s, p).Some? <==> exists q :: RegisterMatch(s, p, q)
    ensures forall q :: RegisterMatch(s, p, q) ==> RegisterAt(s, p) == Some(s[p..q + 5])
  {
    var e := WordEnd(s, p);
    forall q: nat | RegisterMatch(s, p, q) ensures e == q + 5 {
      assert s[q..q + 5] == "Asset";
      forall k | p <= k < q + 5 ensures IsWordChar(s[k]) {
        if k >= q {
          assert s[k] == s[q..q + 5][k - q];
        }
      }
      assert s[q + 5] == s[q + 5..q + 15][0] == ':';
      WordEndAt(s, p, q + 5);
    }
    if RegisterAt(s, p).Some? {
      assert RegisterMatch(s, p, e - 5);
    }
  }

  /** Leftmost position `>= p` at which the register pattern matches. */
  function FirstRegisterFrom(s: string, p: nat): (r: Option<nat>)
    requires p <= |s|
    ensures r.Some? ==> p <= r.value <= |s| && RegisterAt(s, r.value).Some?
    ensures r.Some? ==> forall q :: p <= q < r.value ==> RegisterAt(s, q).None?
    ensures r.None? ==> forall q :: p <= q <= |s| ==> RegisterAt(s, q).None?
    decreases |s| - p
  {
    if RegisterAt(s, p).Some? then Some(p)
    else if p == |s| then None
    else FirstRegisterFrom(s, p + 1)
  }

  /** `preg_match('#(\w+Asset)::register#', line, m)`: the first group of the first match. */
  function RegisterCapture(line: string): (r: Option<string>)
    ensures r.Some? ==> |r.value| >= 6 && EndsWith(r.value, "Asset")
    ensures r.Some? ==> forall k | 0 <= k < |r.value| :: IsWordChar(r.value[k])
    ensures r.None? <==> forall p | 0 <= p <= |line| :: RegisterAt(line, p).None?
    ensures r.Some? ==> exists p: nat | p <= |line| ::
              RegisterAt(line, p) == r && forall q | 0 <= q < p :: RegisterAt(line, q).None?
  {
    match FirstRegisterFrom(line, 0)
    case Some(p) =>
      RegisterAtShape(line, p);
      RegisterAt(line, p)
    case None => None
  }

  /** A capture is a word run of at least six characters ending in `Asset`. */
  lemma RegisterAtShape(s: string, p: nat)
    requires p <= |s| && RegisterAt(s, p).Some?
    ensures |RegisterAt(s, p).value| >= 6 && EndsWith(RegisterAt(s, p).value, "Asset")
    ensures forall k | 0 <= k < |RegisterAt(s, p).value| :: IsWordChar(RegisterAt(s, p).value[k])
  {
    var e := WordEnd(s, p);
    var w := s[p..e];
    assert w[|w| - 5..] == s[e - 5..e];
    forall k | 0 <= k < |w| ensures IsWordChar(w[k]) {
      assert w[k] == s[p + k];
    }
  }

  /**
   * The captured name is a whole identifier: the character before it, if
   * any, is not a word character (leftmost matching takes the whole run).
   */
  lemma RegisterCaptureWholeWord(line: string)
    requires FirstRegisterFrom(line, 0).Some?
    ensures var p := FirstRegisterFrom(line, 0).value;
      p == 0 || !IsWordChar(line[p - 1])
  {
    var p := FirstRegisterFrom(line, 0).value;
    if p > 0 && IsWordChar(line[p - 1]) {
      RegisterAtExtendsLeft(line, p);
      assert false;
    }
  }

  /** A match can be extended one word character to the left. */
  lemma RegisterAtExtendsLeft(s: string, p: nat)
    requires 0 < p <= |s| && IsWordChar(s[p - 1]) && RegisterAt(s, p).Some?
    ensures RegisterAt(s, p - 1).Some?
  {
    assert WordEnd(s, p - 1) == WordEnd(s, p);
  }

  /** The scanner's `strlen($display[1]) > 2` guard never rejects a register match. */
  lemma RegisterGuardNeverRejects(line: string)
    requires RegisterCapture(line).Some?
    ensures |RegisterCapture(line).value| > 2
  {
  }

  /** A line that starts with `<Word>Asset::register` captures `<Word>Asset`. */
  lemma RegisterLeading(w: string, r: string)
    requires w != [] && forall k | 0 <= k < |w| :: IsWordChar(w[k])
    ensures RegisterCapture(w + "Asset" + "::register" + r) == Some(w + "Asset")
  {
    var name := w + "Asset";
    var s := name + "::register" + r;
    var e := |name|;
    forall k | 0 <= k < e ensures IsWordChar(s[k]) {
      assert s[k] == name[k];
    }
    assert s[e] == ':';
    WordEndAt(s, 0, e);
    assert OccursAt(s, "Asset", e - 5) by {
      assert s[e - 5..e] == name[|w|..];
    }
    OccursIn(name, "::register", r);
    assert s[0..e] == name;
    assert RegisterAt(s, 0) == Some(name);
  }

  /** A typical view line: `FooAsset::register($this);` captures `FooAsset`. */
  lemma RegisterExample()
    ensures RegisterCapture("Foo" + "Asset" + "::register" + "($this);") == Some("Foo" + "Asset")
  {
    RegisterLeading("Foo", "($this);");
  }

  // ---------------------------------------------------------------------
  // `render\((.*?)(\)|,)`

  predicate IsRenderDelim(c: char) { c == ')' || c == ',' }

  /**
   * First index `>= k` holding `)` or `,`, provided no line feed comes
   * first (the lazy `.*?` stops at the earliest delimiter and cannot
   * cross a line feed).
   */
  function DelimFrom(s: string, k: nat): (r: Option<nat>)
    requires k <= |s|
    ensures r.Some? ==> k <= r.value < |s| && IsRenderDelim(s[r.value])
    ensures r.Some? ==> forall i | k <= i < r.value :: !IsRenderDelim(s[i]) && s[i] != '\n'
    ensures r.None? ==> forall i | k <= i < |s| && IsRenderDelim(s[i]) :: '\n' in s[k..i]
    decreases |s| - k
  {
    if k == |s| || s[k] == '\n' then None
    else if IsRenderDelim(s[k]) then Some(k)
    else
      var r := DelimFrom(s, k + 1);
      assert forall i | k + 1 <= i <= |s| :: s[k..i] == [s[k]] + s[k + 1..i];
      r
  }

  /** The match of the render pattern that starts exactly at `p`, as its first group. */
  function RenderAt(s: string, p: nat): (r: Option<string>)
    requires p <= |s|
    ensures r.Some? ==> OccursAt(s, "render(", p)
    ensures r.Some? ==> OccursAt(s, r.value, p + 7) && p + 7 + |r.value| < |s|
    ensures r.Some? ==> IsRenderDelim(s[p + 7 + |r.value|])
    ensures r.Some? ==> forall i | 0 <= i < |r.value| :: !IsRenderDelim(r.value[i]) && r.value[i] != '\n'
  {
    if OccursAt(s, "render(", p) then
      match DelimFrom(s, p + 7)
      case Some(j) => Some(s[p + 7..j])
      case None => None
    else None
  }

  function FirstRenderFrom(s: string, p: nat): (r: Option<nat>)
    requires p <= |s|
    ensures r.Some? ==> p <= r.value <= |s| && RenderAt(s, r.value).Some?
    ensures r.Some? ==> forall q :: p <= q < r.value ==> RenderAt(s, q).None?
    ensures r.None? ==> forall q :: p <= q <= |s| ==> RenderAt(s, q).None?
    decreases |s| - p
  {
    if RenderAt(s, p).Some? then Some(p)
    else if p == |s| then None
    else FirstRenderFrom(s, p + 1)
  }

  /**
   * `preg_match('#render\((.*?)(\)|,)#', line, m)`: the first group of the
   * leftmost match, or none when the pattern matches nowhere.
   */
  function RenderCapture(line: string): (r: Option<string>)
    ensures r.None? <==> forall p | 0 <= p <= |line| :: RenderAt(line, p).None?
    ensures r.Some? ==> exists p: nat | p <= |line| ::
              RenderAt(line, p) == r && forall q | 0 <= q < p :: RenderAt(line, q).None?
  {
    match FirstRenderFrom(line, 0)
    case Some(p) => RenderAt(line, p)
    case None => None
  }

  /**
   * The regular expression matches at `p` with its delimiter at `j`:
   * `render(` at `p`, then characters other than a line feed, then `)` or
   * `,` at `j`.
   */
  predicate RenderMatch(s: string, p: nat, j: nat) {
    OccursAt(s, "render(", p) && p + 7 <= j < |s| && IsRenderDelim(s[j])
    && forall i | p + 7 <= i < j :: s[i] != '\n'
  }

  /** The match the lazy `.*?` picks: no earlier delimiter. */
  predicate LazyRenderMatch(s: string, p: nat, j: nat) {
    RenderMatch(s, p, j) && forall i | p + 7 <= i < j :: !IsRenderDelim(s[i])
  }

  /**
   * `RenderAt` is the regular expression's semantics at `p`: it finds a
   * match exactly when one exists, and captures up to the earliest
   * delimiter.
   */
  lemma RenderAtIff(s: string, p: nat)
    requires p <= |s|
    ensures RenderAt(s, p).Some? <==> exists j :: RenderMatch(s, p, j)
    ensures forall j: nat :: LazyRenderMatch(s, p, j) ==> RenderAt(s, p) == Some(s[p + 7..j])
  {
    if j :| RenderMatch(s, p, j) {
      RenderDelimFound(s, p, j);
    }
    if RenderAt(s, p).Some? {
      var j := DelimFrom(s, p + 7).value;
      assert RenderMatch(s, p, j);
    }
    forall j: nat | LazyRenderMatch(s, p, j) ensures RenderAt(s, p) == Some(s[p + 7..j]) {
      RenderDelimFound(s, p, j);
    }
  }

  /** A delimiter with no line feed before it is found by the search. */
  lemma RenderDelimFound(s: string, p: nat, j: nat)
    requires RenderMatch(s, p, j)
    ensures DelimFrom(s, p + 7).Some? && DelimFrom(s, p + 7).value <= j
  {
  }

  /** `render('a')` captures the quoted view name together with its quotes. */
  lemma RenderExample()
    ensures RenderCapture("render('a')") == Some("'a'")
  {
    var s := "render('a')";
    assert OccursAt(s, "render(", 0);
    assert DelimFrom(s, 10) == Some(10);
    assert DelimFrom(s, 7) == Some(10);
    assert s[7..10] == "'a'";
  }

  // ---------------------------------------------------------------------
  // `\\(\w+Asset)`

  /** The regular expression matches at `i`: a backslash, a non-empty word run up to `q`, then `Asset`. */
  predicate ClassPathMatch(s: string, i: nat, q: nat) {
    i + 1 < q <= |s| && s[i] == '\\' && AllWord(s, i + 1, q) && OccursAt(s, "Asset", q)
  }

  /** `Asset` occurs at some position in `[a, e]`. */
  function AssetWithin(s: string, a: nat, e: nat): (r: bool)
    ensures r ==> exists q :: a <= q <= e && OccursAt(s, "Asset", q)
    ensures !r ==> forall q :: a <= q <= e ==> !OccursAt(s, "Asset", q)
    decreases e + 1 - a
  {
    if a > e then false
    else OccursAt(s, "Asset", a) || AssetWithin(s, a + 1, e)
  }

  /** The match that starts exactly at `i`, decided by searching the word run after the backslash. */
  predicate ClassPathAt(s: string, i: nat) {
    i + 1 < |s| && s[i] == '\\' && AssetWithin(s, i + 2, WordEnd(s, i + 1))
  }

  /** A word run from `p` reaches at least to `m` when all of `s[p..m]` are word characters. */
  lemma {:induction false} WordEndCovers(s: string, p: nat, m: nat)
    requires p <= m <= |s| && AllWord(s, p, m)
    ensures m <= WordEnd(s, p)
    decreases m - p
  {
    if p < m {
      WordEndCovers(s, p + 1, m);
    }
  }

  /** `ClassPathAt` is the regular expression's semantics at `i`. */
  lemma ClassPathAtIff(s: string, i: nat)
    ensures ClassPathAt(s, i) <==> exists q :: ClassPathMatch(s, i, q)
  {
    if ClassPathAt(s, i) {
      var e := WordEnd(s, i + 1);
      var q :| i + 2 <= q <= e && OccursAt(s, "Asset", q);
      assert ClassPathMatch(s, i, q);
    }
    if q :| ClassPathMatch(s, i, q) {
      WordEndCovers(s, i + 1, q);
      assert OccursAt(s, "Asset", q);
    }
  }

  /** Leftmost position `>= p` at which the class-name pattern matches. */
  function FirstClassPathFrom(s: string, p: nat): (r: Option<nat>)
    ensures r.Some? ==> p <= r.value && ClassPathAt(s, r.value)
    ensures r.Some? ==> forall i :: p <= i < r.value ==> !ClassPathAt(s, i)
    ensures r.None? ==> forall i :: p <= i ==> !ClassPathAt(s, i)
    decreases |s| - p
  {
    if p >= |s| then None
    else if ClassPathAt(s, p) then Some(p)
    else FirstClassPathFrom(s, p + 1)
  }

  /** `preg_match('#\\\(\w+Asset)#', path)`: the path names a bundle class. */
  predicate IsBundleClassPath(path: string) {
    FirstClassPathFrom(path, 0).Some?
  }

  /** The test succeeds exactly when the regular expression matches somewhere. */
  lemma IsBundleClassPathIff(path: string)
    ensures IsBundleClassPath(path) <==> exists i, q :: ClassPathMatch(path, i, q)
  {
    var r := FirstClassPathFrom(path, 0);
    if r.Some? {
      ClassPathAtIff(path, r.value);
    }
    if i, q :| ClassPathMatch(path, i, q) {
      ClassPathAtIff(path, i);
    }
  }

  /** A fully qualified bundle class name such as `yii\web\YiiAsset` is recognised. */
  lemma BundleClassPathExample()
    ensures IsBundleClassPath("yii\\web\\YiiAsset")
  {
    var s := "yii\\web\\YiiAsset";
    assert ClassPathMatch(s, 7, 11);
    IsBundleClassPathIff(s);
  }

  /** A path without a backslash, such as a directory alias, is not a bundle class. */
  lemma NoBackslashNoClassPath(path: string)
    requires '\\' !in path
    ensures !IsBundleClassPath(path)
  {
    IsBundleClassPathIff(path);
  }
}
