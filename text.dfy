/**
 * String helpers shared by the whole model: substring search, occurrence
 * counting, JavaScript's clamped `slice`, `trim`, and decimal digits.
 * JavaScript strings are modelled as `seq<char>`.
 */
module Text {
  import opened Wrappers

  /** `pat` occurs in `s` at position `i`. */
  predicate StartsAt(s: string, i: nat, pat: string) {
    i + |pat| <= |s| && s[i..i + |pat|] == pat
  }

  /** The first position at or after `k` where `pat` occurs (String.prototype.indexOf with a start). */
  function IndexFrom(s: string, pat: string, k: nat): (r: Option<nat>)
    decreases |s| - k
    ensures r.Some? ==> k <= r.value && StartsAt(s, r.value, pat)
  {
    if k + |pat| > |s| then None
    else if s[k..k + |pat|] == pat then Some(k)
    else IndexFrom(s, pat, k + 1)
  }

  /** No occurrence of `pat` from `k` on lies before the one `IndexFrom` finds (or anywhere, when it finds none). */
  lemma {:induction false} IndexFromSkips(s: string, pat: string, k: nat, j: nat)
    requires k <= j
    decreases |s| - k
    ensures IndexFrom(s, pat, k).None? || j < IndexFrom(s, pat, k).value ==> !StartsAt(s, j, pat)
  {
    if k + |pat| <= |s| && s[k..k + |pat|] != pat && k < j {
      IndexFromSkips(s, pat, k + 1, j);
    }
  }

  /** An occurrence at `i` is found by a search from any `k` up to `i`. */
  lemma {:induction false} IndexFromFinds(s: string, pat: string, k: nat, i: nat)
    requires k <= i && StartsAt(s, i, pat)
    ensures IndexFrom(s, pat, k).Some? && IndexFrom(s, pat, k).value <= i
  {
    IndexFromSkips(s, pat, k, i);
  }

  /** When `pat` occurs at `q` and no character from `i` up to `q` is its first, the search from `i` finds `q`. */
  lemma {:induction false} IndexFromExact(s: string, pat: string, i: nat, q: nat)
    requires i <= q && StartsAt(s, q, pat) && pat != []
    requires forall j :: i <= j < q ==> s[j] != pat[0]
    ensures IndexFrom(s, pat, i) == Some(q)
  {
    IndexFromFinds(s, pat, i, q);
    StartsAtFirst(s, IndexFrom(s, pat, i).value, pat);
  }

  lemma {:induction false} StartsAtFirst(s: string, i: nat, pat: string)
    requires StartsAt(s, i, pat) && pat != []
    ensures s[i] == pat[0]
  {
    assert s[i] == s[i..i + |pat|][0];
  }

  /** When no character from `i` on is the first of `pat`, the search from `i` finds nothing. */
  lemma {:induction false} IndexFromNone(s: string, pat: string, i: nat)
    requires pat != [] && forall j :: i <= j < |s| ==> s[j] != pat[0]
    ensures IndexFrom(s, pat, i).None?
  {
    if IndexFrom(s, pat, i).Some? {
      StartsAtFirst(s, IndexFrom(s, pat, i).value, pat);
    }
  }

  /** `IndexFromExact` with the skipped range given as a slice. */
  lemma {:induction false} IndexFromExactSlice(s: string, pat: string, i: nat, q: nat)
    requires i <= q && StartsAt(s, q, pat) && pat != [] && pat[0] !in s[i..q]
    ensures IndexFrom(s, pat, i) == Some(q)
  {
    forall j | i <= j < q ensures s[j] != pat[0] {
      assert s[j] == s[i..q][j - i];
    }
    IndexFromExact(s, pat, i, q);
  }

  /** `IndexFromNone` with the rest of the text given as a slice. */
  lemma {:induction false} IndexFromNoneSlice(s: string, pat: string, i: nat)
    requires i <= |s| && pat != [] && pat[0] !in s[i..]
    ensures IndexFrom(s, pat, i).None?
  {
    forall j | i <= j < |s| ensures s[j] != pat[0] {
      assert s[j] == s[i..][j - i];
    }
    IndexFromNone(s, pat, i);
  }

  /** `IndexFromSkips` for every position at once. */
  lemma {:induction false} IndexFromFirst(s: string, pat: string, k: nat)
    ensures var r := IndexFrom(s, pat, k);
      (r.Some? ==> forall j: nat :: k <= j < r.value ==> !StartsAt(s, j, pat))
      && (r.None? ==> forall j: nat :: k <= j ==> !StartsAt(s, j, pat))
  {
    forall j: nat | k <= j ensures IndexFrom(s, pat, k).None? || j < IndexFrom(s, pat, k).value ==> !StartsAt(s, j, pat) {
      IndexFromSkips(s, pat, k, j);
    }
  }

  /** `e` is the first position at or after `k` where `pat` occurs. */
  ghost predicate FirstAt(s: string, pat: string, k: nat, e: nat) {
    k <= e && StartsAt(s, e, pat) && forall j :: k <= j < e ==> !StartsAt(s, j, pat)
  }

  /** The search from `k` finds `e` exactly when `e` is the first occurrence from `k` on. */
  lemma {:induction false} IndexFromFirstAt(s: string, pat: string, k: nat, e: nat)
    ensures IndexFrom(s, pat, k) == Some(e) <==> FirstAt(s, pat, k, e)
  {
    if FirstAt(s, pat, k, e) {
      IndexFromFinds(s, pat, k, e);
    }
    if IndexFrom(s, pat, k) == Some(e) {
      IndexFromFirst(s, pat, k);
    }
  }

  /** `indexOf` as JavaScript returns it: the first position, or -1. */
  function IndexOf(s: string, pat: string): (r: int)
    ensures r == -1 || (0 <= r && StartsAt(s, r, pat))
    ensures r == -1 <==> forall j: nat :: !StartsAt(s, j, pat)
    ensures r >= 0 ==> forall j: nat :: j < r ==> !StartsAt(s, j, pat)
  {
    IndexFromFirst(s, pat, 0);
    match IndexFrom(s, pat, 0)
    case Some(i) => i
    case None => -1
  }

  /** Number of positions at which `pat` occurs in `s` (occurrences may overlap). */
  function Count(s: string, pat: string): nat
  {
    if |s| == 0 then 0
    else (if StartsAt(s, 0, pat) then 1 else 0) + Count(s[1..], pat)
  }

  /** JavaScript `s.slice(a, b)` for non-negative bounds: both are clamped to the length. */
  function Slice(s: string, a: nat, b: nat): (r: string)
    ensures a <= b <= |s| ==> r == s[a..b]
    ensures |s| <= a ==> r == []
  {
    var lo := if a <= |s| then a else |s|;
    var hi := if b <= |s| then b else |s|;
    if lo < hi then s[lo..hi] else []
  }

  /** JavaScript `s.slice(a)`. */
  function SliceFrom(s: string, a: nat): (r: string)
    ensures a <= |s| ==> r == s[a..]
    ensures |s| <= a ==> r == []
  {
    if a <= |s| then s[a..] else []
  }

  /** `s.slice(0, a) + r + s.slice(b)`: the range `[a, b)` of `s` replaced by `r`. */
  function ReplaceRange(s: string, a: nat, b: nat, r: string): (t: string)
    requires a <= b <= |s|
    ensures |t| == |s| - (b - a) + |r|
  {
    s[..a] + r + s[b..]
  }

  /** A range inside the left operand of a concatenation. */
  lemma {:induction false} SliceLeft(x: string, y: string, i: nat, j: nat)
    requires i <= j <= |x|
    ensures (x + y)[i..j] == x[i..j]
  {
  }

  /** A range inside the right operand of a concatenation. */
  lemma {:induction false} SliceRight(x: string, y: string, i: nat, j: nat)
    requires |x| <= i <= j <= |x| + |y|
    ensures (x + y)[i..j] == y[i - |x|..j - |x|]
  {
  }

  /** Dropping a prefix of the left operand of a concatenation. */
  lemma {:induction false} DropLeft(x: string, y: string, i: nat)
    requires i <= |x|
    ensures (x + y)[i..] == x[i..] + y
  {
  }

  lemma {:induction false} SliceOfSlice(t: string, a: nat, b: nat, j: nat, n: nat)
    requires a <= b <= |t| && j + n <= b - a
    ensures t[a..b][j..j + n] == t[a + j..a + j + n]
  {
    var u, w := t[a..b][j..j + n], t[a + j..a + j + n];
    forall i | 0 <= i < n ensures u[i] == w[i] {
      assert u[i] == t[a..b][j + i] == t[a + j + i];
    }
  }

  /** The characters `String.prototype.trim` removes: white space and line terminators. */
  predicate IsSpace(c: char) {
    c == ' ' || c == '\t' || c == '\n' || c == '\r' || c == '\U{B}' || c == '\U{C}'
    || c == '\U{A0}' || c == '\U{1680}' || ('\U{2000}' <= c <= '\U{200A}')
    || c == '\U{2028}' || c == '\U{2029}' || c == '\U{202F}' || c == '\U{205F}'
    || c == '\U{3000}' || c == '\U{FEFF}'
  }

  function TrimStart(s: string): (r: string)
    ensures |r| <= |s| && r == s[|s| - |r|..]
    ensures r != [] ==> !IsSpace(r[0])
    ensures forall i :: 0 <= i < |s| - |r| ==> IsSpace(s[i])
  {
    if s != [] && IsSpace(s[0]) then TrimStart(s[1..]) else s
  }

  function TrimEnd(s: string): (r: string)
    ensures |r| <= |s| && r == s[..|r|]
    ensures r != [] ==> !IsSpace(r[|r| - 1])
    ensures forall i :: |r| <= i < |s| ==> IsSpace(s[i])
  {
    if s != [] && IsSpace(s[|s| - 1]) then TrimEnd(s[..|s| - 1]) else s
  }

  /** `String.prototype.trim`: `s` with leading and trailing white space removed. */
  function Trim(s: string): (r: string)
    ensures |r| <= |s|
    ensures r != [] ==> !IsSpace(r[0]) && !IsSpace(r[|r| - 1])
    ensures (s == [] || (!IsSpace(s[0]) && !IsSpace(s[|s| - 1]))) ==> r == s
  {
    TrimEnd(TrimStart(s))
  }

  predicate IsDigit(c: char) { '0' <= c <= '9' }

  /** The decimal value of a string of digits, as `parseInt(s)` computes it. */
  function DecimalValue(s: string): nat
    requires forall i :: 0 <= i < |s| ==> IsDigit(s[i])
  {
    if s == [] then 0
    else
      assert IsDigit(s[|s| - 1]);
      10 * DecimalValue(s[..|s| - 1]) + (s[|s| - 1] as int - '0' as int)
  }

  // ---- Counting occurrences: the termination measures of the rewrite loops ----

  /** `pat` occurs nowhere in `s` exactly when its count is zero. */
  lemma {:induction false} CountNoneIff(s: string, pat: string)
    requires pat != []
    ensures Count(s, pat) == 0 <==> forall i: nat :: !StartsAt(s, i, pat)
  {
    if Count(s, pat) == 0 {
      forall i: nat ensures !StartsAt(s, i, pat) {
        if StartsAt(s, i, pat) {
          CountOne(s, pat, i);
        }
      }
    } else {
      var i := CountWitness(s, pat);
    }
  }

  /** A positive count comes from an occurrence. */
  lemma {:induction false} CountWitness(s: string, pat: string) returns (i: nat)
    requires Count(s, pat) > 0
    ensures StartsAt(s, i, pat)
  {
    if StartsAt(s, 0, pat) {
      i := 0;
    } else {
      var j := CountWitness(s[1..], pat);
      assert s[1..][j..j + |pat|] == s[j + 1..j + 1 + |pat|];
      i := j + 1;
    }
  }

  lemma {:induction false} CountAbsentChar(s: string, pat: string)
    requires pat != [] && pat[0] !in s
    ensures Count(s, pat) == 0
  {
    if |s| > 0 {
      assert s[0] in s;
      assert !StartsAt(s, 0, pat);
      assert forall c :: c in s[1..] ==> c in s;
      CountAbsentChar(s[1..], pat);
    }
  }

  /** Two distinct occurrences give a count of at least two. */
  lemma {:induction false} CountTwo(s: string, pat: string, i: nat, j: nat)
    requires pat != [] && StartsAt(s, i, pat) && StartsAt(s, j, pat) && i < j
    ensures Count(s, pat) >= 2
  {
    if i == 0 {
      assert s[1..][j - 1..j - 1 + |pat|] == s[j..j + |pat|];
      CountOne(s[1..], pat, j - 1);
    } else {
      assert s[1..][i - 1..i - 1 + |pat|] == s[i..i + |pat|];
      assert s[1..][j - 1..j - 1 + |pat|] == s[j..j + |pat|];
      CountTwo(s[1..], pat, i - 1, j - 1);
    }
  }

  lemma {:induction false} CountOne(s: string, pat: string, i: nat)
    requires pat != [] && StartsAt(s, i, pat)
    ensures Count(s, pat) >= 1
  {
    if i > 0 {
      assert s[1..][i - 1..i - 1 + |pat|] == s[i..i + |pat|];
      CountOne(s[1..], pat, i - 1);
    }
  }

  /** Concatenation never loses occurrences. */
  lemma {:induction false} CountConcatAtLeast(x: string, y: string, pat: string)
    ensures Count(x + y, pat) >= Count(x, pat) + Count(y, pat)
  {
    if x == [] {
      assert x + y == y;
    } else {
      assert (x + y)[1..] == x[1..] + y;
      if StartsAt(x, 0, pat) {
        assert (x + y)[..|pat|] == x[..|pat|];
      }
      CountConcatAtLeast(x[1..], y, pat);
    }
  }

  /**
   * Concatenation creates no new occurrence across the junction when a
   * character at the junction cannot be part of `pat`.
   */
  lemma {:induction false} CountConcatJoin(x: string, y: string, pat: string)
    requires pat != []
    requires (x != [] && x[|x| - 1] !in pat) || (y != [] && y[0] !in pat)
    ensures Count(x + y, pat) == Count(x, pat) + Count(y, pat)
  {
    if x == [] {
      assert x + y == y;
    } else {
      assert (x + y)[1..] == x[1..] + y;
      NoStraddle(x, y, pat);
      if x[1..] == [] {
        assert x[1..] + y == y;
      } else {
        assert x[1..][|x[1..]| - 1] == x[|x| - 1];
        CountConcatJoin(x[1..], y, pat);
      }
    }
  }

  lemma {:induction false} NoStraddle(x: string, y: string, pat: string)
    requires x != [] && pat != []
    requires x[|x| - 1] !in pat || (y != [] && y[0] !in pat)
    ensures StartsAt(x + y, 0, pat) == StartsAt(x, 0, pat)
  {
    if |pat| <= |x| {
      assert (x + y)[..|pat|] == x[..|pat|];
    } else if y == [] {
      assert x + y == x;
    } else if |pat| <= |x + y| {
      var w := (x + y)[..|pat|];
      if x[|x| - 1] !in pat {
        assert w[|x| - 1] == x[|x| - 1] && pat[|x| - 1] in pat;
      } else {
        assert w[|x|] == y[0] && pat[|x|] in pat;
      }
    }
  }

  /** `pat` occurs nowhere in `t`. */
  ghost predicate Absent(t: string, pat: string) {
    forall j: nat :: !StartsAt(t, j, pat)
  }

  /** A stretch of `s` in which no occurrence of `pat` starts holds none as a string of its own. */
  lemma {:induction false} AbsentRange(s: string, a: nat, b: nat, pat: string)
    requires a <= b <= |s| && pat != []
    requires forall j: nat :: a <= j < b ==> !StartsAt(s, j, pat)
    ensures Absent(s[a..b], pat)
  {
    forall j: nat ensures !StartsAt(s[a..b], j, pat) {
      if j + |pat| <= b - a {
        SliceOfSlice(s, a, b, j, |pat|);
        assert !StartsAt(s, a + j, pat);
      }
    }
  }

  lemma {:induction false} AbsentSlice(t: string, a: nat, b: nat, pat: string)
    requires a <= b <= |t| && pat != [] && Absent(t, pat)
    ensures Absent(t[a..b], pat)
  {
    AbsentRange(t, a, b, pat);
  }

  /** Trimming keeps a string free of `pat`. */
  lemma {:induction false} AbsentTrim(t: string, pat: string)
    requires pat != [] && Absent(t, pat)
    ensures Absent(Trim(t), pat)
  {
    var u := TrimStart(t);
    AbsentSlice(t, |t| - |u|, |t|, pat);
    assert t[|t| - |u|..|t|] == u;
    AbsentSlice(u, 0, |TrimEnd(u)|, pat);
  }

  /** An occurrence inside `[a, b)` is an occurrence in the slice `s[a..b]`. */
  lemma {:induction false} StartsAtSlice(s: string, a: nat, b: nat, i: nat, pat: string)
    requires a <= i && i + |pat| <= b <= |s| && StartsAt(s, i, pat)
    ensures StartsAt(s[a..b], i - a, pat)
  {
    SliceOfSlice(s, a, b, i - a, |pat|);
  }

  /** An occurrence in the slice `s[a..b]` is an occurrence in `s`. */
  lemma {:induction false} StartsAtOfSlice(s: string, a: nat, b: nat, i: nat, pat: string)
    requires a <= b <= |s| && StartsAt(s[a..b], i, pat)
    ensures StartsAt(s, a + i, pat)
  {
    SliceOfSlice(s, a, b, i, |pat|);
  }

  /**
   * Replacing a range by text whose end characters cannot be part of `pat`:
   * the occurrences of the result are those before the range, those of the
   * text and those after the range.
   */
  lemma {:induction false} CountReplace(s: string, a: nat, b: nat, r: string, pat: string)
    requires a <= b <= |s| && pat != [] && r != [] && r[0] !in pat && r[|r| - 1] !in pat
    ensures Count(ReplaceRange(s, a, b, r), pat) == Count(s[..a], pat) + Count(r, pat) + Count(s[b..], pat)
  {
    var x := s[..a] + r;
    CountConcatJoin(s[..a], r, pat);
    assert x[|x| - 1] == r[|r| - 1];
    CountConcatJoin(x, s[b..], pat);
  }

  /** Replacing a range that starts and ends with `pat` by text without `pat` removes at least two occurrences. */
  lemma {:induction false} CountReplaceDrops(s: string, a: nat, b: nat, r: string, pat: string)
    requires a + |pat| <= b - |pat| && b <= |s| && pat != []
    requires StartsAt(s, a, pat) && StartsAt(s, b - |pat|, pat)
    requires r != [] && r[0] !in pat && r[|r| - 1] !in pat && Count(r, pat) == 0
    ensures Count(ReplaceRange(s, a, b, r), pat) + 2 <= Count(s, pat)
  {
    CountReplace(s, a, b, r, pat);
    CountSplit(s, a, b, pat);
    CountRangeTwo(s, a, b, pat);
  }

  lemma {:induction false} CountRangeTwo(s: string, a: nat, b: nat, pat: string)
    requires a + |pat| <= b - |pat| && b <= |s| && pat != []
    requires StartsAt(s, a, pat) && StartsAt(s, b - |pat|, pat)
    ensures Count(s[a..b], pat) >= 2
  {
    StartsAtSlice(s, a, b, a, pat);
    StartsAtSlice(s, a, b, b - |pat|, pat);
    CountTwo(s[a..b], pat, 0, b - |pat| - a);
  }

  /** Cutting a string in three loses no occurrence of `pat`. */
  lemma {:induction false} CountSplit(s: string, a: nat, b: nat, pat: string)
    requires a <= b <= |s|
    ensures Count(s, pat) >= Count(s[..a], pat) + Count(s[a..b], pat) + Count(s[b..], pat)
  {
    CountConcatAtLeast(s[..a], s[a..b], pat);
    CountConcatAtLeast(s[..a] + s[a..b], s[b..], pat);
    assert s[..a] + s[a..b] + s[b..] == s;
  }

  /** A character absent from a string is absent from each of its slices. */
  lemma {:induction false} NotInSlice(s: string, a: nat, b: nat, c: char)
    requires a <= b <= |s| && c !in s
    ensures c !in s[a..b]
  {
    forall k | 0 <= k < b - a ensures s[a..b][k] != c {
      assert s[a..b][k] == s[a + k];
    }
  }

  /** Occurrences of a single character simply add up. */
  lemma {:induction false} CountCharConcat(x: string, y: string, c: char)
    ensures Count(x + y, [c]) == Count(x, [c]) + Count(y, [c])
  {
    if x == [] {
      assert x + y == y;
    } else {
      assert (x + y)[1..] == x[1..] + y;
      assert (x + y)[..1] == x[..1];
      CountCharConcat(x[1..], y, c);
    }
  }
}
