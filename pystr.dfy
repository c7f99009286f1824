/** The few Python `str` operations the parser relies on, with Python's
    semantics written out (find/rfind return -1 when absent, slices clamp,
    strip removes whitespace at both ends, replace is a left-to-right scan). */
module PyStr {

  /** `pat` occurs in `s` starting at index `i`. */
  predicate OccursAt(s: string, pat: string, i: int)
  {
    0 <= i && i + |pat| <= |s| && s[i..i + |pat|] == pat
  }

  predicate StartsWith(s: string, pre: string)
  {
    OccursAt(s, pre, 0)
  }

  function FindFrom(s: string, pat: string, i: nat): (r: int)
    requires i <= |s|
    ensures r == -1 || (i <= r && OccursAt(s, pat, r))
    decreases |s| - i
  {
    if OccursAt(s, pat, i) then i
    else if i == |s| then -1
    else FindFrom(s, pat, i + 1)
  }

  lemma {:induction false} FindFromFirst(s: string, pat: string, i: nat)
    requires i <= |s|
    ensures var r := FindFrom(s, pat, i);
            forall j :: i <= j < (if r == -1 then |s| + 1 else r) ==> !OccursAt(s, pat, j)
    decreases |s| - i
  {
    if !OccursAt(s, pat, i) && i < |s| {
      FindFromFirst(s, pat, i + 1);
    }
  }

  /** `s.find(pat)`: the first index at which `pat` occurs, or -1. */
  function Find(s: string, pat: string): (r: int)
    ensures -1 <= r <= |s|
    ensures r >= 0 ==> OccursAt(s, pat, r)
  {
    FindFrom(s, pat, 0)
  }

  /** No occurrence comes before the one `find` reports (none at all for -1). */
  lemma FindFirst(s: string, pat: string)
    ensures forall j :: 0 <= j < (if Find(s, pat) == -1 then |s| + 1 else Find(s, pat)) ==> !OccursAt(s, pat, j)
  {
    FindFromFirst(s, pat, 0);
  }

  function RFindBelow(s: string, pat: string, i: nat): (r: int)
    requires i <= |s|
    ensures r == -1 || (r <= i && OccursAt(s, pat, r))
  {
    if OccursAt(s, pat, i) then i
    else if i == 0 then -1
    else RFindBelow(s, pat, i - 1)
  }

  lemma {:induction false} RFindBelowLast(s: string, pat: string, i: nat)
    requires i <= |s|
    ensures var r := RFindBelow(s, pat, i);
            forall j :: (if r == -1 then 0 else r + 1) <= j <= i ==> !OccursAt(s, pat, j)
  {
    if !OccursAt(s, pat, i) && i > 0 {
      RFindBelowLast(s, pat, i - 1);
    }
  }

  /** `s.rfind(pat)`: the last index at which `pat` occurs, or -1. */
  function RFind(s: string, pat: string): (r: int)
    ensures -1 <= r <= |s|
    ensures r >= 0 ==> OccursAt(s, pat, r)
  {
    RFindBelow(s, pat, |s|)
  }

  /** No occurrence comes after the one `rfind` reports (none at all for -1). */
  lemma RFindLast(s: string, pat: string)
    ensures forall j :: (if RFind(s, pat) == -1 then 0 else RFind(s, pat) + 1) <= j <= |s| ==> !OccursAt(s, pat, j)
  {
    RFindBelowLast(s, pat, |s|);
  }

  /** `pat in s`, written as `s.find(pat) >= 0` in the source. */
  predicate Contains(s: string, pat: string)
  {
    Find(s, pat) >= 0
  }

  /** A Python slice index, made non-negative and clamped to `[0, n]`. */
  function SliceIndex(k: int, n: nat): (r: nat)
    ensures r <= n
  {
    var k' := if k < 0 then k + n else k;
    if k' < 0 then 0 else if k' > n then n else k'
  }

  /** `s[a:b]` with Python's negative-index and clamping rules. */
  function Slice(s: string, a: int, b: int): (r: string)
    ensures |r| <= |s|
    ensures 0 <= a <= b <= |s| ==> r == s[a..b]
  {
    var i, j := SliceIndex(a, |s|), SliceIndex(b, |s|);
    if i < j then s[i..j] else ""
  }

  /** `s[a:]` for a non-negative `a`. */
  function SliceFrom(s: string, a: nat): (r: string)
    ensures a <= |s| ==> r == s[a..]
    ensures a > |s| ==> r == ""
  {
    if a <= |s| then s[a..] else ""
  }

  /** The characters Python 2's `str.strip()` removes from a byte string:
      blank, tab, line feed, carriage return, vertical tab and form feed. */
  predicate IsSpace(c: char)
  {
    c == ' ' || c == '\t' || c == '\n' || c == '\r' || c == '\U{B}' || c == '\U{C}'
  }

  /** `r` is `s` with some whitespace, and nothing else, cut from its two ends. */
  predicate TrimOf(s: string, r: string)
  {
    exists i, j :: 0 <= i <= j <= |s| && r == s[i..j]
      && (forall k :: 0 <= k < i ==> IsSpace(s[k]))
      && (forall k :: j <= k < |s| ==> IsSpace(s[k]))
  }

  /** `s.strip()`: whitespace removed from both ends, one character at a time. */
  function Strip(s: string): (r: string)
    ensures |r| <= |s|
    ensures r == [] || (!IsSpace(r[0]) && !IsSpace(r[|r| - 1]))
    decreases |s|
  {
    if s != [] && IsSpace(s[0]) then Strip(s[1..])
    else if s != [] && IsSpace(s[|s| - 1]) then Strip(s[..|s| - 1])
    else s
  }

  /** What `strip()` removes is whitespace and nothing else: the result is
      a slice of `s` with only whitespace outside it. */
  lemma {:induction false} StripTrims(s: string)
    ensures TrimOf(s, Strip(s))
    decreases |s|
  {
    if s != [] && IsSpace(s[0]) {
      StripTrims(s[1..]);
      TrimFront(s, Strip(s[1..]));
    } else if s != [] && IsSpace(s[|s| - 1]) {
      StripTrims(s[..|s| - 1]);
      TrimBack(s, Strip(s[..|s| - 1]));
    } else {
      assert s == s[0..|s|];
    }
  }

  /** A trim of `s` without its leading blank is a trim of `s`. */
  lemma TrimFront(s: string, r: string)
    requires s != [] && IsSpace(s[0]) && TrimOf(s[1..], r)
    ensures TrimOf(s, r)
  {
    var t := s[1..];
    var i, j :| 0 <= i <= j <= |t| && r == t[i..j]
      && (forall k :: 0 <= k < i ==> IsSpace(t[k]))
      && (forall k :: j <= k < |t| ==> IsSpace(t[k]));
    assert r == s[i + 1..j + 1];
    forall k | 0 <= k < i + 1 ensures IsSpace(s[k]) {
      if k > 0 {
        assert s[k] == t[k - 1];
      }
    }
    forall k | j + 1 <= k < |s| ensures IsSpace(s[k]) {
      assert s[k] == t[k - 1];
    }
  }

  /** A trim of `s` without its trailing blank is a trim of `s`. */
  lemma TrimBack(s: string, r: string)
    requires s != [] && IsSpace(s[|s| - 1]) && TrimOf(s[..|s| - 1], r)
    ensures TrimOf(s, r)
  {
    var t := s[..|s| - 1];
    var i, j :| 0 <= i <= j <= |t| && r == t[i..j]
      && (forall k :: 0 <= k < i ==> IsSpace(t[k]))
      && (forall k :: j <= k < |t| ==> IsSpace(t[k]));
    assert t[i..j] == s[i..j];
    forall k | 0 <= k < i ensures IsSpace(s[k]) {
      assert s[k] == t[k];
    }
    forall k | j <= k < |s| ensures IsSpace(s[k]) {
      if k < |t| {
        assert s[k] == t[k];
      }
    }
    assert 0 <= i <= j <= |s| && r == s[i..j];
  }

  /** A trim with no whitespace left at either end is the strip: `strip()`
      removes exactly the surrounding whitespace, no more and no less. */
  lemma StripUnique(s: string, r: string)
    requires TrimOf(s, r) && (r == [] || (!IsSpace(r[0]) && !IsSpace(r[|r| - 1])))
    ensures r == Strip(s)
  {
    StripTrims(s);
    TrimsAgree(s, r, Strip(s));
  }

  /** Two trims of `s` with no whitespace at their ends are equal. */
  lemma TrimsAgree(s: string, r1: string, r2: string)
    requires TrimOf(s, r1) && (r1 == [] || (!IsSpace(r1[0]) && !IsSpace(r1[|r1| - 1])))
    requires TrimOf(s, r2) && (r2 == [] || (!IsSpace(r2[0]) && !IsSpace(r2[|r2| - 1])))
    ensures r1 == r2
  {
    var i1, j1 :| 0 <= i1 <= j1 <= |s| && r1 == s[i1..j1]
      && (forall k :: 0 <= k < i1 ==> IsSpace(s[k]))
      && (forall k :: j1 <= k < |s| ==> IsSpace(s[k]));
    var i2, j2 :| 0 <= i2 <= j2 <= |s| && r2 == s[i2..j2]
      && (forall k :: 0 <= k < i2 ==> IsSpace(s[k]))
      && (forall k :: j2 <= k < |s| ==> IsSpace(s[k]));
    SpansAgree(s, r1, i1, j1, r2, i2, j2);
  }

  /** The same for trims given by their bounds. */
  lemma SpansAgree(s: string, r1: string, i1: nat, j1: nat, r2: string, i2: nat, j2: nat)
    requires i1 <= j1 <= |s| && r1 == s[i1..j1]
    requires (forall k :: 0 <= k < i1 ==> IsSpace(s[k])) && (forall k :: j1 <= k < |s| ==> IsSpace(s[k]))
    requires r1 == [] || (!IsSpace(r1[0]) && !IsSpace(r1[|r1| - 1]))
    requires i2 <= j2 <= |s| && r2 == s[i2..j2]
    requires (forall k :: 0 <= k < i2 ==> IsSpace(s[k])) && (forall k :: j2 <= k < |s| ==> IsSpace(s[k]))
    requires r2 == [] || (!IsSpace(r2[0]) && !IsSpace(r2[|r2| - 1]))
    ensures r1 == r2
  {
    if i1 == j1 {
      BlankTrim(s, r2, i2, j2);
    } else {
      assert s[i1] == r1[0];
      assert s[j1 - 1] == r1[|r1| - 1];
      TrimStartsAt(s, r2, i2, j2, i1);
      TrimEndsAt(s, r2, i2, j2, j1);
    }
  }

  /** The only trim of an all-whitespace string with clean ends is empty. */
  lemma BlankTrim(s: string, r: string, i: nat, j: nat)
    requires i <= j <= |s| && r == s[i..j]
    requires r == [] || !IsSpace(r[0])
    requires forall k :: 0 <= k < |s| ==> IsSpace(s[k])
    ensures r == []
  {
  }

  /** A trim with clean ends starts at the first character that is not
      whitespace. */
  lemma TrimStartsAt(s: string, r: string, i: nat, j: nat, f: nat)
    requires i <= j <= |s| && r == s[i..j] && (forall k :: 0 <= k < i ==> IsSpace(s[k]))
    requires forall k :: j <= k < |s| ==> IsSpace(s[k])
    requires r == [] || !IsSpace(r[0])
    requires f < |s| && !IsSpace(s[f]) && forall k :: 0 <= k < f ==> IsSpace(s[k])
    ensures r != [] && i == f
  {
    if r != [] {
      assert s[i] == r[0];
    }
  }

  /** A trim with clean ends stops after the last character that is not
      whitespace. */
  lemma TrimEndsAt(s: string, r: string, i: nat, j: nat, g: nat)
    requires i <= j <= |s| && r == s[i..j] && (forall k :: 0 <= k < i ==> IsSpace(s[k]))
    requires forall k :: j <= k < |s| ==> IsSpace(s[k])
    requires r == [] || !IsSpace(r[|r| - 1])
    requires 0 < g <= |s| && !IsSpace(s[g - 1]) && forall k :: g <= k < |s| ==> IsSpace(s[k])
    ensures r != [] && j == g
  {
    if r != [] {
      assert s[j - 1] == r[|r| - 1];
    }
  }

  /** A token that is non-empty and neither starts nor ends with whitespace. */
  predicate Clean(s: string)
  {
    s != [] && !IsSpace(s[0]) && !IsSpace(s[|s| - 1])
  }

  /** A string with no whitespace at either end is its own strip. */
  lemma StripClean(s: string)
    requires s == [] || Clean(s)
    ensures Strip(s) == s
  {
  }

  /** Stripping ignores one leading blank. */
  lemma StripLeadingBlank(s: string)
    ensures Strip(" " + s) == Strip(s)
  {
    assert (" " + s)[1..] == s;
  }

  /** `s.replace(pat, '')`: one left-to-right scan deleting each occurrence it meets. */
  function RemoveAll(s: string, pat: string): (r: string)
    requires pat != []
    ensures |r| <= |s|
    decreases |s|
  {
    if StartsWith(s, pat) then RemoveAll(s[|pat|..], pat)
    else if s == [] then []
    else [s[0]] + RemoveAll(s[1..], pat)
  }

  /** A string in which `pat` never occurs is left unchanged by the deletion. */
  lemma {:induction false} RemoveAllAbsent(s: string, pat: string)
    requires pat != []
    requires forall j :: 0 <= j <= |s| ==> !OccursAt(s, pat, j)
    ensures RemoveAll(s, pat) == s
    decreases |s|
  {
    if s != [] {
      assert !OccursAt(s, pat, 0);
      forall j | 0 <= j <= |s[1..]| ensures !OccursAt(s[1..], pat, j) {
        if OccursAt(s[1..], pat, j) {
          assert s[1..][j..j + |pat|] == s[j + 1..j + 1 + |pat|];
          assert OccursAt(s, pat, j + 1);
        }
      }
      RemoveAllAbsent(s[1..], pat);
    }
  }

  /** A string that differs from `pat` at index `k` does not start with it. */
  lemma DiffersAt(s: string, pat: string, k: nat)
    requires k < |s| && k < |pat| && s[k] != pat[k]
    ensures !StartsWith(s, pat)
  {
    if |pat| <= |s| {
      assert s[..|pat|][k] == s[k];
    }
  }

  /** The deletion passes over text in which `pat` cannot start. */
  lemma {:induction false} RemoveAllSkips(a: string, b: string, pat: string)
    requires pat != [] && pat[0] !in a
    ensures RemoveAll(a + b, pat) == a + RemoveAll(b, pat)
    decreases |a|
  {
    if a != [] {
      DiffersAt(a + b, pat, 0);
      assert (a + b)[1..] == a[1..] + b;
      RemoveAllSkips(a[1..], b, pat);
      assert RemoveAll(a + b, pat) == [a[0]] + (a[1..] + RemoveAll(b, pat));
      assert [a[0]] + (a[1..] + RemoveAll(b, pat)) == a + RemoveAll(b, pat);
    } else {
      assert a + b == b;
    }
  }

  /** An occurrence at the front is deleted. */
  lemma RemoveAllDrops(pat: string, b: string)
    requires pat != []
    ensures RemoveAll(pat + b, pat) == RemoveAll(b, pat)
  {
    assert (pat + b)[..|pat|] == pat;
    assert (pat + b)[|pat|..] == b;
  }

  /** A string that differs from `pat` at offset `d` from `k` has no
      occurrence of `pat` at `k`. */
  lemma NotOccursAt(s: string, pat: string, k: nat, d: nat)
    requires d < |pat| && k + d < |s| && s[k + d] != pat[d]
    ensures !OccursAt(s, pat, k)
  {
    if k + |pat| <= |s| {
      assert s[k..k + |pat|][d] == s[k + d];
    }
  }

  /** No occurrence of `pat` in `a + b` starts in `a` and ends in `b`. */
  predicate StraddleFree(a: string, b: string, pat: string)
  {
    forall k :: 0 <= k < |a| < k + |pat| ==> !OccursAt(a + b, pat, k)
  }

  /** The deletion treats `a` and `b` separately when no occurrence of
      `pat` starts in `a` and runs on into `b`. */
  lemma {:induction false} RemoveAllSplits(a: string, b: string, pat: string)
    requires pat != []
    requires StraddleFree(a, b, pat)
    ensures RemoveAll(a + b, pat) == RemoveAll(a, pat) + RemoveAll(b, pat)
    decreases |a|, 1
  {
    if a == [] {
      assert a + b == b;
    } else if StartsWith(a + b, pat) {
      SplitsAfterDrop(a, b, pat);
    } else {
      SplitsAfterKeep(a, b, pat);
    }
  }

  /** `RemoveAllSplits` when both scans delete an occurrence at the front. */
  lemma {:induction false} SplitsAfterDrop(a: string, b: string, pat: string)
    requires pat != [] && a != [] && StartsWith(a + b, pat)
    requires StraddleFree(a, b, pat)
    ensures RemoveAll(a + b, pat) == RemoveAll(a, pat) + RemoveAll(b, pat)
    decreases |a|, 0
  {
    RemoveAllDropsBoth(a, b, pat);
    StraddleFreeTail(a, b, pat, |pat|);
    RemoveAllSplits(a[|pat|..], b, pat);
  }

  /** `RemoveAllSplits` when both scans keep the first character. */
  lemma {:induction false} SplitsAfterKeep(a: string, b: string, pat: string)
    requires pat != [] && a != [] && !StartsWith(a + b, pat)
    requires StraddleFree(a, b, pat)
    ensures RemoveAll(a + b, pat) == RemoveAll(a, pat) + RemoveAll(b, pat)
    decreases |a|, 0
  {
    RemoveAllKeepsBoth(a, b, pat);
    StraddleFreeTail(a, b, pat, 1);
    RemoveAllSplits(a[1..], b, pat);
    ConsAssoc(a[0], RemoveAll(a[1..], pat), RemoveAll(b, pat));
  }

  lemma ConsAssoc(c: char, x: string, y: string)
    ensures [c] + (x + y) == [c] + x + y
  {
  }

  /** An occurrence at the front of `a + b` lies within `a`, and both
      scans delete it. */
  lemma RemoveAllDropsBoth(a: string, b: string, pat: string)
    requires pat != [] && a != [] && StartsWith(a + b, pat)
    requires StraddleFree(a, b, pat)
    ensures |pat| <= |a|
    ensures RemoveAll(a + b, pat) == RemoveAll(a[|pat|..] + b, pat)
    ensures RemoveAll(a, pat) == RemoveAll(a[|pat|..], pat)
  {
    assert (a + b)[0..|pat|] == a[0..|pat|];
    assert (a + b)[|pat|..] == a[|pat|..] + b;
  }

  /** No occurrence at the front of `a + b`: both scans keep the first
      character. */
  lemma RemoveAllKeepsBoth(a: string, b: string, pat: string)
    requires pat != [] && a != [] && !StartsWith(a + b, pat)
    ensures RemoveAll(a + b, pat) == [a[0]] + RemoveAll(a[1..] + b, pat)
    ensures RemoveAll(a, pat) == [a[0]] + RemoveAll(a[1..], pat)
  {
    if |pat| <= |a| {
      assert (a + b)[0..|pat|] == a[0..|pat|];
    }
    assert (a + b)[1..] == a[1..] + b;
  }

  /** Dropping a prefix of `a` keeps occurrences from straddling. */
  lemma StraddleFreeTail(a: string, b: string, pat: string, n: nat)
    requires pat != [] && n <= |a|
    requires StraddleFree(a, b, pat)
    ensures StraddleFree(a[n..], b, pat)
  {
    var a' := a[n..];
    forall k | 0 <= k < |a'| < k + |pat| ensures !OccursAt(a' + b, pat, k) {
      assert !OccursAt(a + b, pat, k + n);
      if k + |pat| <= |a' + b| {
        assert (a' + b)[k..k + |pat|] == (a + b)[k + n..k + n + |pat|];
      }
    }
  }

  /** The text after the last `pat`, computed as `s[s.rfind(pat) + |pat|:]`.
      When `pat` is absent this drops `|pat| - 1` leading characters, as the
      Python expression does. */
  function AfterLast(s: string, pat: string): (r: string)
    requires pat != []
    ensures RFind(s, pat) >= 0 ==> r == s[RFind(s, pat) + |pat|..]
    ensures RFind(s, pat) == -1 ==> r == SliceFrom(s, |pat| - 1)
  {
    SliceFrom(s, RFind(s, pat) + |pat|)
  }

  /** The loop `for t in ts: acc = acc + ' ' + t`. */
  function FoldSpaced(acc: string, ts: seq<string>): (r: string)
    decreases |ts|
  {
    if ts == [] then acc else FoldSpaced(acc + " " + ts[0], ts[1..])
  }

  /** `' '.join(ts)`. */
  function Join(ts: seq<string>): (r: string)
    decreases |ts|
  {
    if ts == [] then ""
    else if |ts| == 1 then ts[0]
    else ts[0] + " " + Join(ts[1..])
  }

  /** The accumulation loop is a blank followed by the space-join. */
  lemma {:induction false} FoldSpacedIsJoin(acc: string, ts: seq<string>)
    ensures FoldSpaced(acc, ts) == acc + (if ts == [] then "" else " " + Join(ts))
    decreases |ts|
  {
    if ts != [] {
      FoldSpacedIsJoin(acc + " " + ts[0], ts[1..]);
      if |ts| > 1 {
        assert acc + " " + ts[0] + " " + Join(ts[1..]) == acc + (" " + (ts[0] + " " + Join(ts[1..])));
      }
    }
  }

  /** Joining clean tokens gives a clean string. */
  lemma {:induction false} JoinClean(ts: seq<string>)
    requires ts != []
    requires forall i :: 0 <= i < |ts| ==> Clean(ts[i])
    ensures Clean(Join(ts))
    decreases |ts|
  {
    if |ts| > 1 {
      JoinClean(ts[1..]);
      var j := Join(ts[1..]);
      assert Join(ts) == ts[0] + " " + j;
      assert Join(ts)[0] == ts[0][0];
      assert Join(ts)[|Join(ts)| - 1] == j[|j| - 1];
    }
  }

  /** A one-character pattern occurs exactly where that character is. */
  lemma OccursAtChar(s: string, c: char, j: int)
    ensures OccursAt(s, [c], j) <==> 0 <= j < |s| && s[j] == c
  {
    if 0 <= j < |s| {
      assert s[j..j + 1] == [s[j]];
    }
  }

  /** The first `c` of `pre + [c] + rest` is the one after `pre` when `pre` has none. */
  lemma FindFirstChar(pre: string, c: char, rest: string)
    requires c !in pre
    ensures Find(pre + [c] + rest, [c]) == |pre|
  {
    var s := pre + [c] + rest;
    FindFirst(s, [c]);
    OccursAtChar(s, c, |pre|);
    forall j | 0 <= j < |pre| ensures !OccursAt(s, [c], j) {
      OccursAtChar(s, c, j);
      assert s[j] == pre[j];
    }
  }

  /** A string without `c` has no `c` to find. */
  lemma FindAbsentChar(s: string, c: char)
    requires c !in s
    ensures Find(s, [c]) == -1
  {
    var r := Find(s, [c]);
    if r >= 0 {
      OccursAtChar(s, c, r);
    }
  }

  /** The last `c` of a string ending in `c` is its last character. */
  lemma RFindLastChar(s: string, c: char)
    requires s != [] && s[|s| - 1] == c
    ensures RFind(s, [c]) == |s| - 1
  {
    OccursAtChar(s, c, |s| - 1);
    RFindLast(s, [c]);
    var r := RFind(s, [c]);
    if r >= 0 {
      OccursAtChar(s, c, r);
    }
  }

  /** The last occurrence: an occurrence with none after it is what `rfind` finds. */
  lemma RFindIs(s: string, pat: string, i: int)
    requires OccursAt(s, pat, i)
    requires forall j :: i < j <= |s| ==> !OccursAt(s, pat, j)
    ensures RFind(s, pat) == i
  {
    RFindLast(s, pat);
  }

  /** A prefix occurrence makes `Contains` true. */
  lemma ContainsPrefix(pre: string, rest: string)
    ensures Contains(pre + rest, pre)
  {
    assert OccursAt(pre + rest, pre, 0) by {
      assert (pre + rest)[0..|pre|] == pre;
    }
  }

  /** The text after the last `pat` holds no `pat`, whether or not `pat` occurs. */
  lemma AfterLastAbsent(s: string, pat: string)
    requires pat != []
    ensures forall j :: !OccursAt(AfterLast(s, pat), pat, j)
  {
    var r := AfterLast(s, pat);
    var k := RFind(s, pat);
    var off := if k >= 0 then k + |pat| else |pat| - 1;
    RFindLast(s, pat);
    forall j | OccursAt(r, pat, j) ensures false {
      if off <= |s| {
        assert r == s[off..];
        assert r[j..j + |pat|] == s[off + j..off + j + |pat|];
        assert OccursAt(s, pat, off + j);
      }
    }
  }

  /** What a prefix contains, the whole string contains. */
  lemma ContainsWithin(s: string, n: nat, pat: string)
    requires n <= |s|
    ensures Contains(s[..n], pat) ==> Contains(s, pat)
  {
    var r := Find(s[..n], pat);
    if r >= 0 {
      assert s[..n][r..r + |pat|] == s[r..r + |pat|];
      FindFirst(s, pat);
      assert OccursAt(s, pat, r);
    }
  }
}
