/** Python `str` semantics that the forum parser relies on: `find`, `rfind`,
    `in`, slicing with negative and out-of-range bounds, non-overlapping
    `replace`, `strip`/`lstrip`/`rstrip` with a character set, `isdigit`,
    `int` and `str` on integers. Digits are the ASCII digits only. */
module PyStr {

  /** `t` occurs in `s` starting at index `i`. */
  predicate OccursAt(s: string, t: string, i: int) {
    0 <= i && i + |t| <= |s| && s[i..i + |t|] == t
  }

  /** Scans upward from `i` for the first occurrence of `t`; -1 when none. */
  function FindFrom(s: string, t: string, i: nat): (r: int)
    requires i <= |s|
    ensures r == -1 || (i <= r && r + |t| <= |s|)
    decreases |s| - i
  {
    if i + |t| > |s| then -1
    else if s[i..i + |t|] == t then i
    else FindFrom(s, t, i + 1)
  }

  lemma {:induction false} FindFromSpec(s: string, t: string, i: nat)
    requires i <= |s|
    ensures var r := FindFrom(s, t, i);
      && (r == -1 || OccursAt(s, t, r))
      && forall k :: i <= k && (r == -1 || k < r) ==> !OccursAt(s, t, k)
    decreases |s| - i
  {
    if i + |t| <= |s| && s[i..i + |t|] != t {
      FindFromSpec(s, t, i + 1);
    }
  }

  /** Python `s.find(t)`: the lowest index where `t` occurs, or -1. */
  function Find(s: string, t: string): (r: int)
    ensures r == -1 || (0 <= r && r + |t| <= |s|)
  {
    FindFrom(s, t, 0)
  }

  /** `find` answers -1 exactly when there is no occurrence, and otherwise
      an occurrence with none before it. */
  lemma FindSpec(s: string, t: string)
    ensures Find(s, t) == -1 <==> forall k :: !OccursAt(s, t, k)
    ensures Find(s, t) != -1 ==>
      OccursAt(s, t, Find(s, t)) && forall k :: k < Find(s, t) ==> !OccursAt(s, t, k)
  {
    FindFromSpec(s, t, 0);
  }

  /** A found `t` sits between the text before it and the text after it. */
  lemma FindOccurs(s: string, t: string)
    requires Find(s, t) != -1
    ensures s == s[..Find(s, t)] + t + s[Find(s, t) + |t|..]
  {
    FindSpec(s, t);
    var k := Find(s, t);
    assert s == s[..k] + s[k..k + |t|] + s[k + |t|..];
  }

  /** Scans downward from `i` for the last occurrence of `t`; -1 when none. */
  function RFindFrom(s: string, t: string, i: int): (r: int)
    ensures r == -1 || (0 <= r <= i && r + |t| <= |s|)
    decreases i
  {
    if i < 0 then -1
    else if OccursAt(s, t, i) then i
    else RFindFrom(s, t, i - 1)
  }

  lemma {:induction false} RFindFromSpec(s: string, t: string, i: int)
    ensures var r := RFindFrom(s, t, i);
      && (r == -1 || OccursAt(s, t, r))
      && forall k :: r < k <= i ==> !OccursAt(s, t, k)
    decreases i
  {
    if i >= 0 && !OccursAt(s, t, i) {
      RFindFromSpec(s, t, i - 1);
    }
  }

  /** Python `s.rfind(t)`: the highest index where `t` occurs, or -1. */
  function RFind(s: string, t: string): (r: int)
    ensures r == -1 || (0 <= r && r + |t| <= |s|)
  {
    RFindFrom(s, t, |s| - |t|)
  }

  /** `rfind` answers -1 exactly when there is no occurrence, and otherwise
      an occurrence with none after it. */
  lemma RFindSpec(s: string, t: string)
    ensures RFind(s, t) == -1 <==> forall k :: !OccursAt(s, t, k)
    ensures RFind(s, t) != -1 ==>
      OccursAt(s, t, RFind(s, t)) && forall k :: RFind(s, t) < k ==> !OccursAt(s, t, k)
  {
    RFindFromSpec(s, t, |s| - |t|);
  }

  /** Python `t in s`. */
  predicate Contains(s: string, t: string) {
    Find(s, t) != -1
  }

  /** A one-character needle occurs exactly where that character stands. */
  lemma OccursAtChar(s: string, c: char, k: int)
    ensures OccursAt(s, [c], k) <==> 0 <= k < |s| && s[k] == c
  {
    if 0 <= k < |s| {
      assert s[k..k + 1] == [s[k]];
    }
  }

  /** The first position of a character is found by `find`. */
  lemma FindChar(s: string, c: char, k: nat)
    requires k < |s| && s[k] == c
    requires forall j :: 0 <= j < k ==> s[j] != c
    ensures Find(s, [c]) == k
  {
    FindSpec(s, [c]);
    OccursAtChar(s, c, k);
    var r := Find(s, [c]);
    OccursAtChar(s, c, r);
  }

  /** Python's normalisation of one slice bound against a length `n`:
      negative bounds count from the end, then the bound is clamped. */
  function SliceBound(i: int, n: nat): (b: nat)
    ensures b <= n
    ensures 0 <= i <= n ==> b == i
    ensures -(n as int) <= i < 0 ==> b == n + i
  {
    if i < 0 then (if i + n < 0 then 0 else i + n)
    else if i > n then n
    else i
  }

  /** Python `s[start:stop]` (step 1). */
  function PySlice(s: string, start: int, stop: int): (r: string)
    ensures |r| <= |s|
    ensures 0 <= start <= stop <= |s| ==> r == s[start..stop]
    ensures 0 <= start <= |s| < stop ==> r == s[start..]
    ensures start == 0 && -|s| <= stop < 0 ==> r == s[..|s| + stop]
  {
    var lo := SliceBound(start, |s|);
    var hi := SliceBound(stop, |s|);
    if lo <= hi then s[lo..hi] else []
  }

  /** `s[s.find(open) + |open| : s.rfind(close)]`: the text after the first
      `open` and before the last `close`, with Python's slice rules when
      either marker is missing. */
  function SliceBetween(s: string, open: string, close: string): string
  {
    PySlice(s, Find(s, open) + |open|, RFind(s, close))
  }

  /** When the text is `prefix + open + mid + close + suffix`, the first `open`
      and the last `close` are the ones around `mid`, provided `prefix` cannot
      start an `open` and nothing after `close` starts another `close`. */
  lemma SliceBetweenRecovers(prefix: string, open: string, mid: string, close: string, suffix: string)
    requires |open| > 0 && |close| > 0
    requires open[0] !in prefix
    requires close[0] !in close[1..] && close[0] !in suffix
    ensures Find(prefix + open + mid + close + suffix, open) == |prefix|
    ensures RFind(prefix + open + mid + close + suffix, close) == |prefix| + |open| + |mid|
    ensures SliceBetween(prefix + open + mid + close + suffix, open, close) == mid
  {
    var s := prefix + open + mid + close + suffix;
    assert s == prefix + open + (mid + close + suffix);
    FindFirst(prefix, open, mid + close + suffix, 0);
    assert s == (prefix + open + mid) + close + suffix;
    RFindLast(prefix + open + mid, close, suffix, 0);
    assert s[|prefix| + |open|..|prefix| + |open| + |mid|] == mid;
  }

  /** `find` lands on a chosen occurrence of `t` when one of its characters,
      `t[d]`, appears neither earlier in `t` nor anywhere before the
      occurrence: an earlier occurrence would have to place `t[d]` there. */
  lemma FindFirst(prefix: string, t: string, suffix: string, d: nat)
    requires d < |t| && t[d] !in t[..d] && t[d] !in prefix
    ensures Find(prefix + t + suffix, t) == |prefix|
  {
    var s := prefix + t + suffix;
    var p := |prefix|;
    FindSpec(s, t);
    assert s[p..p + |t|] == t;
    assert OccursAt(s, t, p);
    forall k | k < p
      ensures !OccursAt(s, t, k)
    {
      if 0 <= k {
        if k + d < p {
          assert s[k + d] == prefix[k + d];
        } else {
          assert s[k + d] == t[..d][k + d - p];
        }
        assert s[k..k + |t|][d] == s[k + d];
      }
    }
  }

  /** `rfind` lands on a chosen occurrence of `t` when one of its characters,
      `t[d]`, appears neither later in `t` nor anywhere after the occurrence:
      a later occurrence would have to place `t[d]` there. */
  lemma RFindLast(prefix: string, t: string, suffix: string, d: nat)
    requires d < |t| && t[d] !in t[d + 1..] && t[d] !in suffix
    ensures RFind(prefix + t + suffix, t) == |prefix|
  {
    var s := prefix + t + suffix;
    var p := |prefix|;
    RFindSpec(s, t);
    assert s[p..p + |t|] == t;
    assert OccursAt(s, t, p);
    forall k | p < k
      ensures !OccursAt(s, t, k)
    {
      if k + |t| <= |s| {
        if k + d < p + |t| {
          assert s[k + d] == t[d + 1..][k - p - 1];
        } else {
          assert s[k + d] == suffix[k + d - p - |t|];
        }
        assert s[k..k + |t|][d] == s[k + d];
      }
    }
  }

  /** Removing `t` from a text in which it first occurs at the very end
      removes exactly that occurrence. */
  lemma ReplaceTrailing(x: string, t: string)
    requires |t| > 0 && Find(x + t, t) == |x|
    ensures ReplaceAll(x + t, t, "") == x
  {
    var s := x + t;
    assert s[..|x|] == x;
    assert s[|x| + |t|..] == [];
    assert ReplaceAll([], t, "") == [];
  }

  /** Python `"".join` of `sep` around every character of `s`, which is what
      `s.replace("", sep)` yields. */
  function Interleave(s: string, sep: string): string
  {
    if |s| == 0 then sep else sep + [s[0]] + Interleave(s[1..], sep)
  }

  /** Python `s.replace(pat, repl)`: finds the first occurrence of `pat`,
      copies the text before it, writes `repl`, and resumes the search after
      the occurrence, so occurrences never overlap. */
  function ReplaceAll(s: string, pat: string, repl: string): (r: string)
    ensures |pat| > 0 && |repl| > 0 && |s| > 0 ==> |r| > 0
    decreases |s|
  {
    if |pat| == 0 then Interleave(s, repl)
    else
      var k := Find(s, pat);
      if k == -1 then s
      else s[..k] + repl + ReplaceAll(s[k + |pat|..], pat, repl)
  }

  /** One step of `replace`: the text before the first occurrence, then
      `repl`, then the replacement of what follows the occurrence. */
  lemma ReplaceFound(s: string, pat: string, repl: string)
    requires |pat| > 0 && Find(s, pat) != -1
    ensures ReplaceAll(s, pat, repl) == s[..Find(s, pat)] + repl + ReplaceAll(s[Find(s, pat) + |pat|..], pat, repl)
  {
  }

  /** Without an occurrence, `replace` returns the text unchanged. */
  lemma ReplaceMissing(s: string, pat: string, repl: string)
    requires |pat| > 0 && Find(s, pat) == -1
    ensures ReplaceAll(s, pat, repl) == s
  {
  }

  /** When no occurrence of `pat` starts inside `p`, `find` on `p + y` lands
      where it lands in `y`, shifted past `p`. */
  lemma FindAfter(p: string, y: string, pat: string)
    requires forall k :: k < |p| ==> !OccursAt(p + y, pat, k)
    ensures Find(y, pat) == -1 ==> Find(p + y, pat) == -1
    ensures Find(y, pat) != -1 ==> Find(p + y, pat) == |p| + Find(y, pat)
  {
    FindSpec(p + y, pat);
    FindSpec(y, pat);
    var m := Find(p + y, pat);
    if m != -1 {
      OccursShift(p, y, pat, m - |p|);
    }
    var j := Find(y, pat);
    if j != -1 {
      OccursShift(p, y, pat, j);
    }
  }

  /** An occurrence in `y` is an occurrence in `p + y`, `|p|` further on. */
  lemma OccursShift(p: string, y: string, pat: string, k: int)
    requires 0 <= k
    ensures OccursAt(p + y, pat, |p| + k) <==> OccursAt(y, pat, k)
  {
    if k + |pat| <= |y| {
      assert (p + y)[|p| + k..|p| + k + |pat|] == y[k..k + |pat|];
    }
  }

  /** When no occurrence of `pat` starts inside `p`, `replace` copies `p` and
      goes on with `y`. */
  lemma ReplaceAfter(p: string, y: string, pat: string, repl: string)
    requires |pat| > 0
    requires forall k :: k < |p| ==> !OccursAt(p + y, pat, k)
    ensures ReplaceAll(p + y, pat, repl) == p + ReplaceAll(y, pat, repl)
  {
    FindAfter(p, y, pat);
    if Find(y, pat) == -1 {
      ReplaceMissing(p + y, pat, repl);
      ReplaceMissing(y, pat, repl);
    } else {
      ReplaceAfterFound(p, y, pat, repl);
    }
  }

  /** The step of `ReplaceAfter` when `y` holds an occurrence. */
  lemma ReplaceAfterFound(p: string, y: string, pat: string, repl: string)
    requires |pat| > 0 && Find(y, pat) != -1 && Find(p + y, pat) == |p| + Find(y, pat)
    ensures ReplaceAll(p + y, pat, repl) == p + ReplaceAll(y, pat, repl)
  {
    var j := Find(y, pat);
    var tail := y[j + |pat|..];
    var r := ReplaceAll(tail, pat, repl);
    FindOccurs(y, pat);
    Regroup4(p, y[..j], pat, tail);
    ReplaceAt(p + y, pat, repl, p + y[..j], tail);
    ReplaceAt(y, pat, repl, y[..j], tail);
    Regroup4(p, y[..j], repl, r);
  }

  /** One step of `replace`, with the text before and after the first match named. */
  lemma ReplaceAt(s: string, pat: string, repl: string, before: string, tail: string)
    requires |pat| > 0 && s == before + pat + tail && Find(s, pat) == |before|
    ensures ReplaceAll(s, pat, repl) == before + repl + ReplaceAll(tail, pat, repl)
  {
    ReplaceFound(s, pat, repl);
    assert s[..|before|] == before;
    assert s[|before| + |pat|..] == tail;
  }

  /** Regrouping a concatenation of four strings, kept apart from larger
      proof contexts where the solver would search for it at length. */
  lemma Regroup4(a: string, b: string, c: string, d: string)
    ensures a + b + c + d == a + (b + c + d)
  {
  }

  /** An occurrence in a suffix is an occurrence in the whole text. */
  lemma ContainsInSuffix(p: string, y: string, t: string)
    requires Contains(y, t)
    ensures Contains(p + y, t)
  {
    var j := Find(y, t);
    FindSpec(y, t);
    OccursShift(p, y, t, j);
    FindSpec(p + y, t);
  }

  /** The length of one step of `replace`. */
  lemma ReplaceStepLength(s: string, pat: string, repl: string)
    requires |pat| > 0 && Find(s, pat) != -1
    ensures var rest := s[Find(s, pat) + |pat|..];
      |ReplaceAll(s, pat, repl)| - |s| == |ReplaceAll(rest, pat, repl)| - |rest| + |repl| - |pat|
  {
    ReplaceFound(s, pat, repl);
  }

  /** Replacing by something no longer never lengthens the text. */
  lemma {:induction false} ReplaceNoLonger(s: string, pat: string, repl: string)
    requires |pat| > 0 && |repl| <= |pat|
    ensures |ReplaceAll(s, pat, repl)| <= |s|
    decreases |s|
  {
    var found, rest := ReplaceSplit(s, pat, repl);
    if found {
      ReplaceNoLonger(rest, pat, repl);
    }
  }

  /** `replace` either finds nothing and returns `s`, or replaces one
      occurrence and goes on with a shorter `rest`. */
  lemma ReplaceSplit(s: string, pat: string, repl: string) returns (found: bool, rest: string)
    requires |pat| > 0
    ensures found <==> Find(s, pat) != -1
    ensures !found ==> ReplaceAll(s, pat, repl) == s
    ensures found ==> |rest| + |pat| <= |s|
    ensures found ==> |ReplaceAll(s, pat, repl)| - |s| == |ReplaceAll(rest, pat, repl)| - |rest| + |repl| - |pat|
  {
    found := Find(s, pat) != -1;
    rest := [];
    if found {
      rest := s[Find(s, pat) + |pat|..];
      ReplaceStepLength(s, pat, repl);
    } else {
      ReplaceMissing(s, pat, repl);
    }
  }

  /** Replacing an occurring `pat` by something shorter shortens the text. */
  lemma ReplaceShorter(s: string, pat: string, repl: string)
    requires |repl| < |pat| && Find(s, pat) != -1
    ensures |ReplaceAll(s, pat, repl)| < |s|
  {
    ReplaceStepLength(s, pat, repl);
    ReplaceNoLonger(s[Find(s, pat) + |pat|..], pat, repl);
  }

  /** `s` with every `c` removed: the reference meaning of deleting one character. */
  function Erase(s: string, c: char): (r: string)
    ensures |r| <= |s|
  {
    if |s| == 0 then []
    else if s[0] == c then Erase(s[1..], c)
    else [s[0]] + Erase(s[1..], c)
  }

  /** Erasing `c` removes every `c` and keeps every other character that
      occurs. */
  lemma {:induction false} EraseKeeps(s: string, c: char)
    ensures c !in Erase(s, c)
    ensures forall x :: x != c ==> (x in Erase(s, c) <==> x in s)
    decreases |s|
  {
    if |s| > 0 {
      EraseKeeps(s[1..], c);
      assert forall x :: x in s <==> x == s[0] || x in s[1..];
    }
  }

  lemma {:induction false} EraseAppend(a: string, b: string, c: char)
    ensures Erase(a + b, c) == Erase(a, c) + Erase(b, c)
    decreases |a|
  {
    if |a| > 0 {
      assert (a + b)[1..] == a[1..] + b;
      EraseAppend(a[1..], b, c);
    } else {
      assert a + b == b;
    }
  }

  lemma {:induction false} EraseAbsent(s: string, c: char)
    requires c !in s
    ensures Erase(s, c) == s
    decreases |s|
  {
    if |s| > 0 {
      EraseAbsent(s[1..], c);
    }
  }

  /** A text made only of `c` erases to nothing. */
  lemma {:induction false} EraseOnly(s: string, c: char)
    requires forall k :: 0 <= k < |s| ==> s[k] == c
    ensures Erase(s, c) == []
    decreases |s|
  {
    if |s| > 0 {
      assert forall k :: 0 <= k < |s[1..]| ==> s[1..][k] == s[k + 1];
      EraseOnly(s[1..], c);
    }
  }

  /** Python `s.replace(c, "")` for a one-character `c` deletes exactly the
      occurrences of `c` and keeps every other character in order. */
  lemma {:induction false} ReplaceCharIsErase(s: string, c: char)
    ensures ReplaceAll(s, [c], "") == Erase(s, c)
    decreases |s|
  {
    var k := Find(s, [c]);
    if k == -1 {
      ReplaceCharMissing(s, c);
    } else {
      ReplaceCharFound(s, c);
      EraseFound(s, c);
      ReplaceCharIsErase(s[k + 1..], c);
    }
  }

  /** Without a `c`, neither `replace` nor erasing changes the text. */
  lemma ReplaceCharMissing(s: string, c: char)
    requires Find(s, [c]) == -1
    ensures ReplaceAll(s, [c], "") == s == Erase(s, c)
  {
    FindCharSpec(s, c);
    ReplaceMissing(s, [c], "");
    EraseAbsent(s, c);
  }

  /** `replace` by nothing keeps the text before the first `c` and goes on
      after it. */
  lemma ReplaceCharFound(s: string, c: char)
    requires Find(s, [c]) != -1
    ensures ReplaceAll(s, [c], "") == s[..Find(s, [c])] + ReplaceAll(s[Find(s, [c]) + 1..], [c], "")
  {
    var k := Find(s, [c]);
    ReplaceFound(s, [c], "");
    assert s[..k] + "" == s[..k];
  }

  /** Erasing keeps the text before the first `c` and goes on after it. */
  lemma EraseFound(s: string, c: char)
    requires Find(s, [c]) != -1
    ensures Erase(s, c) == s[..Find(s, [c])] + Erase(s[Find(s, [c]) + 1..], c)
  {
    FindCharSpec(s, c);
    EraseAt(s, c, Find(s, [c]));
  }

  /** A middle part made only of `c` vanishes when `c` is erased. */
  lemma EraseBetween(pre: string, mid: string, rest: string, c: char)
    requires Erase(mid, c) == []
    ensures Erase(pre + mid + rest, c) == Erase(pre, c) + Erase(rest, c)
  {
    EraseAppend(pre, mid, c);
    EraseAppend(pre + mid, rest, c);
  }

  /** Erasing `c` from a text whose first `c` is at `k` keeps what precedes
      it. */
  lemma EraseAt(s: string, c: char, k: nat)
    requires k < |s| && s[k] == c && c !in s[..k]
    ensures Erase(s, c) == s[..k] + Erase(s[k + 1..], c)
  {
    SplitAt(s, k);
    EraseAround(s[..k], c, s[k + 1..]);
  }

  /** Erasing `c` from a text whose first `c` follows `pre` keeps `pre`. */
  lemma EraseAround(pre: string, c: char, rest: string)
    requires c !in pre
    ensures Erase(pre + [c] + rest, c) == pre + Erase(rest, c)
  {
    assert Erase([c], c) == [] by {
      assert [c][1..] == [];
    }
    EraseBetween(pre, [c], rest, c);
    EraseAbsent(pre, c);
  }

  /** A text is the part before position `k`, the character at `k`, and the
      part after it. */
  lemma SplitAt(s: string, k: nat)
    requires k < |s|
    ensures s == s[..k] + [s[k]] + s[k + 1..]
  {
    assert s[..k + 1] == s[..k] + [s[k]];
    assert s == s[..k + 1] + s[k + 1..];
  }

  /** For a one-character needle, `find` is the index of the first
      occurrence of the character, -1 when it does not occur. */
  lemma FindCharSpec(s: string, c: char)
    ensures Find(s, [c]) == -1 <==> c !in s
    ensures Find(s, [c]) != -1 ==> s[Find(s, [c])] == c && c !in s[..Find(s, [c])]
  {
    FindSpec(s, [c]);
    forall j
      ensures OccursAt(s, [c], j) <==> 0 <= j < |s| && s[j] == c
    {
      OccursAtChar(s, c, j);
    }
  }


  /** Python `s.lstrip(chars)`: drops the leading characters found in `chars`. */
  function LStrip(s: string, chars: string): (r: string)
    ensures |r| <= |s|
    decreases |s|
  {
    if |s| > 0 && s[0] in chars then LStrip(s[1..], chars) else s
  }

  /** `lstrip` keeps a suffix, drops only characters of `chars`, and stops at
      the first other character. */
  lemma {:induction false} LStripSpec(s: string, chars: string)
    ensures var r := LStrip(s, chars);
      && r == s[|s| - |r|..]
      && (forall k :: 0 <= k < |s| - |r| ==> s[k] in chars)
      && (r != [] ==> r[0] !in chars)
    decreases |s|
  {
    if |s| > 0 && s[0] in chars {
      LStripSpec(s[1..], chars);
      var r := LStrip(s, chars);
      assert forall k :: 1 <= k < |s| - |r| ==> s[k] == s[1..][k - 1];
      assert s[1..][|s| - 1 - |r|..] == s[|s| - |r|..];
    }
  }

  /** Python `s.rstrip(chars)`: drops the trailing characters found in `chars`. */
  function RStrip(s: string, chars: string): (r: string)
    ensures |r| <= |s|
    decreases |s|
  {
    if |s| > 0 && s[|s| - 1] in chars then RStrip(s[..|s| - 1], chars) else s
  }

  /** `rstrip` keeps a prefix, drops only characters of `chars`, and stops at
      the last other character. */
  lemma {:induction false} RStripSpec(s: string, chars: string)
    ensures var r := RStrip(s, chars);
      && r == s[..|r|]
      && (forall k :: |r| <= k < |s| ==> s[k] in chars)
      && (r != [] ==> r[|r| - 1] !in chars)
    decreases |s|
  {
    if |s| > 0 && s[|s| - 1] in chars {
      RStripSpec(s[..|s| - 1], chars);
      var r := RStrip(s, chars);
      assert forall k :: |r| <= k < |s| - 1 ==> s[k] == s[..|s| - 1][k];
      assert s[..|s| - 1][..|r|] == s[..|r|];
    }
  }


  /** `lstrip` passes over a leading run made only of characters of `chars`. */
  lemma {:induction false} LStripSkips(pre: string, x: string, chars: string)
    requires forall k :: 0 <= k < |pre| ==> pre[k] in chars
    ensures LStrip(pre + x, chars) == LStrip(x, chars)
    decreases |pre|
  {
    if |pre| > 0 {
      assert (pre + x)[1..] == pre[1..] + x;
      LStripSkips(pre[1..], x, chars);
    } else {
      assert pre + x == x;
    }
  }

  /** `rstrip` passes over a trailing run made only of characters of `chars`. */
  lemma {:induction false} RStripSkips(x: string, post: string, chars: string)
    requires forall k :: 0 <= k < |post| ==> post[k] in chars
    ensures RStrip(x + post, chars) == RStrip(x, chars)
    decreases |post|
  {
    if |post| > 0 {
      assert (x + post)[..|x + post| - 1] == x + post[..|post| - 1];
      RStripSkips(x, post[..|post| - 1], chars);
    } else {
      assert x + post == x;
    }
  }

  /** Python `s.strip(chars)`: `chars` is a set of characters, not a suffix or
      prefix; characters are removed from both ends while they belong to it. */
  function Strip(s: string, chars: string): (r: string)
    ensures |r| <= |s|
  {
    RStrip(LStrip(s, chars), chars)
  }

  /** `strip` keeps a contiguous piece of the text, drops only characters of
      `chars` on either side of it, and the piece starts and ends with
      characters outside `chars`. */
  lemma StripSpec(s: string, chars: string)
    ensures |LStrip(s, chars)| >= |Strip(s, chars)|
    ensures Strip(s, chars) == s[|s| - |LStrip(s, chars)|..|s| - |LStrip(s, chars)| + |Strip(s, chars)|]
    ensures forall k :: 0 <= k < |s| - |LStrip(s, chars)| ==> s[k] in chars
    ensures forall k :: |s| - |LStrip(s, chars)| + |Strip(s, chars)| <= k < |s| ==> s[k] in chars
    ensures Strip(s, chars) != [] ==> Strip(s, chars)[0] !in chars
    ensures Strip(s, chars) != [] ==> Strip(s, chars)[|Strip(s, chars)| - 1] !in chars
  {
    StripSlice(s, chars);
    StripEnds(s, chars);
  }

  /** The stripped text is a slice of `s` with only characters of `chars`
      around it. */
  lemma StripSlice(s: string, chars: string)
    ensures var a := |s| - |LStrip(s, chars)|; var r := Strip(s, chars);
      && a + |r| <= |s|
      && r == s[a..a + |r|]
      && (forall k :: 0 <= k < a ==> s[k] in chars)
      && (forall k :: a + |r| <= k < |s| ==> s[k] in chars)
  {
    LStripSpec(s, chars);
    RStripSpec(LStrip(s, chars), chars);
    TrimmedSlice(s, LStrip(s, chars), Strip(s, chars), chars);
  }

  /** A prefix `r` of a suffix `l` of `s` is a slice of `s`; if only
      characters of `chars` were cut at each step, only those surround it. */
  lemma TrimmedSlice(s: string, l: string, r: string, chars: string)
    requires |l| <= |s| && l == s[|s| - |l|..] && forall k :: 0 <= k < |s| - |l| ==> s[k] in chars
    requires |r| <= |l| && r == l[..|r|] && forall k :: |r| <= k < |l| ==> l[k] in chars
    ensures var a := |s| - |l|;
      && a + |r| <= |s|
      && r == s[a..a + |r|]
      && (forall k :: 0 <= k < a ==> s[k] in chars)
      && (forall k :: a + |r| <= k < |s| ==> s[k] in chars)
  {
    var a := |s| - |l|;
    forall k | a + |r| <= k < |s|
      ensures s[k] in chars
    {
      assert s[k] == l[k - a];
    }
  }

  /** Neither end of the stripped text is a character of `chars`. */
  lemma StripEnds(s: string, chars: string)
    ensures var r := Strip(s, chars);
      r != [] ==> r[0] !in chars && r[|r| - 1] !in chars
  {
    var l := LStrip(s, chars);
    var r := RStrip(l, chars);
    assert Strip(s, chars) == r;
    LStripSpec(s, chars);
    RStripSpec(l, chars);
    if r != [] {
      assert r[0] == l[0];
    }
  }

  /** Stripping twice strips nothing more. */
  lemma StripIdempotent(s: string, chars: string)
    ensures Strip(Strip(s, chars), chars) == Strip(s, chars)
  {
    StripSpec(s, chars);
    var r := Strip(s, chars);
    assert LStrip(r, chars) == r;
    assert RStrip(r, chars) == r;
  }

  /** The characters Python's `str.isspace` accepts (Basic Multilingual Plane). */
  const Whitespace: string :=
    " \t\n\r\U{000B}\U{000C}\U{001C}\U{001D}\U{001E}\U{001F}\U{0085}\U{00A0}\U{1680}"
    + "\U{2000}\U{2001}\U{2002}\U{2003}\U{2004}\U{2005}\U{2006}\U{2007}\U{2008}\U{2009}\U{200A}\U{2028}\U{2029}\U{202F}\U{205F}\U{3000}"

  /** Python `s.strip()` with no argument. */
  function StripWhitespace(s: string): (r: string)
    ensures r != [] ==> r[0] !in Whitespace && r[|r| - 1] !in Whitespace
    ensures |r| <= |s|
  {
    StripEnds(s, Whitespace);
    Strip(s, Whitespace)
  }

  /** Python `s.isdigit()` for ASCII digits: non-empty and only digits. */
  predicate IsDigits(s: string) {
    |s| > 0 && forall i :: 0 <= i < |s| ==> '0' <= s[i] <= '9'
  }

  /** The decimal value of a digit string, most significant digit first. */
  function DigitsValue(s: string): (n: nat)
    requires forall i :: 0 <= i < |s| ==> '0' <= s[i] <= '9'
  {
    if |s| == 0 then 0
    else DigitsValue(s[..|s| - 1]) * 10 + (s[|s| - 1] - '0') as nat
  }

  /** A run of zeros is worth nothing. */
  lemma {:induction false} ZerosValue(z: string)
    requires forall k :: 0 <= k < |z| ==> z[k] == '0'
    ensures DigitsValue(z) == 0
    decreases |z|
  {
    if |z| > 0 {
      ZerosValue(z[..|z| - 1]);
    }
  }

  /** Leading zeros do not change the value of a digit string. */
  lemma {:induction false} LeadingZeros(z: string, s: string)
    requires forall k :: 0 <= k < |z| ==> z[k] == '0'
    requires forall k :: 0 <= k < |s| ==> '0' <= s[k] <= '9'
    ensures forall k :: 0 <= k < |z + s| ==> '0' <= (z + s)[k] <= '9'
    ensures DigitsValue(z + s) == DigitsValue(s)
    decreases |s|
  {
    if |s| == 0 {
      assert z + s == z;
      ZerosValue(z);
    } else {
      assert (z + s)[..|z + s| - 1] == z + s[..|s| - 1];
      LeadingZeros(z, s[..|s| - 1]);
    }
  }

  /** Python `str(n)` for a natural number. */
  function NatToDigits(n: nat): (s: string)
    ensures IsDigits(s)
  {
    if n < 10 then [('0' as int + n) as char]
    else NatToDigits(n / 10) + [('0' as int + n % 10) as char]
  }

  /** Python `str(i)` for any integer. */
  function IntToString(i: int): (s: string)
    ensures i >= 0 ==> IsDigits(s)
    ensures i < 0 ==> |s| > 0 && s[0] == '-'
  {
    if i < 0 then "-" + NatToDigits(-i) else NatToDigits(i)
  }

  /** Reading back the decimal text of a number gives that number. */
  lemma {:induction false} DigitsRoundTrip(n: nat)
    ensures DigitsValue(NatToDigits(n)) == n
  {
    if n >= 10 {
      var s := NatToDigits(n);
      assert s[..|s| - 1] == NatToDigits(n / 10);
      DigitsRoundTrip(n / 10);
    }
  }
}
