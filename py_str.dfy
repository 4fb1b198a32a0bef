/**
 The handful of Python `str` operations that the URL-name builder of
 `DjangoResource` is made of: `replace`, `lower` (ASCII only), `rstrip` with
 one character, and `join`. Strings are `seq<char>`. `Count` (Python's
 `str.count`) is not called by the builder; it only serves to state how long
 the result of `replace` is.
 */
module PyStr {

  /** `w` occurs in `s` at index `i`. */
  predicate OccursAt(s: string, w: string, i: int) {
    0 <= i && i + |w| <= |s| && s[i..i + |w|] == w
  }

  predicate StartsWith(s: string, w: string) {
    |w| <= |s| && s[..|w|] == w
  }

  predicate EndsWith(s: string, w: string) {
    |w| <= |s| && s[|s| - |w|..] == w
  }

  /** No occurrence of `w` anywhere in `s`. */
  predicate Free(s: string, w: string) {
    forall i :: 0 <= i <= |s| ==> !OccursAt(s, w, i)
  }

  /** Python's `s.count(w)`: the number of non-overlapping occurrences of `w`
      found scanning from the left; an empty `w` occurs `|s| + 1` times. */
  function Count(s: string, w: string): nat
    decreases |s|
  {
    if w == [] then |s| + 1
    else if s == [] then 0
    else if StartsWith(s, w) then 1 + Count(s[|w|..], w)
    else Count(s[1..], w)
  }

  /** Python's `s.replace("", rep)`: `rep` before every character and at the end. */
  function ReplaceEmpty(s: string, rep: string): (r: string)
    ensures StartsWith(r, rep) && EndsWith(r, rep)
  {
    if s == [] then rep else rep + [s[0]] + ReplaceEmpty(s[1..], rep)
  }

  /** `rep` is inserted `|s| + 1` times. */
  lemma {:induction false} ReplaceEmptyLength(s: string, rep: string)
    ensures |ReplaceEmpty(s, rep)| == |s| + |rep| * (|s| + 1)
    decreases |s|
  {
    if s != [] {
      ReplaceEmptyLength(s[1..], rep);
      assert |ReplaceEmpty(s, rep)| == |rep| + 1 + |ReplaceEmpty(s[1..], rep)|;
      LengthStep(|rep|, |s[1..]|, |ReplaceEmpty(s, rep)|, |ReplaceEmpty(s[1..], rep)|);
    }
  }

  /** Python's `s.replace(pat, rep)`: one left-to-right scan that replaces each
      non-overlapping occurrence of `pat`; the inserted text is not rescanned. */
  function ReplaceAll(s: string, pat: string, rep: string): (r: string)
    ensures pat != [] && rep == [] ==> |r| <= |s|
    decreases |s|
  {
    if pat == [] then ReplaceEmpty(s, rep)
    else if s == [] then []
    else if StartsWith(s, pat) then rep + ReplaceAll(s[|pat|..], pat, rep)
    else [s[0]] + ReplaceAll(s[1..], pat, rep)
  }

  /** Each character of `s`, as a one-character string. */
  function Chars(s: string): (parts: seq<string>)
    ensures |parts| == |s|
    ensures forall i :: 0 <= i < |s| ==> parts[i] == [s[i]]
  {
    seq(|s|, i requires 0 <= i < |s| => [s[i]])
  }

  lemma CharsCons(s: string)
    requires s != []
    ensures Chars(s) + [[]] == [[s[0]]] + (Chars(s[1..]) + [[]])
  {
    assert Chars(s) == [[s[0]]] + Chars(s[1..]);
  }

  /** `rep + rep.join(chars of s + [""])` is `s.replace("", rep)`. */
  lemma {:induction false} ReplaceEmptyTail(s: string, rep: string)
    ensures rep + Join(rep, Chars(s) + [[]]) == ReplaceEmpty(s, rep)
    decreases |s|
  {
    if s == [] {
      assert Chars(s) + [[]] == [[]];
    } else {
      var tail := Chars(s[1..]) + [[]];
      var j := Join(rep, tail);
      CharsCons(s);
      JoinCons(rep, [s[0]], tail);
      ReplaceEmptyTail(s[1..], rep);
      assert rep + ([s[0]] + rep + j) == rep + [s[0]] + (rep + j);
    }
  }

  /** `s.replace("", rep)` puts `rep` before every character of `s` and at
      the end: it is `rep.join(["", c1, ..., cn, ""])`. */
  lemma ReplaceEmptyJoin(s: string, rep: string)
    ensures ReplaceAll(s, [], rep) == Join(rep, [[]] + Chars(s) + [[]])
  {
    var tail := Chars(s) + [[]];
    var parts := [[]] + tail;
    assert [[]] + Chars(s) + [[]] == parts;
    assert parts[1..] == tail && |parts| >= 2;
    assert Join(rep, parts) == [] + rep + Join(rep, tail);
    ReplaceEmptyTail(s, rep);
    assert [] + rep == rep;
  }

  /** The result is shorter or longer by `|rep| - |pat|` for every occurrence
      that `count` reports. */
  lemma {:induction false} ReplaceLength(s: string, pat: string, rep: string)
    ensures |ReplaceAll(s, pat, rep)| == |s| + (|rep| - |pat|) * Count(s, pat)
    decreases |s|
  {
    if pat == [] {
      ReplaceEmptyLength(s, rep);
    } else if s == [] {
    } else if StartsWith(s, pat) {
      var d, n := |rep| - |pat|, Count(s[|pat|..], pat);
      ReplaceLength(s[|pat|..], pat, rep);
      MulSucc(d, n);
    } else {
      ReplaceLength(s[1..], pat, rep);
    }
  }

  /** The occurrences that `count` reports fit in `s` side by side. */
  lemma {:induction false} CountBound(s: string, w: string)
    requires w != []
    ensures |w| * Count(s, w) <= |s|
    decreases |s|
  {
    if s == [] {
    } else if StartsWith(s, w) {
      CountBound(s[|w|..], w);
      MulSucc(|w|, Count(s[|w|..], w));
    } else {
      CountBound(s[1..], w);
    }
  }

  /** One more character: `rep` and the character are added in front. */
  lemma LengthStep(m: int, n: int, len: int, tailLen: int)
    requires tailLen == n + m * (n + 1)
    requires len == m + 1 + tailLen
    ensures len == (n + 1) + m * ((n + 1) + 1)
  {
    MulSucc(m, n + 1);
  }

  lemma MulSucc(d: int, n: int)
    ensures d * (1 + n) == d + d * n
  {
  }

  /** An occurrence in a suffix of `s` is an occurrence in `s`, shifted. */
  lemma OccursShift(s: string, w: string, k: int, i: int)
    requires 0 <= k <= |s| && 0 <= i
    ensures OccursAt(s[k..], w, i) <==> OccursAt(s, w, k + i)
  {
    if i + |w| <= |s| - k {
      assert s[k..][i..i + |w|] == s[k + i..k + i + |w|];
    }
  }

  /** No occurrence of `w` in `s` starts before index `n`. */
  predicate NoneBefore(s: string, w: string, n: int) {
    forall i :: 0 <= i < n ==> !OccursAt(s, w, i)
  }

  /** Where `pat` does not occur, the scan copies one character and moves on. */
  lemma ReplaceSkip(s: string, pat: string, rep: string)
    requires pat != [] && s != [] && !OccursAt(s, pat, 0)
    ensures ReplaceAll(s, pat, rep) == [s[0]] + ReplaceAll(s[1..], pat, rep)
  {
    assert !StartsWith(s, pat) by {
      if |pat| <= |s| {
        assert s[..|pat|] == s[0..|pat|];
      }
    }
  }

  /** When no occurrence of `pat` starts inside `x`, the scan copies `x` and
      goes on with `z`. */
  lemma {:induction false} ReplaceSkipsPrefix(x: string, z: string, pat: string, rep: string)
    requires pat != []
    requires NoneBefore(x + z, pat, |x|)
    ensures ReplaceAll(x + z, pat, rep) == x + ReplaceAll(z, pat, rep)
    decreases |x|
  {
    if x == [] {
      assert x + z == z;
    } else {
      var x' := x[1..];
      assert (x + z)[1..] == x' + z;
      assert NoneBefore(x' + z, pat, |x'|) by {
        forall i | 0 <= i < |x'|
          ensures !OccursAt(x' + z, pat, i)
        {
          OccursShift(x + z, pat, 1, i);
        }
      }
      ReplaceSkipsPrefix(x', z, pat, rep);
      assert ReplaceAll(x + z, pat, rep) == [x[0]] + (x' + ReplaceAll(z, pat, rep)) by {
        ReplaceSkip(x + z, pat, rep);
      }
      assert [x[0]] + (x' + ReplaceAll(z, pat, rep)) == ([x[0]] + x') + ReplaceAll(z, pat, rep);
      assert [x[0]] + x' == x;
    }
  }

  /** A string that does not contain `pat` is returned unchanged. */
  lemma ReplaceFree(s: string, pat: string, rep: string)
    requires pat != []
    requires Free(s, pat)
    ensures ReplaceAll(s, pat, rep) == s
  {
    assert s + [] == s;
    ReplaceSkipsPrefix(s, [], pat, rep);
  }

  /** The first character of `w` occurs nowhere else in `w`, so two
      occurrences of `w` can never overlap. */
  predicate LeadUnique(w: string) {
    w != [] && forall j :: 0 < j < |w| ==> w[j] != w[0]
  }

  /** In `x + w + y`, with `x` free of `w`, no occurrence of `w` starts
      inside `x`, not even one that would run into the `w` after it. */
  lemma LeadUniqueNoneBefore(x: string, w: string, y: string)
    requires LeadUnique(w) && Free(x, w)
    ensures NoneBefore(x + (w + y), w, |x|)
  {
    var s := x + (w + y);
    forall i | 0 <= i < |x|
      ensures !OccursAt(s, w, i)
    {
      if i + |w| <= |x| {
        assert !OccursAt(x, w, i);
        assert s[i..i + |w|] == x[i..i + |w|];
      } else if i + |w| <= |s| {
        assert s[i..i + |w|][|x| - i] == w[0] != w[|x| - i];
      }
    }
  }

  /** A leading occurrence of `w` is replaced and the scan goes on after it. */
  lemma ReplaceLeadingWord(w: string, y: string, rep: string)
    requires w != []
    ensures ReplaceAll(w + y, w, rep) == rep + ReplaceAll(y, w, rep)
  {
    assert StartsWith(w + y, w);
    assert (w + y)[|w|..] == y;
  }

  /** In `x + w + y`, with `x` free of `w`, the first occurrence found is the
      `w` after `x`: it is replaced and the scan goes on with `y`. */
  lemma ReplaceWordThenScan(x: string, w: string, y: string, rep: string)
    requires LeadUnique(w) && Free(x, w)
    ensures ReplaceAll(x + w + y, w, rep) == x + rep + ReplaceAll(y, w, rep)
  {
    LeadUniqueNoneBefore(x, w, y);
    ReplaceSkipsPrefix(x, w + y, w, rep);
    ReplaceLeadingWord(w, y, rep);
    assert x + w + y == x + (w + y);
  }

  /** Python's `s.replace(w, rep)` is `rep.join(s.split(w))`: when `s` is the
      pieces `parts` joined by `w`, none of the pieces containing `w`, every
      `w` is replaced and the pieces are kept. */
  lemma {:induction false} ReplaceJoined(parts: seq<string>, w: string, rep: string)
    requires LeadUnique(w)
    requires forall i :: 0 <= i < |parts| ==> Free(parts[i], w)
    ensures ReplaceAll(Join(w, parts), w, rep) == Join(rep, parts)
    decreases |parts|
  {
    if |parts| == 1 {
      ReplaceFree(parts[0], w, rep);
    } else if |parts| > 1 {
      var rest := parts[1..];
      ReplaceJoined(rest, w, rep);
      ReplaceWordThenScan(parts[0], w, Join(w, rest), rep);
    }
  }

  /** Removing one occurrence of `w` from between two texts free of `w`
      leaves their concatenation, even when that concatenation contains `w`:
      the scan does not look again at what it has produced. */
  lemma RemoveGlued(x: string, w: string, y: string)
    requires LeadUnique(w) && Free(x, w) && Free(y, w)
    ensures ReplaceAll(x + w + y, w, []) == x + y
  {
    ReplaceWordThenScan(x, w, y, []);
    ReplaceFree(y, w, []);
    assert x + [] == x;
  }

  /** Removing every occurrence of `w` from `base + w`, where `base` does not
      contain `w`, gives back `base`. */
  lemma RemoveTrailingWord(base: string, w: string)
    requires LeadUnique(w) && Free(base, w)
    ensures ReplaceAll(base + w, w, []) == base
  {
    assert Free([], w);
    RemoveGlued(base, w, []);
    assert base + w + [] == base + w;
    assert base + [] == base;
  }

  predicate IsAsciiUpper(c: char) {
    'A' <= c <= 'Z'
  }

  /** Python's `c.lower()` restricted to ASCII: `A`..`Z` become `a`..`z`. */
  function LowerChar(c: char): (d: char)
    ensures !IsAsciiUpper(d)
    ensures IsAsciiUpper(c) ==> 'a' <= d <= 'z' && d as int == c as int + 32
    ensures !IsAsciiUpper(c) ==> d == c
  {
    if IsAsciiUpper(c) then (c as int + 32) as char else c
  }

  /** Python's `s.lower()` on ASCII text. */
  function Lower(s: string): (r: string)
    ensures |r| == |s|
    ensures forall i :: 0 <= i < |s| ==> !IsAsciiUpper(r[i])
    ensures forall i :: 0 <= i < |s| && !IsAsciiUpper(s[i]) ==> r[i] == s[i]
    ensures forall i :: 0 <= i < |s| && IsAsciiUpper(s[i]) ==> r[i] as int == s[i] as int + 32
  {
    seq(|s|, i requires 0 <= i < |s| => LowerChar(s[i]))
  }

  lemma LowerIdempotent(s: string)
    ensures Lower(Lower(s)) == Lower(s)
  {
  }

  /** Lower-casing neither creates nor removes an underscore. */
  lemma LowerCharUnderscore(a: char)
    ensures LowerChar(a) == '_' <==> a == '_'
  {
  }

  /** Python's `s.rstrip(c)` with a single character: the longest prefix of
      `s` that does not end in `c`, the rest of `s` being all `c`. */
  function RStrip(s: string, c: char): (r: string)
    ensures r <= s
    ensures r == [] || r[|r| - 1] != c
    ensures forall i :: |r| <= i < |s| ==> s[i] == c
    decreases |s|
  {
    if s != [] && s[|s| - 1] == c then RStrip(s[..|s| - 1], c) else s
  }

  /** The three properties in the contract of `RStrip` pin its result down. */
  lemma RStripUnique(s: string, c: char, q: string)
    requires q <= s
    requires q == [] || q[|q| - 1] != c
    requires forall i :: |q| <= i < |s| ==> s[i] == c
    ensures RStrip(s, c) == q
  {
  }

  lemma RStripIdempotent(s: string, c: char)
    ensures RStrip(RStrip(s, c), c) == RStrip(s, c)
  {
  }

  /** `c` repeated `k` times. */
  function Repeat(c: char, k: nat): (r: string)
    ensures |r| == k
    ensures forall i :: 0 <= i < k ==> r[i] == c
  {
    seq(k, _ => c)
  }

  /** Trailing copies of `c` make no difference to `rstrip(c)`. */
  lemma RStripTrailing(s: string, c: char, k: nat)
    ensures RStrip(s + Repeat(c, k), c) == RStrip(s, c)
  {
    var t := s + Repeat(c, k);
    var q := RStrip(s, c);
    assert q <= t by {
      assert t[..|s|] == s;
    }
    RStripUnique(t, c, q);
  }

  /** Python's `sep.join(parts)`: the parts in order, with `sep` between
      each two. */
  function Join(sep: string, parts: seq<string>): (r: string)
    ensures parts == [] ==> r == []
    ensures parts != [] ==> StartsWith(r, parts[0]) && EndsWith(r, parts[|parts| - 1])
  {
    if parts == [] then []
    else if |parts| == 1 then parts[0]
    else
      var rest := Join(sep, parts[1..]);
      assert (parts[0] + sep + rest)[..|parts[0]|] == parts[0];
      parts[0] + sep + rest
  }

  /** The joined string holds every part and one `sep` between each two. */
  lemma {:induction false} JoinLength(sep: string, parts: seq<string>)
    requires parts != []
    ensures |Join(sep, parts)| == TotalLength(parts) + |sep| * (|parts| - 1)
    decreases |parts|
  {
    if |parts| > 1 {
      JoinLength(sep, parts[1..]);
      MulSucc(|sep|, |parts| - 2);
    }
  }

  /** The lengths of `parts` added up. */
  function TotalLength(parts: seq<string>): nat {
    if parts == [] then 0 else |parts[0]| + TotalLength(parts[1..])
  }

  /** A part in front of a non-empty list is followed by one `sep`. */
  lemma JoinCons(sep: string, a: string, rest: seq<string>)
    requires rest != []
    ensures Join(sep, [a] + rest) == a + sep + Join(sep, rest)
  {
    assert ([a] + rest)[1..] == rest;
  }

  /** Joining two strings puts exactly one separator between them. */
  lemma JoinPair(sep: string, a: string, b: string)
    ensures Join(sep, [a, b]) == a + sep + b
    ensures Join(sep, [a, b])[..|a|] == a && Join(sep, [a, b])[|a|..] == sep + b
  {
    assert [a, b][1..] == [b];
    assert (a + sep + b)[..|a|] == a;
    assert (a + sep + b)[|a|..] == sep + b;
  }
}
