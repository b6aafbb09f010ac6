/** Text helpers with the semantics of the Ruby core String methods the plugins call:
    `strip`, splitting at a separator, `Array#join`, and the "only deletes characters"
    relation used to state what the `gsub` rewrites do. */
module Text {

  /** The characters `String#strip` removes: NUL, tab, line feed, vertical tab,
      form feed, carriage return and space. */
  predicate IsStripSpace(c: char) {
    c == '\0' || c == '\t' || c == '\n' || c == '\U{0B}' || c == '\U{0C}' || c == '\r' || c == ' '
  }

  predicate AllStripSpace(s: string) {
    forall i :: 0 <= i < |s| ==> IsStripSpace(s[i])
  }

  predicate StartsWith(s: string, p: string) {
    |p| <= |s| && s[..|p|] == p
  }

  /** The first index at or after `i` that holds no whitespace (`|s|` when none). */
  function SkipSpaceFrom(s: string, i: int): (k: int)
    requires 0 <= i <= |s|
    ensures i <= k <= |s|
    ensures forall j :: i <= j < k ==> IsStripSpace(s[j])
    ensures k == |s| || !IsStripSpace(s[k])
    decreases |s| - i
  {
    if i < |s| && IsStripSpace(s[i]) then SkipSpaceFrom(s, i + 1) else i
  }

  /** The end of `s[lo..hi]` once its trailing whitespace is dropped. */
  function BackSpaceFrom(s: string, lo: int, hi: int): (k: int)
    requires 0 <= lo <= hi <= |s|
    ensures lo <= k <= hi
    ensures forall j :: k <= j < hi ==> IsStripSpace(s[j])
    ensures k == lo || !IsStripSpace(s[k - 1])
    decreases hi - lo
  {
    if lo < hi && IsStripSpace(s[hi - 1]) then BackSpaceFrom(s, lo, hi - 1) else hi
  }

  /** `s[i..j]` has only whitespace before and after it and none at either of its own
      ends: the one slice `strip` may leave. */
  predicate StripsAt(s: string, i: int, j: int) {
    && 0 <= i <= j <= |s|
    && (forall k :: 0 <= k < i ==> IsStripSpace(s[k]))
    && (forall k :: j <= k < |s| ==> IsStripSpace(s[k]))
    && (i < j ==> !IsStripSpace(s[i]) && !IsStripSpace(s[j - 1]))
  }

  /** Where the text `strip` keeps begins. */
  function StripStart(s: string): (i: int)
    ensures 0 <= i <= |s|
  {
    SkipSpaceFrom(s, 0)
  }

  /** `String#strip`. */
  function Strip(s: string): (r: string)
    ensures StripStart(s) + |r| <= |s|
    ensures StripsAt(s, StripStart(s), StripStart(s) + |r|)
    ensures r == s[StripStart(s)..StripStart(s) + |r|]
  {
    var i := SkipSpaceFrom(s, 0);
    s[i..BackSpaceFrom(s, i, |s|)]
  }

  /** Skipping whitespace stops at the first non-space character. */
  lemma {:induction false} SkipSpaceAt(s: string, lo: int, i: int)
    requires 0 <= lo <= i <= |s|
    requires forall k :: lo <= k < i ==> IsStripSpace(s[k])
    requires i == |s| || !IsStripSpace(s[i])
    ensures SkipSpaceFrom(s, lo) == i
    decreases i - lo
  {
    if lo < i {
      SkipSpaceAt(s, lo + 1, i);
    }
  }

  /** Dropping trailing whitespace stops after the last non-space character. */
  lemma {:induction false} BackSpaceAt(s: string, lo: int, hi: int, j: int)
    requires 0 <= lo <= j <= hi <= |s|
    requires forall k :: j <= k < hi ==> IsStripSpace(s[k])
    requires j == lo || !IsStripSpace(s[j - 1])
    ensures BackSpaceFrom(s, lo, hi) == j
    decreases hi - j
  {
    if j < hi {
      BackSpaceAt(s, lo, hi - 1, j);
    }
  }

  /** The characterisation pins the result down: whatever slice meets it is the one
      `Strip` returns. */
  lemma StripUnique(s: string, i: int, j: int)
    requires StripsAt(s, i, j)
    ensures Strip(s) == s[i..j]
  {
    if i < j {
      SkipSpaceAt(s, 0, i);
      BackSpaceAt(s, i, |s|, j);
    } else {
      SkipSpaceAt(s, 0, |s|);
    }
  }

  /** Padding moves the place where the stripped text sits, not the text itself. */
  lemma StripsAtPadded(before: string, s: string, after: string, i: int, j: int)
    requires AllStripSpace(before) && AllStripSpace(after)
    requires StripsAt(s, i, j)
    ensures StripsAt(before + s + after, |before| + i, |before| + j)
  {
    var t := before + s + after;
    var n := |before|;
    forall k | 0 <= k < n + i
      ensures IsStripSpace(t[k])
    {
      if k >= n {
        assert t[k] == s[k - n];
      }
    }
    forall k | n + j <= k < |t|
      ensures IsStripSpace(t[k])
    {
      if k < n + |s| {
        assert t[k] == s[k - n];
      } else {
        assert t[k] == after[k - n - |s|];
      }
    }
    if i < j {
      assert t[n + i] == s[i] && t[n + j - 1] == s[j - 1];
    }
  }

  lemma SliceOfPadded(before: string, s: string, after: string, i: int, j: int)
    requires 0 <= i <= j <= |s|
    ensures (before + s + after)[|before| + i..|before| + j] == s[i..j]
  {
  }

  /** The slice `strip` leaves of `s` is what it leaves of `s` padded with whitespace. */
  lemma StripOfPadded(before: string, s: string, after: string, i: int, j: int)
    requires AllStripSpace(before) && AllStripSpace(after)
    requires StripsAt(s, i, j)
    ensures Strip(before + s + after) == s[i..j]
  {
    StripsAtPadded(before, s, after, i, j);
    StripUnique(before + s + after, |before| + i, |before| + j);
    SliceOfPadded(before, s, after, i, j);
  }

  /** Whitespace added before or after the text never changes what `strip` gives. */
  lemma StripIgnoresPadding(before: string, s: string, after: string)
    requires AllStripSpace(before) && AllStripSpace(after)
    ensures Strip(before + s + after) == Strip(s)
  {
    StripOfPadded(before, s, after, StripStart(s), StripStart(s) + |Strip(s)|);
  }

  /** `s.split(sep, -1)`: the pieces between separators, empty pieces included. */
  function Split(s: string, sep: char): (r: seq<string>)
    ensures |r| >= 1
    ensures forall k :: 0 <= k < |r| ==> sep !in r[k]
    decreases |s|
  {
    if |s| == 0 then [""]
    else
      var t := Split(s[1..], sep);
      if s[0] == sep then [""] + t else [[s[0]] + t[0]] + t[1..]
  }

  /** `Array#join(sep)`. */
  function JoinWith(parts: seq<string>, sep: char): string
    decreases |parts|
  {
    if |parts| == 0 then ""
    else if |parts| == 1 then parts[0]
    else parts[0] + [sep] + JoinWith(parts[1..], sep)
  }

  /** Joining the pieces of a split gives back the original text. */
  lemma {:induction false} JoinSplit(s: string, sep: char)
    ensures JoinWith(Split(s, sep), sep) == s
    decreases |s|
  {
    if |s| > 0 {
      var t := Split(s[1..], sep);
      JoinSplit(s[1..], sep);
      if s[0] == sep {
        assert s == [sep] + s[1..];
      } else if |t| == 1 {
        assert s == [s[0]] + s[1..];
      } else {
        assert JoinWith(t, sep) == t[0] + [sep] + JoinWith(t[1..], sep);
        assert s == [s[0]] + s[1..];
      }
    }
  }

  /** Text without the separator is a single piece. */
  lemma {:induction false} SplitNoSep(s: string, sep: char)
    requires sep !in s
    ensures Split(s, sep) == [s]
    decreases |s|
  {
    if |s| > 0 {
      SplitNoSep(s[1..], sep);
      assert s == [s[0]] + s[1..];
    }
  }

  /** A separator between a separator-free prefix and the rest splits off exactly that prefix. */
  lemma {:induction false} SplitAtSep(a: string, sep: char, b: string)
    requires sep !in a
    ensures Split(a + [sep] + b, sep) == [a] + Split(b, sep)
    decreases |a|
  {
    if |a| == 0 {
      assert a + [sep] + b == [sep] + b;
      assert ([sep] + b)[1..] == b;
    } else {
      SplitAtSep(a[1..], sep, b);
      assert (a + [sep] + b)[1..] == a[1..] + [sep] + b;
      assert [a[0]] + a[1..] == a;
    }
  }

  /** The non-empty pieces, in order. */
  function NonEmpty(parts: seq<string>): (r: seq<string>)
    ensures |r| <= |parts|
    ensures forall k :: 0 <= k < |r| ==> r[k] != "" && r[k] in parts
    decreases |parts|
  {
    if |parts| == 0 then []
    else if parts[0] == "" then NonEmpty(parts[1..])
    else [parts[0]] + NonEmpty(parts[1..])
  }

  lemma {:induction false} NonEmptyKeepsFull(parts: seq<string>)
    requires forall k :: 0 <= k < |parts| ==> parts[k] != ""
    ensures NonEmpty(parts) == parts
    decreases |parts|
  {
    if |parts| > 0 {
      NonEmptyKeepsFull(parts[1..]);
      assert [parts[0]] + parts[1..] == parts;
    }
  }

  lemma {:induction false} NonEmptyAppend(a: seq<string>, b: seq<string>)
    ensures NonEmpty(a + b) == NonEmpty(a) + NonEmpty(b)
    decreases |a|
  {
    if |a| == 0 {
      assert a + b == b;
    } else {
      NonEmptyAppend(a[1..], b);
      assert (a + b)[1..] == a[1..] + b;
    }
  }

  /** `a` is obtained from `b` by deleting elements. */
  predicate IsSubsequence<T(==)>(a: seq<T>, b: seq<T>)
    decreases |b|
  {
    |a| == 0 || (|b| > 0 && ((a[0] == b[0] && IsSubsequence(a[1..], b[1..])) || IsSubsequence(a, b[1..])))
  }

  lemma {:induction false} SubsequenceShorter<T>(a: seq<T>, b: seq<T>)
    requires IsSubsequence(a, b)
    ensures |a| <= |b|
    decreases |b|
  {
    if |a| > 0 {
      if a[0] == b[0] && IsSubsequence(a[1..], b[1..]) {
        SubsequenceShorter(a[1..], b[1..]);
      } else {
        SubsequenceShorter(a, b[1..]);
      }
    }
  }

  /** Deleting a prefix of the longer sequence keeps the relation. */
  lemma {:induction false} SubsequenceOfSuffix<T>(a: seq<T>, b: seq<T>, n: nat)
    requires n <= |b|
    requires IsSubsequence(a, b[n..])
    ensures IsSubsequence(a, b)
    decreases n
  {
    if n > 0 {
      assert b[1..][n - 1..] == b[n..];
      SubsequenceOfSuffix(a, b[1..], n - 1);
    }
  }

  /** Keeping a common first element keeps the relation. */
  lemma SubsequenceCons<T>(x: T, a: seq<T>, b: seq<T>)
    requires IsSubsequence(a, b)
    ensures IsSubsequence([x] + a, [x] + b)
  {
    assert ([x] + a)[1..] == a;
    assert ([x] + b)[1..] == b;
  }

  lemma {:induction false} SubsequenceTrans<T>(a: seq<T>, b: seq<T>, c: seq<T>)
    requires IsSubsequence(a, b) && IsSubsequence(b, c)
    ensures IsSubsequence(a, c)
    decreases |c|
  {
    if |a| > 0 {
      if IsSubsequence(b, c[1..]) {
        SubsequenceTrans(a, b, c[1..]);
      } else if a[0] == b[0] && IsSubsequence(a[1..], b[1..]) {
        SubsequenceTrans(a[1..], b[1..], c[1..]);
      } else {
        SubsequenceTrans(a, b[1..], c[1..]);
      }
    }
  }

  /** Keeping a common prefix keeps the relation. */
  lemma {:induction false} SubsequencePrefix<T>(x: seq<T>, a: seq<T>, b: seq<T>)
    requires IsSubsequence(a, b)
    ensures IsSubsequence(x + a, x + b)
    decreases |x|
  {
    if |x| > 0 {
      SubsequencePrefix(x[1..], a, b);
      SubsequenceCons(x[0], x[1..] + a, x[1..] + b);
      assert [x[0]] + (x[1..] + a) == x + a;
      assert [x[0]] + (x[1..] + b) == x + b;
    } else {
      assert x + a == a && x + b == b;
    }
  }

  /** Number of occurrences of `c` in `s`. */
  function Count(s: string, c: char): nat
    decreases |s|
  {
    if |s| == 0 then 0 else (if s[0] == c then 1 else 0) + Count(s[1..], c)
  }

  /** `s` with every occurrence of `c` removed. */
  function Without(s: string, c: char): (r: string)
    ensures c !in r
    ensures |r| == |s| - Count(s, c)
    decreases |s|
  {
    if |s| == 0 then [] else (if s[0] == c then [] else [s[0]]) + Without(s[1..], c)
  }

  /** Index of the last `c` in `t`, or -1 when there is none. */
  function LastIndexOf(t: string, c: char): (k: int)
    ensures -1 <= k < |t|
    ensures k >= 0 ==> t[k] == c
    ensures forall j :: k < j < |t| ==> t[j] != c
    decreases |t|
  {
    if |t| == 0 then -1
    else if t[|t| - 1] == c then |t| - 1
    else LastIndexOf(t[..|t| - 1], c)
  }

  /** A slice of a prefix is the same slice of the whole. */
  lemma SliceOfTake<T>(t: seq<T>, m: int, j: int, e: int)
    requires 0 <= j <= e <= m <= |t|
    ensures t[..m][j..e] == t[j..e]
  {
  }

  lemma SliceToEnd<T>(t: seq<T>, j: int)
    requires 0 <= j <= |t|
    ensures t[j..|t|] == t[j..]
  {
  }

  /** `pat` occurs in `t` starting at index `j`. */
  predicate OccursAt(t: string, j: int, pat: string) {
    0 <= j && j + |pat| <= |t| && t[j..j + |pat|] == pat
  }

  /** A text that starts with `p` starts with every prefix of `p`. */
  lemma OccursAtOfStartsWith(t: string, p: string, k: int)
    requires StartsWith(t, p) && 0 <= k <= |p|
    ensures OccursAt(t, 0, p[..k])
  {
    assert t[..k] == t[..|p|][..k];
  }

  /** Start of the last occurrence of `pat` in `t`, or -1 when there is none. */
  function LastOccurrence(t: string, pat: string): (k: int)
    ensures k == -1 || OccursAt(t, k, pat)
    ensures forall j :: k < j ==> !OccursAt(t, j, pat)
    decreases |t|
  {
    if |t| < |pat| then -1
    else if t[|t| - |pat|..] == pat then |t| - |pat|
    else
      var k := LastOccurrence(t[..|t| - 1], pat);
      assert forall j :: k < j && OccursAt(t, j, pat) ==> OccursAt(t[..|t| - 1], j, pat) by {
        forall j | k < j && OccursAt(t, j, pat)
          ensures OccursAt(t[..|t| - 1], j, pat)
        {
          if j + |pat| < |t| {
            SliceOfTake(t, |t| - 1, j, j + |pat|);
          } else {
            SliceToEnd(t, j);
            assert false;
          }
        }
      }
      assert OccursAt(t[..|t| - 1], k, pat) ==> OccursAt(t, k, pat) by {
        if 0 <= k && k + |pat| <= |t| - 1 {
          SliceOfTake(t, |t| - 1, k, k + |pat|);
        }
      }
      k
  }

  /** A character added after the last `c` leaves the last `c` where it was. */
  lemma {:induction false} LastIndexOfSkipsSuffix(a: string, c: char, b: string)
    requires |a| > 0 && a[|a| - 1] == c
    requires c !in b
    ensures LastIndexOf(a + b, c) == |a| - 1
    decreases |b|
  {
    if |b| > 0 {
      assert (a + b)[..|a + b| - 1] == a + b[..|b| - 1];
      LastIndexOfSkipsSuffix(a, c, b[..|b| - 1]);
    } else {
      assert a + b == a;
    }
  }
}
