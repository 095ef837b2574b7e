/** The Python 3 string operations that the fence stripper and the best-practice
    rewriter are built from, stated on `seq<char>`: `isspace`, `strip`, `startswith`,
    the `in` operator, `find`, `split(sep)`, `split(sep, 1)`, `replace` and `join`. */
module PyStr {

  datatype Option<+T> = None | Some(value: T)

  /** The Python exceptions the modelled code can raise. */
  datatype Exception = IndexError

  /** A value, or the exception that was raised instead. */
  datatype Result<+T> = Ok(value: T) | Err(error: Exception)

  /** `c.isspace()`: the Python 3 whitespace table, which is also what `\s` matches in a
      regular expression over `str`. */
  predicate IsSpace(c: char) {
    ('\t' <= c <= '\r') || ('\U{1C}' <= c <= '\U{1F}') || c == ' '
    || c == '\U{85}' || c == '\U{A0}' || c == '\U{1680}'
    || ('\U{2000}' <= c <= '\U{200A}') || c == '\U{2028}' || c == '\U{2029}'
    || c == '\U{202F}' || c == '\U{205F}' || c == '\U{3000}'
  }

  predicate AllSpace(s: string) {
    forall i :: 0 <= i < |s| ==> IsSpace(s[i])
  }

  /** Neither end of `s` is whitespace: the shape of every result of `strip()`. */
  predicate Stripped(s: string) {
    |s| == 0 || (!IsSpace(s[0]) && !IsSpace(s[|s| - 1]))
  }

  /** `s.lstrip()`: a suffix of `s`, cut after a run of whitespace, not starting with whitespace. */
  function LStrip(s: string): (r: string)
    ensures |r| <= |s| && s == s[..|s| - |r|] + r
    ensures AllSpace(s[..|s| - |r|])
    ensures |r| == 0 || !IsSpace(r[0])
    decreases |s|
  {
    if |s| > 0 && IsSpace(s[0]) then
      var r := LStrip(s[1..]);
      LStripStep(s, r);
      r
    else s
  }

  /** One step of `LStrip`: a leading space joins the run cut off in front of `r`. */
  lemma LStripStep(s: string, r: string)
    requires |s| > 0 && IsSpace(s[0])
    requires |r| <= |s| - 1 && s[1..] == s[1..][..|s| - 1 - |r|] + r
    requires AllSpace(s[1..][..|s| - 1 - |r|])
    ensures s == s[..|s| - |r|] + r
    ensures AllSpace(s[..|s| - |r|])
  {
    var c := |s| - |r|;
    assert s[..c] == [s[0]] + s[1..][..c - 1];
    assert s == [s[0]] + s[1..];
  }

  /** `s.rstrip()`: a prefix of `s`, cut before a run of whitespace, not ending in whitespace. */
  function RStrip(s: string): (r: string)
    ensures |r| <= |s| && s == r + s[|r|..]
    ensures AllSpace(s[|r|..])
    ensures |r| == 0 || !IsSpace(r[|r| - 1])
    decreases |s|
  {
    if |s| > 0 && IsSpace(s[|s| - 1]) then
      var r := RStrip(s[..|s| - 1]);
      RStripStep(s, r);
      r
    else s
  }

  /** One step of `RStrip`: a trailing space joins the run cut off after `r`. */
  lemma RStripStep(s: string, r: string)
    requires |s| > 0 && IsSpace(s[|s| - 1])
    requires |r| <= |s| - 1 && s[..|s| - 1] == r + s[..|s| - 1][|r|..]
    requires AllSpace(s[..|s| - 1][|r|..])
    ensures s == r + s[|r|..]
    ensures AllSpace(s[|r|..])
  {
    assert s[|r|..] == s[..|s| - 1][|r|..] + [s[|s| - 1]];
    assert s == s[..|s| - 1] + [s[|s| - 1]];
  }

  /** `s.strip()`: the middle of `s` once the whitespace at both ends is cut off. */
  function Strip(s: string): (r: string)
    ensures Stripped(r)
  {
    RStrip(LStrip(s))
  }

  /** What `strip()` cuts off is whitespace: `s` is the kept text framed by two runs of
      whitespace. */
  lemma StripCut(s: string) returns (a: string, b: string)
    ensures s == a + Strip(s) + b
    ensures AllSpace(a) && AllSpace(b)
  {
    var l := LStrip(s);
    var r := RStrip(l);
    a := s[..|s| - |l|];
    b := l[|r|..];
    assert Strip(s) == r;
    assert l == r + b;
    assert s == a + l;
    assert a + (r + b) == a + r + b;
  }

  lemma {:induction false} LStripAfterSpace(a: string, t: string)
    requires AllSpace(a)
    requires |t| == 0 || !IsSpace(t[0])
    ensures LStrip(a + t) == t
    decreases |a|
  {
    if |a| > 0 {
      assert (a + t)[1..] == a[1..] + t;
      LStripAfterSpace(a[1..], t);
    } else {
      assert a + t == t;
    }
  }

  lemma {:induction false} RStripBeforeSpace(t: string, b: string)
    requires AllSpace(b)
    requires |t| == 0 || !IsSpace(t[|t| - 1])
    ensures RStrip(t + b) == t
    decreases |b|
  {
    if |b| > 0 {
      assert (t + b)[..|t + b| - 1] == t + b[..|b| - 1];
      RStripBeforeSpace(t, b[..|b| - 1]);
    } else {
      assert t + b == t;
    }
  }

  /** `strip()` is determined by its shape: whatever is cut off at each end is whitespace
      and what is kept is `Stripped`. With the ensures of `Strip` this says that `Strip`
      is exactly Python's `strip()`. */
  lemma StripUnique(a: string, r: string, b: string)
    requires AllSpace(a) && AllSpace(b) && Stripped(r)
    ensures Strip(a + r + b) == r
  {
    if |r| == 0 {
      assert a + r + b == a + b;
      assert AllSpace(a + b) by {
        forall i | 0 <= i < |a + b| ensures IsSpace((a + b)[i]) {
          if i < |a| { assert (a + b)[i] == a[i]; } else { assert (a + b)[i] == b[i - |a|]; }
        }
      }
      LStripAfterSpace(a + b, []);
      assert a + b + [] == a + b;
    } else {
      assert a + r + b == a + (r + b);
      LStripAfterSpace(a, r + b);
      RStripBeforeSpace(r, b);
    }
  }

  /** A string that is already stripped is its own `strip()`; hence `strip()` is idempotent. */
  lemma StrippedFixpoint(s: string)
    requires Stripped(s)
    ensures Strip(s) == s
  {
    StripUnique([], s, []);
    assert [] + s + [] == s;
  }

  predicate StartsWith(s: string, p: string) {
    |p| <= |s| && s[..|p|] == p
  }

  /** Python's `p in s`. */
  predicate Contains(s: string, p: string)
    decreases |s|
  {
    StartsWith(s, p) || (|s| > 0 && Contains(s[1..], p))
  }

  /** `s.find(p)`, with `None` for Python's -1: the leftmost index at which `p` occurs. */
  function IndexOf(s: string, p: string): (r: Option<nat>)
    ensures r.None? <==> !Contains(s, p)
    ensures r.Some? ==> r.value + |p| <= |s| && StartsWith(s[r.value..], p)
    ensures r.Some? ==> forall k :: 0 <= k < r.value ==> !StartsWith(s[k..], p)
    decreases |s|
  {
    if StartsWith(s, p) then Some(0)
    else if |s| == 0 then None
    else match IndexOf(s[1..], p)
      case None => None
      case Some(i) =>
        assert forall k :: 1 <= k <= i ==> s[k..] == s[1..][k - 1..];
        Some(i + 1)
  }

  lemma {:induction false} ContainsWitness(s: string, p: string) returns (k: nat)
    requires Contains(s, p)
    ensures k + |p| <= |s| && StartsWith(s[k..], p)
    decreases |s|
  {
    if StartsWith(s, p) {
      k := 0;
    } else {
      var j := ContainsWitness(s[1..], p);
      assert s[1..][j..] == s[j + 1..];
      k := j + 1;
    }
  }

  lemma {:induction false} ContainsAt(s: string, p: string, k: nat)
    requires k <= |s| && StartsWith(s[k..], p)
    ensures Contains(s, p)
    decreases k
  {
    if k > 0 {
      assert s[1..][k - 1..] == s[k..];
      ContainsAt(s[1..], p, k - 1);
    }
  }

  /** `p` at the start of `s[j..]` is the slice `s[j..j + |p|]`. */
  lemma StartsWithSlice(s: string, j: nat, p: string)
    requires j <= |s| && StartsWith(s[j..], p)
    ensures j + |p| <= |s| && s[j..j + |p|] == p
  {
    assert s[j..][..|p|] == s[j..j + |p|];
  }

  /** A string that does not hold `p` has no occurrence of `p` starting anywhere. */
  lemma AbsentNowhere(s: string, p: string)
    requires !Contains(s, p)
    ensures forall k :: 0 <= k <= |s| ==> !StartsWith(s[k..], p)
  {
    forall k | 0 <= k <= |s| ensures !StartsWith(s[k..], p) {
      if StartsWith(s[k..], p) { ContainsAt(s, p, k); }
    }
  }

  /** An occurrence in a middle part is an occurrence in the whole string. */
  lemma ContainsInMiddle(a: string, r: string, b: string, p: string)
    requires Contains(r, p)
    ensures Contains(a + r + b, p)
  {
    var k := ContainsWitness(r, p);
    assert (a + r + b)[|a| + k..][..|p|] == r[k..][..|p|];
    ContainsAt(a + r + b, p, |a| + k);
  }

  /** `strip()` cannot create an occurrence. */
  lemma StripKeepsAbsent(s: string, p: string)
    requires !Contains(s, p)
    ensures !Contains(Strip(s), p)
  {
    var a, b := StripCut(s);
    if Contains(Strip(s), p) { ContainsInMiddle(a, Strip(s), b, p); }
  }

  /** An occurrence in a slice is an occurrence in the whole string. */
  lemma ContainsSlice(s: string, i: nat, j: nat, p: string)
    requires i <= j <= |s| && Contains(s[i..j], p)
    ensures Contains(s, p)
  {
    var k := ContainsWitness(s[i..j], p);
    assert s[i..j][k..][..|p|] == s[i + k..][..|p|];
    ContainsAt(s, p, i + k);
  }

  lemma StartsWithInPrefix(s: string, i: nat, k: nat, p: string)
    requires k + |p| <= i <= |s| && StartsWith(s[..i][k..], p)
    ensures StartsWith(s[k..], p)
  {
    assert s[..i][k..][..|p|] == s[k..][..|p|];
  }

  /** A string in which no occurrence starts before `i` has none inside `s[..i]`. */
  lemma NoneBefore(s: string, p: string, i: nat)
    requires |p| > 0 && i <= |s|
    requires forall k :: 0 <= k < i ==> !StartsWith(s[k..], p)
    ensures !Contains(s[..i], p)
  {
    if Contains(s[..i], p) {
      var k := ContainsWitness(s[..i], p);
      StartsWithInPrefix(s, i, k, p);
    }
  }

  /** An occurrence of `p` in `a + b` starts inside `a` or lies inside `b`. */
  lemma {:induction false} OccurrenceInConcat(a: string, b: string, p: string) returns (i: int)
    requires Contains(a + b, p)
    ensures (i == -1 && Contains(b, p)) || (0 <= i < |a| && StartsWith(a[i..] + b, p))
    decreases |a|
  {
    if |a| == 0 {
      assert a + b == b;
      i := -1;
    } else if StartsWith(a + b, p) {
      assert a[0..] == a;
      i := 0;
    } else {
      assert (a + b)[1..] == a[1..] + b;
      var j := OccurrenceInConcat(a[1..], b, p);
      if j == -1 {
        i := -1;
      } else {
        assert a[1..][j..] == a[j + 1..];
        i := j + 1;
      }
    }
  }

  /** `x` and `y` agree as far as the shorter one goes. */
  predicate PrefixCompatible(x: string, y: string) {
    StartsWith(x, y) || StartsWith(y, x)
  }

  lemma StartsWithConcat(x: string, y: string, p: string)
    requires StartsWith(x + y, p)
    ensures PrefixCompatible(x, p)
  {
    if |p| <= |x| {
      assert (x + y)[..|p|] == x[..|p|];
    } else {
      assert (x + y)[..|p|][..|x|] == x;
    }
  }

  /** `sep.join(pieces)`. */
  function Join(pieces: seq<string>, sep: string): string
    decreases |pieces|
  {
    if |pieces| == 0 then ""
    else if |pieces| == 1 then pieces[0]
    else pieces[0] + sep + Join(pieces[1..], sep)
  }

  /** `s.split(sep)` for a non-empty separator: the pieces between the leftmost
      non-overlapping occurrences of `sep`. */
  function Split(s: string, sep: string): (r: seq<string>)
    requires |sep| > 0
    ensures |r| >= 1
    ensures |r| >= 2 <==> Contains(s, sep)
    ensures forall k :: 0 <= k < |r| ==> !Contains(r[k], sep)
    ensures Join(r, sep) == s
    ensures |r| >= 2 ==> IndexOf(s, sep) == Some(|r[0]|)
    decreases |s|
  {
    match IndexOf(s, sep)
    case None => [s]
    case Some(i) =>
      NoneBefore(s, sep, i);
      var rest := Split(s[i + |sep|..], sep);
      assert s == s[..i] + sep + s[i + |sep|..] by {
        assert s[i..][..|sep|] == s[i..i + |sep|];
      }
      [s[..i]] + rest
  }

  /** After the first piece, `split` goes on from right after the leftmost `sep`. */
  lemma SplitAfterLeftmost(s: string, sep: string)
    requires |sep| > 0 && Contains(s, sep)
    ensures var i := IndexOf(s, sep).value;
      Split(s, sep) == [s[..i]] + Split(s[i + |sep|..], sep)
  {
  }

  /** `s.split(sep, 1)`: one piece when `sep` does not occur, otherwise the text before
      and the text after its leftmost occurrence. */
  function SplitOnce(s: string, sep: string): (r: seq<string>)
    requires |sep| > 0
    ensures |r| == 1 || |r| == 2
    ensures |r| == 2 <==> Contains(s, sep)
    ensures !Contains(r[0], sep)
    ensures Join(r, sep) == s
  {
    match IndexOf(s, sep)
    case None => [s]
    case Some(i) =>
      NoneBefore(s, sep, i);
      assert s == s[..i] + sep + s[i + |sep|..] by {
        assert s[i..][..|sep|] == s[i..i + |sep|];
      }
      [s[..i], s[i + |sep|..]]
  }

  /** The second piece of `s.split(sep, 1)` starts right after the leftmost `sep`. */
  lemma SplitOnceAfter(s: string, sep: string)
    requires |sep| > 0 && Contains(s, sep)
    ensures |SplitOnce(s, sep)| == 2
    ensures SplitOnce(s, sep)[1] == s[IndexOf(s, sep).value + |sep|..]
  {
  }

  /** `s.find(p)` is `k` when `p` occurs at `k` and at no earlier index. */
  lemma {:induction false} IndexOfAt(s: string, p: string, k: nat)
    requires k + |p| <= |s| && StartsWith(s[k..], p)
    requires forall j :: 0 <= j < k ==> !StartsWith(s[j..], p)
    ensures IndexOf(s, p) == Some(k)
    decreases k
  {
    if k > 0 {
      assert !StartsWith(s[0..], p);
      assert s[0..] == s;
      forall j | 0 <= j < k - 1 ensures !StartsWith(s[1..][j..], p) {
        assert s[1..][j..] == s[j + 1..];
      }
      assert s[1..][k - 1..] == s[k..];
      IndexOfAt(s[1..], p, k - 1);
    }
  }

  /** No occurrence of `p` starts before `k` when the first character of `p` does not
      occur there. */
  lemma FirstCharAbsent(s: string, p: string, k: nat)
    requires |p| > 0 && k <= |s| && p[0] !in s[..k]
    ensures forall j :: 0 <= j < k ==> !StartsWith(s[j..], p)
  {
    forall j | 0 <= j < k ensures !StartsWith(s[j..], p) {
      assert s[..k][j] == s[j];
    }
  }

  /** Every character of an occurring `p` occurs in `s`. */
  lemma OccurrenceHasChar(s: string, p: string, i: nat)
    requires i < |p| && Contains(s, p)
    ensures p[i] in s
  {
    var k := ContainsWitness(s, p);
    assert s[k..][..|p|][i] == s[k + i];
  }

  /** `p` does not occur in `s` when one of its characters does not. */
  lemma CharAbsent(s: string, p: string, i: nat)
    requires i < |p| && p[i] !in s
    ensures !Contains(s, p)
  {
    if Contains(s, p) {
      OccurrenceHasChar(s, p, i);
    }
  }

  /** A slice cut in two. */
  lemma SliceCut(s: string, i: nat, j: nat, k: nat)
    requires i <= j <= k <= |s|
    ensures s[i..k] == s[i..j] + s[j..k]
  {
  }

  /** A slice whose characters are whitespace is all whitespace. */
  lemma SliceAllSpace(s: string, i: nat, j: nat)
    requires i <= j <= |s| && forall k :: i <= k < j ==> IsSpace(s[k])
    ensures AllSpace(s[i..j])
  {
    assert forall k :: 0 <= k < j - i ==> s[i..j][k] == s[i + k];
  }

  /** A slice that avoids a character at each index does not hold it. */
  lemma SliceAvoids(s: string, i: nat, j: nat, c: char)
    requires i <= j <= |s| && forall k :: i <= k < j ==> s[k] != c
    ensures c !in s[i..j]
  {
    assert forall k :: 0 <= k < j - i ==> s[i..j][k] == s[i + k];
  }

  /** Two texts that differ at an index both have are not prefix-compatible. */
  lemma MismatchIncompatible(x: string, y: string, m: nat)
    requires m < |x| && m < |y| && x[m] != y[m]
    ensures !PrefixCompatible(x, y)
  {
  }

  /** A text that starts with a character other than the first of `p` does not start with `p`. */
  lemma HeadMismatch(t: string, p: string)
    requires |p| > 0 && (|t| == 0 || t[0] != p[0])
    ensures !StartsWith(t, p)
  {
  }

  /** A matcher gives the length of the match at the start of a string, 0 for none. */
  ghost predicate MatcherFits(m: string -> nat) {
    forall t :: m(t) <= |t|
  }

  /** The scan shared by `str.replace` and `re.sub` for patterns that never match the empty
      string: left to right, each leftmost match is replaced by `rep` and scanning resumes
      after it, so matches do not overlap and replaced text is not scanned again. */
  function Substitute(s: string, m: string -> nat, rep: string): string
    requires MatcherFits(m)
    decreases |s|
  {
    if |s| == 0 then ""
    else if m(s) > 0 then rep + Substitute(s[m(s)..], m, rep)
    else [s[0]] + Substitute(s[1..], m, rep)
  }

  /** The matcher of a literal, non-empty pattern. */
  function LiteralMatcher(pat: string): (m: string -> nat)
    requires |pat| > 0
    ensures MatcherFits(m)
    ensures forall t :: (m(t) > 0 <==> StartsWith(t, pat)) && (m(t) > 0 ==> m(t) == |pat|)
  {
    t => if StartsWith(t, pat) then |pat| else 0
  }

  /** `s.replace(pat, rep)` for a non-empty `pat`. */
  function Replace(s: string, pat: string, rep: string): string
    requires |pat| > 0
  {
    Substitute(s, LiteralMatcher(pat), rep)
  }

  lemma {:induction false} SubstituteCopies(a: string, b: string, m: string -> nat, rep: string)
    requires MatcherFits(m)
    requires forall j :: 0 <= j < |a| ==> m(a[j..] + b) == 0
    ensures Substitute(a + b, m, rep) == a + Substitute(b, m, rep)
    decreases |a|
  {
    if |a| == 0 {
      assert a + b == b;
    } else {
      assert a[0..] == a;
      assert (a + b)[1..] == a[1..] + b;
      forall j | 0 <= j < |a[1..]| ensures m(a[1..][j..] + b) == 0 {
        assert a[1..][j..] == a[j + 1..];
      }
      SubstituteCopies(a[1..], b, m, rep);
      assert a == [a[0]] + a[1..];
    }
  }

  /** Text before the leftmost match is copied unchanged. */
  lemma SubstituteKeepsPrefix(s: string, m: string -> nat, rep: string, k: nat)
    requires MatcherFits(m) && k <= |s|
    requires forall j :: 0 <= j < k ==> m(s[j..]) == 0
    ensures Substitute(s, m, rep) == s[..k] + Substitute(s[k..], m, rep)
  {
    forall j | 0 <= j < |s[..k]| ensures m(s[..k][j..] + s[k..]) == 0 {
      assert s[..k][j..] + s[k..] == s[j..];
    }
    SubstituteCopies(s[..k], s[k..], m, rep);
    assert s[..k] + s[k..] == s;
  }

  /** Without a match anywhere, the scan returns its input. */
  lemma SubstituteNoMatch(s: string, m: string -> nat, rep: string)
    requires MatcherFits(m)
    requires forall j :: 0 <= j < |s| ==> m(s[j..]) == 0
    ensures Substitute(s, m, rep) == s
  {
    SubstituteKeepsPrefix(s, m, rep, |s|);
    assert s[|s|..] == [];
  }

  /** At the leftmost match, at index `k` of length `n`, the output holds the text before it,
      then `rep`, then the scan of the text after it. */
  lemma SubstituteAtLeftmost(s: string, m: string -> nat, rep: string, k: nat)
    requires MatcherFits(m) && k < |s|
    requires forall j :: 0 <= j < k ==> m(s[j..]) == 0
    requires m(s[k..]) > 0
    ensures Substitute(s, m, rep) == s[..k] + rep + Substitute(s[k + m(s[k..])..], m, rep)
  {
    SubstituteKeepsPrefix(s, m, rep, k);
    assert s[k..][m(s[k..])..] == s[k + m(s[k..])..];
  }

  /** Without an occurrence, `replace` returns its input. */
  lemma ReplaceAbsent(s: string, pat: string, rep: string)
    requires |pat| > 0 && !Contains(s, pat)
    ensures Replace(s, pat, rep) == s
  {
    var m := LiteralMatcher(pat);
    forall j | 0 <= j < |s| ensures m(s[j..]) == 0 {
      if StartsWith(s[j..], pat) { ContainsAt(s, pat, j); }
    }
    SubstituteNoMatch(s, m, rep);
  }

  /** One occurrence of `pat` between texts that lack its first character is the only one
      replaced. */
  lemma ReplaceSingle(pre: string, pat: string, post: string, rep: string)
    requires |pat| > 0 && pat[0] !in pre && pat[0] !in post
    ensures Replace(pre + pat + post, pat, rep) == pre + rep + post
  {
    var m := LiteralMatcher(pat);
    var rest := pat + post;
    forall j | 0 <= j < |pre| ensures m(pre[j..] + rest) == 0 {
      assert pre[j] in pre;
      HeadMismatch(pre[j..] + rest, pat);
    }
    SubstituteCopies(pre, rest, m, rep);
    assert StartsWith(rest, pat);
    assert rest[|pat|..] == post;
    CharAbsent(post, pat, 0);
    ReplaceAbsent(post, pat, rep);
    assert pre + pat + post == pre + rest;
  }

  /** No proper suffix of `p` agrees with `rep` as far as the shorter goes. */
  predicate NoSuffixMeets(p: string, rep: string) {
    forall j :: 0 < j < |p| ==> !PrefixCompatible(p[j..], rep)
  }

  /** No occurrence of `p` can start inside `rep`. */
  predicate NoneStartsIn(p: string, rep: string) {
    forall i :: 0 <= i < |rep| ==> !PrefixCompatible(rep[i..], p)
  }

  lemma {:induction false} SubstituteStartsWithTail(t: string, m: string -> nat, rep: string, p: string, j: nat)
    requires MatcherFits(m) && 0 < j < |p| && NoSuffixMeets(p, rep)
    requires StartsWith(Substitute(t, m, rep), p[j..])
    ensures StartsWith(t, p[j..])
    decreases |t|
  {
    var r := Substitute(t, m, rep);
    if |t| == 0 {
      assert false;
    } else if m(t) > 0 {
      StartsWithConcat(rep, Substitute(t[m(t)..], m, rep), p[j..]);
      assert false;
    } else {
      assert r == [t[0]] + Substitute(t[1..], m, rep);
      assert r[0] == p[j..][0] == p[j];
      if j + 1 < |p| {
        assert p[j..][1..] == p[j + 1..];
        assert r[1..][..|p[j + 1..]|] == r[..|p[j..]|][1..];
        SubstituteStartsWithTail(t[1..], m, rep, p, j + 1);
        assert t[..|p[j..]|] == [t[0]] + t[1..][..|p[j + 1..]|];
      } else {
        assert p[j..] == [p[j]];
      }
    }
  }

  /** If the output starts with a copied character followed by `p`'s tail, the input
      started with `p` there. */
  lemma HeadOccurrence(s: string, m: string -> nat, rep: string, p: string)
    requires MatcherFits(m) && |p| > 0 && |s| > 0 && NoSuffixMeets(p, rep)
    requires StartsWith([s[0]] + Substitute(s[1..], m, rep), p)
    ensures StartsWith(s, p)
  {
    var rest := Substitute(s[1..], m, rep);
    if |p| == 1 {
      assert s[..1] == [s[0]] == ([s[0]] + rest)[..1];
    } else {
      assert rest[..|p[1..]|] == ([s[0]] + rest)[..|p|][1..];
      SubstituteStartsWithTail(s[1..], m, rep, p, 1);
      assert s[..|p|] == [s[0]] + s[1..][..|p[1..]|];
    }
  }

  /** When `p` cannot overlap `rep` and every occurrence of `p` in the input starts a match,
      the output contains no `p`. */
  lemma {:induction false} SubstituteRemoves(s: string, m: string -> nat, rep: string, p: string)
    requires MatcherFits(m) && |p| > 0
    requires NoSuffixMeets(p, rep) && NoneStartsIn(p, rep)
    requires forall k :: 0 <= k < |s| && StartsWith(s[k..], p) ==> m(s[k..]) > 0
    ensures !Contains(Substitute(s, m, rep), p)
    decreases |s|
  {
    if |s| == 0 {
    } else if m(s) > 0 {
      var n := m(s);
      var rest := Substitute(s[n..], m, rep);
      forall k | 0 <= k < |s[n..]| && StartsWith(s[n..][k..], p) ensures m(s[n..][k..]) > 0 {
        assert s[n..][k..] == s[n + k..];
      }
      SubstituteRemoves(s[n..], m, rep, p);
      if Contains(rep + rest, p) {
        var i := OccurrenceInConcat(rep, rest, p);
        StartsWithConcat(rep[i..], rest, p);
        assert false;
      }
    } else {
      var rest := Substitute(s[1..], m, rep);
      forall k | 0 <= k < |s[1..]| && StartsWith(s[1..][k..], p) ensures m(s[1..][k..]) > 0 {
        assert s[1..][k..] == s[k + 1..];
      }
      SubstituteRemoves(s[1..], m, rep, p);
      if Contains([s[0]] + rest, p) {
        var i := OccurrenceInConcat([s[0]], rest, p);
        assert [s[0]][0..] == [s[0]];
        assert s[0..] == s;
        HeadOccurrence(s, m, rep, p);
        assert false;
      }
    }
  }

  /** When `pat` cannot overlap `rep`, no occurrence of `pat` survives `replace`. */
  lemma ReplaceRemovesAll(s: string, pat: string, rep: string)
    requires |pat| > 0
    requires NoSuffixMeets(pat, rep) && NoneStartsIn(pat, rep)
    ensures !Contains(Replace(s, pat, rep), pat)
  {
    SubstituteRemoves(s, LiteralMatcher(pat), rep, pat);
  }

  /** A scan whose input lacks `p` produces no `p` when `p` cannot overlap `rep`. */
  lemma SubstituteKeepsAbsent(s: string, m: string -> nat, rep: string, p: string)
    requires MatcherFits(m) && |p| > 0 && !Contains(s, p)
    requires NoSuffixMeets(p, rep) && NoneStartsIn(p, rep)
    ensures !Contains(Substitute(s, m, rep), p)
  {
    forall k | 0 <= k < |s| ensures !StartsWith(s[k..], p) {
      if StartsWith(s[k..], p) { ContainsAt(s, p, k); }
    }
    SubstituteRemoves(s, m, rep, p);
  }
}
