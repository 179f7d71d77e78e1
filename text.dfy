/** The few pieces of Go's `bytes` and `strings` packages that the crawler
    relies on: ReplaceAll, Contains, HasSuffix and TrimSpace. */
module Text {

  newtype byte = b: int | 0 <= b < 256

  type Bytes = seq<byte>

  predicate StartsWith<T(==)>(s: seq<T>, prefix: seq<T>) {
    |prefix| <= |s| && s[..|prefix|] == prefix
  }

  /** A common prefix can be dropped from both sides of StartsWith. */
  lemma StartsWithCommon<T>(u: seq<T>, rest: seq<T>, p: seq<T>)
    ensures StartsWith(u + rest, u + p) <==> StartsWith(rest, p)
  {
    if |p| <= |rest| {
      assert (u + rest)[..|u + p|] == u + rest[..|p|];
      if StartsWith(u + rest, u + p) {
        assert rest[..|p|] == (u + rest[..|p|])[|u|..] == (u + p)[|u|..] == p;
      }
    }
  }

  predicate HasSuffix<T(==)>(s: seq<T>, suffix: seq<T>) {
    |suffix| <= |s| && s[|s| - |suffix|..] == suffix
  }

  /** `bytes.ReplaceAll(s, pat, rep)` for a non-empty pattern: scan left to
      right, replace each occurrence, resume the scan after it (leftmost,
      non-overlapping). */
  function ReplaceAll<T(==)>(s: seq<T>, pat: seq<T>, rep: seq<T>): (r: seq<T>)
    requires |pat| > 0
    ensures !Contains(s, pat) ==> r == s
    ensures |rep| == |pat| ==> |r| == |s|
    decreases |s|
  {
    if s == [] then []
    else if StartsWith(s, pat) then rep + ReplaceAll(s[|pat|..], pat, rep)
    else [s[0]] + ReplaceAll(s[1..], pat, rep)
  }

  /** A prefix that holds no first byte of the pattern is copied unchanged. */
  lemma {:induction false} ReplaceAllSkips<T>(u: seq<T>, v: seq<T>, pat: seq<T>, rep: seq<T>)
    requires |pat| > 0
    requires forall i | 0 <= i < |u| :: u[i] != pat[0]
    ensures ReplaceAll(u + v, pat, rep) == u + ReplaceAll(v, pat, rep)
    decreases |u|
  {
    if u != [] {
      assert (u + v)[0] == u[0];
      assert (u + v)[1..] == u[1..] + v;
      ReplaceAllSkips(u[1..], v, pat, rep);
    } else {
      assert u + v == v;
    }
  }

  /** An occurrence at the front is replaced and the scan resumes after it. */
  lemma ReplaceAllMatch<T>(v: seq<T>, pat: seq<T>, rep: seq<T>)
    requires |pat| > 0
    ensures ReplaceAll(pat + v, pat, rep) == rep + ReplaceAll(v, pat, rep)
  {
    assert (pat + v)[..|pat|] == pat;
    assert (pat + v)[|pat|..] == v;
  }

  /** The concatenation of a sequence of sequences, in order. */
  function Flatten<T>(ss: seq<seq<T>>): seq<T> {
    if ss == [] then [] else ss[0] + Flatten(ss[1..])
  }

  lemma {:induction false} FlattenSnoc<T>(ss: seq<seq<T>>, s: seq<T>)
    ensures Flatten(ss + [s]) == Flatten(ss) + s
    decreases |ss|
  {
    if ss == [] {
      assert ss + [s] == [s];
    } else {
      assert (ss + [s])[1..] == ss[1..] + [s];
      FlattenSnoc(ss[1..], s);
    }
  }

  predicate OccursAt<T(==)>(s: seq<T>, sub: seq<T>, i: int) {
    0 <= i && i + |sub| <= |s| && s[i..i + |sub|] == sub
  }

  /** `strings.Contains(s, sub)`: some window of `s` equals `sub`. */
  function Contains<T(==)>(s: seq<T>, sub: seq<T>): (r: bool)
    decreases |s|
  {
    if |sub| > |s| then false
    else if s[..|sub|] == sub then true
    else Contains(s[1..], sub)
  }

  /** Contains holds exactly when `sub` occurs at some index of `s`. */
  lemma {:induction false} ContainsIffOccurs<T>(s: seq<T>, sub: seq<T>)
    ensures Contains(s, sub) <==> exists i :: OccursAt(s, sub, i)
    decreases |s|
  {
    if |sub| > |s| {
      assert forall i :: !OccursAt(s, sub, i);
    } else if s[..|sub|] == sub {
      assert OccursAt(s, sub, 0);
    } else {
      ContainsIffOccurs(s[1..], sub);
      forall i | OccursAt(s, sub, i) ensures OccursAt(s[1..], sub, i - 1) {
        assert i != 0;
        assert s[1..][i - 1..i - 1 + |sub|] == s[i..i + |sub|];
      }
      forall i | OccursAt(s[1..], sub, i) ensures OccursAt(s, sub, i + 1) {
        assert s[1..][i..i + |sub|] == s[i + 1..i + 1 + |sub|];
      }
    }
  }

  /** `unicode.IsSpace`: the Latin-1 spaces and the remaining White_Space
      code points. */
  predicate IsSpace(c: char) {
    c == ' ' || c == '\t' || c == '\n' || c == '\r' || c == '\U{000B}' || c == '\U{000C}'
    || c == '\U{0085}' || c == '\U{00A0}' || c == '\U{1680}'
    || ('\U{2000}' <= c <= '\U{200A}')
    || c == '\U{2028}' || c == '\U{2029}' || c == '\U{202F}' || c == '\U{205F}' || c == '\U{3000}'
  }

  /** Drops the leading white space: the result is a suffix of `s`, what was
      dropped is all space, and the result does not start with a space. */
  function TrimLeft(s: string): (r: string)
    ensures |r| <= |s| && r == s[|s| - |r|..]
    ensures forall i | 0 <= i < |s| - |r| :: IsSpace(s[i])
    ensures r != [] ==> !IsSpace(r[0])
    decreases |s|
  {
    if s != [] && IsSpace(s[0]) then TrimLeft(s[1..]) else s
  }

  /** Drops the trailing white space: the result is a prefix of `s`, what was
      dropped is all space, and the result does not end with a space. */
  function TrimRight(s: string): (r: string)
    ensures |r| <= |s| && r == s[..|r|]
    ensures forall i | |r| <= i < |s| :: IsSpace(s[i])
    ensures r != [] ==> !IsSpace(r[|r| - 1])
    decreases |s|
  {
    if s != [] && IsSpace(s[|s| - 1]) then TrimRight(s[..|s| - 1]) else s
  }

  lemma TrimBoth(s: string)
    ensures var r := TrimRight(TrimLeft(s));
      && (r != [] ==> !IsSpace(r[0]) && !IsSpace(r[|r| - 1]))
      && (r == [] <==> forall i | 0 <= i < |s| :: IsSpace(s[i]))
  {
    var l := TrimLeft(s);
    var r := TrimRight(l);
    assert r != [] ==> r[0] == l[0];
    if r == [] {
      forall i | 0 <= i < |s| ensures IsSpace(s[i]) {
        if i >= |s| - |l| {
          assert s[i] == l[i - (|s| - |l|)];
        }
      }
    } else {
      assert !IsSpace(s[|s| - |l|]);
    }
  }

  /** Leading space before a word that does not start with a space is
      dropped, and nothing more. */
  lemma {:induction false} TrimLeftPadded(pre: string, s: string)
    requires forall i | 0 <= i < |pre| :: IsSpace(pre[i])
    requires s != [] && !IsSpace(s[0])
    ensures TrimLeft(pre + s) == s
    decreases |pre|
  {
    if pre == [] {
      assert pre + s == s;
    } else {
      var t := pre + s;
      assert t[0] == pre[0] && IsSpace(t[0]);
      assert t[1..] == pre[1..] + s;
      assert TrimLeft(t) == TrimLeft(t[1..]);
      TrimLeftPadded(pre[1..], s);
    }
  }

  /** Trailing space after a word that does not end with a space is dropped,
      and nothing more. */
  lemma {:induction false} TrimRightPadded(s: string, post: string)
    requires forall i | 0 <= i < |post| :: IsSpace(post[i])
    requires s != [] && !IsSpace(s[|s| - 1])
    ensures TrimRight(s + post) == s
    decreases |post|
  {
    if post == [] {
      assert s + post == s;
    } else {
      var n := |post| - 1;
      var t := s + post;
      assert t[|t| - 1] == post[n] && IsSpace(t[|t| - 1]);
      assert t[..|t| - 1] == s + post[..n];
      assert TrimRight(t) == TrimRight(t[..|t| - 1]);
      TrimRightPadded(s, post[..n]);
    }
  }

  /** `r` is the slice of `s` that starts at `k`, and everything of `s`
      outside that slice is white space. */
  predicate IsTrimmedSlice(s: string, r: string, k: int) {
    0 <= k <= |s| - |r| && r == s[k..k + |r|]
    && (forall i | 0 <= i < k :: IsSpace(s[i]))
    && (forall i | k + |r| <= i < |s| :: IsSpace(s[i]))
  }

  /** A prefix of a suffix, each cut off only white space, is a slice with
      only white space around it. */
  lemma SliceOfSlice(s: string, l: string, r: string)
    requires |l| <= |s| && l == s[|s| - |l|..] && forall i | 0 <= i < |s| - |l| :: IsSpace(s[i])
    requires |r| <= |l| && r == l[..|r|] && forall i | |r| <= i < |l| :: IsSpace(l[i])
    ensures IsTrimmedSlice(s, r, |s| - |l|)
  {
    var k := |s| - |l|;
    assert r == s[k..k + |r|];
    forall i | k + |r| <= i < |s| ensures IsSpace(s[i]) {
      assert s[i] == l[i - k];
    }
  }

  /** Trimming both ends leaves a slice with only space around it. */
  lemma TrimSlice(s: string)
    ensures IsTrimmedSlice(s, TrimRight(TrimLeft(s)), |s| - |TrimLeft(s)|)
  {
    SliceOfSlice(s, TrimLeft(s), TrimRight(TrimLeft(s)));
  }

  /** `strings.TrimSpace`: a slice of `s` with neither a leading nor a
      trailing space, everything outside the slice being space. */
  function TrimSpace(s: string): (r: string)
    ensures |r| <= |s|
    ensures exists k :: IsTrimmedSlice(s, r, k)
    ensures r != [] ==> !IsSpace(r[0]) && !IsSpace(r[|r| - 1])
    ensures r == [] <==> forall i | 0 <= i < |s| :: IsSpace(s[i])
  {
    TrimBoth(s);
    TrimSlice(s);
    TrimRight(TrimLeft(s))
  }

  /** TrimSpace removes exactly the white space around a word that neither
      starts nor ends with white space. */
  lemma TrimSpacePadded(pre: string, s: string, post: string)
    requires forall i | 0 <= i < |pre| :: IsSpace(pre[i])
    requires forall i | 0 <= i < |post| :: IsSpace(post[i])
    requires s != [] && !IsSpace(s[0]) && !IsSpace(s[|s| - 1])
    ensures TrimSpace(pre + s + post) == s
  {
    assert pre + s + post == pre + (s + post);
    assert (s + post)[0] == s[0];
    TrimLeftPadded(pre, s + post);
    TrimRightPadded(s, post);
  }
}
