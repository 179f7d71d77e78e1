/** `sanitizeXML` (main.go): the best-effort repair of unescaped ampersands
    that runs on every sitemap body before decoding. XML 1.0, section 2.4,
    forbids a literal `&` in character data unless it starts a reference. */
module Sanitize {
  import opened Text

  /** The byte `&`. */
  const Ampersand: byte := 38

  /** "&amp;", the entity reference for an ampersand. */
  const EscapedAmp: Bytes := [38, 97, 109, 112, 59]

  /** "amp;", what follows the `&` in EscapedAmp. */
  const AmpTail: Bytes := [97, 109, 112, 59]

  /** "&amp;amp;", an ampersand escaped twice. */
  const DoubleEscapedAmp: Bytes := [38, 97, 109, 112, 59, 97, 109, 112, 59]

  /** First pass: every `&` becomes `&amp;`. */
  function EscapeAll(b: Bytes): Bytes {
    ReplaceAll(b, [Ampersand], EscapedAmp)
  }

  /** Second pass: every `&amp;amp;` collapses to `&amp;`. */
  function Collapse(b: Bytes): Bytes {
    ReplaceAll(b, DoubleEscapedAmp, EscapedAmp)
  }

  /** The two global replace-all passes of `sanitizeXML`, in source order.
      Together they amount to the one-pass EscapeBare. */
  function SanitizeXML(b: Bytes): (r: Bytes)
    ensures r == EscapeBare(b)
  {
    TwoPassesAreEscapeBare(b);
    Collapse(EscapeAll(b))
  }

  /** Reference definition, one pass: an `&` that already starts `&amp;` is
      kept together with its `amp;`, any other `&` is escaped, and every
      other byte is copied. */
  function EscapeBare(s: Bytes): Bytes
    decreases |s|
  {
    if s == [] then []
    else if StartsWith(s, EscapedAmp) then EscapedAmp + EscapeBare(s[5..])
    else if s[0] == Ampersand then EscapedAmp + EscapeBare(s[1..])
    else [s[0]] + EscapeBare(s[1..])
  }

  /** Every `&` is immediately followed by `amp;`. */
  predicate AmpEscaped(s: Bytes) {
    forall i | 0 <= i < |s| && s[i] == Ampersand :: StartsWith(s[i..], EscapedAmp)
  }

  lemma AmpTailHasNoAmpersand()
    ensures forall i | 0 <= i < |AmpTail| :: AmpTail[i] != Ampersand
    ensures EscapedAmp == [Ampersand] + AmpTail
    ensures DoubleEscapedAmp == EscapedAmp + AmpTail
  {
  }

  /** The first pass keeps the first byte in place. */
  lemma EscapeAllHead(y: Bytes)
    requires y != []
    ensures EscapeAll(y) != [] && EscapeAll(y)[0] == y[0]
  {
    if StartsWith(y, [Ampersand]) {
      assert EscapeAll(y) == EscapedAmp + EscapeAll(y[1..]);
    } else {
      assert EscapeAll(y) == [y[0]] + EscapeAll(y[1..]);
    }
  }

  /** If the first pass produces a prefix free of `&`, the input already had
      that prefix. */
  lemma {:induction false} EscapeAllPrefix(y: Bytes, p: Bytes)
    requires forall i | 0 <= i < |p| :: p[i] != Ampersand
    ensures StartsWith(EscapeAll(y), p) ==> StartsWith(y, p)
    decreases |p|
  {
    if p != [] && StartsWith(EscapeAll(y), p) {
      assert EscapeAll(y) != [];
      assert y != [];
      EscapeAllHead(y);
      assert y[0] == p[0];
      assert !StartsWith(y, [Ampersand]);
      assert EscapeAll(y) == [y[0]] + EscapeAll(y[1..]);
      assert EscapeAll(y)[1..] == EscapeAll(y[1..]);
      assert EscapeAll(y[1..])[..|p| - 1] == EscapeAll(y)[1..|p|] == p[1..];
      EscapeAllPrefix(y[1..], p[1..]);
      assert y == [y[0]] + y[1..];
      assert y[..|p|] == [y[0]] + y[1..][..|p| - 1];
    }
  }

  /** An `&amp;` at the front is kept, with its `amp;`. */
  lemma SanitizeStepEscaped(s: Bytes)
    requires StartsWith(s, EscapedAmp)
    ensures Collapse(EscapeAll(s)) == EscapedAmp + Collapse(EscapeAll(s[5..]))
  {
    AmpTailHasNoAmpersand();
    var rest := s[5..];
    assert s == [Ampersand] + (AmpTail + rest);
    ReplaceAllMatch(AmpTail + rest, [Ampersand], EscapedAmp);
    ReplaceAllSkips(AmpTail, rest, [Ampersand], EscapedAmp);
    assert EscapeAll(s) == DoubleEscapedAmp + EscapeAll(rest);
    ReplaceAllMatch(EscapeAll(rest), DoubleEscapedAmp, EscapedAmp);
  }

  /** The first pass on a bare `&` at the front: it becomes `&amp;`, and
      what follows does not start with `amp;`. */
  lemma EscapeAllBare(s: Bytes)
    requires s != [] && s[0] == Ampersand && !StartsWith(s, EscapedAmp)
    ensures EscapeAll(s) == EscapedAmp + EscapeAll(s[1..])
    ensures !StartsWith(EscapeAll(s[1..]), AmpTail)
  {
    AmpTailHasNoAmpersand();
    var rest := s[1..];
    assert s == [Ampersand] + rest;
    ReplaceAllMatch(rest, [Ampersand], EscapedAmp);
    StartsWithCommon([Ampersand], rest, AmpTail);
    EscapeAllPrefix(rest, AmpTail);
  }

  /** The second pass on `&amp;` followed by something other than `amp;`:
      the `&amp;` stays. */
  lemma CollapseSingle(t: Bytes)
    requires !StartsWith(t, AmpTail)
    ensures Collapse(EscapedAmp + t) == EscapedAmp + Collapse(t)
  {
    AmpTailHasNoAmpersand();
    var y := [Ampersand] + AmpTail + t;
    assert EscapedAmp + t == y;
    assert DoubleEscapedAmp == [Ampersand] + AmpTail + AmpTail;
    StartsWithCommon([Ampersand] + AmpTail, t, AmpTail);
    assert !StartsWith(y, DoubleEscapedAmp);
    assert y[0] == Ampersand && y[1..] == AmpTail + t;
    assert Collapse(y) == [Ampersand] + Collapse(AmpTail + t);
    ReplaceAllSkips(AmpTail, t, DoubleEscapedAmp, EscapedAmp);
  }

  /** A bare `&` at the front is escaped. */
  lemma SanitizeStepBare(s: Bytes)
    requires s != [] && s[0] == Ampersand && !StartsWith(s, EscapedAmp)
    ensures Collapse(EscapeAll(s)) == EscapedAmp + Collapse(EscapeAll(s[1..]))
  {
    EscapeAllBare(s);
    CollapseSingle(EscapeAll(s[1..]));
  }

  /** Any other byte at the front is copied. */
  lemma SanitizeStepOther(s: Bytes)
    requires s != [] && s[0] != Ampersand
    ensures Collapse(EscapeAll(s)) == [s[0]] + Collapse(EscapeAll(s[1..]))
  {
    var rest := s[1..];
    assert s == [s[0]] + rest;
    ReplaceAllSkips([s[0]], rest, [Ampersand], EscapedAmp);
    ReplaceAllSkips([s[0]], EscapeAll(rest), DoubleEscapedAmp, EscapedAmp);
  }

  /** The two passes equal the one-pass reference definition. */
  lemma {:induction false} TwoPassesAreEscapeBare(s: Bytes)
    ensures Collapse(EscapeAll(s)) == EscapeBare(s)
    decreases |s|
  {
    if s == [] {
    } else if StartsWith(s, EscapedAmp) {
      SanitizeStepEscaped(s);
      TwoPassesAreEscapeBare(s[5..]);
    } else if s[0] == Ampersand {
      SanitizeStepBare(s);
      TwoPassesAreEscapeBare(s[1..]);
    } else {
      SanitizeStepOther(s);
      TwoPassesAreEscapeBare(s[1..]);
    }
  }

  lemma AmpEscapedSuffix(s: Bytes, k: nat)
    requires AmpEscaped(s) && k <= |s|
    ensures AmpEscaped(s[k..])
  {
    forall i | 0 <= i < |s[k..]| && s[k..][i] == Ampersand
      ensures StartsWith(s[k..][i..], EscapedAmp)
    {
      assert s[k + i] == Ampersand;
      assert s[k..][i..] == s[k + i..];
    }
  }

  lemma AmpEscapedConcat(a: Bytes, b: Bytes)
    requires AmpEscaped(a) && AmpEscaped(b)
    ensures AmpEscaped(a + b)
  {
    forall i | 0 <= i < |a + b| && (a + b)[i] == Ampersand
      ensures StartsWith((a + b)[i..], EscapedAmp)
    {
      if i < |a| {
        assert a[i] == Ampersand;
        assert StartsWith(a[i..], EscapedAmp);
        assert (a + b)[i..][..5] == a[i..][..5];
      } else {
        assert b[i - |a|] == Ampersand;
        assert (a + b)[i..] == b[i - |a|..];
      }
    }
  }

  /** The reference sanitizer leaves no bare `&` behind. */
  lemma {:induction false} EscapeBareEscapes(s: Bytes)
    ensures AmpEscaped(EscapeBare(s))
    decreases |s|
  {
    assert AmpEscaped(EscapedAmp) by {
      assert EscapedAmp[0..] == EscapedAmp;
    }
    if s == [] {
    } else if StartsWith(s, EscapedAmp) {
      EscapeBareEscapes(s[5..]);
      AmpEscapedConcat(EscapedAmp, EscapeBare(s[5..]));
    } else if s[0] == Ampersand {
      EscapeBareEscapes(s[1..]);
      AmpEscapedConcat(EscapedAmp, EscapeBare(s[1..]));
    } else {
      EscapeBareEscapes(s[1..]);
      AmpEscapedConcat([s[0]], EscapeBare(s[1..]));
    }
  }

  /** Input in which every `&` already starts `&amp;` is left as it is. */
  lemma {:induction false} EscapeBareKeepsEscaped(s: Bytes)
    requires AmpEscaped(s)
    ensures EscapeBare(s) == s
    decreases |s|
  {
    if s == [] {
    } else if StartsWith(s, EscapedAmp) {
      AmpEscapedSuffix(s, 5);
      EscapeBareKeepsEscaped(s[5..]);
      assert s == s[..5] + s[5..];
    } else {
      assert s[0] != Ampersand by {
        assert s[0..] == s;
      }
      AmpEscapedSuffix(s, 1);
      EscapeBareKeepsEscaped(s[1..]);
      assert s == [s[0]] + s[1..];
    }
  }

  /** In the sanitizer's output every `&` is followed by `amp;`. */
  lemma SanitizeEscapes(s: Bytes)
    ensures AmpEscaped(SanitizeXML(s))
  {
    EscapeBareEscapes(s);
  }

  /** The sanitizer is a fixpoint exactly on input that has no bare `&`. */
  lemma SanitizeFixpoint(s: Bytes)
    ensures SanitizeXML(s) == s <==> AmpEscaped(s)
  {
    EscapeBareEscapes(s);
    if AmpEscaped(s) {
      EscapeBareKeepsEscaped(s);
    }
  }

  /** Sanitizing twice is the same as sanitizing once. */
  lemma SanitizeIdempotent(s: Bytes)
    ensures SanitizeXML(SanitizeXML(s)) == SanitizeXML(s)
  {
    SanitizeEscapes(s);
    SanitizeFixpoint(SanitizeXML(s));
  }

  /** Input without any `&` passes through unchanged. */
  lemma SanitizeWithoutAmpersand(s: Bytes)
    requires forall i | 0 <= i < |s| :: s[i] != Ampersand
    ensures SanitizeXML(s) == s
  {
    SanitizeFixpoint(s);
  }

  /** A bare `&` is escaped. */
  lemma SanitizeBareAmpersand()
    ensures SanitizeXML([Ampersand]) == EscapedAmp
  {
    SanitizeStepBare([Ampersand]);
    assert [Ampersand][1..] == [];
  }

  /** An escaped `&amp;` stays as it is, and so does a doubly escaped
      `&amp;amp;` (only a freshly made double escape is undone). */
  lemma SanitizeKeepsEscaped()
    ensures SanitizeXML(EscapedAmp) == EscapedAmp
    ensures SanitizeXML(DoubleEscapedAmp) == DoubleEscapedAmp
  {
    assert EscapedAmp[5..] == [];
    SanitizeStepEscaped(EscapedAmp);
    assert DoubleEscapedAmp[5..] == AmpTail;
    SanitizeStepEscaped(DoubleEscapedAmp);
    AmpTailHasNoAmpersand();
    SanitizeWithoutAmpersand(AmpTail);
  }
}
