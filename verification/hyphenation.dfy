/** The `hyphenate_and_fixup` filter: the text is hyphenated by the `hyphenate` filter,
    which inserts soft hyphens (U+00AD), and two rewrites then undo the places where
    that goes wrong: a soft hyphen right after a hard one, and a soft hyphen inside
    the entity `&amp;`. */
module Hyphenation {
  import opened Text

  const SoftHyphen: char := '\U{AD}'

  /** `gsub(/-\u00ad/, "-")`: each hard hyphen followed by a soft one, scanned from the
      left without overlap, loses the soft one. */
  function FixHyphens(s: string): (r: string)
    ensures IsSubsequence(r, s)
    decreases |s|
  {
    if |s| >= 2 && s[0] == '-' && s[1] == SoftHyphen then
      var r := FixHyphens(s[2..]);
      assert s[1..][1..] == s[2..];
      SubsequenceOfSuffix(r, s[1..], 1);
      SubsequenceCons('-', r, s[1..]);
      assert [s[0]] + s[1..] == s;
      "-" + r
    else if |s| == 0 then []
    else
      var r := FixHyphens(s[1..]);
      SubsequenceCons(s[0], r, s[1..]);
      assert [s[0]] + s[1..] == s;
      [s[0]] + r
  }

  const AmpEntity := "&amp;"
  const AmpAmp := "&amp;amp;"
  const AmpSoftAmp := "&amp;am\U{AD}p;"

  /** `gsub(/&amp;am(\u00ad?)p;/, "&amp;")`: the doubly escaped ampersand, with or
      without a soft hyphen before its "p", becomes `&amp;`. */
  function FixAmpersands(s: string): (r: string)
    ensures IsSubsequence(r, s)
    decreases |s|
  {
    if StartsWith(s, AmpSoftAmp) then
      var r := FixAmpersands(s[10..]);
      SkipInsideAmp(s, 10, r);
      AmpEntity + r
    else if StartsWith(s, AmpAmp) then
      var r := FixAmpersands(s[9..]);
      SkipInsideAmp(s, 9, r);
      AmpEntity + r
    else if |s| == 0 then []
    else
      var r := FixAmpersands(s[1..]);
      SubsequenceCons(s[0], r, s[1..]);
      assert [s[0]] + s[1..] == s;
      [s[0]] + r
  }

  /** Replacing a match that starts with `&amp;` by `&amp;` only deletes characters. */
  lemma SkipInsideAmp(s: string, n: int, r: string)
    requires 5 <= n <= |s| && s[..5] == AmpEntity
    requires IsSubsequence(r, s[n..])
    ensures IsSubsequence(AmpEntity + r, s)
  {
    assert s[5..][n - 5..] == s[n..];
    SubsequenceOfSuffix(r, s[5..], n - 5);
    SubsequencePrefix(AmpEntity, r, s[5..]);
    assert s[..5] + s[5..] == s;
  }

  /** `hyphenate_and_fixup`: `hyphenate` (a parameter here) and then the two rewrites,
      in that order. */
  function HyphenateAndFixup(content: string, hyphenate: string -> string): (r: string)
    ensures IsSubsequence(r, hyphenate(content))
    ensures |r| <= |hyphenate(content)|
  {
    var h := hyphenate(content);
    var a := FixHyphens(h);
    var r := FixAmpersands(a);
    SubsequenceTrans(r, a, h);
    SubsequenceShorter(r, h);
    r
  }

  // Properties

  /** The first rewrite deletes soft hyphens and nothing else. */
  lemma {:induction false} FixHyphensDeletesSoftHyphens(s: string)
    ensures Without(FixHyphens(s), SoftHyphen) == Without(s, SoftHyphen)
    decreases |s|
  {
    if |s| >= 2 && s[0] == '-' && s[1] == SoftHyphen {
      FixHyphensDeletesSoftHyphens(s[2..]);
      assert s[1..][1..] == s[2..];
      assert ("-" + FixHyphens(s[2..]))[1..] == FixHyphens(s[2..]);
    } else if |s| > 0 {
      FixHyphensDeletesSoftHyphens(s[1..]);
      assert ([s[0]] + FixHyphens(s[1..]))[1..] == FixHyphens(s[1..]);
    }
  }

  /** Text without soft hyphens passes the first rewrite unchanged. */
  lemma {:induction false} FixHyphensUnchanged(s: string)
    requires SoftHyphen !in s
    ensures FixHyphens(s) == s
    decreases |s|
  {
    if |s| > 0 {
      FixHyphensUnchanged(s[1..]);
      assert [s[0]] + s[1..] == s;
    }
  }

  /** Text in which "&amp;am" never occurs passes the second rewrite unchanged. */
  lemma {:induction false} FixAmpersandsUnchanged(s: string)
    requires forall j :: 0 <= j < |s| ==> !OccursAt(s, j, "&amp;am")
    ensures FixAmpersands(s) == s
    decreases |s|
  {
    if |s| > 0 {
      assert !OccursAt(s, 0, "&amp;am");
      assert AmpSoftAmp[..7] == "&amp;am" && AmpAmp[..7] == "&amp;am";
      if StartsWith(s, AmpSoftAmp) {
        OccursAtOfStartsWith(s, AmpSoftAmp, 7);
      }
      if StartsWith(s, AmpAmp) {
        OccursAtOfStartsWith(s, AmpAmp, 7);
      }
      forall j | 0 <= j < |s| - 1
        ensures !OccursAt(s[1..], j, "&amp;am")
      {
        assert !OccursAt(s, j + 1, "&amp;am");
        if j + 7 <= |s| - 1 {
          assert s[1..][j..j + 7] == s[j + 1..j + 8];
        }
      }
      FixAmpersandsUnchanged(s[1..]);
      assert [s[0]] + s[1..] == s;
    }
  }

  /** Text that `hyphenate` leaves without soft hyphens and without "&amp;am" comes out
      of the filter exactly as `hyphenate` returned it. */
  lemma FixupUnchanged(content: string, hyphenate: string -> string)
    requires SoftHyphen !in hyphenate(content)
    requires forall j :: 0 <= j < |hyphenate(content)| ==> !OccursAt(hyphenate(content), j, "&amp;am")
    ensures HyphenateAndFixup(content, hyphenate) == hyphenate(content)
  {
    FixHyphensUnchanged(hyphenate(content));
    FixAmpersandsUnchanged(hyphenate(content));
  }

  /** A hard hyphen before two soft ones keeps the second: one pass removes one soft
      hyphen per hard hyphen, so a second pass changes the text again. */
  lemma FixHyphensNotIdempotent()
    ensures FixHyphens(['-', SoftHyphen, SoftHyphen]) == ['-', SoftHyphen]
    ensures FixHyphens(['-', SoftHyphen]) == "-"
  {
    var s := ['-', SoftHyphen, SoftHyphen];
    assert s[2..] == [SoftHyphen];
    assert [SoftHyphen][1..] == [];
    assert ['-', SoftHyphen][2..] == [];
  }

  /** The doubly escaped ampersand becomes `&amp;`. */
  lemma FixAmpersandsOfAmpAmp()
    ensures FixAmpersands(AmpAmp) == AmpEntity
  {
    assert |AmpAmp| < |AmpSoftAmp|;
    assert AmpAmp[9..] == [];
  }

  /** So does its spelling with a soft hyphen before the "p". */
  lemma FixAmpersandsOfSoftAmp()
    ensures FixAmpersands(AmpSoftAmp) == AmpEntity
  {
    assert AmpSoftAmp[10..] == [];
  }
}
