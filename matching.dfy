/** The regular expression `/(#{pattern})/` that `htmlify` hands to `gsub`, for a pattern
    built only from `Regexp.escape`d keywords joined by `|`: an ordered alternation of
    literal strings. */
module Matching {
  import opened Wrappers
  import opened Collections

  /** The alternatives of a compiled pattern, in the order they appear between the `|`s. */
  type Pattern = seq<string>

  /** What the scan makes of the text: a character copied as it is, or a match. */
  datatype Piece = Lit(c: char) | Hit(keyword: string)

  /** The literal `k` occurs in `s` at position `i`. */
  predicate PrefixAt(k: string, s: string, i: nat)
  {
    i + |k| <= |s| && s[i..i + |k|] == k
  }

  /** The alternative the regex engine settles on at position `i`: the first one, in
      pattern order, that matches there (not the longest). */
  function FirstMatch(s: string, i: nat, alts: Pattern): (r: Option<nat>)
    ensures r.Some? ==> r.value < |alts| && i + |alts[r.value]| <= |s|
  {
    if alts == [] then None
    else if PrefixAt(alts[0], s, i) then Some(0)
    else match FirstMatch(s, i, alts[1..])
      case None => None
      case Some(j) => Some(j + 1)
  }

  /** The alternative found matches at `i`. */
  lemma {:induction false} FirstMatchFound(s: string, i: nat, alts: Pattern)
    requires FirstMatch(s, i, alts).Some?
    ensures PrefixAt(alts[FirstMatch(s, i, alts).value], s, i)
  {
    if !PrefixAt(alts[0], s, i) {
      FirstMatchFound(s, i, alts[1..]);
    }
  }

  /** No alternative listed before the one found matches, and when none is found no
      alternative matches. */
  lemma {:induction false} FirstMatchSpec(s: string, i: nat, alts: Pattern)
    ensures var r := FirstMatch(s, i, alts);
      && (r.Some? ==> forall j :: 0 <= j < r.value ==> !PrefixAt(alts[j], s, i))
      && (r.None? ==> forall j :: 0 <= j < |alts| ==> !PrefixAt(alts[j], s, i))
  {
    if alts != [] && !PrefixAt(alts[0], s, i) {
      FirstMatchSpec(s, i, alts[1..]);
      assert forall j :: 1 <= j < |alts| ==> alts[j] == alts[1..][j - 1];
    }
  }

  /** `gsub`'s walk over `s` from position `i`. Where an alternative matches, the match is
      consumed and the walk resumes after it; where none does, one character is copied.
      After an empty match the character at that position is copied, so the walk always
      moves on; at the end of the text an empty alternative still matches once. */
  function ScanFrom(s: string, i: nat, alts: Pattern): (r: seq<Piece>)
    requires i <= |s|
    ensures |r| <= 2 * (|s| - i) + 1
    decreases |s| - i
  {
    match FirstMatch(s, i, alts)
    case Some(j) =>
      if |alts[j]| > 0 then [Hit(alts[j])] + ScanFrom(s, i + |alts[j]|, alts)
      else if i < |s| then [Hit(""), Lit(s[i])] + ScanFrom(s, i + 1, alts)
      else [Hit("")]
    case None =>
      if i < |s| then [Lit(s[i])] + ScanFrom(s, i + 1, alts) else []
  }

  /** The walk over the whole text. Putting the matches back in place gives the text
      back. */
  function Scan(s: string, alts: Pattern): (r: seq<Piece>)
    ensures Unparse(r) == s
  {
    ScanFromCovers(s, 0, alts);
    ScanFrom(s, 0, alts)
  }

  /** The text a sequence of pieces stands for: the matches put back in place. */
  function Unparse(ps: seq<Piece>): string
  {
    if ps == [] then []
    else
      (match ps[0] case Lit(c) => [c] case Hit(k) => k) + Unparse(ps[1..])
  }

  lemma {:induction false} UnparseAppend(a: seq<Piece>, b: seq<Piece>)
    ensures Unparse(a + b) == Unparse(a) + Unparse(b)
  {
    if a == [] {
      assert a + b == b;
    } else {
      assert (a + b)[1..] == a[1..] + b;
      UnparseAppend(a[1..], b);
    }
  }

  /** The matches do not overlap and, together with the copied characters, cover the text
      left to right: putting the matches back gives the text scanned. */
  lemma {:induction false} ScanFromCovers(s: string, i: nat, alts: Pattern)
    requires i <= |s|
    ensures Unparse(ScanFrom(s, i, alts)) == s[i..]
    decreases |s| - i
  {
    var r := FirstMatch(s, i, alts);
    if r.Some? && |alts[r.value]| > 0 {
      ScanFromCovers(s, i + |alts[r.value]|, alts);
      CoverOnMatch(s, i, alts, r.value);
    } else if i < |s| {
      ScanFromCovers(s, i + 1, alts);
      CoverOnCopy(s, i, alts);
    }
  }

  /** One step of the walk where a non-empty alternative matches. */
  lemma CoverOnMatch(s: string, i: nat, alts: Pattern, j: nat)
    requires i <= |s| && FirstMatch(s, i, alts) == Some(j) && |alts[j]| > 0
    requires Unparse(ScanFrom(s, i + |alts[j]|, alts)) == s[i + |alts[j]|..]
    ensures Unparse(ScanFrom(s, i, alts)) == s[i..]
  {
    var k := alts[j];
    FirstMatchFound(s, i, alts);
    assert s[i..] == k + s[i + |k|..] by {
      assert s[i..i + |k|] == k;
    }
    UnparseJoin([Hit(k)], ScanFrom(s, i + |k|, alts), k, s[i + |k|..]);
  }

  /** One step of the walk where a character is copied, after an empty match or none. */
  lemma CoverOnCopy(s: string, i: nat, alts: Pattern)
    requires i < |s|
    requires FirstMatch(s, i, alts).None? || |alts[FirstMatch(s, i, alts).value]| == 0
    requires Unparse(ScanFrom(s, i + 1, alts)) == s[i + 1..]
    ensures Unparse(ScanFrom(s, i, alts)) == s[i..]
  {
    var head := if FirstMatch(s, i, alts).Some? then [Hit(""), Lit(s[i])] else [Lit(s[i])];
    assert Unparse(head) == [s[i]] by {
      assert Unparse([Lit(s[i])]) == [s[i]];
      if FirstMatch(s, i, alts).Some? {
        assert head[1..] == [Lit(s[i])];
      }
    }
    assert s[i..] == [s[i]] + s[i + 1..];
    UnparseJoin(head, ScanFrom(s, i + 1, alts), [s[i]], s[i + 1..]);
  }

  lemma UnparseJoin(head: seq<Piece>, rest: seq<Piece>, w: string, tail: string)
    requires Unparse(head) == w && Unparse(rest) == tail
    ensures Unparse(head + rest) == w + tail
  {
    UnparseAppend(head, rest);
  }

  /** Where the `n`-th piece starts in the text, for pieces starting at `base`. */
  function Offset(ps: seq<Piece>, base: nat, n: nat): nat
    requires n <= |ps|
  {
    base + |Unparse(ps[..n])|
  }

  /** The `n`-th piece follows an empty match. */
  predicate AfterEmpty(ps: seq<Piece>, n: nat)
    requires n < |ps|
  {
    n > 0 && ps[n - 1] == Hit("")
  }

  /** What the walk promises of a piece at offset `o`: a match there is the first
      alternative, in pattern order, that matches at `o`; a character copied on its own
      (not the one copied after an empty match) is one where no alternative matches. */
  predicate FoundAt(s: string, alts: Pattern, q: Piece, afterEmpty: bool, o: nat)
  {
    && (q.Hit? ==> FirstMatch(s, o, alts).Some? && alts[FirstMatch(s, o, alts).value] == q.keyword)
    && (q.Lit? && !afterEmpty ==> FirstMatch(s, o, alts).None?)
  }

  /** A piece of the rest of a walk keeps its place behind a head that ends in anything
      but an empty match. */
  lemma ShiftPieces(head: seq<Piece>, rest: seq<Piece>, i: nat, next: nat, n: nat)
    requires head != [] && head[|head| - 1] != Hit("")
    requires i + |Unparse(head)| == next
    requires |head| <= n < |head| + |rest|
    ensures (head + rest)[n] == rest[n - |head|]
    ensures AfterEmpty(head + rest, n) == AfterEmpty(rest, n - |head|)
    ensures Offset(head + rest, i, n) == Offset(rest, next, n - |head|)
  {
    var ps := head + rest;
    var m := n - |head|;
    assert ps[..n] == head + rest[..m];
    UnparseAppend(head, rest[..m]);
    if m > 0 {
      assert ps[n - 1] == rest[m - 1];
    } else {
      assert ps[n - 1] == head[|head| - 1];
    }
  }

  /** Every piece of the walk is what the engine finds at its offset. */
  lemma {:induction false} ScanFromFinds(s: string, i: nat, alts: Pattern, n: nat)
    requires i <= |s| && n < |ScanFrom(s, i, alts)|
    ensures var ps := ScanFrom(s, i, alts); FoundAt(s, alts, ps[n], AfterEmpty(ps, n), Offset(ps, i, n))
    decreases |s| - i, 1
  {
    var r := FirstMatch(s, i, alts);
    if n == 0 {
      FindsFirst(s, i, alts);
    } else if r.Some? && |alts[r.value]| > 0 {
      FindsBehindMatch(s, i, alts, alts[r.value], n);
    } else if r.Some? {
      FindsBehindEmpty(s, i, alts, n);
    } else {
      FindsBehindCopy(s, i, alts, n);
    }
  }

  lemma {:induction false} FindsBehindMatch(s: string, i: nat, alts: Pattern, k: string, n: nat)
    requires i <= |s| && FirstMatch(s, i, alts).Some? && alts[FirstMatch(s, i, alts).value] == k && k != ""
    requires 0 < n < |ScanFrom(s, i, alts)|
    ensures var ps := ScanFrom(s, i, alts); FoundAt(s, alts, ps[n], AfterEmpty(ps, n), Offset(ps, i, n))
    decreases |s| - i, 0
  {
    StepOnMatch(s, i, alts, k);
    ScanFromFinds(s, i + |k|, alts, n - 1);
    ShiftPieces([Hit(k)], ScanFrom(s, i + |k|, alts), i, i + |k|, n);
  }

  lemma {:induction false} FindsBehindEmpty(s: string, i: nat, alts: Pattern, n: nat)
    requires i <= |s| && FirstMatch(s, i, alts).Some? && alts[FirstMatch(s, i, alts).value] == ""
    requires 0 < n < |ScanFrom(s, i, alts)|
    ensures var ps := ScanFrom(s, i, alts); FoundAt(s, alts, ps[n], AfterEmpty(ps, n), Offset(ps, i, n))
    decreases |s| - i, 0
  {
    StepOnEmpty(s, i, alts);
    if n > 1 {
      ScanFromFinds(s, i + 1, alts, n - 2);
      ShiftPieces([Hit(""), Lit(s[i])], ScanFrom(s, i + 1, alts), i, i + 1, n);
    }
  }

  lemma {:induction false} FindsBehindCopy(s: string, i: nat, alts: Pattern, n: nat)
    requires i <= |s| && FirstMatch(s, i, alts).None?
    requires 0 < n < |ScanFrom(s, i, alts)|
    ensures var ps := ScanFrom(s, i, alts); FoundAt(s, alts, ps[n], AfterEmpty(ps, n), Offset(ps, i, n))
    decreases |s| - i, 0
  {
    StepOnCopy(s, i, alts);
    ScanFromFinds(s, i + 1, alts, n - 1);
    ShiftPieces([Lit(s[i])], ScanFrom(s, i + 1, alts), i, i + 1, n);
  }

  /** The first piece of the walk is what the engine finds where the walk starts. */
  lemma FindsFirst(s: string, i: nat, alts: Pattern)
    requires i <= |s| && 0 < |ScanFrom(s, i, alts)|
    ensures var ps := ScanFrom(s, i, alts); FoundAt(s, alts, ps[0], AfterEmpty(ps, 0), Offset(ps, i, 0))
  {
    var ps := ScanFrom(s, i, alts);
    assert ps[..0] == [];
    assert Offset(ps, i, 0) == i;
  }

  /** The walk where a non-empty alternative matches. */
  lemma StepOnMatch(s: string, i: nat, alts: Pattern, k: string)
    requires i <= |s| && FirstMatch(s, i, alts).Some? && alts[FirstMatch(s, i, alts).value] == k && k != ""
    ensures i + |k| <= |s| && ScanFrom(s, i, alts) == [Hit(k)] + ScanFrom(s, i + |k|, alts)
    ensures Unparse([Hit(k)]) == k
  {
    assert Unparse([Hit(k)]) == k + Unparse([]);
  }

  /** The walk where an empty alternative matches before the end. */
  lemma StepOnEmpty(s: string, i: nat, alts: Pattern)
    requires i <= |s| && FirstMatch(s, i, alts).Some? && alts[FirstMatch(s, i, alts).value] == ""
    ensures i < |s| ==> ScanFrom(s, i, alts) == [Hit(""), Lit(s[i])] + ScanFrom(s, i + 1, alts)
    ensures i < |s| ==> Unparse([Hit(""), Lit(s[i])]) == [s[i]]
    ensures i == |s| ==> ScanFrom(s, i, alts) == [Hit("")]
  {
    if i < |s| {
      var head := [Hit(""), Lit(s[i])];
      assert head[1..] == [Lit(s[i])];
      assert Unparse(head[1..]) == [s[i]] + Unparse([]);
    }
  }

  /** The walk where no alternative matches. */
  lemma StepOnCopy(s: string, i: nat, alts: Pattern)
    requires i <= |s| && FirstMatch(s, i, alts).None?
    ensures i < |s| ==> ScanFrom(s, i, alts) == [Lit(s[i])] + ScanFrom(s, i + 1, alts)
    ensures i < |s| ==> Unparse([Lit(s[i])]) == [s[i]]
    ensures i == |s| ==> ScanFrom(s, i, alts) == []
  {
    if i < |s| {
      assert Unparse([Lit(s[i])]) == [s[i]] + Unparse([]);
    }
  }

  /** The walk over the whole text, at text offsets: a match at offset `o` is the first
      alternative, in pattern order, that matches at `o`; where a character is copied on
      its own, no alternative matches at its offset. */
  lemma ScanFinds(s: string, alts: Pattern, n: nat)
    requires n < |Scan(s, alts)|
    ensures var ps := Scan(s, alts); var o := |Unparse(ps[..n])|;
      && (ps[n].Hit? ==>
            && FirstMatch(s, o, alts).Some? && ps[n].keyword == alts[FirstMatch(s, o, alts).value]
            && PrefixAt(ps[n].keyword, s, o)
            && forall j :: 0 <= j < FirstMatch(s, o, alts).value ==> !PrefixAt(alts[j], s, o))
      && (ps[n].Lit? && (n == 0 || ps[n - 1] != Hit("")) ==>
            forall j :: 0 <= j < |alts| ==> !PrefixAt(alts[j], s, o))
  {
    var ps := Scan(s, alts);
    var o := |Unparse(ps[..n])|;
    ScanFromFinds(s, 0, alts, n);
    assert Offset(ps, 0, n) == o;
    FirstMatchSpec(s, o, alts);
    if ps[n].Hit? {
      FirstMatchFound(s, o, alts);
    }
  }

  /** Every match is one of the pattern's alternatives. */
  lemma {:induction false} ScanFromHitsAreAlternatives(s: string, i: nat, alts: Pattern)
    requires i <= |s|
    ensures forall p :: 0 <= p < |ScanFrom(s, i, alts)| && ScanFrom(s, i, alts)[p].Hit? ==>
              ScanFrom(s, i, alts)[p].keyword in alts
    decreases |s| - i
  {
    match FirstMatch(s, i, alts)
    case Some(j) =>
      if |alts[j]| > 0 {
        ScanFromHitsAreAlternatives(s, i + |alts[j]|, alts);
      } else if i < |s| {
        ScanFromHitsAreAlternatives(s, i + 1, alts);
      }
    case None =>
      if i < |s| {
        ScanFromHitsAreAlternatives(s, i + 1, alts);
      }
  }

  /** A pattern with no alternatives matches nothing. */
  lemma {:induction false} ScanFromEmptyPattern(s: string, i: nat)
    requires i <= |s|
    ensures forall p :: 0 <= p < |ScanFrom(s, i, [])| ==> ScanFrom(s, i, [])[p].Lit?
    decreases |s| - i
  {
    if i < |s| {
      ScanFromEmptyPattern(s, i + 1);
    }
  }

  /** Alternatives listed longest first. */
  predicate LongestFirst(alts: Pattern)
  {
    forall i, j :: 0 <= i < j < |alts| ==> |alts[i]| >= |alts[j]|
  }

  /** When the alternatives are listed longest first, the first alternative that matches is
      a longest one that matches. */
  lemma FirstMatchIsLongest(s: string, i: nat, alts: Pattern, j: nat)
    requires LongestFirst(alts)
    requires j < |alts| && PrefixAt(alts[j], s, i)
    ensures FirstMatch(s, i, alts).Some?
    ensures |alts[j]| <= |alts[FirstMatch(s, i, alts).value]|
  {
    FirstMatchSpec(s, i, alts);
  }

  /** A keyword standing alone is matched whole, provided the alternatives are listed
      longest first. */
  lemma StandaloneKeywordMatches(k: string, alts: Pattern)
    requires LongestFirst(alts)
    requires k in alts && k != ""
    ensures |Scan(k, alts)| > 0 && Scan(k, alts)[0] == Hit(k)
  {
    var j :| 0 <= j < |alts| && alts[j] == k;
    assert PrefixAt(alts[j], k, 0);
    FirstMatchIsLongest(k, 0, alts, j);
    FirstMatchFound(k, 0, alts);
    var m := FirstMatch(k, 0, alts).value;
    assert k[0..|alts[m]|] == alts[m];
    assert k[0..|k|] == k;
  }
}
