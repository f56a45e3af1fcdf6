/** `htmlify`: turning an entry's description into HTML in which every occurrence of a
    registered keyword links to that keyword's page.

    The scan replaces each match by a placeholder token "isuda_" + SHA-1 hex digest of the
    keyword, the result is HTML-escaped, every placeholder is then replaced by the
    keyword's anchor, and newlines become line breaks. */
module ContentLinker {
  import opened Wrappers
  import opened Collections
  import opened RubyHash
  import opened Matching

  /** The calls `htmlify` makes into code outside this model: the SHA-1 hex digest, the
      URL path escaping of a keyword, and the application's absolute URL for a path. */
  datatype Helpers = Helpers(sha1Hex: string -> string, escapePath: string -> string, url: string -> string)

  /** The prefix of every placeholder token. */
  const Marker: string := "isuda_"

  /** The characters the HTML escape rewrites. */
  predicate IsHtmlSpecial(c: char)
  {
    c == '&' || c == '<' || c == '>' || c == '\'' || c == '\"' || c == '/'
  }

  /** The HTML escape of one character, by the escape table of the Rack versions the
      application runs on. */
  function EscapeHtmlChar(c: char): (r: string)
    ensures !IsHtmlSpecial(c) ==> r == [c]
    ensures IsHtmlSpecial(c) ==> |r| > 1 && r[0] == '&' && r[|r| - 1] == ';'
    ensures c != 'i' ==> 'i' !in r
  {
    match c
    case '&' => "&amp;"
    case '<' => "&lt;"
    case '>' => "&gt;"
    case '\'' => "&#x27;"
    case '\"' => "&quot;"
    case '/' => "&#x2F;"
    case _ => [c]
  }

  /** A tag or attribute delimiter, which no escaped text contains. */
  predicate IsDelimiter(c: char)
  {
    c == '<' || c == '>' || c == '\'' || c == '\"'
  }

  /** `Rack::Utils.escape_html`: each character escaped in turn. The text never gets
      shorter, and only the empty text escapes to the empty text. */
  function EscapeHtml(s: string): (r: string)
    ensures |r| >= |s|
    ensures r == [] <==> s == []
  {
    if s == [] then [] else EscapeHtmlChar(s[0]) + EscapeHtml(s[1..])
  }

  /** No tag or attribute delimiter survives the escape. */
  lemma {:induction false} EscapeHtmlHasNoDelimiters(s: string)
    ensures forall m :: 0 <= m < |EscapeHtml(s)| ==> !IsDelimiter(EscapeHtml(s)[m])
  {
    if s != [] {
      EscapeHtmlHasNoDelimiters(s[1..]);
      var head := EscapeHtmlChar(s[0]);
      assert forall m :: 0 <= m < |head| ==> !IsDelimiter(head[m]);
    }
  }

  /** A text free of special characters is left as it is. */
  lemma {:induction false} EscapeHtmlPlain(s: string)
    requires forall m :: 0 <= m < |s| ==> !IsHtmlSpecial(s[m])
    ensures EscapeHtml(s) == s
  {
    if s != [] {
      assert forall m :: 0 <= m < |s[1..]| ==> s[1..][m] == s[m + 1];
      EscapeHtmlPlain(s[1..]);
      assert s == [s[0]] + s[1..];
    }
  }

  lemma {:induction false} EscapeHtmlAppend(a: string, b: string)
    ensures EscapeHtml(a + b) == EscapeHtml(a) + EscapeHtml(b)
  {
    if a == [] {
      assert a + b == b;
    } else {
      assert (a + b)[1..] == a[1..] + b;
      EscapeHtmlAppend(a[1..], b);
    }
  }

  lemma PrefixShift(k: string, s: string, j: nat)
    requires |s| > 0
    ensures PrefixAt(k, s[1..], j) <==> PrefixAt(k, s, j + 1)
  {
    if j + |k| <= |s[1..]| {
      assert s[1..][j..j + |k|] == s[j + 1..j + 1 + |k|];
    }
  }

  /** `gsub` with a literal pattern: every occurrence, left to right and without overlap,
      is replaced, and the replacement is not scanned again. */
  function ReplaceAll(s: string, pat: string, rep: string): (r: string)
    requires pat != ""
    ensures rep == pat ==> r == s
    decreases |s|
  {
    if s == [] then []
    else if PrefixAt(pat, s, 0) then rep + ReplaceAll(s[|pat|..], pat, rep)
    else [s[0]] + ReplaceAll(s[1..], pat, rep)
  }

  /** A text in which the pattern does not occur is left as it is. */
  lemma {:induction false} ReplaceAllAbsent(s: string, pat: string, rep: string)
    requires pat != ""
    requires forall j: nat :: !PrefixAt(pat, s, j)
    ensures ReplaceAll(s, pat, rep) == s
    decreases |s|
  {
    if s != [] {
      forall j: nat ensures !PrefixAt(pat, s[1..], j) {
        PrefixShift(pat, s, j);
      }
      ReplaceAllAbsent(s[1..], pat, rep);
      assert s == [s[0]] + s[1..];
    }
  }

  /** The last step, `gsub(/\n/, "<br />\n")`. */
  function NewlineToBr(s: string): (r: string)
    ensures (forall m :: 0 <= m < |s| ==> s[m] != '\n') ==> r == s
  {
    NoNewlineLeftAlone(s);
    ReplaceAll(s, "\n", "<br />\n")
  }

  lemma NoNewlineLeftAlone(s: string)
    ensures (forall m :: 0 <= m < |s| ==> s[m] != '\n') ==> ReplaceAll(s, "\n", "<br />\n") == s
  {
    if forall m :: 0 <= m < |s| ==> s[m] != '\n' {
      forall j: nat ensures !PrefixAt("\n", s, j) {
        if j < |s| {
          assert s[j..j + 1] == [s[j]];
        }
      }
      ReplaceAllAbsent(s, "\n", "<br />\n");
    }
  }

  lemma AbsentLeftAlone(s: string, pat: string, rep: string)
    requires pat != ""
    ensures (forall j: nat :: !PrefixAt(pat, s, j)) ==> ReplaceAll(s, pat, rep) == s
  {
    if forall j: nat :: !PrefixAt(pat, s, j) {
      ReplaceAllAbsent(s, pat, rep);
    }
  }

  /** The placeholder a match of `k` is replaced by. */
  function Token(h: Helpers, k: string): (r: string)
    ensures PrefixAt(Marker, r, 0)
  {
    Marker + h.sha1Hex(k)
  }

  /** The link to the page of keyword `k`. */
  function Anchor(h: Helpers, k: string): (r: string)
    ensures |r| > 0 && r[0] == '<' && r[|r| - 1] == '>'
  {
    var e := h.escapePath(k);
    "<a href=\"" + h.url("/keyword/" + e) + "\">" + e + "</a>"
  }

  // The computation as the source does it.

  /** The text of one piece after the scan: a copied character, or a match's token. */
  function TokenText(q: Piece, h: Helpers): string
  {
    match q
    case Lit(c) => [c]
    case Hit(k) => Token(h, k)
  }

  /** The scanned text with every match replaced by its token. */
  function Tokenized(ps: seq<Piece>, h: Helpers): string
  {
    if ps == [] then [] else TokenText(ps[0], h) + Tokenized(ps[1..], h)
  }

  lemma {:induction false} TokenizedSnoc(ps: seq<Piece>, q: Piece, h: Helpers)
    ensures Tokenized(ps + [q], h) == Tokenized(ps, h) + TokenText(q, h)
  {
    if ps == [] {
      assert ps + [q] == [q];
    } else {
      assert (ps + [q])[1..] == ps[1..] + [q];
      TokenizedSnoc(ps[1..], q, h);
    }
  }

  /** The matched keywords in the order they were matched, repetitions included. */
  function HitKeywords(ps: seq<Piece>): (ks: seq<string>)
    ensures forall k :: k in ks <==> Hit(k) in ps
    decreases |ps|
  {
    if ps == [] then []
    else
      var init := ps[..|ps| - 1];
      var q := ps[|ps| - 1];
      assert ps == init + [q];
      HitKeywords(init) + (if q.Hit? then [q.keyword] else [])
  }

  lemma HitKeywordsSnoc(ps: seq<Piece>, q: Piece)
    ensures HitKeywords(ps + [q]) == HitKeywords(ps) + (if q.Hit? then [q.keyword] else [])
  {
    assert (ps + [q])[..|ps|] == ps;
  }

  /** The keys of `kw2hash`: each matched keyword once, in order of first match. */
  function DistinctHits(ps: seq<Piece>): (ks: seq<string>)
    ensures NoDuplicates(ks)
    ensures forall k :: k in ks <==> Hit(k) in ps
  {
    var all := HitKeywords(ps);
    var d := Distinct(all);
    assert forall k :: k in all ==> k in d by {
      forall k | k in all ensures k in d {
        var i :| 0 <= i < |all| && all[i] == k;
      }
    }
    d
  }

  /** `kw2hash.each { ... gsub!(hash, anchor) }`: every key's token replaced by the key's
      anchor, key after key. */
  function ReplaceTokens(s: string, keys: seq<string>, h: Helpers): (r: string)
    ensures (forall m :: 0 <= m < |keys| ==> forall j: nat :: !PrefixAt(Token(h, keys[m]), s, j)) ==> r == s
    decreases |keys|
  {
    if keys == [] then s
    else
      AbsentLeftAlone(s, Token(h, keys[0]), Anchor(h, keys[0]));
      assert forall m :: 0 <= m < |keys[1..]| ==> keys[1..][m] == keys[m + 1];
      ReplaceTokens(ReplaceAll(s, Token(h, keys[0]), Anchor(h, keys[0])), keys[1..], h)
  }

  /** The HTML the linker means to produce: each copied character escaped, each match
      replaced by the anchor of the matched keyword. */
  function Render(ps: seq<Piece>, h: Helpers): (r: string)
    ensures |r| >= |ps|
    ensures (forall p :: 0 <= p < |ps| ==> ps[p].Lit?) ==> r == EscapeHtml(Unparse(ps))
  {
    if ps == [] then []
    else
      (match ps[0] case Lit(c) => EscapeHtmlChar(c) case Hit(k) => Anchor(h, k))
      + Render(ps[1..], h)
  }

  /** A SHA-1 digest in hex: forty lower-case hex digits. */
  predicate IsHexDigest(d: string)
  {
    |d| == 40 && forall m :: 0 <= m < |d| ==> ('0' <= d[m] <= '9' || 'a' <= d[m] <= 'f')
  }

  /** What the token scheme relies on for the keywords of a pattern: digests are hex,
      distinct keywords have distinct digests, and no anchor contains the token prefix. */
  ghost predicate DigestsSafe(pattern: Pattern, h: Helpers)
  {
    && (forall k :: k in pattern ==> IsHexDigest(h.sha1Hex(k)))
    && (forall k, k' :: k in pattern && k' in pattern && h.sha1Hex(k) == h.sha1Hex(k') ==> k == k')
    && (forall k, j: nat :: k in pattern ==> !PrefixAt(Marker, Anchor(h, k), j))
  }

  /** `DigestsSafe`, and the description itself never contains the token prefix. */
  ghost predicate TokensSafe(content: string, pattern: Pattern, h: Helpers)
  {
    DigestsSafe(pattern, h) && forall j: nat :: !PrefixAt(Marker, content, j)
  }

  /** `kw2hash` after the keywords `seen` were matched: each of them once, in order of
      first match, with its token. */
  ghost predicate Recorded(kw2hash: Hash<string, string>, seen: seq<string>, h: Helpers)
  {
    Keys(kw2hash) == Distinct(seen) &&
    forall k :: k in Keys(kw2hash) ==> Get(kw2hash, k) == Some(Token(h, k))
  }

  lemma RecordHit(kw2hash: Hash<string, string>, seen: seq<string>, k: string, h: Helpers)
    requires Recorded(kw2hash, seen, h)
    ensures Recorded(Put(kw2hash, k, Token(h, k)), seen + [k], h)
  {
    DistinctSnoc(seen, k);
    PutSpec(kw2hash, k, Token(h, k));
  }

  /** The `gsub` block of `htmlify`: each match is replaced by its token, and `kw2hash`
      records each matched keyword once, in order of first match, with its token. */
  method TokenizeMatches(ps: seq<Piece>, h: Helpers) returns (hashed: string, kw2hash: Hash<string, string>)
    ensures hashed == Tokenized(ps, h)
    ensures Keys(kw2hash) == DistinctHits(ps)
    ensures forall j :: 0 <= j < |kw2hash| ==> kw2hash[j].1 == Token(h, kw2hash[j].0)
  {
    kw2hash := [];
    hashed := [];
    ghost var seen: seq<string> := [];
    var i := 0;
    while i < |ps|
      invariant 0 <= i <= |ps|
      invariant hashed == Tokenized(ps[..i], h)
      invariant seen == HitKeywords(ps[..i])
      invariant Recorded(kw2hash, seen, h)
    {
      assert ps[..i + 1] == ps[..i] + [ps[i]];
      TokenizedSnoc(ps[..i], ps[i], h);
      HitKeywordsSnoc(ps[..i], ps[i]);
      match ps[i] {
        case Lit(c) =>
          hashed := hashed + [c];
        case Hit(k) =>
          var hash := Token(h, k);
          RecordHit(kw2hash, seen, k, h);
          kw2hash := Put(kw2hash, k, hash);
          hashed := hashed + hash;
          seen := seen + [k];
      }
      i := i + 1;
    }
    assert ps[..|ps|] == ps;
    forall j | 0 <= j < |kw2hash| ensures kw2hash[j].1 == Token(h, kw2hash[j].0) {
      GetAt(kw2hash, j);
    }
  }

  /** `kw2hash.each { ... escaped_content.gsub!(hash, anchor) }`: each recorded token is
      replaced by the anchor of its keyword, keyword after keyword. */
  method LinkTokens(escaped: string, kw2hash: Hash<string, string>, h: Helpers) returns (linked: string)
    requires forall j :: 0 <= j < |kw2hash| ==> kw2hash[j].1 == Token(h, kw2hash[j].0)
    ensures linked == ReplaceTokens(escaped, Keys(kw2hash), h)
  {
    ghost var keys := Keys(kw2hash);
    linked := escaped;
    var j := 0;
    while j < |kw2hash|
      invariant 0 <= j <= |kw2hash|
      invariant ReplaceTokens(linked, keys[j..], h) == ReplaceTokens(escaped, keys, h)
    {
      var (keyword, hash) := kw2hash[j];
      var escapedKeyword := h.escapePath(keyword);
      var keywordUrl := h.url("/keyword/" + escapedKeyword);
      var anchor := "<a href=\"" + keywordUrl + "\">" + escapedKeyword + "</a>";
      assert keys[j..][0] == keyword && keys[j..][1..] == keys[j + 1..];
      linked := ReplaceAll(linked, hash, anchor);
      j := j + 1;
    }
    assert keys[|kw2hash|..] == [];
  }

  /** `htmlify(content, pattern)`: when the tokens behave, the intended rendering with
      every match linked; when nothing matches, the escaped description; and in every case
      the source's steps composed, tokens and all. */
  method Htmlify(content: string, pattern: Pattern, h: Helpers) returns (html: string)
    ensures TokensSafe(content, pattern, h) ==> html == NewlineToBr(Render(Scan(content, pattern), h))
    ensures (forall p :: 0 <= p < |Scan(content, pattern)| ==> Scan(content, pattern)[p].Lit?) ==>
              html == NewlineToBr(EscapeHtml(content))
    ensures html == NewlineToBr(ReplaceTokens(EscapeHtml(Tokenized(Scan(content, pattern), h)),
                                              DistinctHits(Scan(content, pattern)), h))
  {
    var ps := Scan(content, pattern);
    var hashed, kw2hash := TokenizeMatches(ps, h);
    var escaped := EscapeHtml(hashed);
    var linked := LinkTokens(escaped, kw2hash, h);
    html := NewlineToBr(linked);
    if forall p :: 0 <= p < |ps| ==> ps[p].Lit? {
      PlainWhenNothingMatches(ps, h);
    }
    if TokensSafe(content, pattern, h) {
      TokensBecomeAnchors(content, pattern, h);
    }
  }

  // Why the token detour renders exactly the intended HTML.

  /** The text of one piece once the tokens of the keywords in `ds` have been replaced:
      escaped character, anchor, or a token still waiting. */
  function PieceText(q: Piece, ds: set<string>, h: Helpers): string
  {
    match q
    case Lit(c) => EscapeHtmlChar(c)
    case Hit(k) => if k in ds then Anchor(h, k) else Token(h, k)
  }

  function Flat(ps: seq<Piece>, ds: set<string>, h: Helpers): string
  {
    if ps == [] then [] else PieceText(ps[0], ds, h) + Flat(ps[1..], ds, h)
  }

  /** The pieces that copy the characters of `w`, one by one. */
  function LitsOf(w: string): seq<Piece>
  {
    if w == [] then [] else [Lit(w[0])] + LitsOf(w[1..])
  }

  lemma {:induction false} UnparseLits(w: string)
    ensures Unparse(LitsOf(w)) == w
  {
    if w != [] {
      UnparseLits(w[1..]);
      assert LitsOf(w)[1..] == LitsOf(w[1..]);
    }
  }

  /** The copied characters at `p` spell the token prefix. */
  ghost predicate SpellsMarkerAt(ps: seq<Piece>, p: nat)
  {
    p + |Marker| <= |ps| && ps[p..p + |Marker|] == LitsOf(Marker)
  }

  ghost predicate NoMarker(ps: seq<Piece>)
  {
    forall p: nat :: !SpellsMarkerAt(ps, p)
  }

  lemma NoMarkerTail(ps: seq<Piece>)
    requires ps != [] && NoMarker(ps)
    ensures NoMarker(ps[1..])
  {
    forall p: nat ensures !SpellsMarkerAt(ps[1..], p) {
      if p + |Marker| <= |ps[1..]| {
        assert ps[1..][p..p + |Marker|] == ps[p + 1..p + 1 + |Marker|];
        assert !SpellsMarkerAt(ps, p + 1);
      }
    }
  }

  /** A description free of the token prefix scans into pieces that do not spell it. */
  lemma NoMarkerFromContent(content: string, pattern: Pattern)
    requires forall j: nat :: !PrefixAt(Marker, content, j)
    ensures NoMarker(Scan(content, pattern))
  {
    var ps := Scan(content, pattern);
    UnparseLits(Marker);
    forall p: nat | p + |Marker| <= |ps| ensures !SpellsMarkerAt(ps, p) {
      var n := p + |Marker|;
      assert ps == ps[..p] + ps[p..n] + ps[n..];
      UnparseAppend(ps[..p] + ps[p..n], ps[n..]);
      UnparseAppend(ps[..p], ps[p..n]);
      var i := |Unparse(ps[..p])|;
      assert content == Unparse(ps[..p]) + Unparse(ps[p..n]) + Unparse(ps[n..]);
      if ps[p..n] == LitsOf(Marker) {
        assert content[i..i + |Marker|] == Marker;
        assert PrefixAt(Marker, content, i);
      }
    }
  }

  lemma TokenShape(h: Helpers, k: string)
    requires IsHexDigest(h.sha1Hex(k))
    ensures |Token(h, k)| == 46 && Token(h, k)[0] == 'i'
    ensures forall m :: 1 <= m < |Token(h, k)| ==> Token(h, k)[m] != 'i'
    ensures forall m :: 0 <= m < |Token(h, k)| ==> !IsHtmlSpecial(Token(h, k)[m])
    ensures Token(h, k)[..|Marker|] == Marker
  {
    var t := Token(h, k);
    var d := h.sha1Hex(k);
    forall m | 0 <= m < |t| ensures (m >= 1 ==> t[m] != 'i') && !IsHtmlSpecial(t[m]) {
      if m < |Marker| {
        assert t[m] == Marker[m];
      } else {
        assert t[m] == d[m - |Marker|];
      }
    }
  }

  /** The first character of a piece's text tells a copied ordinary character apart from
      an entity ('&'), an anchor ('<') and a token ('i'). */
  lemma PieceTextStart(q: Piece, ds: set<string>, h: Helpers)
    ensures |PieceText(q, ds, h)| > 0
    ensures var c := PieceText(q, ds, h)[0]; c != '&' && c != '<' && c != 'i' ==> q == Lit(c)
  {
  }

  /** Text that begins with ordinary characters other than 'i' begins with pieces that
      copy them. */
  lemma {:induction false} FlatSpellsLits(qs: seq<Piece>, ds: set<string>, h: Helpers, w: string)
    requires forall m :: 0 <= m < |w| ==> w[m] != '&' && w[m] != '<' && w[m] != 'i'
    requires |w| <= |Flat(qs, ds, h)| && Flat(qs, ds, h)[..|w|] == w
    ensures |w| <= |qs| && qs[..|w|] == LitsOf(w)
    decreases |w|
  {
    if w != [] {
      assert qs != [];
      PieceTextStart(qs[0], ds, h);
      var f := Flat(qs, ds, h);
      assert f == PieceText(qs[0], ds, h) + Flat(qs[1..], ds, h);
      assert f[0] == w[0];
      assert qs[0] == Lit(w[0]);
      assert PieceText(qs[0], ds, h) == [w[0]];
      assert Flat(qs[1..], ds, h)[..|w| - 1] == w[1..];
      FlatSpellsLits(qs[1..], ds, h, w[1..]);
      assert qs[..|w|] == [qs[0]] + qs[1..][..|w| - 1];
    }
  }

  ghost predicate HitsIn(ps: seq<Piece>, pattern: Pattern)
  {
    forall k :: Hit(k) in ps ==> k in pattern
  }

  /** A token cannot start at a character other than 'i'. */
  lemma NoTokenAtOther(piece: string, rest: string, t: string, j: nat)
    requires j < |piece| && |t| > 0 && t[0] == 'i' && piece[j] != 'i'
    ensures !PrefixAt(t, piece + rest, j)
  {
    if j + |t| <= |piece + rest| {
      assert (piece + rest)[j..j + |t|][0] == piece[j];
    }
  }

  /** A copied 'i' followed by text that begins with the rest of the token prefix
      starts a spelling of the prefix. */
  lemma LitIStartsMarker(ps: seq<Piece>, ds: set<string>, h: Helpers)
    requires ps != [] && ps[0] == Lit('i')
    requires |Marker| - 1 <= |Flat(ps[1..], ds, h)|
    requires Flat(ps[1..], ds, h)[..|Marker| - 1] == Marker[1..]
    ensures SpellsMarkerAt(ps, 0)
  {
    var w := Marker[1..];
    FlatSpellsLits(ps[1..], ds, h, w);
    assert ps[..|Marker|] == [ps[0]] + ps[1..][..|w|];
  }

  /** A token cannot start at a copied 'i': the pieces after it would spell the rest of
      the token prefix. */
  lemma NoTokenAtLitI(ps: seq<Piece>, ds: set<string>, h: Helpers, t: string)
    requires ps != [] && ps[0] == Lit('i') && NoMarker(ps)
    requires |Marker| <= |t| && t[..|Marker|] == Marker
    ensures !PrefixAt(t, "i" + Flat(ps[1..], ds, h), 0)
  {
    var rest := Flat(ps[1..], ds, h);
    var w := Marker[1..];
    if |w| <= |rest| && rest[..|w|] == w {
      LitIStartsMarker(ps, ds, h);
    } else {
      if |t| <= |"i" + rest| {
        assert ("i" + rest)[..|t|][1..|Marker|] == rest[..|w|];
        assert t[1..|Marker|] == w;
      }
    }
  }

  /** A token cannot start inside an anchor: the anchor does not contain the token
      prefix, and its closing '>' is not a token character. */
  lemma NoTokenInAnchor(a: string, rest: string, t: string, j: nat)
    requires j < |a| && a[|a| - 1] == '>'
    requires forall i: nat :: !PrefixAt(Marker, a, i)
    requires |Marker| <= |t| && t[..|Marker|] == Marker
    requires forall m :: 0 <= m < |t| ==> !IsHtmlSpecial(t[m])
    ensures !PrefixAt(t, a + rest, j)
  {
    var s := a + rest;
    if j + |t| <= |s| {
      if j + |t| <= |a| {
        assert s[j..j + |t|] == a[j..j + |t|];
        assert a[j..j + |t|][..|Marker|] == a[j..j + |Marker|];
        assert !PrefixAt(Marker, a, j);
      } else {
        assert s[j..j + |t|][|a| - 1 - j] == a[|a| - 1];
        assert !IsHtmlSpecial(t[|a| - 1 - j]);
      }
    }
  }

  /** A token cannot start inside the token of another keyword. */
  lemma NoTokenInToken(p: string, rest: string, t: string, j: nat)
    requires j < |p| && |p| == |t| && p != t
    requires t[0] == 'i' && forall m :: 1 <= m < |p| ==> p[m] != 'i'
    ensures !PrefixAt(t, p + rest, j)
  {
    if j == 0 {
      if |t| <= |p + rest| {
        assert (p + rest)[..|t|] == p;
      }
    } else {
      NoTokenAtOther(p, rest, t, j);
    }
  }

  lemma TokenInjective(h: Helpers, k: string, k': string)
    requires Token(h, k) == Token(h, k')
    ensures h.sha1Hex(k) == h.sha1Hex(k')
  {
    assert Token(h, k)[|Marker|..] == h.sha1Hex(k);
    assert Token(h, k')[|Marker|..] == h.sha1Hex(k');
  }

  /** No occurrence of the token of `k` starts inside the text of the first piece, unless
      that piece is itself a match of `k` still waiting. */
  lemma NoTokenStartsIn(ps: seq<Piece>, ds: set<string>, k: string, pattern: Pattern, h: Helpers)
    requires DigestsSafe(pattern, h) && HitsIn(ps, pattern) && NoMarker(ps)
    requires k in pattern && ps != [] && ps[0] != Hit(k)
    ensures forall j: nat :: j < |PieceText(ps[0], ds, h)| ==>
              !PrefixAt(Token(h, k), PieceText(ps[0], ds, h) + Flat(ps[1..], ds, h), j)
  {
    var t := Token(h, k);
    TokenShape(h, k);
    var piece := PieceText(ps[0], ds, h);
    var rest := Flat(ps[1..], ds, h);
    forall j: nat | j < |piece| ensures !PrefixAt(t, piece + rest, j) {
      match ps[0]
      case Lit(c) =>
        if c == 'i' {
          NoTokenAtLitI(ps, ds, h, t);
        } else {
          NoTokenAtOther(piece, rest, t, j);
        }
      case Hit(k') =>
        assert k' in pattern;
        if k' in ds {
          NoTokenInAnchor(piece, rest, t, j);
        } else {
          TokenShape(h, k');
          if piece == t {
            TokenInjective(h, k', k);
          }
          NoTokenInToken(piece, rest, t, j);
        }
    }
  }

  lemma ReplaceAllCopies(s: string, pat: string, rep: string)
    requires pat != "" && s != [] && !PrefixAt(pat, s, 0)
    ensures ReplaceAll(s, pat, rep) == [s[0]] + ReplaceAll(s[1..], pat, rep)
  {
  }

  lemma NoStartShifts(a: string, b: string, pat: string)
    requires a != []
    requires forall j: nat :: j < |a| ==> !PrefixAt(pat, a + b, j)
    ensures (a + b)[1..] == a[1..] + b
    ensures forall j: nat :: j < |a[1..]| ==> !PrefixAt(pat, a[1..] + b, j)
  {
    var s := a + b;
    assert s[1..] == a[1..] + b;
    forall j: nat | j < |a[1..]| ensures !PrefixAt(pat, a[1..] + b, j) {
      PrefixShift(pat, s, j);
    }
  }

  /** Text in which no occurrence of the pattern starts is copied unchanged. */
  lemma {:induction false} ReplaceAllSkip(a: string, b: string, pat: string, rep: string)
    requires pat != ""
    requires forall j: nat :: j < |a| ==> !PrefixAt(pat, a + b, j)
    ensures ReplaceAll(a + b, pat, rep) == a + ReplaceAll(b, pat, rep)
    decreases |a|
  {
    if a == [] {
      assert a + b == b;
    } else {
      var s := a + b;
      ReplaceAllCopies(s, pat, rep);
      NoStartShifts(a, b, pat);
      ReplaceAllSkip(a[1..], b, pat, rep);
      calc {
        ReplaceAll(s, pat, rep);
        [s[0]] + ReplaceAll(s[1..], pat, rep);
        { assert s[0] == a[0]; }
        [a[0]] + ReplaceAll(a[1..] + b, pat, rep);
        [a[0]] + (a[1..] + ReplaceAll(b, pat, rep));
        { assert a == [a[0]] + a[1..]; }
        a + ReplaceAll(b, pat, rep);
      }
    }
  }

  lemma ReplaceAllAtHead(t: string, b: string, rep: string)
    requires t != ""
    ensures ReplaceAll(t + b, t, rep) == rep + ReplaceAll(b, t, rep)
  {
    assert (t + b)[0..|t|] == t;
    assert (t + b)[|t|..] == b;
  }

  /** Replacing the token of one more keyword turns exactly the waiting matches of that
      keyword into anchors. */
  lemma {:induction false} ReplaceOneKey(ps: seq<Piece>, ds: set<string>, k: string, pattern: Pattern, h: Helpers)
    requires DigestsSafe(pattern, h) && HitsIn(ps, pattern) && NoMarker(ps)
    requires k in pattern && k !in ds
    ensures ReplaceAll(Flat(ps, ds, h), Token(h, k), Anchor(h, k)) == Flat(ps, ds + {k}, h)
    decreases |ps|
  {
    if ps != [] {
      TokenShape(h, k);
      var t := Token(h, k);
      var piece := PieceText(ps[0], ds, h);
      var rest := Flat(ps[1..], ds, h);
      assert Flat(ps, ds, h) == piece + rest;
      NoMarkerTail(ps);
      ReplaceOneKey(ps[1..], ds, k, pattern, h);
      if ps[0] == Hit(k) {
        ReplaceAllAtHead(t, rest, Anchor(h, k));
      } else {
        NoTokenStartsIn(ps, ds, k, pattern, h);
        ReplaceAllSkip(piece, rest, t, Anchor(h, k));
      }
    }
  }

  /** The keywords of `keys`, as a set. */
  function KeySet(keys: seq<string>): (r: set<string>)
    ensures forall k :: k in r <==> k in keys
  {
    if keys == [] then {} else {keys[0]} + KeySet(keys[1..])
  }

  /** Replacing the tokens of distinct keywords one after another turns all their
      matches into anchors. */
  lemma {:induction false} ReplaceKeys(ps: seq<Piece>, ds: set<string>, keys: seq<string>, pattern: Pattern, h: Helpers)
    requires DigestsSafe(pattern, h) && HitsIn(ps, pattern) && NoMarker(ps)
    requires NoDuplicates(keys)
    requires forall k :: k in keys ==> k in pattern && k !in ds
    ensures ReplaceTokens(Flat(ps, ds, h), keys, h) == Flat(ps, ds + KeySet(keys), h)
    decreases |keys|
  {
    if keys == [] {
      assert ds + KeySet(keys) == ds;
    } else {
      var k0, more := keys[0], keys[1..];
      ReplaceOneKey(ps, ds, k0, pattern, h);
      NoDuplicatesTail(keys);
      ReplaceKeys(ps, ds + {k0}, more, pattern, h);
      assert ds + {k0} + KeySet(more) == ds + KeySet(keys);
    }
  }

  /** Once every matched keyword's token has been replaced, the text is the rendering. */
  lemma {:induction false} FlatAllAnchors(ps: seq<Piece>, ds: set<string>, h: Helpers)
    requires forall k :: Hit(k) in ps ==> k in ds
    ensures Flat(ps, ds, h) == Render(ps, h)
  {
    if ps != [] {
      assert forall q :: q in ps[1..] ==> q in ps;
      FlatAllAnchors(ps[1..], ds, h);
      match ps[0]
      case Lit(c) =>
      case Hit(k) => assert ps[0] in ps;
    }
  }

  /** Escaping leaves tokens alone, so the escaped token text is the text with no
      anchors yet. */
  lemma {:induction false} EscapeTokenized(ps: seq<Piece>, pattern: Pattern, h: Helpers)
    requires HitsIn(ps, pattern) && forall k :: k in pattern ==> IsHexDigest(h.sha1Hex(k))
    ensures EscapeHtml(Tokenized(ps, h)) == Flat(ps, {}, h)
  {
    if ps != [] {
      EscapeHtmlAppend(TokenText(ps[0], h), Tokenized(ps[1..], h));
      EscapeTokenized(ps[1..], pattern, h);
      match ps[0]
      case Lit(c) =>
        assert EscapeHtml([c]) == EscapeHtmlChar(c) + EscapeHtml([]);
      case Hit(k) =>
        TokenShape(h, k);
        EscapeHtmlPlain(Token(h, k));
    }
  }

  /** When nothing matches, the token text is the description and there are no keys. */
  lemma {:induction false} PlainWhenNothingMatches(ps: seq<Piece>, h: Helpers)
    requires forall p :: 0 <= p < |ps| ==> ps[p].Lit?
    ensures Tokenized(ps, h) == Unparse(ps) && DistinctHits(ps) == []
  {
    if ps != [] {
      PlainWhenNothingMatches(ps[1..], h);
    }
  }

  /** The token detour is exact: with digests that behave and a description free of the
      token prefix, replacing the tokens of the escaped text yields the intended
      rendering, every match linked and every other character escaped. */
  lemma TokensBecomeAnchors(content: string, pattern: Pattern, h: Helpers)
    requires TokensSafe(content, pattern, h)
    ensures ReplaceTokens(EscapeHtml(Tokenized(Scan(content, pattern), h)), DistinctHits(Scan(content, pattern)), h)
              == Render(Scan(content, pattern), h)
  {
    var ps := Scan(content, pattern);
    ScanFromHitsAreAlternatives(content, 0, pattern);
    assert HitsIn(ps, pattern);
    EscapeTokenized(ps, pattern, h);
    NoMarkerFromContent(content, pattern);
    var keys := DistinctHits(ps);
    ReplaceKeys(ps, {}, keys, pattern, h);
    FlatAllAnchors(ps, {} + KeySet(keys), h);
  }
}
