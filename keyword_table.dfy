/** The keyword pattern table of the glossary: for each keyword length, the bucket of
    keywords of that length, and the single alternation compiled from all buckets. */
module KeywordTable {
  import opened Wrappers
  import opened Collections
  import opened RubyHash
  import opened Matching

  /** One row of the entry table: the keyword and its keyword_length column. */
  datatype Entry = Entry(keyword: string, length: int)

  /** A bucket, as the literal alternatives of its pattern string in order. The string
      itself is `Regexp.escape` of each alternative joined by `|`; escaping makes every
      alternative literal, so this sequence is what the string means. The empty string ""
      is the bucket [""]: a single empty alternative. */
  type Bucket = seq<string>

  /** The Hash from keyword length to bucket, in insertion order. */
  type Table = Hash<int, Bucket>

  /** `v[l] = v[l] ? "#{v[l]}|#{k}" : k`: append `k` to the bucket for `len`, or start
      the bucket with `k`. A bucket holding "" is present (Ruby treats "" as true). */
  function AddKeyword(t: Table, k: string, len: int): (r: Table)
    ensures Get(r, len) == Some(match Get(t, len) case Some(b) => b + [k] case None => [k])
    ensures forall l :: l != len ==> Get(r, l) == Get(t, l)
    ensures Keys(r) == if len in Keys(t) then Keys(t) else Keys(t) + [len]
  {
    var b := match Get(t, len) case Some(b) => b + [k] case None => [k];
    PutSpec(t, len, b);
    Put(t, len, b)
  }

  /** Adding the same keyword twice adds it twice: buckets are not de-duplicated. */
  lemma AddTwiceDuplicates(t: Table, k: string, len: int)
    ensures Get(AddKeyword(AddKeyword(t, k, len), k, len), len) ==
      Some(match Get(t, len) case Some(b) => b + [k, k] case None => [k, k])
  {
    match Get(t, len)
    case Some(b) => assert b + [k] + [k] == b + [k, k];
    case None => assert [k] + [k] == [k, k];
  }

  /** The table built by folding AddKeyword over the rows in query order. */
  function Rebuild(es: seq<Entry>): (r: Table)
    ensures |r| <= |es|
    ensures r == [] <==> es == []
    decreases |es|
  {
    if es == [] then []
    else
      var e := es[|es| - 1];
      AddKeyword(Rebuild(es[..|es| - 1]), e.keyword, e.length)
  }

  /** Some row has keyword length `len`. */
  ghost predicate HasLength(es: seq<Entry>, len: int)
  {
    exists e :: e in es && e.length == len
  }

  /** `select keyword ... where keyword_length = ?`: the keywords of the rows of length
      `len`, in query order. */
  function KeywordsOfLength(es: seq<Entry>, len: int): (ks: seq<string>)
    ensures forall k :: k in ks <==> Entry(k, len) in es
    ensures ks == [] <==> !HasLength(es, len)
    decreases |es|
  {
    if es == [] then []
    else
      var init := KeywordsOfLength(es[..|es| - 1], len);
      assert es == es[..|es| - 1] + [es[|es| - 1]];
      var e := es[|es| - 1];
      if e.length == len then init + [e.keyword] else init
  }

  /** After a rebuild, the bucket for each length holds exactly the keywords of that
      length, in query order, and lengths no row has get no bucket. */
  lemma {:induction false} RebuildBuckets(es: seq<Entry>, len: int)
    ensures Get(Rebuild(es), len) ==
      if KeywordsOfLength(es, len) == [] then None else Some(KeywordsOfLength(es, len))
    decreases |es|
  {
    if es != [] {
      var init := es[..|es| - 1];
      var e := es[|es| - 1];
      RebuildBuckets(init, len);
      var before := KeywordsOfLength(init, len);
      assert Rebuild(es) == AddKeyword(Rebuild(init), e.keyword, e.length);
      if e.length == len {
        assert KeywordsOfLength(es, len) == before + [e.keyword];
        var r0 := Rebuild(init);
        var added := AddKeyword(r0, e.keyword, len);
        if before == [] {
          assert Get(r0, len) == None;
          assert Get(added, len) == Some([e.keyword]);
          assert before + [e.keyword] == [e.keyword];
        } else {
          assert Get(r0, len) == Some(before);
          assert Get(added, len) == Some(before + [e.keyword]);
        }
      } else {
        assert KeywordsOfLength(es, len) == before;
        assert Get(Rebuild(es), len) == Get(Rebuild(init), len);
      }
    }
  }

  /** The lengths of a rebuilt table appear once each. */
  lemma {:induction false} RebuildKeysDistinct(es: seq<Entry>)
    ensures NoDuplicates(Keys(Rebuild(es)))
    decreases |es|
  {
    if es != [] {
      RebuildKeysDistinct(es[..|es| - 1]);
      var e := es[|es| - 1];
      PutKeepsDistinct(Rebuild(es[..|es| - 1]), e.length,
        match Get(Rebuild(es[..|es| - 1]), e.length) case Some(b) => b + [e.keyword] case None => [e.keyword]);
    }
  }

  /** After a rebuild a keyword is in the bucket of a length exactly when a row pairs it
      with that length: in its own length's bucket, and in no other. */
  lemma RebuildPlacesEveryKeyword(es: seq<Entry>, k: string, len: int)
    ensures (Get(Rebuild(es), len).Some? && k in Get(Rebuild(es), len).value) <==> Entry(k, len) in es
  {
    RebuildBuckets(es, len);
  }

  /** `v[length] = keywords.map { ... }.join('|')` as written: with no surviving keyword
      the join is "", which is kept as the bucket [""]. */
  function ReplaceBucketAsWritten(t: Table, len: int, survivors: seq<string>): (r: Table)
    ensures Get(r, len) == Some(if survivors == [] then [""] else survivors)
    ensures forall l :: l != len ==> Get(r, l) == Get(t, l)
    ensures Keys(r) == if len in Keys(t) then Keys(t) else Keys(t) + [len]
  {
    var b := if survivors == [] then [""] else survivors;
    PutSpec(t, len, b);
    Put(t, len, b)
  }

  /** The same step with the empty bucket removed, as a rebuild would leave it. */
  function ReplaceBucket(t: Table, len: int, survivors: seq<string>): (r: Table)
    requires NoDuplicates(Keys(t))
    ensures NoDuplicates(Keys(r))
    ensures Get(r, len) == if survivors == [] then None else Some(survivors)
    ensures forall l :: l != len ==> Get(r, l) == Get(t, l)
  {
    if survivors == [] then DeleteSpec(t, len); Delete(t, len)
    else PutSpec(t, len, survivors); PutKeepsDistinct(t, len, survivors); Put(t, len, survivors)
  }

  function DigitChar(d: nat): char
    requires d < 10
  {
    "0123456789"[d]
  }

  function Digits(n: nat): (s: string)
    ensures |s| > 0
    decreases n
  {
    if n < 10 then [DigitChar(n)] else Digits(n / 10) + [DigitChar(n % 10)]
  }

  /** `Integer#to_s`. */
  function Decimal(n: int): (s: string)
    ensures |s| > 0
  {
    if n < 0 then "-" + Digits(-n) else Digits(n)
  }

  /** `[[len, bucket], ...].join("|")` flattens the pairs: every length's numeral becomes
      an alternative of its own, followed by the bucket's alternatives. */
  function FlattenPairs(t: Table): (r: Pattern)
    ensures |r| >= |t|
    ensures t != [] ==> r[0] == Decimal(t[0].0)
  {
    if t == [] then [] else [Decimal(t[0].0)] + t[0].1 + FlattenPairs(t[1..])
  }

  /** `v.to_a.reverse.join("|")` as written: the pairs in reverse insertion order,
      flattened; an empty table joins to "", a single empty alternative. Otherwise every
      length contributes an alternative of its own, and the first is the numeral of the
      length added last. */
  function CompileAsWritten(t: Table): (r: Pattern)
    ensures t == [] <==> r == [""]
    ensures |r| >= |t|
    ensures t != [] ==> r[0] == Decimal(t[|t| - 1].0)
  {
    if t == [] then [""]
    else
      ReversedAt(t);
      FlattenPairs(Reversed(t))
  }

  /** A length added last is compiled first, numeral and all. */
  lemma CompileAsWrittenNewestFirst(t: Table, len: int, b: Bucket)
    requires t != []
    ensures CompileAsWritten(t + [(len, b)]) == [Decimal(len)] + b + CompileAsWritten(t)
  {
    ReversedAppend(t, (len, b));
  }

  /** Adding a keyword of a new length appends the length to the table, so it comes first
      in the compiled pattern, numeral and all. (Adding to a present length keeps the
      table's order: the last ensures of AddKeyword.) */
  lemma AddNewLengthCompilesFirst(t: Table, k: string, len: int)
    requires len !in Keys(t)
    ensures CompileAsWritten(AddKeyword(t, k, len)) ==
      [Decimal(len), k] + (if t == [] then [] else CompileAsWritten(t))
  {
    AddNewLengthAppends(t, k, len);
    if t != [] {
      CompileAsWrittenNewestFirst(t, len, [k]);
      assert [Decimal(len)] + [k] + CompileAsWritten(t) == [Decimal(len), k] + CompileAsWritten(t);
    } else {
      SingletonCompilesAsWritten(len, k);
    }
  }

  /** A keyword of a new length goes into a new bucket at the end of the table. */
  lemma AddNewLengthAppends(t: Table, k: string, len: int)
    requires len !in Keys(t)
    ensures AddKeyword(t, k, len) == t + [(len, [k])]
  {
    assert Get(t, len) == None;
    PutNewKeyAppends(t, len, [k]);
  }

  lemma SingletonCompilesAsWritten(len: int, k: string)
    ensures CompileAsWritten([(len, [k])]) == [Decimal(len), k]
  {
    assert Reversed([(len, [k])]) == [(len, [k])];
    assert FlattenPairs([(len, [k])]) == [Decimal(len)] + [k] + FlattenPairs([]);
  }

  // The compile step as evidently intended: buckets longest length first, and only
  // keywords as alternatives.

  predicate KeysDescending(t: Table)
  {
    forall i, j :: 0 <= i < j < |t| ==> t[i].0 >= t[j].0
  }

  function InsertByLength(p: (int, Bucket), t: Table): (r: Table)
    requires KeysDescending(t)
    ensures KeysDescending(r)
    ensures multiset(r) == multiset(t) + multiset{p}
  {
    if t == [] then [p]
    else if p.0 >= t[0].0 then [p] + t
    else
      var rest := InsertByLength(p, t[1..]);
      assert t == [t[0]] + t[1..];
      HeadBoundsRest(p, t, rest);
      [t[0]] + rest
  }

  /** What is inserted behind the head of a descending table stays below the head. */
  lemma HeadBoundsRest(p: (int, Bucket), t: Table, rest: Table)
    requires t != [] && KeysDescending(t) && p.0 < t[0].0
    requires multiset(rest) == multiset(t[1..]) + multiset{p}
    ensures forall i :: 0 <= i < |rest| ==> rest[i].0 <= t[0].0
  {
    forall i | 0 <= i < |rest| ensures rest[i].0 <= t[0].0 {
      assert rest[i] in multiset(rest);
      if rest[i] != p {
        assert rest[i] in multiset(t[1..]);
        var j :| 0 <= j < |t[1..]| && t[1..][j] == rest[i];
        assert t[j + 1] == rest[i];
      }
    }
  }

  function SortByLength(t: Table): (r: Table)
    ensures KeysDescending(r)
    ensures multiset(r) == multiset(t)
  {
    if t == [] then []
    else
      assert t == [t[0]] + t[1..];
      InsertByLength(t[0], SortByLength(t[1..]))
  }

  function ConcatBuckets(t: Table): Pattern
  {
    if t == [] then [] else t[0].1 + ConcatBuckets(t[1..])
  }

  /** The compiled pattern as intended: all buckets, longest length first. An empty table
      compiles to no alternative at all, and every alternative is a keyword of the
      table. */
  function Compile(t: Table): (r: Pattern)
    ensures t == [] ==> r == []
    ensures forall k :: k in r ==> InTable(t, k)
  {
    SortedBucketsHoldKeywords(t);
    ConcatBuckets(SortByLength(t))
  }

  lemma SortedBucketsHoldKeywords(t: Table)
    ensures forall k :: k in ConcatBuckets(SortByLength(t)) ==> InTable(t, k)
  {
    var st := SortByLength(t);
    forall k | k in ConcatBuckets(st) ensures InTable(t, k) {
      ConcatBucketsMembers(st, k);
      var p :| p in st && k in p.1;
      assert p in multiset(st);
    }
  }

  /** Some bucket holds `k`. */
  ghost predicate InTable(t: Table, k: string)
  {
    exists p :: p in t && k in p.1
  }

  /** Every keyword in a bucket has the bucket's length. */
  ghost predicate WellFormed(t: Table)
  {
    forall p, k :: p in t && k in p.1 ==> |k| == p.0
  }

  lemma {:induction false} ConcatBucketsMembers(t: Table, k: string)
    ensures k in ConcatBuckets(t) <==> InTable(t, k)
  {
    if t != [] {
      ConcatBucketsMembers(t[1..], k);
      assert forall p :: p in t <==> p == t[0] || p in t[1..];
    }
  }

  /** The intended compiled pattern offers exactly the keywords of the table: no length
      numerals and nothing else. */
  lemma CompileAlternativesAreKeywords(t: Table, k: string)
    ensures k in Compile(t) <==> InTable(t, k)
  {
    var s := SortByLength(t);
    ConcatBucketsMembers(s, k);
    assert forall p :: p in s <==> p in multiset(s);
    assert forall p :: p in t <==> p in multiset(t);
  }

  lemma {:induction false} ConcatBucketsLongestFirst(t: Table)
    requires KeysDescending(t) && WellFormed(t)
    ensures LongestFirst(ConcatBuckets(t))
    ensures forall k :: k in ConcatBuckets(t) ==> t != [] && |k| <= t[0].0
  {
    if t != [] {
      var rest := ConcatBuckets(t[1..]);
      assert WellFormed(t[1..]) by {
        assert forall p :: p in t[1..] ==> p in t;
      }
      ConcatBucketsLongestFirst(t[1..]);
      assert forall k :: k in t[0].1 ==> |k| == t[0].0;
      assert forall k :: k in rest ==> |k| <= t[0].0;
      var all := t[0].1 + rest;
      forall i, j | 0 <= i < j < |all| ensures |all[i]| >= |all[j]| {
        if j < |t[0].1| {
          assert all[i] in t[0].1 && all[j] in t[0].1;
        } else if i < |t[0].1| {
          assert all[i] in t[0].1;
          assert all[j] == rest[j - |t[0].1|];
        } else {
          assert all[i] == rest[i - |t[0].1|] && all[j] == rest[j - |t[0].1|];
        }
      }
    }
  }

  lemma CompileLongestFirst(t: Table)
    requires WellFormed(t)
    ensures LongestFirst(Compile(t))
  {
    var st := SortByLength(t);
    assert WellFormed(st) by {
      assert forall p :: p in st ==> p in multiset(st);
      assert forall p :: p in multiset(t) ==> p in t;
    }
    ConcatBucketsLongestFirst(st);
  }

  /** The intended compiled pattern lists longer keywords before shorter ones, so at every
      position the match chosen is the longest keyword that matches there. */
  lemma CompiledPatternPrefersLongest(t: Table, s: string, i: nat, j: nat)
    requires WellFormed(t)
    requires j < |Compile(t)| && PrefixAt(Compile(t)[j], s, i)
    ensures FirstMatch(s, i, Compile(t)).Some?
    ensures |Compile(t)[j]| <= |Compile(t)[FirstMatch(s, i, Compile(t)).value]|
  {
    CompileLongestFirst(t);
    FirstMatchIsLongest(s, i, Compile(t), j);
  }

  // Agreement between the cached table and the entry table.

  /** The cached table agrees with the rows of the entry table: there is a bucket exactly
      for the lengths some row has, holding exactly the keywords of that length (order and
      repetitions aside). */
  ghost predicate Coherent(t: Table, es: seq<Entry>)
  {
    && NoDuplicates(Keys(t))
    && (forall len :: Get(t, len).Some? <==> HasLength(es, len))
    && (forall len, k :: Get(t, len).Some? ==> (k in Get(t, len).value <==> Entry(k, len) in es))
  }

  /** Every row's keyword_length column is its keyword's length. */
  ghost predicate LengthsAgree(es: seq<Entry>)
  {
    forall e :: e in es ==> e.length == |e.keyword|
  }

  /** A rebuild agrees with the rows it was built from. */
  lemma RebuildIsCoherent(es: seq<Entry>)
    ensures Coherent(Rebuild(es), es)
  {
    RebuildKeysDistinct(es);
    forall len ensures Get(Rebuild(es), len).Some? <==> HasLength(es, len) {
      RebuildBuckets(es, len);
    }
    forall len, k | Get(Rebuild(es), len).Some?
      ensures k in Get(Rebuild(es), len).value <==> Entry(k, len) in es
    {
      RebuildBuckets(es, len);
    }
  }

  /** Adding a keyword after its row was inserted keeps the table in agreement with the
      rows. */
  lemma AddKeepsCoherence(t: Table, es: seq<Entry>, k: string, len: int)
    requires Coherent(t, es)
    ensures Coherent(AddKeyword(t, k, len), es + [Entry(k, len)])
  {
    var es' := es + [Entry(k, len)];
    var r := AddKeyword(t, k, len);
    PutKeepsDistinct(t, len, match Get(t, len) case Some(b) => b + [k] case None => [k]);
    forall l ensures Get(r, l).Some? <==> HasLength(es', l) {
      if l == len {
        assert Entry(k, len) in es';
      } else {
        assert HasLength(es', l) <==> HasLength(es, l) by {
          assert forall e :: e in es' <==> e in es || e == Entry(k, len);
        }
      }
    }
    forall l, k' | Get(r, l).Some? ensures k' in Get(r, l).value <==> Entry(k', l) in es' {
      assert Entry(k', l) in es' <==> Entry(k', l) in es || Entry(k', l) == Entry(k, len);
    }
  }

  /** Re-deriving the bucket of the deleted keyword's length from the remaining rows, with
      an empty bucket removed, keeps the table in agreement with the rows, when the rows
      changed only at that length. */
  lemma DeleteKeepsCoherence(t: Table, es: seq<Entry>, after: seq<Entry>, len: int)
    requires Coherent(t, es)
    requires forall l, k :: l != len ==> (Entry(k, l) in after <==> Entry(k, l) in es)
    ensures Coherent(ReplaceBucket(t, len, KeywordsOfLength(after, len)), after)
  {
    var survivors := KeywordsOfLength(after, len);
    var r := ReplaceBucket(t, len, survivors);
    forall l ensures Get(r, l).Some? <==> HasLength(after, l) {
      if l != len {
        if HasLength(after, l) {
          var e :| e in after && e.length == l;
          assert Entry(e.keyword, l) in es;
        }
        if HasLength(es, l) {
          var e :| e in es && e.length == l;
          assert Entry(e.keyword, l) in after;
        }
      }
    }
  }

  /** Agreement depends only on which rows exist, not on their order or repetition. */
  lemma SameRowsCoherent(t: Table, es: seq<Entry>, es': seq<Entry>)
    requires Coherent(t, es)
    requires forall e :: e in es <==> e in es'
    ensures Coherent(t, es')
  {
    forall len ensures HasLength(es, len) <==> HasLength(es', len) {
      if HasLength(es, len) {
        var e :| e in es && e.length == len;
        assert e in es';
      }
      if HasLength(es', len) {
        var e :| e in es' && e.length == len;
        assert e in es;
      }
    }
  }

  /** When the rows' lengths agree with their keywords, every bucket holds keywords of its
      own length. */
  lemma CoherentIsWellFormed(t: Table, es: seq<Entry>)
    requires Coherent(t, es) && LengthsAgree(es)
    ensures WellFormed(t)
  {
    forall p, k | p in t && k in p.1 ensures |k| == p.0 {
      var i :| 0 <= i < |t| && t[i] == p;
      GetAt(t, i);
      assert Entry(k, p.0) in es;
    }
  }

  /** A table that agrees with the rows links every keyword: a keyword standing alone is
      matched whole by the compiled pattern. */
  lemma CoherentTableLinksEveryKeyword(t: Table, es: seq<Entry>, e: Entry)
    requires Coherent(t, es) && LengthsAgree(es)
    requires e in es && e.keyword != ""
    ensures |Scan(e.keyword, Compile(t))| > 0 && Scan(e.keyword, Compile(t))[0] == Hit(e.keyword)
  {
    CoherentIsWellFormed(t, es);
    CompileLongestFirst(t);
    assert HasLength(es, e.length);
    var b := Get(t, e.length).value;
    GetSomeIn(t, e.length, b);
    CompileAlternativesAreKeywords(t, e.keyword);
    StandaloneKeywordMatches(e.keyword, Compile(t));
  }

  /** Every bucket of a table that agrees with the rows stands for some row. */
  lemma CoherentKeysHaveRows(t: Table, es: seq<Entry>)
    requires Coherent(t, es)
    ensures forall i :: 0 <= i < |t| ==> HasLength(es, t[i].0)
  {
    forall i | 0 <= i < |t| ensures HasLength(es, t[i].0) {
      assert Keys(t)[i] == t[i].0;
    }
  }

  /** With no rows, the compiled pattern matches nothing. */
  lemma EmptyTableMatchesNothing(t: Table, s: string)
    requires Coherent(t, [])
    ensures forall p :: 0 <= p < |Scan(s, Compile(t))| ==> Scan(s, Compile(t))[p].Lit?
  {
    CoherentKeysHaveRows(t, []);
    assert t == [];
    assert Compile(t) == [];
    ScanFromEmptyPattern(s, 0);
  }

  // The source's compile and delete steps, shown on small tables.

  /** Buckets compile in reverse insertion order: with "golang" registered before "go",
      the text "golang" is linked as "go". */
  lemma CompileOrderCounterexample()
    ensures CompileAsWritten(AddKeyword(AddKeyword([], "golang", 6), "go", 2)) == ["2", "go", "6", "golang"]
    ensures Scan("golang", ["2", "go", "6", "golang"])[0] == Hit("go")
  {
    assert AddKeyword([], "golang", 6) == [(6, ["golang"])];
    assert AddKeyword([(6, ["golang"])], "go", 2) == [(6, ["golang"]), (2, ["go"])];
    assert Reversed([(6, ["golang"]), (2, ["go"])]) == [(2, ["go"]), (6, ["golang"])];
    assert Decimal(2) == "2" && Decimal(6) == "6";
    assert "golang"[0..1][0] == 'g';
    assert PrefixAt("go", "golang", 0) && !PrefixAt("2", "golang", 0);
  }

  /** Length numerals are alternatives: with only "go" registered, the text "2" is
      linked. */
  lemma CompileNumeralCounterexample()
    ensures CompileAsWritten(AddKeyword([], "go", 2)) == ["2", "go"]
    ensures Scan("2", ["2", "go"]) == [Hit("2")]
  {
    SingletonCompilesAsWritten(2, "go");
    assert Decimal(2) == "2";
    assert PrefixAt("2", "2", 0);
    assert ScanFrom("2", 1, ["2", "go"]) == [];
  }

  /** Deleting the last keyword of a length leaves the bucket [""] behind: the table no
      longer agrees with the rows (which are then empty), though it did before. */
  lemma EmptyBucketCounterexample()
    ensures Coherent([(3, ["cat"])], [Entry("cat", 3)])
    ensures ReplaceBucketAsWritten([(3, ["cat"])], 3, KeywordsOfLength([], 3)) == [(3, [""])]
    ensures !Coherent([(3, [""])], [])
  {
    var t: Table := [(3, ["cat"])];
    assert Keys(t) == [3];
    forall len ensures Get(t, len).Some? <==> HasLength([Entry("cat", 3)], len) {
      if len == 3 { assert Entry("cat", 3) in [Entry("cat", 3)]; }
    }
    assert Get([(3, [""])], 3).Some?;
  }

  /** The left-over bucket [""] compiles to an empty alternative, which matches at every
      position of the text. */
  lemma EmptyBucketMatchesEverywhere()
    ensures CompileAsWritten([(3, [""])]) == ["3", ""]
    ensures Scan("a", ["3", ""]) == [Hit(""), Lit('a'), Hit("")]
  {
    assert Reversed([(3, [""])]) == [(3, [""])];
    assert Decimal(3) == "3";
    assert "a"[0..1][0] == 'a';
    assert PrefixAt("", "a", 0) && !PrefixAt("3", "a", 0);
    assert PrefixAt("", "a", 1) && !PrefixAt("3", "a", 1);
  }

  /** With no keywords at all the compiled pattern is "", whose empty alternative matches
      at every position. */
  lemma EmptyTableCounterexample()
    ensures CompileAsWritten([]) == [""]
    ensures Scan("a", [""]) == [Hit(""), Lit('a'), Hit("")]
  {
    assert PrefixAt("", "a", 0) && PrefixAt("", "a", 1);
  }
}
