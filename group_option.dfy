/** The `--group GROUP_EXPR` option of the access-log report: each value names a verb and a
    route pattern, and the patterns are collected per verb in the order the options were
    given. A route pattern stands for itself by its source text. */
module GroupOption {
  import opened Wrappers

  /** A route pattern, by its source text (what `Mustermann#to_s` gives back). */
  type RoutePattern = string

  /** `options[:group]`: each verb's route patterns, in option order. */
  type Groups = map<string, seq<RoutePattern>>

  datatype ParseError = BlankGroupExpr   // a value with no word in it names no route pattern

  /** The characters `String#split(' ')` splits on. */
  predicate IsSpace(c: char)
  {
    c == ' ' || '\t' <= c <= '\r'
  }

  /** The word at the start of `s`: its leading run of non-blank characters. */
  function WordAt(s: string): (w: string)
    ensures |w| <= |s| && w == s[..|w|]
    ensures forall m :: 0 <= m < |w| ==> !IsSpace(w[m])
    ensures |w| < |s| ==> IsSpace(s[|w|])
    ensures s != [] && !IsSpace(s[0]) ==> |w| > 0
  {
    if s == [] || IsSpace(s[0]) then [] else [s[0]] + WordAt(s[1..])
  }

  /** `s.split(' ')`: the maximal runs of non-blank characters, left to right. */
  function Words(s: string): (ws: seq<string>)
    ensures |ws| <= |s|
    decreases |s|
  {
    if s == [] then []
    else if IsSpace(s[0]) then Words(s[1..])
    else
      var w := WordAt(s);
      [w] + Words(s[|w|..])
  }

  /** `s` with its blanks dropped. */
  function NonBlank(s: string): string
  {
    if s == [] then [] else (if IsSpace(s[0]) then [] else [s[0]]) + NonBlank(s[1..])
  }

  function Concat(ws: seq<string>): string
  {
    if ws == [] then [] else ws[0] + Concat(ws[1..])
  }

  lemma {:induction false} NonBlankAppend(a: string, b: string)
    ensures NonBlank(a + b) == NonBlank(a) + NonBlank(b)
  {
    if a == [] {
      assert a + b == b;
    } else {
      assert (a + b)[1..] == a[1..] + b;
      NonBlankAppend(a[1..], b);
    }
  }

  lemma {:induction false} NonBlankOfWord(w: string)
    requires forall m :: 0 <= m < |w| ==> !IsSpace(w[m])
    ensures NonBlank(w) == w
  {
    if w != [] {
      NonBlankOfWord(w[1..]);
    }
  }

  /** The words are non-empty and blank-free, and together they are the text without its
      blanks: splitting loses nothing but the blanks. */
  lemma {:induction false} WordsSpec(s: string)
    ensures forall i :: 0 <= i < |Words(s)| ==> Words(s)[i] != ""
    ensures forall i, m :: 0 <= i < |Words(s)| && 0 <= m < |Words(s)[i]| ==> !IsSpace(Words(s)[i][m])
    ensures Concat(Words(s)) == NonBlank(s)
    decreases |s|
  {
    if s != [] {
      if IsSpace(s[0]) {
        WordsSpec(s[1..]);
      } else {
        var w := WordAt(s);
        var rest := s[|w|..];
        WordsSpec(rest);
        assert Words(s) == [w] + Words(rest);
        assert Words(s)[1..] == Words(rest);
        assert s == w + rest;
        NonBlankAppend(w, rest);
        NonBlankOfWord(w);
      }
    }
  }

  /** A text with no non-blank character has no words. */
  lemma {:induction false} NoWordsWhenBlank(s: string)
    ensures Words(s) == [] <==> NonBlank(s) == []
    decreases |s|
  {
    WordsSpec(s);
    if Words(s) != [] {
      assert Concat(Words(s)) == Words(s)[0] + Concat(Words(s)[1..]);
    }
  }

  /** One `--group` value: "VERB PATH", or a lone "PATH" for verb GET; words after the
      second are ignored. */
  function ParseGroupExpr(v: string): (r: Result<(string, RoutePattern), ParseError>)
    ensures r.Failure? <==> Words(v) == []
    ensures r.Success? ==> r.value.1 in Words(v) && (r.value.0 in Words(v) || r.value.0 == "GET")
  {
    var ws := Words(v);
    if |ws| >= 2 then Success((ws[0], ws[1]))
    else if |ws| == 1 then Success(("GET", ws[0]))
    else Failure(BlankGroupExpr)
  }

  /** A value parses exactly when it has a non-blank character; verb and route pattern are
      then blank-free words; a lone word is the route pattern for GET, and otherwise verb
      and route pattern are the first two words. */
  lemma ParseGroupExprSpec(v: string)
    ensures ParseGroupExpr(v).Success? <==> NonBlank(v) != []
    ensures var r := ParseGroupExpr(v); r.Success? ==>
      && r.value.0 != "" && (forall m :: 0 <= m < |r.value.0| ==> !IsSpace(r.value.0[m]))
      && r.value.1 != "" && (forall m :: 0 <= m < |r.value.1| ==> !IsSpace(r.value.1[m]))
    ensures |Words(v)| == 1 ==> ParseGroupExpr(v) == Success(("GET", NonBlank(v)))
    ensures |Words(v)| > 1 ==> ParseGroupExpr(v) == Success((Words(v)[0], Words(v)[1]))
  {
    var ws := Words(v);
    WordsSpec(v);
    NoWordsWhenBlank(v);
    if |ws| == 1 {
      assert Concat(ws) == ws[0] + Concat(ws[1..]) && ws[1..] == [];
      assert Concat(ws) == ws[0];
    }
  }

  /** A blank-free word followed by a blank or by nothing is the first word. */
  lemma {:induction false} WordsOfWord(w: string, rest: string)
    requires w != [] && forall m :: 0 <= m < |w| ==> !IsSpace(w[m])
    requires rest == [] || IsSpace(rest[0])
    ensures Words(w + rest) == [w] + Words(rest)
  {
    WordAtOfWord(w, rest);
    assert (w + rest)[|w|..] == rest;
  }

  lemma {:induction false} WordAtOfWord(w: string, rest: string)
    requires forall m :: 0 <= m < |w| ==> !IsSpace(w[m])
    requires rest == [] || IsSpace(rest[0])
    ensures WordAt(w + rest) == w
  {
    if w == [] {
      assert w + rest == rest;
    } else {
      assert (w + rest)[1..] == w[1..] + rest;
      WordAtOfWord(w[1..], rest);
    }
  }

  /** "VERB PATH" gives that verb and route pattern. */
  lemma ParseVerbAndPattern(verb: string, path: string)
    requires verb != [] && forall m :: 0 <= m < |verb| ==> !IsSpace(verb[m])
    requires path != [] && forall m :: 0 <= m < |path| ==> !IsSpace(path[m])
    ensures ParseGroupExpr(verb + " " + path) == Success((verb, path))
  {
    WordsOfWord(path, "");
    assert path + "" == path;
    assert Words([' '] + path) == Words(path);
    WordsOfWord(verb, [' '] + path);
    assert verb + " " + path == verb + ([' '] + path);
  }

  /** A lone "PATH" gives that route pattern for GET. */
  lemma ParseLonePattern(path: string)
    requires path != [] && forall m :: 0 <= m < |path| ==> !IsSpace(path[m])
    ensures ParseGroupExpr(path) == Success(("GET", path))
  {
    WordsOfWord(path, "");
    assert path + "" == path;
  }

  lemma ParseExamples()
    ensures ParseGroupExpr("POST /keyword/:id") == Success(("POST", "/keyword/:id"))
    ensures ParseGroupExpr("/stars") == Success(("GET", "/stars"))
  {
    ParseVerbAndPattern("POST", "/keyword/:id");
    assert "POST" + " " + "/keyword/:id" == "POST /keyword/:id";
    ParseLonePattern("/stars");
  }

  /** A value of blanks names no route pattern. */
  lemma ParseBlankExample()
    ensures ParseGroupExpr(" \t") == Failure(BlankGroupExpr)
  {
    assert Words(" \t") == Words("\t") == Words("") == [];
  }

  /** `options[:group]` after the `--group` values, in order: each route pattern appended to
      its verb's list; the first value naming no route pattern stops the parse. */
  function GroupsOf(values: seq<string>): (r: Result<Groups, ParseError>)
    ensures r.Success? ==> forall verb :: verb in r.value ==> r.value[verb] != []
    decreases |values|
  {
    if values == [] then Success(map[])
    else
      match GroupsOf(values[..|values| - 1])
      case Failure(e) => Failure(e)
      case Success(g) =>
        match ParseGroupExpr(values[|values| - 1])
        case Failure(e) => Failure(e)
        case Success(vp) =>
          Success(g[vp.0 := (if vp.0 in g then g[vp.0] else []) + [vp.1]])
  }

  /** The route patterns the values give `verb`, in option order. */
  function PathsFor(values: seq<string>, verb: string): seq<RoutePattern>
    decreases |values|
  {
    if values == [] then []
    else
      PathsFor(values[..|values| - 1], verb) +
      match ParseGroupExpr(values[|values| - 1])
      case Success(vp) => if vp.0 == verb then [vp.1] else []
      case Failure(_) => []
  }

  /** The parse succeeds exactly when every value names a route pattern, and then each
      verb that some value names holds exactly its route patterns, in option order. */
  lemma {:induction false} GroupsOfPerVerb(values: seq<string>)
    ensures GroupsOf(values).Success? <==> forall i :: 0 <= i < |values| ==> ParseGroupExpr(values[i]).Success?
    ensures GroupsOf(values).Success? ==> forall verb ::
      (verb in GroupsOf(values).value <==> PathsFor(values, verb) != []) &&
      (verb in GroupsOf(values).value ==> GroupsOf(values).value[verb] == PathsFor(values, verb))
    decreases |values|
  {
    if values != [] {
      var init := values[..|values| - 1];
      GroupsOfPerVerb(init);
      assert forall i :: 0 <= i < |init| ==> init[i] == values[i];
    }
  }

  /** The `--group` handler of `parse`, run for each value in option order. */
  method ParseGroups(values: seq<string>) returns (r: Result<Groups, ParseError>)
    ensures r == GroupsOf(values)
  {
    var groups: Groups := map[];
    var i := 0;
    while i < |values|
      invariant 0 <= i <= |values|
      invariant GroupsOf(values[..i]) == Success(groups)
    {
      assert values[..i + 1][..i] == values[..i];
      var parsed := ParseGroupExpr(values[i]);
      if parsed.Failure? {
        FailureSticks(values, i + 1);
        return Failure(parsed.error);
      }
      var (verb, path) := parsed.value;
      var registered := if verb in groups then groups[verb] else [];
      groups := groups[verb := registered + [path]];
      i := i + 1;
    }
    assert values[..|values|] == values;
    r := Success(groups);
  }

  /** Once a value fails to parse, so does every longer run of values. */
  lemma {:induction false} FailureSticks(values: seq<string>, n: nat)
    requires 0 < n <= |values| && GroupsOf(values[..n]).Failure?
    ensures GroupsOf(values).Failure? && GroupsOf(values).error == GroupsOf(values[..n]).error
    decreases |values| - n
  {
    if n < |values| {
      assert values[..n + 1][..n] == values[..n];
      FailureSticks(values, n + 1);
    } else {
      assert values[..n] == values;
    }
  }
}
