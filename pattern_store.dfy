/** The keyword pattern cache: the Redis key "keyword_pattern", read through `cached`,
    rebuilt from the entry table, and patched when a keyword is registered or deleted.

    The rows of the entry table at the moment of a call are a parameter (`entries`); the
    rows a query of one length returns are `KeywordsOfLength(entries, length)`. */
module PatternStore {
  import opened Wrappers
  import opened Collections
  import opened RubyHash
  import opened Matching
  import opened KeywordTable

  /** What the key can hold: a keyword table, or a status reply stored in its place. */
  datatype Value = TableValue(table: Table) | StatusValue(status: string)

  /** Why an operation fails instead of returning a table. */
  datatype Error =
    | ArgumentError   // a method was called with an argument it does not accept
    | NotATable       // the key holds a status string, not a keyword table
    | IndexError      // a string was assigned at an index outside it

  /** The reply of a Redis SET. */
  const SetReply: string := "OK"

  /** The value a cache read returns, given what the key held and what the block that
      fills it returns. */
  function CachedRead(slot: Option<Value>, filled: Value): (v: Value)
    ensures slot.Some? ==> v == slot.value
    ensures slot.None? ==> v == filled
  {
    match slot
    case Some(held) => held
    case None => filled
  }

  /** Once a read has filled the key, a later read returns the same value, whatever its
      block would compute. */
  lemma CachedReadIsStable(slot: Option<Value>, filled: Value, later: Value)
    ensures CachedRead(Some(CachedRead(slot, filled)), later) == CachedRead(slot, filled)
  {
  }

  /** How Ruby binds the arguments of a call to `get_keyword_pattern(reset: false)`: the
      method declares no positional parameter, so a call passing one raises
      ArgumentError; otherwise `reset` is the keyword argument given, false by default. */
  function BindGetKeywordPattern(positional: seq<bool>, reset: Option<bool>): (r: Result<bool, Error>)
    ensures r.Success? <==> positional == []
    ensures r.Failure? ==> r.error == ArgumentError
    ensures r.Success? ==> (r.value <==> reset == Some(true))
  {
    if positional != [] then Failure(ArgumentError)
    else match reset
      case Some(b) => Success(b)
      case None => Success(false)
  }

  /** `keywords.map { ... }.join('|')` as text, each keyword standing for its escaped
      form. */
  function JoinBar(ks: seq<string>): string
  {
    if ks == [] then ""
    else if |ks| == 1 then ks[0]
    else ks[0] + "|" + JoinBar(ks[1..])
  }

  /** `s[index] = x` on a String: the character at `index`, counted from the end when
      negative, is replaced by `x`; at an index equal to the length `x` is appended; any
      other index raises IndexError. */
  function SpliceAt(s: string, index: int, x: string): (r: Result<string, Error>)
    ensures r.Success? <==> -|s| <= index <= |s|
    ensures r.Failure? ==> r.error == IndexError
    ensures r.Success? ==>
      var at := if index < 0 then index + |s| else index;
      var resume := if at < |s| then at + 1 else at;
      && |r.value| == at + |x| + |s| - resume
      && r.value[..at] == s[..at]
      && r.value[at..at + |x|] == x
      && r.value[at + |x|..] == s[resume..]
  {
    if index < -|s| || index > |s| then Failure(IndexError)
    else
      var at := if index < 0 then index + |s| else index;
      var resume := if at < |s| then at + 1 else at;
      var t := s[..at] + x + s[resume..];
      assert t[..at] == s[..at] && t[at..at + |x|] == x && t[at + |x|..] == s[resume..];
      Success(t)
  }

  /** The rest of `build_keyword_pattern` as written, on what `get_keyword_pattern`
      returned or raised: the table's pairs, newest first, flattened. */
  function FlattenRead(got: Result<Value, Error>): Result<Pattern, Error>
  {
    match got
    case Failure(e) => Failure(e)
    case Success(v) =>
      match v
      case StatusValue(_) => Failure(NotATable)
      case TableValue(t) => Success(CompileAsWritten(t))
  }

  /** `init_keyword_pattern`'s loop over the rows: the table the rows fold into. */
  method BuildFromRows(entries: seq<Entry>) returns (t: Table)
    ensures t == Rebuild(entries)
    ensures NoDuplicates(Keys(t))
  {
    t := [];
    var i := 0;
    while i < |entries|
      invariant 0 <= i <= |entries|
      invariant t == Rebuild(entries[..i])
    {
      assert entries[..i + 1][..i] == entries[..i];
      t := AddKeyword(t, entries[i].keyword, entries[i].length);
      i := i + 1;
    }
    assert entries[..|entries|] == entries;
    RebuildKeysDistinct(entries);
  }

  /** The one Redis key "keyword_pattern". */
  class KeywordPatternStore {
    var slot: Option<Value>

    /** A table stored in the key has one bucket per length. */
    ghost predicate Valid()
      reads this
    {
      slot.Some? && slot.value.TableValue? ==> NoDuplicates(Keys(slot.value.table))
    }

    /** An empty key. */
    constructor ()
      ensures slot == None && Valid()
    {
      slot := None;
    }

    /** `redis.set`: overwrite the key and reply "OK". */
    method Set(v: Value) returns (reply: string)
      requires v.TableValue? ==> NoDuplicates(Keys(v.table))
      modifies this
      ensures slot == Some(v) && Valid()
      ensures reply == SetReply
    {
      slot := Some(v);
      reply := SetReply;
    }

    /** `init_keyword_pattern` as written: store the rebuilt table and return the reply of
        the SET that stored it. */
    method InitKeywordPatternAsWritten(entries: seq<Entry>) returns (reply: string)
      modifies this
      ensures slot == Some(TableValue(Rebuild(entries))) && Valid()
      ensures reply == SetReply
    {
      var t := BuildFromRows(entries);
      reply := Set(TableValue(t));
    }

    /** `init_keyword_pattern` returning the table it stored, which is what its callers
        expect of it. */
    method InitKeywordPattern(entries: seq<Entry>) returns (t: Table)
      modifies this
      ensures t == Rebuild(entries) && Coherent(t, entries)
      ensures slot == Some(TableValue(t)) && Valid()
    {
      t := BuildFromRows(entries);
      var _ := Set(TableValue(t));
      RebuildIsCoherent(entries);
    }

    /** `get_keyword_pattern` as written, through `cached`: on an empty key the block
        stores the table and returns "OK", and `cached` then stores that "OK" over the
        table and returns it. */
    method GetKeywordPatternAsWritten(entries: seq<Entry>) returns (v: Value)
      requires Valid()
      modifies this
      ensures old(slot).Some? ==> v == old(slot).value && slot == old(slot)
      ensures old(slot).None? ==> v == StatusValue(SetReply) && slot == Some(v)
      ensures Valid()
    {
      if slot.Some? {
        v := slot.value;
      } else {
        var reply := InitKeywordPatternAsWritten(entries);
        v := StatusValue(reply);
        var _ := Set(v);
      }
    }

    /** A call of `get_keyword_pattern` passing `positional` and `reset`: the arguments are
        bound first, so a call that cannot bind raises before the key is read. */
    method CallGetKeywordPattern(positional: seq<bool>, reset: Option<bool>, entries: seq<Entry>)
      returns (r: Result<Value, Error>)
      requires Valid()
      modifies this
      ensures positional != [] ==> r == Failure(ArgumentError) && slot == old(slot)
      ensures positional == [] ==>
        r == Success(CachedRead(old(slot), StatusValue(SetReply))) && slot == Some(r.value)
      ensures Valid()
    {
      var bound := BindGetKeywordPattern(positional, reset);
      if bound.Failure? {
        r := Failure(bound.error);
      } else {
        var v := GetKeywordPatternAsWritten(entries);
        r := Success(v);
      }
    }

    /** `get_keyword_pattern` as intended: on an empty key store the rebuilt table and
        return it; otherwise return what the key holds, however the rows changed since. */
    method GetKeywordPattern(entries: seq<Entry>) returns (v: Value)
      requires Valid()
      modifies this
      ensures v == CachedRead(old(slot), TableValue(Rebuild(entries)))
      ensures slot == Some(v) && Valid()
    {
      if slot.Some? {
        v := slot.value;
      } else {
        var t := InitKeywordPattern(entries);
        v := TableValue(t);
      }
    }

    /** The rest of `reset_and_get` on what `get_keyword_pattern` returned or raised:
        append the keyword to the bucket of its length, store and return the table. */
    method AppendAndStore(got: Result<Value, Error>, key: string, length: int) returns (r: Result<Table, Error>)
      requires Valid()
      requires got.Success? && got.value.TableValue? ==> NoDuplicates(Keys(got.value.table))
      modifies this
      ensures got.Failure? ==> r == Failure(got.error) && slot == old(slot)
      ensures got.Success? && got.value.StatusValue? ==> r == Failure(NotATable) && slot == old(slot)
      ensures got.Success? && got.value.TableValue? ==>
        r == Success(AddKeyword(got.value.table, key, length)) && slot == Some(TableValue(r.value))
      ensures Valid()
    {
      if got.Failure? {
        r := Failure(got.error);
      } else if got.value.StatusValue? {
        r := Failure(NotATable);
      } else {
        var v := got.value.table;
        var t := AddKeyword(v, key, length);
        PutKeepsDistinct(v, length, match Get(v, length) case Some(b) => b + [key] case None => [key]);
        var _ := Set(TableValue(t));
        r := Success(t);
      }
    }

    /** `reset_and_get` as written: `get_keyword_pattern(false)` passes `false`
        positionally, the binding of the call raises, and nothing is read or stored. */
    method ResetAndGetAsWritten(entries: seq<Entry>, key: string, length: int) returns (r: Result<Table, Error>)
      requires Valid()
      modifies this
      ensures r == Failure(ArgumentError) && slot == old(slot) && Valid()
    {
      var got := CallGetKeywordPattern([false], None, entries);
      r := AppendAndStore(got, key, length);
    }

    /** `reset_and_get` as intended: read the table through the cache, append the
        registered keyword to the bucket of its length, store and return the table. The
        rows already include the new keyword, so a cold read followed by the append lists
        it twice. */
    method ResetAndGet(entries: seq<Entry>, key: string, length: int) returns (r: Result<Table, Error>)
      requires Valid()
      modifies this
      ensures CachedRead(old(slot), TableValue(Rebuild(entries))).TableValue? ==>
        r == Success(AddKeyword(CachedRead(old(slot), TableValue(Rebuild(entries))).table, key, length))
        && slot == Some(TableValue(r.value))
      ensures old(slot).Some? && old(slot).value.StatusValue? ==>
        r == Failure(NotATable) && slot == old(slot)
      ensures Valid()
    {
      var v := GetKeywordPattern(entries);
      r := AppendAndStore(Success(v), key, length);
    }

    /** `delete_and_reset` as written: read through the as-written cache and assign the
        surviving keywords of the deleted keyword's length at that length. On a table the
        bucket becomes the survivors, or "" when none survive; on a status string, such
        as the "OK" a cold read returns, the assignment splices their text into the
        string, or raises when the length is outside it. */
    method DeleteAndResetAsWritten(entries: seq<Entry>, length: int) returns (r: Result<Value, Error>)
      requires Valid()
      modifies this
      ensures var v := CachedRead(old(slot), StatusValue(SetReply));
        v.TableValue? ==>
          r == Success(TableValue(ReplaceBucketAsWritten(v.table, length, KeywordsOfLength(entries, length))))
          && slot == Some(r.value)
      ensures var v := CachedRead(old(slot), StatusValue(SetReply));
        v.StatusValue? ==>
          var spliced := SpliceAt(v.status, length, JoinBar(KeywordsOfLength(entries, length)));
          && (spliced.Success? ==> r == Success(StatusValue(spliced.value)) && slot == Some(r.value))
          && (spliced.Failure? ==> r == Failure(IndexError) && slot == Some(v))
      ensures Valid()
    {
      var v := GetKeywordPatternAsWritten(entries);
      var survivors := KeywordsOfLength(entries, length);
      if v.StatusValue? {
        var spliced := SpliceAt(v.status, length, JoinBar(survivors));
        if spliced.Success? {
          r := Success(StatusValue(spliced.value));
          var _ := Set(r.value);
        } else {
          r := Failure(spliced.error);
        }
      } else {
        var t := ReplaceBucketAsWritten(v.table, length, survivors);
        PutKeepsDistinct(v.table, length, if survivors == [] then [""] else survivors);
        r := Success(TableValue(t));
        var _ := Set(r.value);
      }
    }

    /** `delete_and_reset` as intended: read the table through the cache, and replace the
        bucket of the deleted keyword's length by the surviving keywords of that length,
        dropping the bucket when none survive. */
    method DeleteAndReset(entries: seq<Entry>, length: int) returns (r: Result<Table, Error>)
      requires Valid()
      modifies this
      ensures CachedRead(old(slot), TableValue(Rebuild(entries))).TableValue? ==>
        var t := CachedRead(old(slot), TableValue(Rebuild(entries))).table;
        NoDuplicates(Keys(t)) &&
        r == Success(ReplaceBucket(t, length, KeywordsOfLength(entries, length)))
        && slot == Some(TableValue(r.value))
      ensures old(slot).Some? && old(slot).value.StatusValue? ==>
        r == Failure(NotATable) && slot == old(slot)
      ensures Valid()
    {
      var v := GetKeywordPattern(entries);
      if v.StatusValue? {
        r := Failure(NotATable);
      } else {
        var t := ReplaceBucket(v.table, length, KeywordsOfLength(entries, length));
        var _ := Set(TableValue(t));
        r := Success(t);
      }
    }

    /** `build_keyword_pattern(reset: reset)` as written: `get_keyword_pattern(reset)`
        passes `reset` positionally, the binding of the call raises, and nothing is read,
        stored or compiled. */
    method BuildKeywordPatternAsWritten(entries: seq<Entry>, reset: bool) returns (r: Result<Pattern, Error>)
      requires Valid()
      modifies this
      ensures r == Failure(ArgumentError) && slot == old(slot) && Valid()
    {
      var got := CallGetKeywordPattern([reset], None, entries);
      r := FlattenRead(got);
    }

    /** `build_keyword_pattern` as intended: read the table through the cache and compile
        it, longest keywords first. */
    method BuildKeywordPattern(entries: seq<Entry>) returns (r: Result<Pattern, Error>)
      requires Valid()
      modifies this
      ensures CachedRead(old(slot), TableValue(Rebuild(entries))).TableValue? ==>
        r == Success(Compile(CachedRead(old(slot), TableValue(Rebuild(entries))).table))
      ensures old(slot).Some? && old(slot).value.StatusValue? ==> r == Failure(NotATable)
      ensures slot == Some(CachedRead(old(slot), TableValue(Rebuild(entries)))) && Valid()
    {
      var v := GetKeywordPattern(entries);
      if v.StatusValue? {
        r := Failure(NotATable);
      } else {
        r := Success(Compile(v.table));
      }
    }
  }

  /** On a fresh key, the as-written read returns the status "OK" and not a table. */
  method ColdReadAsWritten(entries: seq<Entry>) returns (v: Value)
    ensures v == StatusValue("OK")
  {
    var store := new KeywordPatternStore();
    v := store.GetKeywordPatternAsWritten(entries);
  }

  /** On a fresh key, the as-written delete splices the surviving keywords into the
      status "OK": index 0 or -2 replaces the "O", index 1 or -1 replaces the "K", index 2
      appends, and any other index raises. */
  method ColdDeleteAsWritten(entries: seq<Entry>, length: int) returns (r: Result<Value, Error>)
    ensures length == 0 || length == -2 ==>
      r == Success(StatusValue(JoinBar(KeywordsOfLength(entries, length)) + "K"))
    ensures length == 1 || length == -1 ==>
      r == Success(StatusValue("O" + JoinBar(KeywordsOfLength(entries, length))))
    ensures length == 2 ==> r == Success(StatusValue("OK" + JoinBar(KeywordsOfLength(entries, 2))))
    ensures length > 2 || length < -2 ==> r == Failure(IndexError)
  {
    var store := new KeywordPatternStore();
    r := store.DeleteAndResetAsWritten(entries, length);
    SpliceIntoReply(length, JoinBar(KeywordsOfLength(entries, length)));
  }

  /** `"OK"[index] = x` for each index Ruby accepts. */
  lemma SpliceIntoReply(index: int, x: string)
    ensures index == 0 || index == -2 ==> SpliceAt(SetReply, index, x) == Success(x + "K")
    ensures index == 1 || index == -1 ==> SpliceAt(SetReply, index, x) == Success("O" + x)
    ensures index == 2 ==> SpliceAt(SetReply, index, x) == Success("OK" + x)
  {
    if -2 <= index <= 2 {
      var at := if index < 0 then index + 2 else index;
      var resume := if at < 2 then at + 1 else at;
      var t := SpliceAt(SetReply, index, x).value;
      assert t == t[..at] + t[at..at + |x|] + t[at + |x|..];
      assert t[..at] == SetReply[..at] && t[at..at + |x|] == x && t[at + |x|..] == SetReply[resume..];
      assert at == 0 ==> t == x + "K";
      assert at == 1 ==> t == "O" + x;
      assert at == 2 ==> t == "OK" + x;
    }
  }

  /** On a fresh key, the intended read returns the table rebuilt from the rows, which
      agrees with them. */
  method ColdRead(entries: seq<Entry>) returns (v: Value)
    ensures v.TableValue? && v.table == Rebuild(entries) && Coherent(v.table, entries)
  {
    var store := new KeywordPatternStore();
    v := store.GetKeywordPattern(entries);
    RebuildIsCoherent(entries);
  }

  /** A second read returns what the first stored, whatever the rows are by then. */
  method ReadTwice(first: seq<Entry>, later: seq<Entry>) returns (a: Value, b: Value)
    ensures a == b == TableValue(Rebuild(first))
  {
    var store := new KeywordPatternStore();
    a := store.GetKeywordPattern(first);
    b := store.GetKeywordPattern(later);
  }

  /** Registering a keyword on a fresh key leaves the table agreeing with the rows, which
      already hold the new keyword's row; and the keyword standing alone is then linked. */
  method RegisterOnColdKey(entries: seq<Entry>, key: string)
    returns (r: Result<Table, Error>, p: Result<Pattern, Error>)
    requires Entry(key, |key|) in entries && LengthsAgree(entries) && key != ""
    ensures r.Success? && Coherent(r.value, entries)
    ensures p.Success? && |Scan(key, p.value)| > 0 && Scan(key, p.value)[0] == Hit(key)
  {
    var store := new KeywordPatternStore();
    r := store.ResetAndGet(entries, key, |key|);
    RebuildIsCoherent(entries);
    AddKeepsCoherence(Rebuild(entries), entries, key, |key|);
    SameRowsCoherent(r.value, entries + [Entry(key, |key|)], entries);
    p := store.BuildKeywordPattern(entries);
    CoherentTableLinksEveryKeyword(r.value, entries, Entry(key, |key|));
  }
}
