/** The `calc` command's context: every `-c` token is split, the pairs are
    collected into a dictionary whose keys compare ignoring case, and the
    evaluator reads it through a case-insensitive lookup. */
module Context {
  import opened Wrappers
  import opened Json
  import opened ContextRegex

  /** Case folding of one character, ASCII letters only: a lower-case letter
      becomes its upper-case letter, every other character is kept. */
  function FoldChar(c: char): (r: char)
    ensures !('a' <= r <= 'z')
    ensures r == c <==> !('a' <= c <= 'z')
    ensures 'a' <= c <= 'z' ==> 'A' <= r <= 'Z' && r as int + 32 == c as int
  {
    if 'a' <= c <= 'z' then (c as int - 32) as char else c
  }

  /** Case folding of a key: two keys are the same dictionary key exactly when
      their foldings are equal. */
  function Fold(s: string): (f: string)
    ensures |f| == |s|
    ensures forall k :: 0 <= k < |s| ==> f[k] == FoldChar(s[k])
  {
    if s == [] then [] else [FoldChar(s[0])] + Fold(s[1..])
  }

  /** `StringComparer.OrdinalIgnoreCase.Equals`: two keys are equal ignoring
      case exactly when they have the same length and agree character by
      character after folding. */
  predicate EqualsIgnoringCase(a: string, b: string)
    ensures EqualsIgnoringCase(a, b) <==>
      |a| == |b| && forall k :: 0 <= k < |a| ==> FoldChar(a[k]) == FoldChar(b[k])
  {
    assert |a| == |b| && (forall k :: 0 <= k < |a| ==> FoldChar(a[k]) == FoldChar(b[k]))
      ==> Fold(a) == Fold(b) by {
      if |a| == |b| && forall k :: 0 <= k < |a| ==> FoldChar(a[k]) == FoldChar(b[k]) {
        assert forall k :: 0 <= k < |a| ==> Fold(a)[k] == Fold(b)[k];
      }
    }
    Fold(a) == Fold(b)
  }

  /** Folding is idempotent, so a folded key is its own dictionary key. */
  lemma FoldIdempotent(s: string)
    ensures Fold(Fold(s)) == Fold(s)
  {
    assert forall c :: FoldChar(FoldChar(c)) == FoldChar(c);
  }

  /** The dictionary, keyed by folded keys, so no two of its keys differ only
      in case; every stored value is the JSON string made from a token's value
      group. */
  type ContextMap = m: map<string, JsonValue> | forall k :: k in m ==> Fold(k) == k
    witness map[]

  /** The exception `ToDictionary` throws, naming the key that was added twice. */
  datatype DuplicateKey = DuplicateKey(key: string)

  /** The folded keys of the pairs. */
  ghost function FoldedKeys(es: seq<Entry>): set<string>
  {
    set j | 0 <= j < |es| :: Fold(es[j].key)
  }

  /** No two pairs have keys that are equal ignoring case. */
  ghost predicate DistinctIgnoringCase(es: seq<Entry>)
  {
    forall a, b :: 0 <= a < b < |es| ==> Fold(es[a].key) != Fold(es[b].key)
  }

  /** Adding one more pair adds its folded key. */
  lemma FoldedKeysSnoc(es: seq<Entry>, e: Entry)
    ensures FoldedKeys(es + [e]) == FoldedKeys(es) + {Fold(e.key)}
  {
    var s := es + [e];
    forall k | k in FoldedKeys(s) ensures k in FoldedKeys(es) + {Fold(e.key)} {
      var j :| 0 <= j < |s| && k == Fold(s[j].key);
      if j < |es| { assert s[j] == es[j]; }
    }
    forall k | k in FoldedKeys(es) ensures k in FoldedKeys(s) {
      var j :| 0 <= j < |es| && k == Fold(es[j].key);
      assert s[j] == es[j];
    }
    assert Fold(e.key) == Fold(s[|es|].key);
  }

  /** The pairs stay distinct after one more exactly when they were distinct
      and the new key is not among theirs. */
  lemma DistinctSnoc(es: seq<Entry>, e: Entry)
    ensures DistinctIgnoringCase(es + [e]) <==>
      DistinctIgnoringCase(es) && Fold(e.key) !in FoldedKeys(es)
  {
    var s := es + [e];
    if DistinctIgnoringCase(s) {
      forall a, b | 0 <= a < b < |es| ensures Fold(es[a].key) != Fold(es[b].key) {
        assert s[a] == es[a] && s[b] == es[b];
      }
      forall j | 0 <= j < |es| ensures Fold(es[j].key) != Fold(e.key) {
        assert s[j] == es[j] && s[|es|] == e;
      }
    }
    if DistinctIgnoringCase(es) && Fold(e.key) !in FoldedKeys(es) {
      forall a, b | 0 <= a < b < |s| ensures Fold(s[a].key) != Fold(s[b].key) {
        assert s[a] == es[a];
        if b < |es| { assert s[b] == es[b]; }
        else { assert Fold(es[a].key) in FoldedKeys(es); }
      }
    }
  }

  /** The dictionary holds exactly the pairs' folded keys, each with the JSON
      string of its pair's value. */
  ghost predicate Holds(m: ContextMap, es: seq<Entry>)
  {
    && m.Keys == FoldedKeys(es)
    && forall j :: 0 <= j < |es| ==> m[Fold(es[j].key)] == JString(es[j].value)
  }

  /** `Dictionary.Add(key, JsonValue.NewString(value))` under the comparer: it
      throws when a stored key equals the new one ignoring case, and otherwise
      stores the value under the new key and keeps every other entry. */
  function Add(m: ContextMap, e: Entry): (r: Result<ContextMap, DuplicateKey>)
    ensures r.Err? <==> exists k :: k in m && EqualsIgnoringCase(k, e.key)
    ensures r.Err? ==> r.error == DuplicateKey(e.key)
    ensures r.Ok? ==> r.value.Keys == m.Keys + {Fold(e.key)}
    ensures r.Ok? ==> r.value[Fold(e.key)] == JString(e.value)
    ensures r.Ok? ==> forall k :: k in m ==> r.value[k] == m[k]
  {
    FoldIdempotent(e.key);
    if Fold(e.key) in m then Err(DuplicateKey(e.key))
    else Ok(m[Fold(e.key) := JString(e.value)])
  }

  /** Adding a pair to a dictionary in step with the earlier pairs succeeds
      exactly when its key is new, and keeps the dictionary in step. */
  lemma {:induction false} AddKeepsStep(m: ContextMap, es: seq<Entry>, e: Entry)
    requires Holds(m, es)
    ensures Add(m, e).Ok? <==> Fold(e.key) !in FoldedKeys(es)
    ensures Add(m, e).Ok? ==> Holds(Add(m, e).value, es + [e])
  {
    if Fold(e.key) in m {
      FoldIdempotent(e.key);
      assert EqualsIgnoringCase(Fold(e.key), e.key);
    }
    if Add(m, e).Ok? {
      var m', s := Add(m, e).value, es + [e];
      FoldedKeysSnoc(es, e);
      forall j | 0 <= j < |s| ensures m'[Fold(s[j].key)] == JString(s[j].value) {
        if j < |es| {
          assert s[j] == es[j];
          assert Fold(es[j].key) in FoldedKeys(es);
        }
      }
    }
  }

  /** `ToDictionary(key, JsonValue.NewString(value), OrdinalIgnoreCase)`: the
      pairs are added in order, and adding a key that is already present,
      ignoring case, throws. */
  function ToDictionary(es: seq<Entry>): (r: Result<ContextMap, DuplicateKey>)
    ensures r.Ok? <==> DistinctIgnoringCase(es)
    ensures r.Ok? ==> r.value.Keys == FoldedKeys(es)
    ensures r.Ok? ==> forall j :: 0 <= j < |es| ==> r.value[Fold(es[j].key)] == JString(es[j].value)
    decreases |es|
  {
    if es == [] then Ok(map[])
    else
      var init, last := es[..|es| - 1], es[|es| - 1];
      assert es == init + [last];
      DistinctSnoc(init, last);
      match ToDictionary(init)
      case Err(e) => Err(e)
      case Ok(m) =>
        AddKeepsStep(m, init, last);
        Add(m, last)
  }

  /** Pair b is the first whose key repeats an earlier one ignoring case. */
  ghost predicate FirstDuplicateAt(es: seq<Entry>, b: int)
  {
    0 < b < |es| && DistinctIgnoringCase(es[..b]) && Fold(es[b].key) in FoldedKeys(es[..b])
  }

  /** When construction fails, the exception names the first pair whose key
      repeats an earlier one ignoring case. */
  lemma {:induction false} ToDictionaryNamesFirstDuplicate(es: seq<Entry>)
    requires ToDictionary(es).Err?
    ensures exists b :: FirstDuplicateAt(es, b) && ToDictionary(es).error.key == es[b].key
  {
    var init := es[..|es| - 1];
    if ToDictionary(init).Err? {
      ToDictionaryNamesFirstDuplicate(init);
      var b :| FirstDuplicateAt(init, b) && ToDictionary(init).error.key == init[b].key;
      assert init[..b] == es[..b] && init[b] == es[b];
      assert FirstDuplicateAt(es, b);
      assert ToDictionary(es).error == ToDictionary(init).error;
    } else {
      LastPairClashes(es);
      assert es[..|es| - 1] == init;
      assert FirstDuplicateAt(es, |es| - 1);
    }
  }

  /** When the pairs before the last one build, a failure is the last pair's. */
  lemma {:induction false} LastPairClashes(es: seq<Entry>)
    requires ToDictionary(es).Err? && |es| > 0 && ToDictionary(es[..|es| - 1]).Ok?
    ensures |es| > 1 && DistinctIgnoringCase(es[..|es| - 1])
    ensures Fold(es[|es| - 1].key) in FoldedKeys(es[..|es| - 1])
    ensures ToDictionary(es).error.key == es[|es| - 1].key
  {
    var init, last := es[..|es| - 1], es[|es| - 1];
    var m := ToDictionary(init).value;
    AddKeepsStep(m, init, last);
    assert ToDictionary(es) == Add(m, last);
  }

  /** The tokens' pairs, in command-line order. */
  function SplitAll(tokens: seq<string>): seq<Entry>
  {
    seq(|tokens|, j requires 0 <= j < |tokens| => SplitToken(tokens[j]))
  }

  /** The whole context construction of the `calc` command: it succeeds exactly
      when no two tokens give keys equal ignoring case, and then it holds every
      token's folded key with the JSON string of that token's value. */
  function ParseContext(tokens: seq<string>): (r: Result<ContextMap, DuplicateKey>)
    ensures r.Ok? <==>
      forall a, b :: 0 <= a < b < |tokens| ==>
        !EqualsIgnoringCase(SplitToken(tokens[a]).key, SplitToken(tokens[b]).key)
    ensures r.Ok? ==> r.value.Keys == set j | 0 <= j < |tokens| :: Fold(SplitToken(tokens[j]).key)
    ensures r.Ok? ==> forall j :: 0 <= j < |tokens| ==>
      r.value[Fold(SplitToken(tokens[j]).key)] == JString(SplitToken(tokens[j]).value)
  {
    var es := SplitAll(tokens);
    assert forall j :: 0 <= j < |tokens| ==> es[j] == SplitToken(tokens[j]);
    assert FoldedKeys(es) == set j | 0 <= j < |tokens| :: Fold(SplitToken(tokens[j]).key);
    ToDictionary(es)
  }

  /** `context.TryGetValue(key)` turned into an option: it finds the stored
      entry whose key equals the given one ignoring case, if there is one. */
  function Lookup(ctx: ContextMap, key: string): (r: Option<JsonValue>)
    ensures r.Some? <==> exists k :: k in ctx && EqualsIgnoringCase(k, key)
    ensures forall k :: k in ctx && EqualsIgnoringCase(k, key) ==> r == Some(ctx[k])
  {
    FoldIdempotent(key);
    if Fold(key) in ctx then Some(ctx[Fold(key)]) else None
  }

  /** The lookup handed to the evaluator: it cannot tell two casings of a key
      apart, and it finds every stored entry under its own key. */
  function LookupIn(ctx: ContextMap): (lookup: string -> Option<JsonValue>)
    ensures forall a, b :: EqualsIgnoringCase(a, b) ==> lookup(a) == lookup(b)
    ensures forall k :: k in ctx ==> lookup(k) == Some(ctx[k])
  {
    key => Lookup(ctx, key)
  }

  /** Any casing of a supplied key finds the value of the token that supplied it. */
  lemma LookupAnyCasing(tokens: seq<string>, j: nat, key: string)
    requires ParseContext(tokens).Ok?
    requires j < |tokens| && EqualsIgnoringCase(key, SplitToken(tokens[j]).key)
    ensures LookupIn(ParseContext(tokens).value)(key) == Some(JString(SplitToken(tokens[j]).value))
  {
    var es := SplitAll(tokens);
    assert es[j] == SplitToken(tokens[j]);
  }

  /** A key that no token supplied, in any casing, is absent. */
  lemma {:induction false} LookupMissing(tokens: seq<string>, key: string)
    requires ParseContext(tokens).Ok?
    ensures LookupIn(ParseContext(tokens).value)(key) == None <==>
      forall j :: 0 <= j < |tokens| ==> !EqualsIgnoringCase(key, SplitToken(tokens[j]).key)
  {
    var es := SplitAll(tokens);
    if LookupIn(ParseContext(tokens).value)(key) != None {
      assert Fold(key) in FoldedKeys(es);
      var j :| 0 <= j < |es| && Fold(key) == Fold(es[j].key);
      assert EqualsIgnoringCase(key, SplitToken(tokens[j]).key);
    }
  }

  /** Every value of a built dictionary is the JSON string of some pair's value. */
  lemma {:induction false} ToDictionaryValues(es: seq<Entry>, k: string)
    requires ToDictionary(es).Ok? && k in ToDictionary(es).value
    ensures exists j :: 0 <= j < |es| && ToDictionary(es).value[k] == JString(es[j].value)
  {
    var ctx := ToDictionary(es).value;
    assert k in FoldedKeys(es);
    var j :| 0 <= j < |es| && k == Fold(es[j].key);
    assert ctx[Fold(es[j].key)] == JString(es[j].value);
  }

  /** Every stored value is a JSON string holding some token's value group,
      unchanged: there is no numeric or boolean coercion. */
  lemma {:induction false} ValuesAreStrings(tokens: seq<string>, v: JsonValue)
    requires ParseContext(tokens).Ok? && v in ParseContext(tokens).value.Values
    ensures exists j :: 0 <= j < |tokens| && v == JString(SplitToken(tokens[j]).value)
  {
    var es := SplitAll(tokens);
    var ctx := ToDictionary(es).value;
    var k :| k in ctx && ctx[k] == v;
    ToDictionaryValues(es, k);
    var j :| 0 <= j < |es| && ctx[k] == JString(es[j].value);
    assert es[j] == SplitToken(tokens[j]);
  }

  /** Two tokens the pattern does not match both give the empty key, so they
      make construction fail. */
  lemma {:induction false} TwoMalformedTokensClash(tokens: seq<string>, a: nat, b: nat)
    requires a < b < |tokens|
    requires SplitToken(tokens[a]).key == "" && SplitToken(tokens[b]).key == ""
    ensures ParseContext(tokens).Err?
  {
  }

  /** Round trip: tokens joined from well-formed keys and values, with keys
      distinct ignoring case, build a context in which every casing of each key
      finds its value. */
  lemma {:induction false} JoinedTokensRoundTrip(keys: seq<string>, values: seq<string>, j: nat, key: string)
    requires |keys| == |values|
    requires forall i :: 0 <= i < |keys| ==> keys[i] != "" && '\n' !in keys[i] && '=' !in keys[i]
    requires forall i :: 0 <= i < |values| ==> values[i] != "" && '\n' !in values[i]
    requires forall a, b :: 0 <= a < b < |keys| ==> !EqualsIgnoringCase(keys[a], keys[b])
    requires j < |keys| && EqualsIgnoringCase(key, keys[j])
    ensures var tokens := seq(|keys|, i requires 0 <= i < |keys| => keys[i] + "=" + values[i]);
      && ParseContext(tokens).Ok?
      && LookupIn(ParseContext(tokens).value)(key) == Some(JString(values[j]))
  {
    var tokens := seq(|keys|, i requires 0 <= i < |keys| => keys[i] + "=" + values[i]);
    forall i | 0 <= i < |keys| ensures SplitToken(tokens[i]) == Entry(keys[i], values[i]) {
      assert forall c :: 1 <= c < |keys[i]| ==> keys[i][c] in keys[i];
      SplitJoined(keys[i], values[i]);
    }
    LookupAnyCasing(tokens, j, key);
  }

  /** `-c Foo=1` is found again as `FOO`. */
  lemma CaseInsensitiveLookupExample()
    ensures ParseContext(["Foo=1"]).Ok?
    ensures LookupIn(ParseContext(["Foo=1"]).value)("FOO") == Some(JString("1"))
  {
    FooTokenSplit();
    FooCasing();
    LookupSingleToken("Foo=1", "FOO");
  }

  lemma FooTokenSplit()
    ensures SplitToken("Foo=1") == Entry("Foo", "1")
  {
    var t := "Foo=1";
    SplitAtFirstEquals(t, 3);
    assert t[..3] == "Foo" && t[4..] == "1";
  }

  lemma FooCasing()
    ensures EqualsIgnoringCase("FOO", "Foo")
  {
    assert Fold("FOO") == "FOO" == Fold("Foo");
  }

  /** A single token always builds, and any casing of its key finds its value. */
  lemma LookupSingleToken(t: string, key: string)
    requires EqualsIgnoringCase(key, SplitToken(t).key)
    ensures ParseContext([t]).Ok?
    ensures LookupIn(ParseContext([t]).value)(key) == Some(JString(SplitToken(t).value))
  {
    LookupAnyCasing([t], 0, key);
  }

  /** Of two tokens whose keys are equal ignoring case, the second makes
      construction throw, and the error names the second key. */
  lemma {:induction false} SecondOfTwoClashes(t1: string, t2: string)
    requires EqualsIgnoringCase(SplitToken(t1).key, SplitToken(t2).key)
    ensures ParseContext([t1, t2]) == Err(DuplicateKey(SplitToken(t2).key))
  {
    var es := SplitAll([t1, t2]);
    assert es == [SplitToken(t1), SplitToken(t2)];
    assert es[..1] == [SplitToken(t1)];
    var m := ToDictionary(es[..1]).value;
    AddKeepsStep(m, es[..1], es[1]);
    assert Fold(es[1].key) in FoldedKeys(es[..1]);
    assert ToDictionary(es) == Add(m, es[1]);
  }

  /** `-c a=1 -c A=2` makes construction throw on the second key. */
  lemma CaseInsensitiveDuplicateExample()
    ensures ParseContext(["a=1", "A=2"]) == Err(DuplicateKey("A"))
  {
    DuplicateTokensSplit();
    assert EqualsIgnoringCase("a", "A") by { assert Fold("a") == "A" == Fold("A"); }
    SecondOfTwoClashes("a=1", "A=2");
  }

  lemma DuplicateTokensSplit()
    ensures SplitToken("a=1").key == "a" && SplitToken("A=2").key == "A"
  {
    var t1, t2 := "a=1", "A=2";
    SplitAtFirstEquals(t1, 1);
    assert t1[..1] == "a";
    SplitAtFirstEquals(t2, 1);
    assert t2[..1] == "A";
  }
}
