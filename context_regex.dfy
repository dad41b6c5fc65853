/** The split of one `-c key=value` token by the pattern `(.+?)=(.+)`.

    The pattern is matched unanchored, so the reported match is the one a
    backtracking engine finds first: the leftmost start position, then the
    shortest key the lazy group allows, then the longest value the greedy
    group allows. `.` is any character except a line feed. When the pattern
    does not match, both groups read as the empty string. */
module ContextRegex {
  import opened Wrappers

  /** The pattern's `.`. */
  predicate IsDot(c: char)
  {
    c != '\n'
  }

  /** Every character of s[a..b] is matched by `.`. */
  ghost predicate AllDots(s: string, a: nat, b: nat)
    requires a <= b <= |s|
  {
    forall k :: a <= k < b ==> IsDot(s[k])
  }

  /** `(.+?)=(.+)` matches s[start..end] with its `=` at position eq. */
  ghost predicate MatchesAt(s: string, start: int, eq: int, end: int)
  {
    && 0 <= start < eq
    && eq + 1 < end <= |s|
    && s[eq] == '='
    && AllDots(s, start, eq)
    && AllDots(s, eq + 1, end)
  }

  /** A key started at `start` may end at `eq`: the `=` there is followed by
      at least one `.` character. */
  ghost predicate KeyEndsAt(s: string, start: int, eq: int)
  {
    && 0 <= start < eq
    && eq + 1 < |s|
    && s[eq] == '='
    && IsDot(s[eq + 1])
    && AllDots(s, start, eq)
  }

  /** Where a match sits: s[start..eq] is group 1, s[eq + 1..end] is group 2. */
  datatype RegexMatch = RegexMatch(start: nat, eq: nat, end: nat)

  /** The match the engine reports: leftmost, then lazy, then greedy. */
  ghost predicate IsReportedMatch(s: string, m: RegexMatch)
  {
    && MatchesAt(s, m.start, m.eq, m.end)
    && (forall p, i, q :: p < m.start ==> !MatchesAt(s, p, i, q))
    && (forall i, q :: i < m.eq ==> !MatchesAt(s, m.start, i, q))
    && (forall q :: q > m.end ==> !MatchesAt(s, m.start, m.eq, q))
  }

  lemma MatchMeansKeyEnds(s: string, p: int, i: int, q: int)
    requires MatchesAt(s, p, i, q)
    ensures KeyEndsAt(s, p, i)
  {
    assert IsDot(s[i + 1]);
  }

  /** The greedy `(.+)`: the end of the run of `.` characters that starts at j. */
  function DotRunEnd(s: string, j: nat): (q: nat)
    requires j <= |s|
    ensures j <= q <= |s| && AllDots(s, j, q)
    ensures q == |s| || !IsDot(s[q])
    decreases |s| - j
  {
    if j == |s| || !IsDot(s[j]) then j else DotRunEnd(s, j + 1)
  }

  /** The lazy `(.+?)=`: the first position at or after i where a key started
      at `start` may end, given that s[start..i - 1] is all `.`. */
  function LazyKeyEnd(s: string, start: nat, i: nat): (r: Option<nat>)
    requires start < i <= |s| && AllDots(s, start, i - 1)
    ensures r.Some? ==> i <= r.value && KeyEndsAt(s, start, r.value)
    ensures forall e :: i <= e && (r.None? || e < r.value) ==> !KeyEndsAt(s, start, e)
    decreases |s| - i
  {
    if i + 1 >= |s| || !IsDot(s[i - 1]) then None
    else if s[i] == '=' && IsDot(s[i + 1]) then Some(i)
    else LazyKeyEnd(s, start, i + 1)
  }

  /** Tries the pattern at every start position from p on, leftmost first. */
  function MatchFrom(s: string, p: nat): (r: Option<RegexMatch>)
    requires p <= |s|
    ensures r.Some? ==>
      && p <= r.value.start
      && MatchesAt(s, r.value.start, r.value.eq, r.value.end)
      && (forall p', i, q :: p <= p' < r.value.start ==> !MatchesAt(s, p', i, q))
      && (forall i, q :: i < r.value.eq ==> !MatchesAt(s, r.value.start, i, q))
      && (forall q :: q > r.value.end ==> !MatchesAt(s, r.value.start, r.value.eq, q))
    ensures r.None? ==> forall p', i, q :: p <= p' ==> !MatchesAt(s, p', i, q)
    decreases |s| - p
  {
    if p == |s| then None
    else
      match LazyKeyEnd(s, p, p + 1)
      case Some(eq) =>
        var end := DotRunEnd(s, eq + 1);
        assert forall i, q :: i < eq && MatchesAt(s, p, i, q) ==> KeyEndsAt(s, p, i) by {
          forall i, q | i < eq && MatchesAt(s, p, i, q) ensures KeyEndsAt(s, p, i) {
            MatchMeansKeyEnds(s, p, i, q);
          }
        }
        Some(RegexMatch(p, eq, end))
      case None =>
        assert forall i, q :: MatchesAt(s, p, i, q) ==> KeyEndsAt(s, p, i) by {
          forall i, q | MatchesAt(s, p, i, q) ensures KeyEndsAt(s, p, i) {
            MatchMeansKeyEnds(s, p, i, q);
          }
        }
        MatchFrom(s, p + 1)
  }

  /** `contextRegex.Match(token)`: the reported match, or none when the
      pattern matches nowhere in the token. */
  function Match(s: string): (r: Option<RegexMatch>)
    ensures r.Some? ==> IsReportedMatch(s, r.value)
    ensures r.None? <==> forall p, i, q :: !MatchesAt(s, p, i, q)
  {
    MatchFrom(s, 0)
  }

  /** The reported match is determined by the token alone: Match finds it,
      and it is the only match with that priority. */
  lemma MatchCharacterized(s: string, m: RegexMatch)
    ensures Match(s) == Some(m) <==> IsReportedMatch(s, m)
  {
    if IsReportedMatch(s, m) {
      var r := Match(s);
      assert r.Some?;
      var n := r.value;
      assert n.start == m.start;
      assert n.eq == m.eq;
      assert n.end == m.end;
    }
  }

  /** The two groups of one token. */
  datatype Entry = Entry(key: string, value: string)

  /** `match.Groups[1].Value` and `match.Groups[2].Value` for one token. */
  function SplitToken(s: string): (e: Entry)
    ensures e.key != "" <==> (exists p, i, q :: MatchesAt(s, p, i, q))
    ensures e.value != "" <==> (exists p, i, q :: MatchesAt(s, p, i, q))
    ensures '\n' !in e.key && '\n' !in e.value
    ensures Match(s).Some? ==>
      s[Match(s).value.start..Match(s).value.end] == e.key + "=" + e.value
    ensures forall m :: IsReportedMatch(s, m) ==> e == Entry(s[m.start..m.eq], s[m.eq + 1..m.end])
    ensures (forall p, i, q :: !MatchesAt(s, p, i, q)) ==> e == Entry("", "")
  {
    match Match(s)
    case None => Entry("", "")
    case Some(m) =>
      GroupsOfMatch(s, m);
      Entry(s[m.start..m.eq], s[m.eq + 1..m.end])
  }

  /** The groups of the reported match: they rebuild the matched text around
      its `=`, hold no line feed, and no other match is reported. */
  lemma GroupsOfMatch(s: string, m: RegexMatch)
    requires Match(s) == Some(m)
    ensures s[m.start..m.end] == s[m.start..m.eq] + "=" + s[m.eq + 1..m.end]
    ensures '\n' !in s[m.start..m.eq] && '\n' !in s[m.eq + 1..m.end]
    ensures forall n :: IsReportedMatch(s, n) ==> n == m
  {
    assert s[m.start..m.end] == s[m.start..m.eq] + [s[m.eq]] + s[m.eq + 1..m.end];
    var key, value := s[m.start..m.eq], s[m.eq + 1..m.end];
    forall k | 0 <= k < |key| ensures key[k] != '\n' {
      assert key[k] == s[m.start + k];
    }
    forall k | 0 <= k < |value| ensures value[k] != '\n' {
      assert value[k] == s[m.eq + 1 + k];
    }
    forall n | IsReportedMatch(s, n) ensures n == m {
      MatchCharacterized(s, n);
    }
  }

  /** For a token without line feeds, the key is everything before the first
      `=` at index 1 or later that has a character after it, and the value is
      the whole rest of the token, further `=` characters included. */
  lemma {:induction false} SplitAtFirstEquals(s: string, i: nat)
    requires '\n' !in s
    requires 1 <= i && i + 1 < |s| && s[i] == '='
    requires forall j :: 1 <= j < i ==> s[j] != '='
    ensures SplitToken(s) == Entry(s[..i], s[i + 1..])
  {
    assert AllDots(s, 0, i) && AllDots(s, i + 1, |s|) by {
      forall k | 0 <= k < |s| ensures IsDot(s[k]) {
        assert s[k] in s;
      }
    }
    var m := RegexMatch(0, i, |s|);
    assert IsReportedMatch(s, m);
    MatchCharacterized(s, m);
  }

  /** A token without line feeds and without a usable `=` (none at index 1 or
      later with a character after it) does not match: both groups are empty. */
  lemma {:induction false} NoSplitWithoutUsableEquals(s: string)
    requires '\n' !in s
    requires forall j :: 1 <= j && j + 1 < |s| ==> s[j] != '='
    ensures SplitToken(s) == Entry("", "")
  {
  }

  /** The inverse direction: joining a key and a value with `=` and splitting
      the token gives them back, as long as the key has no `=` after its first
      character and neither part is empty or holds a line feed. */
  lemma {:induction false} SplitJoined(key: string, value: string)
    requires key != "" && value != ""
    requires '\n' !in key && '\n' !in value
    requires forall j :: 1 <= j < |key| ==> key[j] != '='
    ensures SplitToken(key + "=" + value) == Entry(key, value)
  {
    var s := key + "=" + value;
    assert '\n' !in s by {
      forall k | 0 <= k < |s| ensures s[k] != '\n' {
        if k < |key| {
          assert s[k] == key[k];
          assert key[k] in key;
        } else if k > |key| {
          assert s[k] == value[k - |key| - 1];
          assert value[k - |key| - 1] in value;
        }
      }
    }
    assert s[..|key|] == key;
    assert s[|key| + 1..] == value;
    SplitAtFirstEquals(s, |key|);
  }

  /** A well-formed token splits at its `=`. */
  lemma SplitWellFormedExample()
    ensures SplitToken("country=IL") == Entry("country", "IL")
  {
    SplitAtFirstEquals("country=IL", 7);
    assert "country=IL"[..7] == "country" && "country=IL"[8..] == "IL";
  }

  /** Only the first usable `=` splits; later ones stay in the value. */
  lemma SplitKeepsLaterEqualsExample()
    ensures SplitToken("a=b=c") == Entry("a", "b=c")
  {
    SplitAtFirstEquals("a=b=c", 1);
    assert "a=b=c"[..1] == "a" && "a=b=c"[2..] == "b=c";
  }

  /** The key group is non-empty, so a leading `=` belongs to the key. */
  lemma SplitLeadingEqualsExample()
    ensures SplitToken("=a=b") == Entry("=a", "b")
  {
    SplitAtFirstEquals("=a=b", 2);
    assert "=a=b"[..2] == "=a";
  }

  /** Tokens the pattern does not match read as an empty key and value. */
  lemma SplitMalformedExamples()
    ensures SplitToken("a=") == Entry("", "")
    ensures SplitToken("=") == Entry("", "")
    ensures SplitToken("abc") == Entry("", "")
  {
    NoSplitWithoutUsableEquals("a=");
    NoSplitWithoutUsableEquals("=");
    NoSplitWithoutUsableEquals("abc");
  }

  /** The match is unanchored and a key never spans a line feed: the match
      starts after it. */
  lemma LineFeedBeforeKeyExample()
    ensures SplitToken("x\nk=v") == Entry("k", "v")
  {
    var s := "x\nk=v";
    var m := RegexMatch(2, 3, 5);
    assert IsReportedMatch(s, m) by {
      assert s[1] == '\n';
      forall p, i, q | p < 2 && MatchesAt(s, p, i, q) ensures false {
      }
    }
    MatchCharacterized(s, m);
    assert s[2..3] == "k" && s[4..5] == "v";
  }

  /** A value ends before a line feed. */
  lemma LineFeedAfterValueExample()
    ensures SplitToken("k=v\nx") == Entry("k", "v")
  {
    var s := "k=v\nx";
    var m := RegexMatch(0, 1, 3);
    assert IsReportedMatch(s, m) by {
      assert !IsDot(s[3]);
    }
    MatchCharacterized(s, m);
    assert s[0..1] == "k" && s[2..3] == "v";
  }

  /** An `=` followed by a line feed cannot end a key. */
  lemma LineFeedAfterEqualsExample()
    ensures SplitToken("k=\nv") == Entry("", "")
  {
    assert !IsDot("k=\nv"[2]);
  }
}
