/**
 * Properties of the split-cookie scheme that relate several calls: the
 * round trip from splitting to joining, the stop at the first missing
 * chunk, the behaviour on an empty value, and what deletion selects.
 */
module SplitCookiesProperties {
  import opened Wrappers
  import opened Decimal
  import opened JsUtils
  import opened SplitCookies

  /** The record a caller builds by storing each cookie under its name (a later cookie overwrites an earlier one). */
  function ToRecord(cookies: seq<SplitCookie>): CookieRecord
    decreases |cookies|
  {
    if cookies == [] then map[]
    else
      var last := cookies[|cookies| - 1];
      ToRecord(cookies[..|cookies| - 1])[last.name := Some(last.value)]
  }

  predicate DistinctNames(cookies: seq<SplitCookie>) {
    forall i, j :: 0 <= i < j < |cookies| ==> cookies[i].name != cookies[j].name
  }

  lemma {:induction false} ToRecordAbsent(cookies: seq<SplitCookie>, key: string)
    requires forall i :: 0 <= i < |cookies| ==> cookies[i].name != key
    ensures Lookup(ToRecord(cookies), key) == None
    decreases |cookies|
  {
    if cookies != [] {
      ToRecordAbsent(cookies[..|cookies| - 1], key);
    }
  }

  lemma {:induction false} ToRecordPresent(cookies: seq<SplitCookie>, i: nat)
    requires i < |cookies| && DistinctNames(cookies)
    ensures Lookup(ToRecord(cookies), cookies[i].name) == Some(cookies[i].value)
    decreases |cookies|
  {
    if i < |cookies| - 1 {
      ToRecordPresent(cookies[..|cookies| - 1], i);
    }
  }

  /** The cookies of one split all have different names. */
  lemma SplitCookieNamesDistinct(cookieName: string, cookieValue: string, maxCookieLength: int)
    requires maxCookieLength > 0
    ensures GetSplitCookies(cookieName, cookieValue, maxCookieLength).Success?
    ensures DistinctNames(GetSplitCookies(cookieName, cookieValue, maxCookieLength).value)
  {
    var cookies := GetSplitCookies(cookieName, cookieValue, maxCookieLength).value;
    forall i, j | 0 <= i < j < |cookies|
      ensures cookies[i].name != cookies[j].name
    {
      if cookies[i].name == cookies[j].name {
        ChunkNameInjective(cookieName, i, j);
      }
    }
  }

  lemma {:induction false} JoinFromRun(cookieName: string, cookies: CookieRecord, values: seq<string>, index: nat)
    requires index <= |values|
    requires forall k :: 0 <= k < |values| ==> Lookup(cookies, ChunkName(cookieName, k)) == Some(values[k])
    requires Lookup(cookies, ChunkName(cookieName, |values|)) == None
    ensures JoinFrom(cookieName, cookies, index) == Concat(values[index..])
    decreases |values| - index
  {
    if index < |values| {
      JoinFromRun(cookieName, cookies, values, index + 1);
      assert values[index..][1..] == values[index + 1..];
    }
  }

  /**
   * Joining reads chunks 0, 1, ... up to the first one that is not set and
   * concatenates them; with no base chunk the result is `None`.
   */
  lemma JoinReadsChunksUpToFirstGap(cookieName: string, cookies: CookieRecord, values: seq<string>)
    requires forall k :: 0 <= k < |values| ==> Lookup(cookies, ChunkName(cookieName, k)) == Some(values[k])
    requires Lookup(cookies, ChunkName(cookieName, |values|)) == None
    ensures JoinedValue(cookieName, cookies) == if values == [] then None else Some(Concat(values))
  {
    JoinFromRun(cookieName, cookies, values, 0);
    assert values[0..] == values;
  }

  /** The run of set chunks is no longer than the record: a first missing chunk always exists. */
  lemma {:induction false} PresentChunksBounded(cookieName: string, cookies: CookieRecord, count: nat)
    requires forall k :: 0 <= k < count ==> Lookup(cookies, ChunkName(cookieName, k)).Some?
    ensures count <= |cookies|
  {
    ChunkNamesCount(cookieName, count);
    ChunkNamesInRecord(cookieName, cookies, count);
    SubsetCardinality(ChunkNames(cookieName, count), cookies.Keys);
  }

  lemma {:induction false} ChunkNamesInRecord(cookieName: string, cookies: CookieRecord, count: nat)
    requires forall k :: 0 <= k < count ==> Lookup(cookies, ChunkName(cookieName, k)).Some?
    ensures ChunkNames(cookieName, count) <= cookies.Keys
    decreases count
  {
    if count > 0 {
      ChunkNamesInRecord(cookieName, cookies, count - 1);
    }
  }

  lemma {:induction false} SubsetCardinality<T>(a: set<T>, b: set<T>)
    requires a <= b
    ensures |a| <= |b|
    decreases |a|
  {
    if a != {} {
      var x :| x in a;
      SubsetCardinality(a - {x}, b - {x});
    }
  }

  /**
   * A record holding cookies named chunk 0, 1, ..., n-1 of one base name
   * joins to their values concatenated in order.
   */
  lemma NamedRunJoins(cookieName: string, cookies: seq<SplitCookie>)
    requires forall i :: 0 <= i < |cookies| ==> cookies[i].name == ChunkName(cookieName, i)
    ensures JoinedValue(cookieName, ToRecord(cookies)) == if cookies == [] then None else Some(Concat(ChunkValues(cookies)))
  {
    var record := ToRecord(cookies);
    var values := ChunkValues(cookies);
    forall i, j | 0 <= i < j < |cookies|
      ensures cookies[i].name != cookies[j].name
    {
      if cookies[i].name == cookies[j].name {
        ChunkNameInjective(cookieName, i, j);
      }
    }
    forall k | 0 <= k < |values|
      ensures Lookup(record, ChunkName(cookieName, k)) == Some(values[k])
    {
      ToRecordPresent(cookies, k);
    }
    forall i | 0 <= i < |cookies|
      ensures cookies[i].name != ChunkName(cookieName, |values|)
    {
      if cookies[i].name == ChunkName(cookieName, |values|) {
        ChunkNameInjective(cookieName, i, |values|);
      }
    }
    ToRecordAbsent(cookies, ChunkName(cookieName, |values|));
    JoinReadsChunksUpToFirstGap(cookieName, record, values);
  }

  /**
   * Round trip: the record built from the cookies that splitting a
   * non-empty value produced joins back to that value.
   */
  lemma SplitThenJoin(cookieName: string, cookieValue: string, maxCookieLength: int)
    requires cookieValue != [] && maxCookieLength > 0
    ensures GetSplitCookies(cookieName, cookieValue, maxCookieLength).Success?
    ensures JoinedValue(cookieName, ToRecord(GetSplitCookies(cookieName, cookieValue, maxCookieLength).value)) == Some(cookieValue)
  {
    NamedRunJoins(cookieName, GetSplitCookies(cookieName, cookieValue, maxCookieLength).value);
  }

  /**
   * The empty value: `splitString` gives no pieces, so nothing is stored
   * and joining reports the value as absent rather than as "".
   */
  lemma EmptyValueJoinsToAbsent(cookieName: string, maxCookieLength: int)
    requires maxCookieLength > 0
    ensures GetSplitCookies(cookieName, "", maxCookieLength) == Success([])
    ensures JoinedValue(cookieName, ToRecord([])) == None
  {
  }

  /** A base cookie set to "" is present: the join gives "" when chunk 1 is not set, never `None`. */
  lemma EmptyBaseCookieIsPresent(cookieName: string, cookies: CookieRecord)
    requires Lookup(cookies, cookieName) == Some("")
    requires Lookup(cookies, ChunkName(cookieName, 1)) == None
    ensures JoinedValue(cookieName, cookies) == Some("")
  {
    JoinReadsChunksUpToFirstGap(cookieName, cookies, [""]);
  }

  lemma {:induction false} JoinFromIgnoresKeysAfterGap(
    cookieName: string, cookies: CookieRecord, gap: nat, later: nat, v: Option<string>, index: nat)
    requires Lookup(cookies, ChunkName(cookieName, gap)) == None
    requires index <= gap < later
    ensures JoinFrom(cookieName, cookies[ChunkName(cookieName, later) := v], index) == JoinFrom(cookieName, cookies, index)
    decreases gap - index
  {
    var updated := cookies[ChunkName(cookieName, later) := v];
    if ChunkName(cookieName, index) == ChunkName(cookieName, later) {
      ChunkNameInjective(cookieName, index, later);
    }
    assert Lookup(updated, ChunkName(cookieName, index)) == Lookup(cookies, ChunkName(cookieName, index));
    if index < gap {
      JoinFromIgnoresKeysAfterGap(cookieName, cookies, gap, later, v, index + 1);
    }
  }

  /** Gap stop: whatever is stored under a chunk name past the first missing chunk does not change the join. */
  lemma JoinIgnoresKeysAfterGap(cookieName: string, cookies: CookieRecord, gap: nat, later: nat, v: Option<string>)
    requires Lookup(cookies, ChunkName(cookieName, gap)) == None
    requires gap < later
    ensures JoinedValue(cookieName, cookies[ChunkName(cookieName, later) := v]) == JoinedValue(cookieName, cookies)
  {
    JoinFromIgnoresKeysAfterGap(cookieName, cookies, gap, later, v, 0);
    if ChunkName(cookieName, 0) == ChunkName(cookieName, later) {
      ChunkNameInjective(cookieName, 0, later);
    }
  }

  /**
   * Why stale chunks must be deleted before a write: one leftover chunk
   * right after the new ones is appended to the joined value.
   */
  lemma StaleChunkIsAppended(cookieName: string, cookieValue: string, maxCookieLength: int, stale: string)
    requires maxCookieLength > 0
    ensures GetSplitCookies(cookieName, cookieValue, maxCookieLength).Success?
    ensures
      var cookies := GetSplitCookies(cookieName, cookieValue, maxCookieLength).value;
      JoinedValue(cookieName, ToRecord(cookies + [SplitCookie(ChunkName(cookieName, |cookies|), stale)]))
        == Some(cookieValue + stale)
  {
    var cookies := GetSplitCookies(cookieName, cookieValue, maxCookieLength).value;
    var all := cookies + [SplitCookie(ChunkName(cookieName, |cookies|), stale)];
    assert forall i :: 0 <= i < |all| ==> all[i].name == ChunkName(cookieName, i);
    NamedRunJoins(cookieName, all);
    assert ChunkValues(all) == ChunkValues(cookies) + [stale];
    ConcatAppend(ChunkValues(cookies), [stale]);
    assert Concat([stale]) == stale + Concat([]);
    assert Concat(ChunkValues(cookies)) == cookieValue;
    assert stale + Concat([]) == stale;
    assert JoinedValue(cookieName, ToRecord(all)) == Some(Concat(ChunkValues(all)));
  }

  lemma {:induction false} ConcatOfSingles(pieces: seq<string>)
    requires forall i :: 0 <= i < |pieces| ==> |pieces[i]| == 1
    ensures |Concat(pieces)| == |pieces|
    ensures forall i :: 0 <= i < |pieces| ==> pieces[i] == [Concat(pieces)[i]]
  {
    if pieces != [] {
      ConcatOfSingles(pieces[1..]);
      forall i | 1 <= i < |pieces|
        ensures pieces[i] == [Concat(pieces)[i]]
      {
        assert pieces[1..][i - 1] == pieces[i];
      }
      assert pieces[0] == [pieces[0][0]];
    }
  }

  /** A maximum length of 1 gives one cookie per character. */
  lemma SplitByOneCharacter(cookieName: string, cookieValue: string)
    ensures GetSplitCookies(cookieName, cookieValue, 1).Success?
    ensures |GetSplitCookies(cookieName, cookieValue, 1).value| == |cookieValue|
    ensures forall i :: 0 <= i < |cookieValue| ==> GetSplitCookies(cookieName, cookieValue, 1).value[i].value == [cookieValue[i]]
  {
    var values := ChunkValues(GetSplitCookies(cookieName, cookieValue, 1).value);
    ConcatOfSingles(values);
  }

  /** Every existing cookie that splitting under this base name would write is selected for deletion. */
  lemma DeletionCoversSplitCookies(
    cookieName: string, cookieValue: string, maxCookieLength: int, existingCookieNames: seq<string>, i: nat)
    requires maxCookieLength > 0
    requires i < |GetSplitCookies(cookieName, cookieValue, maxCookieLength).value|
    requires GetSplitCookies(cookieName, cookieValue, maxCookieLength).value[i].name in existingCookieNames
    ensures GetSplitCookies(cookieName, cookieValue, maxCookieLength).value[i].name
              in GetSplitCookieNamesToDelete(cookieName, existingCookieNames)
  {
  }

  /** Names of different base names can coincide: chunk 11 of "x" is chunk 1 of "x1". */
  lemma ChunkNamesOverlapAcrossBases()
    ensures ChunkName("x", 11) == ChunkName("x1", 1) == "x11"
    ensures "x1" in GetSplitCookieNamesToDelete("x", ["x1"])
  {
    assert NatToString(11) == "11";
  }

  /**
   * The overlap reaches the join too: a one-chunk value under "x" absorbs
   * the base cookie of "x1" as if it were its chunk 1.
   */
  lemma JoinAbsorbsOtherBase()
    ensures JoinedValue("x", map["x" := Some("a"), "x1" := Some("b")]) == Some("ab")
  {
    assert ChunkName("x", 1) == "x1" && ChunkName("x", 2) == "x2";
    JoinReadsChunksUpToFirstGap("x", map["x" := Some("a"), "x1" := Some("b")], ["a", "b"]);
    assert Concat(["a", "b"]) == "a" + ("b" + "");
    assert "a" + ("b" + "") == "ab";
  }

  // Concrete scenarios.

  lemma SplitTokExample()
    ensures GetSplitCookies("tok", "abcdefgh", 3)
      == Success([SplitCookie("tok", "abc"), SplitCookie("tok1", "def"), SplitCookie("tok2", "gh")])
  {
    assert "abcdefgh"[..3] == "abc" && "abcdefgh"[3..] == "defgh";
    assert "defgh"[..3] == "def" && "defgh"[3..] == "gh";
    assert SplitString("abcdefgh", 3) == ["abc", "def", "gh"];
    assert ChunkName("tok", 1) == "tok1" && ChunkName("tok", 2) == "tok2";
    assert ChunkName("tok", 0) == "tok";
    var cookies := GetSplitCookies("tok", "abcdefgh", 3).value;
    assert |cookies| == 3;
    assert cookies[0] == SplitCookie("tok", "abc");
    assert cookies[1] == SplitCookie("tok1", "def");
    assert cookies[2] == SplitCookie("tok2", "gh");
    assert cookies == [SplitCookie("tok", "abc"), SplitCookie("tok1", "def"), SplitCookie("tok2", "gh")];
  }

  lemma JoinTokExample()
    ensures JoinedValue("tok", map["tok" := Some("abc"), "tok1" := Some("def"), "tok2" := Some("gh")]) == Some("abcdefgh")
  {
    var cookies := map["tok" := Some("abc"), "tok1" := Some("def"), "tok2" := Some("gh")];
    assert ChunkName("tok", 1) == "tok1" && ChunkName("tok", 2) == "tok2" && ChunkName("tok", 3) == "tok3";
    JoinReadsChunksUpToFirstGap("tok", cookies, ["abc", "def", "gh"]);
    assert Concat(["abc", "def", "gh"]) == "abc" + ("def" + ("gh" + ""));
    assert "abc" + ("def" + ("gh" + "")) == "abcdefgh";
  }

  lemma AbsenceExamples()
    ensures JoinedValue("x", map[]) == None
    ensures JoinedValue("x", map["x" := None]) == None
    ensures JoinedValue("x", map["x" := Some("")]) == Some("")
  {
    assert ChunkName("x", 1) == "x1";
    EmptyBaseCookieIsPresent("x", map["x" := Some("")]);
  }

  lemma GapStopExample()
    ensures JoinedValue("x", map["x" := Some("a"), "x2" := Some("b")]) == Some("a")
  {
    assert ChunkName("x", 1) == "x1";
    JoinReadsChunksUpToFirstGap("x", map["x" := Some("a"), "x2" := Some("b")], ["a"]);
    assert Concat(["a"]) == "a" + "";
    assert "a" + "" == "a";
  }

  lemma DeletionExample()
    ensures GetSplitCookieNamesToDelete("foo", ["foo", "foo1", "foo2", "bar", "foobar"]) == ["foo", "foo1", "foo2", "foobar"]
  {
    var names := ["foo", "foo1", "foo2", "bar", "foobar"];
    assert names[1..] == ["foo1", "foo2", "bar", "foobar"];
    assert names[1..][1..] == ["foo2", "bar", "foobar"];
    assert names[1..][1..][1..] == ["bar", "foobar"];
    assert names[1..][1..][1..][1..] == ["foobar"];
    assert "bar"[0] != "foo"[0] && "foobar"[..3] == "foo";
    assert GetSplitCookieNamesToDelete("foo", ["foobar"]) == ["foobar"];
    assert GetSplitCookieNamesToDelete("foo", ["bar", "foobar"]) == ["foobar"];
  }
}
