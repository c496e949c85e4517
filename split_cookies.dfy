/**
 * Model of lib/sdk/utilities/split-cookies.ts: a cookie value longer than
 * the per-cookie limit is stored as several cookies named `name`, `name1`,
 * `name2`, ...; joining walks those names until the first one that is not
 * set; deletion picks every existing cookie name that starts with `name`.
 *
 * The maximum length is an explicit parameter (the default read from
 * global storage settings is left out) and is an unbounded integer.
 * A cookie record `Record<string, string | undefined>` is a map to
 * `Option<string>`: a missing key and a key set to `undefined` read alike.
 */
module SplitCookies {
  import opened Wrappers
  import opened Decimal
  import opened JsUtils

  /** One physical cookie. */
  datatype SplitCookie = SplitCookie(name: string, value: string)

  /** What `getSplitCookies` throws: the length it was given. */
  datatype SplitError = InvalidMaxCookieLength(received: int)

  type CookieRecord = map<string, Option<string>>

  /** `cookies[key]`: `None` when the key is missing or set to `undefined`. */
  function Lookup(cookies: CookieRecord, key: string): (r: Option<string>)
    ensures r.None? <==> key !in cookies || cookies[key].None?
    ensures r.Some? ==> Some(r.value) in cookies.Values
  {
    if key in cookies then cookies[key] else None
  }

  /** Name of chunk `index`: the base name itself, then base + "1", "2", ... */
  function ChunkName(cookieName: string, index: nat): (name: string)
    ensures cookieName <= name
    ensures index == 0 <==> name == cookieName
  {
    assert cookieName + "" == cookieName;
    cookieName + (if index == 0 then "" else NatToString(index))
  }

  /** One base name never gives two chunks the same name. */
  lemma ChunkNameInjective(cookieName: string, i: nat, j: nat)
    requires ChunkName(cookieName, i) == ChunkName(cookieName, j)
    ensures i == j
  {
    if i != 0 && j != 0 {
      var n := |cookieName|;
      assert NatToString(i) == ChunkName(cookieName, i)[n..];
      assert NatToString(j) == ChunkName(cookieName, j)[n..];
      NatToStringInjective(i, j);
    }
  }

  /** The names of chunks 0 .. count-1. */
  function ChunkNames(cookieName: string, count: nat): set<string>
    decreases count
  {
    if count == 0 then {} else ChunkNames(cookieName, count - 1) + {ChunkName(cookieName, count - 1)}
  }

  /** Chunk `index` is not among the names of the first `count` chunks when `count <= index`. */
  lemma {:induction false} ChunkNameOutside(cookieName: string, index: nat, count: nat)
    requires count <= index
    ensures ChunkName(cookieName, index) !in ChunkNames(cookieName, count)
    decreases count
  {
    if count > 0 {
      ChunkNameOutside(cookieName, index, count - 1);
      if ChunkName(cookieName, index) == ChunkName(cookieName, count - 1) {
        ChunkNameInjective(cookieName, index, count - 1);
      }
    }
  }

  /** The first `count` chunk names are `count` distinct strings. */
  lemma {:induction false} ChunkNamesCount(cookieName: string, count: nat)
    ensures |ChunkNames(cookieName, count)| == count
    decreases count
  {
    if count > 0 {
      ChunkNamesCount(cookieName, count - 1);
      ChunkNameOutside(cookieName, count - 1, count - 1);
    }
  }

  /** Reading one more chunk leaves fewer unread keys: the join loop terminates. */
  lemma ChunkNamesShrink(cookieName: string, cookies: CookieRecord, index: nat)
    requires ChunkName(cookieName, index) in cookies
    ensures |cookies.Keys - ChunkNames(cookieName, index + 1)| < |cookies.Keys - ChunkNames(cookieName, index)|
  {
    var key := ChunkName(cookieName, index);
    ChunkNameOutside(cookieName, index, index);
    var before := cookies.Keys - ChunkNames(cookieName, index);
    assert key in before;
    assert cookies.Keys - ChunkNames(cookieName, index + 1) == before - {key};
  }

  /**
   * Splits a value into cookies of at most `maxCookieLength` characters.
   * Throws (here: `Failure`) when the length is not positive.
   */
  function GetSplitCookies(cookieName: string, cookieValue: string, maxCookieLength: int)
    : (r: Result<seq<SplitCookie>, SplitError>)
    ensures r.Failure? <==> maxCookieLength <= 0
    ensures r.Failure? ==> r.error == InvalidMaxCookieLength(maxCookieLength)
    ensures r.Success? ==> Concat(ChunkValues(r.value)) == cookieValue
    ensures r.Success? ==> (r.value == [] <==> cookieValue == [])
    ensures r.Success? ==> forall i :: 0 <= i < |r.value| ==>
              r.value[i].name == ChunkName(cookieName, i)
              && 0 < |r.value[i].value| <= maxCookieLength
              && (i < |r.value| - 1 ==> |r.value[i].value| == maxCookieLength)
  {
    if maxCookieLength <= 0 then
      Failure(InvalidMaxCookieLength(maxCookieLength))
    else
      var pieces := SplitString(cookieValue, maxCookieLength);
      var cookies := seq(|pieces|, i requires 0 <= i < |pieces| => SplitCookie(ChunkName(cookieName, i), pieces[i]));
      assert ChunkValues(cookies) == pieces;
      Success(cookies)
  }

  /** The values of the cookies, in order. */
  function ChunkValues(cookies: seq<SplitCookie>): (values: seq<string>)
    ensures |values| == |cookies|
    ensures forall i :: 0 <= i < |cookies| ==> values[i] == cookies[i].value
  {
    seq(|cookies|, i requires 0 <= i < |cookies| => cookies[i].value)
  }

  /** The value spelled by chunks `index`, `index + 1`, ... up to the first chunk that is not set. */
  function JoinFrom(cookieName: string, cookies: CookieRecord, index: nat): (r: string)
    ensures Lookup(cookies, ChunkName(cookieName, index)).None? ==> r == ""
    ensures Lookup(cookies, ChunkName(cookieName, index)).Some? ==> Lookup(cookies, ChunkName(cookieName, index)).value <= r
    decreases |cookies.Keys - ChunkNames(cookieName, index)|
  {
    match Lookup(cookies, ChunkName(cookieName, index))
    case None => ""
    case Some(chunk) =>
      ChunkNamesShrink(cookieName, cookies, index);
      chunk + JoinFrom(cookieName, cookies, index + 1)
  }

  /** What `getJoinedSplitCookieValue` returns: `None` when the base cookie is not set. */
  function JoinedValue(cookieName: string, cookies: CookieRecord): (r: Option<string>)
    ensures r.None? <==> Lookup(cookies, cookieName).None?
    ensures Lookup(cookies, cookieName).Some? ==> Lookup(cookies, cookieName).value <= r.value
  {
    if Lookup(cookies, cookieName).None? then None
    else Some(JoinFrom(cookieName, cookies, 0))
  }

  /** The loop of `getJoinedSplitCookieValue`. */
  method GetJoinedSplitCookieValue(cookieName: string, cookies: CookieRecord) returns (r: Option<string>)
    ensures r == JoinedValue(cookieName, cookies)
  {
    if Lookup(cookies, cookieName).None? {
      return None;
    }
    var value := "";
    var index: nat := 0;
    var key := cookieName;
    var chunk := Lookup(cookies, key);
    while chunk.Some?
      invariant key == ChunkName(cookieName, index)
      invariant chunk == Lookup(cookies, key)
      invariant value + JoinFrom(cookieName, cookies, index) == JoinFrom(cookieName, cookies, 0)
      decreases |cookies.Keys - ChunkNames(cookieName, index)|
    {
      ChunkNamesShrink(cookieName, cookies, index);
      value := value + chunk.value;
      index := index + 1;
      key := cookieName + NatToString(index);
      chunk := Lookup(cookies, key);
    }
    assert JoinFrom(cookieName, cookies, index) == "";
    assert value + "" == value;
    return Some(value);
  }

  /** `a` is `b` with some elements deleted, the rest in their original order. */
  predicate IsSubsequence<T(==)>(a: seq<T>, b: seq<T>)
    decreases |b|
  {
    if a == [] then true
    else if b == [] then false
    else (a[0] == b[0] && IsSubsequence(a[1..], b[1..])) || IsSubsequence(a, b[1..])
  }

  /** The existing cookie names that start with `cookieName`, in their original order. */
  function GetSplitCookieNamesToDelete(cookieName: string, existingCookieNames: seq<string>): (r: seq<string>)
    ensures forall name :: multiset(r)[name] == if cookieName <= name then multiset(existingCookieNames)[name] else 0
    ensures IsSubsequence(r, existingCookieNames)
  {
    if existingCookieNames == [] then []
    else
      var first := existingCookieNames[0];
      var rest := GetSplitCookieNamesToDelete(cookieName, existingCookieNames[1..]);
      assert existingCookieNames == [first] + existingCookieNames[1..];
      if cookieName <= first then [first] + rest else rest
  }
}
