/**
 * Reference definition of the `splitString` primitive the cookie code
 * imports from the `@kinde/js-utils` package, with the contract the cookie
 * code relies on: the pieces, read left to right, spell the input; each
 * piece holds between 1 and `size` characters and all but the last hold
 * exactly `size`.  The empty string gives no pieces.
 */
module JsUtils {

  /** The pieces joined end to end, as `pieces.join('')` does. */
  function Concat(pieces: seq<string>): string {
    if pieces == [] then [] else pieces[0] + Concat(pieces[1..])
  }

  lemma {:induction false} ConcatAppend(a: seq<string>, b: seq<string>)
    ensures Concat(a + b) == Concat(a) + Concat(b)
  {
    if a != [] {
      assert (a + b)[1..] == a[1..] + b;
      ConcatAppend(a[1..], b);
    } else {
      assert a + b == b;
    }
  }

  function SplitString(s: string, size: int): (pieces: seq<string>)
    requires size > 0
    ensures Concat(pieces) == s
    ensures forall i :: 0 <= i < |pieces| ==> 0 < |pieces[i]| <= size
    ensures forall i :: 0 <= i < |pieces| - 1 ==> |pieces[i]| == size
    ensures pieces == [] <==> s == []
    decreases |s|
  {
    if |s| == 0 then []
    else if |s| <= size then [s]
    else [s[..size]] + SplitString(s[size..], size)
  }
}
