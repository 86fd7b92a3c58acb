/** The few `String` operations the calculator uses, on `seq<char>`. */
module Strings {

  /** Swift's `hasPrefix`: `p` is an initial segment of `s`. */
  predicate HasPrefix(s: seq<char>, p: seq<char>)
    ensures HasPrefix(s, p) <==> |p| <= |s| && forall i :: 0 <= i < |p| ==> s[i] == p[i]
    ensures HasPrefix(s, p) ==> s == p + s[|p|..]
  {
    |p| <= |s| && s[..|p|] == p
  }

  /** Swift's mutating `trimPrefix(_:)`: removes `p` once from the front of
      `s` if `s` begins with it, and otherwise leaves `s` as it is. */
  function TrimPrefix(s: seq<char>, p: seq<char>): (r: seq<char>)
    ensures HasPrefix(s, p) ==> p + r == s
    ensures !HasPrefix(s, p) ==> r == s
  {
    if HasPrefix(s, p) then s[|p|..] else s
  }
}
