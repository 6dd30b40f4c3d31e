/**
 The combination matcher: does the tracked state hold every code of a
 combination?
 */
module Matcher {
  import opened Codes
  import opened Tracker

  /** True when every listed code is pressed; the empty combination holds in
      every state, and a code the map has never seen is not pressed. */
  function AllPressed(m: PressedMap, keys: seq<Code>): (r: bool)
    ensures r <==> forall i :: 0 <= i < |keys| ==> keys[i] in m && m[keys[i]]
  {
    |keys| == 0 || (IsPressed(m, keys[0]) && AllPressed(m, keys[1..]))
  }

  /** The matcher as a scan that stops at the first code not pressed. */
  method AllPressedScan(m: PressedMap, keys: seq<Code>) returns (r: bool)
    ensures r <==> forall k :: k in keys ==> IsPressed(m, k)
  {
    var i := 0;
    while i < |keys|
      invariant 0 <= i <= |keys|
      invariant forall j :: 0 <= j < i ==> IsPressed(m, keys[j])
    {
      if !IsPressed(m, keys[i]) {
        return false;
      }
      i := i + 1;
    }
    return true;
  }

  /** The empty combination is satisfied by every state. */
  lemma EmptyCombinationHolds(m: PressedMap)
    ensures AllPressed(m, [])
  {
  }

  /** Releasing any one required code breaks the combination. */
  lemma ReleaseBreaks(m: PressedMap, keys: seq<Code>, c: Code)
    requires c in keys
    ensures !AllPressed(m[c := false], keys)
  {
    var i :| 0 <= i < |keys| && keys[i] == c;
  }

  /** Only the set of listed codes matters, not their order or repetition. */
  lemma AllPressedDependsOnSetOnly(m: PressedMap, a: seq<Code>, b: seq<Code>)
    requires forall k :: k in a <==> k in b
    ensures AllPressed(m, a) == AllPressed(m, b)
  {
    if AllPressed(m, a) {
      forall j | 0 <= j < |b| ensures IsPressed(m, b[j]) {
        assert b[j] in a;
        var i :| 0 <= i < |a| && a[i] == b[j];
      }
    }
    if AllPressed(m, b) {
      forall j | 0 <= j < |a| ensures IsPressed(m, a[j]) {
        assert a[j] in b;
        var i :| 0 <= i < |b| && b[i] == a[j];
      }
    }
  }
}
