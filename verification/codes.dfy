/**
 Input codes and the translation of human-readable key and button names
 into codes, done once when a hotkey is registered.
 */
module Codes {

  /** A key or mouse-button code as the input hook delivers it: an unsigned
      16-bit integer, scoped per device class. */
  type Code = x: int | 0 <= x < 0x1_0000

  /** A name-to-code table for one device class (keyboard or mouse). */
  type NameTable = map<string, Code>

  /** Reads a name from the table; a missing name reads as code 0, the zero
      value a map read yields for an absent key. */
  function Lookup(table: NameTable, name: string): Code
  {
    if name in table then table[name] else 0
  }

  /** Translates names to codes by appending one code per name, in order. */
  function KeyNamesToCodes(table: NameTable, names: seq<string>): (codes: seq<Code>)
    ensures |codes| == |names|
    ensures forall i :: 0 <= i < |names| && names[i] in table ==> codes[i] == table[names[i]]
    ensures forall i :: 0 <= i < |names| && names[i] !in table ==> codes[i] == 0
  {
    if |names| == 0 then []
    else KeyNamesToCodes(table, names[..|names| - 1]) + [Lookup(table, names[|names| - 1])]
  }

  /** The same translation written as the loop that appends to a growing list. */
  method ResolveNames(table: NameTable, names: seq<string>) returns (codes: seq<Code>)
    ensures |codes| == |names|
    ensures forall i :: 0 <= i < |names| ==> codes[i] == Lookup(table, names[i])
    ensures codes == KeyNamesToCodes(table, names)
  {
    codes := [];
    var i := 0;
    while i < |names|
      invariant 0 <= i <= |names|
      invariant |codes| == i
      invariant forall j :: 0 <= j < i ==> codes[j] == Lookup(table, names[j])
      invariant codes == KeyNamesToCodes(table, names[..i])
    {
      assert names[..i + 1][..i] == names[..i];
      codes := codes + [Lookup(table, names[i])];
      i := i + 1;
    }
    assert names[..i] == names;
  }

  /** Translation distributes over concatenation of name lists: resolving
      names one group at a time gives the same codes as resolving them all. */
  lemma {:induction false} KeyNamesToCodesAppend(table: NameTable, a: seq<string>, b: seq<string>)
    ensures KeyNamesToCodes(table, a + b) == KeyNamesToCodes(table, a) + KeyNamesToCodes(table, b)
  {
    var lhs := KeyNamesToCodes(table, a + b);
    var rhs := KeyNamesToCodes(table, a) + KeyNamesToCodes(table, b);
    assert |lhs| == |rhs|;
    forall i | 0 <= i < |lhs|
      ensures lhs[i] == rhs[i]
    {
      if i < |a| {
        assert (a + b)[i] == a[i];
      } else {
        assert (a + b)[i] == b[i - |a|];
      }
    }
  }
}
