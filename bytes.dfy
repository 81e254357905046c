/** Byte strings: Go's `[]byte` and `string` alike are sequences of bytes. */
module Bytes {
  import opened Wrappers

  newtype byte = b: int | 0 <= b < 256

  type Bytes = seq<byte>

  lemma AppendAssoc<T>(a: seq<T>, b: seq<T>, c: seq<T>)
    ensures a + b + c == a + (b + c)
  {
  }

  lemma SliceConcat(s: Bytes, a: nat, b: nat, c: nat)
    requires a <= b <= c <= |s|
    ensures s[a..b] + s[b..c] == s[a..c]
  {
  }

  lemma PrefixExtend(s: Bytes, a: nat, b: nat)
    requires a <= b <= |s|
    ensures s[..a] + s[a..b] == s[..b]
  {
    assert s[..a] == s[0..a] && s[..b] == s[0..b];
    SliceConcat(s, 0, a, b);
  }

  /** strings.HasPrefix */
  predicate HasPrefix(s: Bytes, prefix: Bytes)
  {
    |prefix| <= |s| && s[..|prefix|] == prefix
  }

  /** `needle` occurs in `hay` at offset `i`. */
  predicate OccursAt(hay: Bytes, needle: Bytes, i: nat)
  {
    i + |needle| <= |hay| && hay[i..i + |needle|] == needle
  }

  /** The offset of the first occurrence of `needle` in `hay`, as a literal
      pattern's FindIndex reports it; None when there is none. */
  function FirstIndexOf(hay: Bytes, needle: Bytes): (r: Option<nat>)
    ensures r.Some? ==> OccursAt(hay, needle, r.value)
    ensures r.Some? ==> forall i: nat :: i < r.value ==> !OccursAt(hay, needle, i)
    ensures r.None? ==> forall i: nat :: !OccursAt(hay, needle, i)
    decreases |hay|
  {
    if |hay| < |needle| then None
    else if hay[..|needle|] == needle then Some(0)
    else
      var rest := FirstIndexOf(hay[1..], needle);
      ShiftOccurs(hay, needle);
      match rest
      case None => None
      case Some(i) => Some(i + 1)
  }

  /** Occurrences in `hay[1..]` are the occurrences in `hay` shifted by one. */
  lemma ShiftOccurs(hay: Bytes, needle: Bytes)
    requires |hay| > 0
    ensures forall i: nat :: 0 < i ==> (OccursAt(hay, needle, i) <==> OccursAt(hay[1..], needle, i - 1))
  {
    forall i: nat | 0 < i
      ensures OccursAt(hay, needle, i) <==> OccursAt(hay[1..], needle, i - 1)
    {
      if i + |needle| <= |hay| {
        assert hay[1..][i - 1..i - 1 + |needle|] == hay[i..i + |needle|];
      }
    }
  }
}
