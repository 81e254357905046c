/** Go slices as values: a backing array and a length.  Only what the model
    can observe is kept: appending reallocates, when the capacity is
    exceeded, to a backing array exactly as long as the new contents (Go's
    growth policy decides only when a reallocation happens, which nothing
    here can see), and re-slicing `s[:n]` reads the backing array beyond the
    current length. */
module GoSlice {

  datatype Slice<T> = Slice(backing: seq<T>, len: nat)
  {
    predicate Valid()
    {
      len <= |backing|
    }

    /** The elements `s[0:len(s)]`. */
    function Contents(): seq<T>
      requires Valid()
    {
      backing[..len]
    }

    /** cap(s) */
    function Cap(): nat
    {
      |backing|
    }
  }

  /** make([]T, 0, cap): an empty slice over a zero-filled backing array. */
  function Make<T>(zero: T, cap: nat): (s: Slice<T>)
    ensures s.Valid() && s.Contents() == [] && s.Cap() == cap
    ensures forall i :: 0 <= i < cap ==> s.backing[i] == zero
  {
    Slice(seq(cap, _ => zero), 0)
  }

  /** append(s, xs...): writes into the backing array when it has room,
      otherwise copies the contents and `xs` into a new one. */
  function Append<T>(s: Slice<T>, xs: seq<T>): (r: Slice<T>)
    requires s.Valid()
    ensures r.Valid() && r.Contents() == s.Contents() + xs
    ensures r.Cap() >= s.Cap()
    ensures 0 < s.len ==> r.backing[0] == s.backing[0]
    ensures s.len == 0 && 0 < |xs| ==> r.backing[0] == xs[0]
    ensures xs == [] ==> r == s
  {
    if s.len + |xs| <= |s.backing| then
      Slice(s.backing[..s.len] + xs + s.backing[s.len + |xs|..], s.len + |xs|)
    else
      Slice(s.Contents() + xs, s.len + |xs|)
  }

  /** s[:n], which may reach past len(s) up to cap(s). */
  function Reslice<T>(s: Slice<T>, n: nat): (r: Slice<T>)
    requires n <= s.Cap()
    ensures r.Valid() && r.Contents() == s.backing[..n] && r.Cap() == s.Cap()
  {
    Slice(s.backing, n)
  }

  /** Appending piecewise builds the same slice as appending all at once, so
      a run of appends to one buffer can be modelled by a single append. */
  lemma AppendAppend<T>(s: Slice<T>, a: seq<T>, b: seq<T>)
    requires s.Valid()
    ensures Append(Append(s, a), b) == Append(s, a + b)
  {
    var L, C := s.len, |s.backing|;
    if L + |a| <= C {
      var b1 := s.backing[..L] + a + s.backing[L + |a|..];
      assert b1[..L + |a|] == s.backing[..L] + a;
      if L + |a| + |b| <= C {
        assert b1[L + |a| + |b|..] == s.backing[L + |a| + |b|..];
        assert s.backing[..L] + a + b == s.backing[..L] + (a + b);
      } else {
        assert s.backing[..L] + a + b == s.Contents() + (a + b);
      }
    } else if b != [] {
      assert s.Contents() + a + b == s.Contents() + (a + b);
    } else {
      assert a + b == a;
    }
  }

  /** init2D: `flen` empty slices, each with capacity `slen`. */
  method Init2D<T>(flen: nat, slen: nat, zero: T) returns (s: seq<Slice<T>>)
    ensures |s| == flen
    ensures forall i :: 0 <= i < flen ==> s[i] == Make(zero, slen)
  {
    s := [];
    var i := 0;
    while i < flen
      invariant i <= flen && |s| == i
      invariant forall j :: 0 <= j < i ==> s[j] == Make(zero, slen)
    {
      s := s + [Make(zero, slen)];
      i := i + 1;
    }
  }
}
