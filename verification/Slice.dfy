/** A Go slice of strings: a window on a shared backing array. The operations are the ones the
    bucket store applies to its order slice; all but a growing append work in place. */
module Slice {
  import opened Seqs
  import opened LimiterModel

  class Slice {
    var backing: array<string>
    var start: nat
    var length: nat

    ghost predicate Valid()
      reads this
    {
      start + length <= backing.Length
    }

    ghost function Contents(): (s: seq<string>)
      requires Valid()
      reads this, backing
    {
      backing[start..start + length]
    }

    constructor ()
      ensures Valid() && fresh(backing) && Contents() == []
    {
      backing := new string[0];
      start, length := 0, 0;
    }

    /** append(s, key): in place while the backing array has room, else on a larger copy. */
    method Append(key: string)
      requires Valid()
      modifies this, backing
      ensures Valid() && (backing == old(backing) || fresh(backing))
      ensures Contents() == old(Contents()) + [key]
    {
      if start + length == backing.Length {
        var from, base, n := backing, start, length;
        var larger := new string[2 * n + 1];
        for i := 0 to n
          modifies larger
          invariant forall x :: 0 <= x < i ==> larger[x] == from[base + x]
        {
          larger[i] := from[base + i];
        }
        assert larger[0..n] == from[base..base + n];
        backing, start := larger, 0;
      }
      ghost var was := Contents();
      backing[start + length] := key;
      length := length + 1;
      assert Contents()[..length - 1] == was;
    }

    /** s = s[1:] */
    method DropFront()
      requires Valid() && length > 0
      modifies this
      ensures Valid() && backing == old(backing)
      ensures Contents() == old(Contents())[1..]
    {
      start, length := start + 1, length - 1;
    }

    /** s = s[:n] */
    method Truncate(n: nat)
      requires Valid() && n <= length
      modifies this
      ensures Valid() && backing == old(backing)
      ensures Contents() == old(Contents())[..n]
    {
      length := n;
    }

    /** s = append(s[:i], s[i+1:]...): shift the tail down inside the backing array. */
    method DeleteAt(i: nat)
      requires Valid() && i < length
      modifies this, backing
      ensures Valid() && backing == old(backing)
      ensures Contents() == Cut(old(Contents()), i)
    {
      ghost var was := backing[..];
      var from, low, high := backing, start + i, start + length;
      for x := low to high - 1
        modifies from
        invariant forall k :: low <= k < x ==> from[k] == was[k + 1]
        invariant forall k :: 0 <= k < from.Length && !(low <= k < x) ==> from[k] == was[k]
      {
        from[x] := from[x + 1];
      }
      length := length - 1;
    }

    /** Find the key, delete its first occurrence, and append it. */
    method Touch(key: string)
      requires Valid()
      modifies this, backing
      ensures Valid() && (backing == old(backing) || fresh(backing))
      ensures Contents() == RemoveFirst(old(Contents()), key) + [key]
    {
      ghost var was := Contents();
      var i := 0;
      while i < length && backing[start + i] != key
        invariant 0 <= i <= length
        invariant forall k :: 0 <= k < i ==> was[k] != key
      {
        i := i + 1;
      }
      RemoveFirstAt(was, key, i);
      if i < length {
        DeleteAt(i);
      }
      Append(key);
    }
  }

  lemma {:induction false} RemoveFirstAt(s: seq<string>, key: string, i: nat)
    requires i <= |s| && forall k :: 0 <= k < i ==> s[k] != key
    requires i < |s| ==> s[i] == key
    ensures RemoveFirst(s, key) == if i < |s| then Cut(s, i) else s
  {
    if i > 0 {
      RemoveFirstAt(s[1..], key, i - 1);
    }
  }
}
