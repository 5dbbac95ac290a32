/** Small arithmetic shared by the components, and bytes. */
module Numbers {
  function SaturatingSub(a: nat, b: nat): nat {
    if b <= a then a - b else 0
  }

  function Min(a: nat, b: nat): nat {
    if b < a then b else a
  }

  ghost predicate Increasing(s: seq<nat>) {
    forall i, j :: 0 <= i < j < |s| ==> s[i] < s[j]
  }

  lemma SameEmpty(s: seq<nat>, t: seq<nat>)
    requires forall k: nat :: k in s <==> k in t
    ensures s == [] <==> t == []
  {
    if t != [] {
      var k := t[0];
      assert k in t && k in s;
    }
    if s != [] {
      var k := s[0];
      assert k in s && k in t;
    }
  }

  /** An increasing list is determined by its members. */
  lemma {:induction false} IncreasingUnique(s: seq<nat>, t: seq<nat>)
    requires Increasing(s) && Increasing(t) && forall k: nat :: k in s <==> k in t
    ensures s == t
    decreases |s|
  {
    SameEmpty(s, t);
    if s != [] {
      assert s[0] in t && t[0] in s;
      assert s[0] == t[0];
      forall k: nat
        ensures k in s[1..] <==> k in t[1..]
      {
        assert k in s[1..] ==> k in s && k != s[0];
        assert k in t[1..] ==> k in t && k != t[0];
      }
      IncreasingUnique(s[1..], t[1..]);
      assert s == [s[0]] + s[1..] && t == [t[0]] + t[1..];
    }
  }

  newtype Byte = x: int | 0 <= x < 256

  type Bytes = seq<Byte>

  const COLON: Byte := 0x3A
}
