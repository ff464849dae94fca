/** Byte strings, machine integers, and the bytewise order a `BTreeMap<String, _>` iterates in. */
module Bytes {
  type byte = x: int | 0 <= x < 0x100
  type u64 = x: int | 0 <= x < 0x1_0000_0000_0000_0000

  const U64_MAX: u64 := 0xFFFF_FFFF_FFFF_FFFF

  /** A length or count that fits a 64-bit `usize`. */
  predicate FitsUsize(n: nat) {
    n <= U64_MAX
  }

  // ----- Bytewise order

  /** `a` sorts strictly before `b`, comparing byte by byte with a prefix first. */
  predicate Before(a: seq<byte>, b: seq<byte>) {
    b != [] && (a == [] || a[0] < b[0] || (a[0] == b[0] && Before(a[1..], b[1..])))
  }

  /** At `i` the two are equal so far, and `a` ends or has the smaller byte. */
  predicate LessAt(a: seq<byte>, b: seq<byte>, i: nat) {
    i <= |a| && i < |b| && a[..i] == b[..i] && (i == |a| || a[i] < b[i])
  }

  /** The order is decided by the first byte that differs, the shorter first when none does. */
  lemma {:induction false} BeforeIff(a: seq<byte>, b: seq<byte>)
    ensures Before(a, b) <==> exists i: nat :: LessAt(a, b, i)
  {
    if a == [] || b == [] || a[0] != b[0] {
      assert Before(a, b) ==> LessAt(a, b, 0);
      assert forall i: nat :: LessAt(a, b, i) && i > 0 ==> a[..i][0] == b[..i][0];
    } else {
      BeforeIff(a[1..], b[1..]);
      if i: nat :| LessAt(a[1..], b[1..], i) {
        assert a[..i + 1] == [a[0]] + a[1..][..i] && b[..i + 1] == [b[0]] + b[1..][..i];
        assert LessAt(a, b, i + 1);
      }
      if i: nat :| LessAt(a, b, i) {
        assert i > 0 ==> a[1..][..i - 1] == a[..i][1..] && b[1..][..i - 1] == b[..i][1..];
        assert LessAt(a[1..], b[1..], i - 1);
      }
    }
  }

  lemma {:induction false} BeforeTrichotomy(a: seq<byte>, b: seq<byte>)
    ensures Before(a, b) || a == b || Before(b, a)
    ensures !(Before(a, b) && Before(b, a))
    ensures Before(a, b) ==> a != b
  {
    if a != [] && b != [] && a[0] == b[0] {
      BeforeTrichotomy(a[1..], b[1..]);
      assert a == [a[0]] + a[1..] && b == [b[0]] + b[1..];
    }
  }

  lemma {:induction false} BeforeTransitive(a: seq<byte>, b: seq<byte>, c: seq<byte>)
    requires Before(a, b) && Before(b, c)
    ensures Before(a, c)
  {
    if a != [] && a[0] == b[0] == c[0] {
      BeforeTransitive(a[1..], b[1..], c[1..]);
    }
  }

  // ----- Sorted iteration over a set of keys

  predicate IsLeast(k: seq<byte>, keys: set<seq<byte>>) {
    k in keys && forall o <- keys :: o == k || Before(k, o)
  }

  lemma {:induction false} LeastExists(keys: set<seq<byte>>)
    requires keys != {}
    ensures exists k :: IsLeast(k, keys)
    decreases |keys|
  {
    var k :| k in keys;
    if keys - {k} != {} {
      LeastExists(keys - {k});
      var m :| IsLeast(m, keys - {k});
      BeforeTrichotomy(k, m);
      if Before(m, k) {
        assert IsLeast(m, keys);
      } else {
        forall o <- keys
          ensures o == k || Before(k, o)
        {
          if o != k && o != m {
            BeforeTransitive(k, m, o);
          }
        }
        assert IsLeast(k, keys);
      }
    } else {
      assert keys == {k};
      assert IsLeast(k, keys);
    }
  }

  lemma LeastUnique(keys: set<seq<byte>>)
    ensures forall a, b :: IsLeast(a, keys) && IsLeast(b, keys) ==> a == b
  {
    forall a, b | IsLeast(a, keys) && IsLeast(b, keys)
      ensures a == b
    {
      BeforeTrichotomy(a, b);
    }
  }

  /** The keys in ascending bytewise order. */
  function Ascending(keys: set<seq<byte>>): (ks: seq<seq<byte>>)
    decreases |keys|
  {
    if keys == {} then []
    else
      LeastExists(keys);
      LeastUnique(keys);
      var k :| IsLeast(k, keys);
      [k] + Ascending(keys - {k})
  }

  /** `Ascending` lists every key once, in strictly ascending order. */
  lemma {:induction false} AscendingLists(keys: set<seq<byte>>)
    ensures forall k :: k in Ascending(keys) <==> k in keys
    ensures forall i, j :: 0 <= i < j < |Ascending(keys)| ==> Before(Ascending(keys)[i], Ascending(keys)[j])
    ensures |Ascending(keys)| == |keys|
    decreases |keys|
  {
    if keys != {} {
      var ks := Ascending(keys);
      LeastExists(keys);
      AscendingLists(keys - {ks[0]});
      assert ks == [ks[0]] + Ascending(keys - {ks[0]});
    }
  }
}
