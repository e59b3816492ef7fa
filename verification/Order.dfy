/** Byte order on keys, and the sequence a store's iterator walks. */
module Order {
  import opened Badger

  predicate Leq(a: Bytes, b: Bytes) {
    a == [] || (b != [] && (a[0] < b[0] || (a[0] == b[0] && Leq(a[1..], b[1..]))))
  }

  predicate Less(a: Bytes, b: Bytes) {
    a != b && Leq(a, b)
  }

  /** Below, byte by byte: at position i either a ends, or both have a byte and a's
      is the smaller number; before i they agree. */
  ghost predicate BelowAt(a: Bytes, b: Bytes, i: nat) {
    && i <= |a| && i < |b| && a[..i] == b[..i]
    && (i == |a| || a[i] < b[i])
  }

  ghost predicate Below(a: Bytes, b: Bytes) {
    exists i :: BelowAt(a, b, i)
  }

  lemma BelowSteps(a: Bytes, b: Bytes, i: nat)
    requires a != [] && b != [] && a[0] == b[0]
    ensures BelowAt(a, b, i + 1) <==> BelowAt(a[1..], b[1..], i)
  {
    if i + 1 <= |a| && i + 1 <= |b| {
      assert a[..i + 1] == [a[0]] + a[1..][..i];
      assert b[..i + 1] == [b[0]] + b[1..][..i];
      assert [a[0]] + a[1..][..i] == [b[0]] + b[1..][..i] ==> a[1..][..i] == b[1..][..i] by {
        assert ([a[0]] + a[1..][..i])[1..] == a[1..][..i];
        assert ([b[0]] + b[1..][..i])[1..] == b[1..][..i];
      }
    }
  }

  lemma FirstByteAgrees(a: Bytes, b: Bytes, i: nat)
    requires BelowAt(a, b, i)
    ensures i == 0 || (a != [] && b != [] && a[0] == b[0])
  {
    if 0 < i {
      assert a[0] == a[..i][0] && b[0] == b[..i][0];
    }
  }

  /** The order of the keys is the byte order: a is a proper prefix of b, or has the
      smaller byte where they first differ. */
  lemma {:induction false} LessIsByteOrder(a: Bytes, b: Bytes)
    ensures Less(a, b) <==> Below(a, b)
  {
    if a == [] || b == [] || a[0] != b[0] {
      forall i: nat | BelowAt(a, b, i)
        ensures i == 0
      {
        FirstByteAgrees(a, b, i);
      }
      assert Less(a, b) <==> BelowAt(a, b, 0);
    } else {
      LessIsByteOrder(a[1..], b[1..]);
      assert a == [a[0]] + a[1..] && b == [b[0]] + b[1..];
      if i: nat :| BelowAt(a, b, i) {
        assert i != 0;
        BelowSteps(a, b, i - 1);
      }
      if i: nat :| BelowAt(a[1..], b[1..], i) {
        BelowSteps(a, b, i);
      }
    }
  }

  lemma {:induction false} LeqTotal(a: Bytes, b: Bytes)
    ensures Leq(a, b) || Leq(b, a)
    ensures Leq(a, b) && Leq(b, a) ==> a == b
  {
    if a != [] && b != [] && a[0] == b[0] {
      LeqTotal(a[1..], b[1..]);
      assert a == [a[0]] + a[1..] && b == [b[0]] + b[1..];
    }
  }

  lemma {:induction false} LeqTransitive(a: Bytes, b: Bytes, c: Bytes)
    requires Leq(a, b) && Leq(b, c)
    ensures Leq(a, c)
  {
    if a != [] && a[0] == b[0] == c[0] {
      LeqTransitive(a[1..], b[1..], c[1..]);
    }
  }

  lemma {:induction false} PrefixIsLeq(p: Bytes, k: Bytes)
    requires p <= k
    ensures Leq(p, k)
  {
    if p != [] {
      assert p[1..] <= k[1..];
      PrefixIsLeq(p[1..], k[1..]);
    }
  }

  /** Keys that share a prefix are contiguous: nothing between the prefix and one
      of its keys fails to start with it. */
  lemma {:induction false} PrefixBlockIsContiguous(p: Bytes, a: Bytes, b: Bytes)
    requires Leq(p, a) && Leq(a, b) && p <= b
    ensures p <= a
  {
    if p != [] {
      assert p[0] == b[0] && p[1..] <= b[1..];
      PrefixBlockIsContiguous(p[1..], a[1..], b[1..]);
      assert p == [p[0]] + p[1..] && a == [a[0]] + a[1..];
    }
  }

  lemma LeastExists(keys: set<Bytes>)
    requires keys != {}
    ensures exists k :: k in keys && forall x :: x in keys ==> Leq(k, x)
  {
    var k :| k in keys;
    var rest := keys - {k};
    LeqTotal(k, k);
    if rest == {} {
      assert keys == {k};
    } else {
      LeastExists(rest);
      var m :| m in rest && forall x :: x in rest ==> Leq(m, x);
      LeqTotal(k, m);
      var least := if Leq(k, m) then k else m;
      forall x | x in keys
        ensures Leq(least, x)
      {
        if x != k && least == k { LeqTransitive(k, m, x); }
      }
    }
  }

  lemma LeastIsUnique(keys: set<Bytes>)
    ensures forall k, m :: k in keys && m in keys && (forall x :: x in keys ==> Leq(k, x)) && (forall x :: x in keys ==> Leq(m, x)) ==> k == m
  {
    forall k, m | k in keys && m in keys && (forall x :: x in keys ==> Leq(k, x)) && (forall x :: x in keys ==> Leq(m, x))
      ensures k == m
    {
      LeqTotal(k, m);
    }
  }

  function Least(keys: set<Bytes>): (k: Bytes)
    requires keys != {}
    ensures k in keys && forall x :: x in keys ==> Leq(k, x)
  {
    LeastExists(keys);
    LeastIsUnique(keys);
    var k :| k in keys && forall x :: x in keys ==> Leq(k, x);
    k
  }

  /** The keys in byte order. */
  function Ordered(keys: set<Bytes>): (ks: seq<Bytes>)
    ensures |ks| == |keys|
    ensures forall k :: k in ks <==> k in keys
  {
    if keys == {} then []
    else
      var k := Least(keys);
      [k] + Ordered(keys - {k})
  }

  ghost predicate Ascending(ks: seq<Bytes>) {
    forall i, j :: 0 <= i < j < |ks| ==> Less(ks[i], ks[j])
  }

  lemma {:induction false} OrderedIsAscending(keys: set<Bytes>)
    ensures Ascending(Ordered(keys))
    ensures forall i, j :: 0 <= i < j < |keys| ==> Below(Ordered(keys)[i], Ordered(keys)[j])
  {
    if keys != {} {
      var k := Least(keys);
      var rest := Ordered(keys - {k});
      OrderedIsAscending(keys - {k});
      forall j | 0 <= j < |rest|
        ensures Less(k, rest[j])
      {
        assert rest[j] in rest;
      }
    }
    forall i, j | 0 <= i < j < |keys|
      ensures Below(Ordered(keys)[i], Ordered(keys)[j])
    {
      LessIsByteOrder(Ordered(keys)[i], Ordered(keys)[j]);
    }
  }
}
