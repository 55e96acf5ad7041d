/** Properties that relate several registry operations to one another. */
module RegistryFacts {
  import opened Anchor
  import opened Registry

  lemma {:induction false} CountConcat(a: Link, b: Link, addr: Addr)
    ensures Count(a + b, addr) == Count(a, addr) + Count(b, addr)
    decreases |a|
  {
    if a == [] {
      assert a + b == b;
    } else {
      assert (a + b)[1..] == a[1..] + b;
      CountConcat(a[1..], b, addr);
    }
  }

  lemma {:induction false} CountPositive(l: Link, addr: Addr)
    ensures Count(l, addr) > 0 <==> addr in Addrs(l)
    decreases |l|
  {
    if l != [] {
      CountPositive(l[1..], addr);
      assert Addrs(l) == [l[0].addr] + Addrs(l[1..]);
    }
  }

  /** A present address is found at its first record even after `add_link`
      appends it again; an absent one is found at the appended record. */
  lemma AddThenFind(l: Link, addr: Addr)
    requires addr != NoAddr
    ensures addr in Addrs(l) ==> Find(Add(l, addr), addr) == Find(l, addr)
    ensures addr !in Addrs(l) ==> Find(Add(l, addr), addr) == Found(|l|)
  {
  }

  /** `add_link` never checks for the address: appending a present address
      leaves two records with it, and `find_link` can no longer reach the
      new one. */
  lemma AddDuplicate(l: Link, addr: Addr)
    requires addr in Addrs(l)
    ensures Count(Add(l, addr), addr) == Count(l, addr) + 1 >= 2
    ensures !Unique(Add(l, addr))
    ensures forall i :: Selected(Add(l, addr), addr, i) ==> i < |l|
  {
    CountConcat(l, [NewRecord(addr)], addr);
    assert Count([NewRecord(addr)], addr) == 1;
    CountPositive(l, addr);
    var k :| 0 <= k < |l| && Addrs(l)[k] == addr;
    assert Add(l, addr)[k].addr == Add(l, addr)[|l|].addr;
  }

  /** Uniqueness survives `add_link` exactly when the address is new. */
  lemma AddKeepsUnique(l: Link, addr: Addr)
    ensures Unique(Add(l, addr)) <==> Unique(l) && addr !in Addrs(l)
  {
  }

  /** The reserved address reaches no record: a record appended with
      address 0 is kept but can never be looked up, refreshed or removed. */
  lemma ZeroAddressUnreachable(l: Link, range: real, dbm: real)
    ensures Find(Add(l, NoAddr), NoAddr) == Missing(InvalidAddress)
    ensures Fresh(Add(l, NoAddr), NoAddr, range, dbm) == Add(l, NoAddr)
    ensures Delete(Add(l, NoAddr), NoAddr) == Add(l, NoAddr)
  {
  }

  /** `fresh_link` changes no address and no position, so every later
      lookup, for any address, has the same outcome as before. */
  lemma FreshKeepsLookups(l: Link, addr: Addr, range: real, dbm: real, other: Addr)
    ensures Find(Fresh(l, addr, range, dbm), other) == Find(l, other)
    ensures Unique(Fresh(l, addr, range, dbm)) <==> Unique(l)
  {
  }

  /** An anchor appended to a registry that lacked it and then measured
      three times holds the three-step rolling mean, and nothing before it
      changed. */
  lemma ThreeReadingsAfterAdd(l: Link, addr: Addr, d: real, e: real, f: real, x: real, y: real, z: real)
    requires addr != NoAddr && addr !in Addrs(l)
    ensures var l3 := Fresh(Fresh(Fresh(Add(l, addr), addr, d, x), addr, e, y), addr, f, z);
      && |l3| == |l| + 1
      && l3[..|l|] == l
      && l3[|l|] == Record(addr, Window((f + (e + d / 3.0) / 3.0 + d / 3.0) / 3.0, (e + d / 3.0) / 3.0, d / 3.0), z)
  {
    var l0 := Add(l, addr);
    AddThenFind(l, addr);
    var l1 := Fresh(l0, addr, d, x);
    FreshKeepsLookups(l0, addr, d, x, addr);
    var l2 := Fresh(l1, addr, e, y);
    FreshKeepsLookups(l1, addr, e, y, addr);
    var l3 := Fresh(l2, addr, f, z);
    assert Selected(l0, addr, |l|) && Selected(l1, addr, |l|) && Selected(l2, addr, |l|);
    ThreeReadingsFromZero(d, e, f);
    assert l3[..|l|] == l;
  }

  /** `delete_link` on a present address removes one record: the count of
      that address drops by one, and every other address keeps its count. */
  lemma DeleteRemovesOne(l: Link, addr: Addr, other: Addr)
    requires addr != NoAddr && addr in Addrs(l)
    ensures |Delete(l, addr)| == |l| - 1
    ensures Count(Delete(l, addr), addr) == Count(l, addr) - 1
    ensures other != addr ==> Count(Delete(l, addr), other) == Count(l, other)
  {
    var i := Find(l, addr).index;
    assert l == l[..i] + [l[i]] + l[i + 1..];
    assert Delete(l, addr) == l[..i] + l[i + 1..];
    CountConcat(l[..i] + [l[i]], l[i + 1..], addr);
    CountConcat(l[..i], [l[i]], addr);
    CountConcat(l[..i], l[i + 1..], addr);
    CountConcat(l[..i] + [l[i]], l[i + 1..], other);
    CountConcat(l[..i], [l[i]], other);
    CountConcat(l[..i], l[i + 1..], other);
  }

  /** A later duplicate survives `delete_link`: with two records carrying
      the address, it is still present after one deletion. */
  lemma DeleteKeepsLaterDuplicate(l: Link, addr: Addr)
    requires addr != NoAddr && Count(l, addr) >= 2
    ensures addr in Addrs(Delete(l, addr))
  {
    CountPositive(l, addr);
    DeleteRemovesOne(l, addr, addr);
    CountPositive(Delete(l, addr), addr);
  }

  /** In a registry with unique addresses, the deleted anchor is gone for
      good: a later lookup fails, because the list is now empty when it held
      only that anchor, and because no record matches otherwise. */
  lemma DeleteThenFind(l: Link, addr: Addr)
    requires Unique(l) && addr != NoAddr
    ensures addr !in Addrs(Delete(l, addr))
    ensures Find(Delete(l, addr), addr)
      == if |Delete(l, addr)| == 0 then Missing(EmptyLink) else Missing(NotFound)
  {
    if addr in Addrs(l) {
      var i := Find(l, addr).index;
      var l' := Delete(l, addr);
      assert l' == Without(l, i);
      forall j | 0 <= j < |l'|
        ensures Addrs(l')[j] != addr
      {
        if j < i {
          assert l'[j] == l[j];
        } else {
          assert l'[j] == l[j + 1] && l[i].addr != l[j + 1].addr;
        }
      }
    }
  }

  /** `delete_link` keeps addresses unique. */
  lemma DeleteKeepsUnique(l: Link, addr: Addr)
    requires Unique(l)
    ensures Unique(Delete(l, addr))
  {
    if addr != NoAddr && addr in Addrs(l) {
      var i := Find(l, addr).index;
      var l' := Delete(l, addr);
      assert l' == Without(l, i);
      forall j, k | 0 <= j < k < |l'|
        ensures l'[j].addr != l'[k].addr
      {
        var j0 := if j < i then j else j + 1;
        var k0 := if k < i then k else k + 1;
        assert l'[j] == l[j0] && l'[k] == l[k0] && j0 < k0;
      }
    }
  }

  /** `delete_link` undoes `add_link` of an address that was not present. */
  lemma DeleteUndoesAdd(l: Link, addr: Addr)
    requires addr != NoAddr && addr !in Addrs(l)
    ensures Delete(Add(l, addr), addr) == l
  {
    AddThenFind(l, addr);
    assert Add(l, addr)[..|l|] == l;
  }
}
