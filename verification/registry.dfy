/** The anchor registry: the records reachable from the sentinel head, in
    list order. The sentinel carries no data and is left implicit, so the
    registry is the plain sequence of records behind it. */
module Registry {
  import opened Anchor

  type Link = seq<Record>

  /** Why a lookup hands back no record (each is a NULL return of the source). */
  datatype Miss = InvalidAddress | EmptyLink | NotFound

  /** The outcome of a lookup: the position of the record found, or why none was. */
  datatype Lookup = Found(index: nat) | Missing(why: Miss)

  /** The addresses of the records, in list order. */
  function Addrs(l: Link): (s: seq<Addr>)
    ensures |s| == |l|
    ensures forall i :: 0 <= i < |l| ==> s[i] == l[i].addr
  {
    seq(|l|, i requires 0 <= i < |l| => l[i].addr)
  }

  /** Record `i` is the first one, in list order, whose address is `addr`. */
  predicate FirstWith(l: Link, addr: Addr, i: int)
  {
    0 <= i < |l| && l[i].addr == addr && forall j :: 0 <= j < i ==> l[j].addr != addr
  }

  /** How many records carry `addr`. */
  function Count(l: Link, addr: Addr): nat
  {
    if l == [] then 0 else (if l[0].addr == addr then 1 else 0) + Count(l[1..], addr)
  }

  /** No two records share an address (the intended, unenforced invariant). */
  predicate Unique(l: Link)
  {
    forall i, j :: 0 <= i < j < |l| ==> l[i].addr != l[j].addr
  }

  /** `init_link`: a registry holding only its sentinel. */
  function Init(): (l: Link)
    ensures |l| == 0
  {
    []
  }

  /** `add_link`: appends a zeroed record for `addr` after the last record,
      whether or not `addr` is already present. */
  function Add(l: Link, addr: Addr): (l': Link)
    ensures |l'| == |l| + 1
    ensures l'[..|l|] == l
    ensures l'[|l|].addr == addr && l'[|l|].range == ZeroWindow && l'[|l|].dbm == 0.0
  {
    l + [NewRecord(addr)]
  }

  /** The position of the first record at or after `from` with address
      `addr`, or `|l|` when there is none (the scan ran off the end). */
  function Scan(l: Link, addr: Addr, from: nat): (r: nat)
    requires from <= |l|
    ensures from <= r <= |l|
    ensures r < |l| ==> l[r].addr == addr
    ensures forall j :: from <= j < r ==> l[j].addr != addr
    decreases |l| - from
  {
    if from == |l| then |l|
    else if l[from].addr == addr then from
    else Scan(l, addr, from + 1)
  }

  /** `find_link`: the zero address and the empty list are refused first;
      otherwise the first record with the address is handed back. */
  function Find(l: Link, addr: Addr): (r: Lookup)
    ensures addr == NoAddr ==> r == Missing(InvalidAddress)
    ensures addr != NoAddr && |l| == 0 ==> r == Missing(EmptyLink)
    ensures r.Found? <==> addr != NoAddr && addr in Addrs(l)
    ensures r.Found? ==> FirstWith(l, addr, r.index)
    ensures r == Missing(NotFound) <==> addr != NoAddr && |l| != 0 && addr !in Addrs(l)
  {
    if addr == NoAddr then Missing(InvalidAddress)
    else if |l| == 0 then Missing(EmptyLink)
    else
      var i := Scan(l, addr, 0);
      if i < |l| then Found(i) else Missing(NotFound)
  }

  /** The record `find_link` reaches: some record has the address, and the
      address is not the reserved zero. */
  predicate Selected(l: Link, addr: Addr, i: int)
  {
    addr != NoAddr && FirstWith(l, addr, i)
  }

  /** `fresh_link`: the record `find_link` selects takes the new reading;
      every other record, and the list's order, stay as they were. */
  function Fresh(l: Link, addr: Addr, range: real, dbm: real): (l': Link)
    ensures |l'| == |l|
    ensures Addrs(l') == Addrs(l)
    ensures forall i :: 0 <= i < |l| && Selected(l, addr, i) ==> l'[i] == Refresh(l[i], range, dbm)
    ensures forall i :: 0 <= i < |l| && !Selected(l, addr, i) ==> l'[i] == l[i]
    ensures addr == NoAddr || addr !in Addrs(l) ==> l' == l
  {
    match Find(l, addr)
    case Found(i) => l[i := Refresh(l[i], range, dbm)]
    case Missing(_) => l
  }

  /** The list with record `i` unlinked: the records before it stay in
      place and the ones after it move up by one. */
  function Without(l: Link, i: nat): (l': Link)
    requires i < |l|
    ensures |l'| == |l| - 1
    ensures forall j :: 0 <= j < i ==> l'[j] == l[j]
    ensures forall j :: i <= j < |l'| ==> l'[j] == l[j + 1]
  {
    l[..i] + l[i + 1..]
  }

  /** The list with its first record carrying `addr` unlinked. */
  function RemoveFirst(l: Link, addr: Addr): (l': Link)
    ensures addr !in Addrs(l) ==> l' == l
    ensures forall i :: FirstWith(l, addr, i) ==> l' == Without(l, i)
  {
    if l == [] then []
    else if l[0].addr == addr then l[1..]
    else
      var rest := RemoveFirst(l[1..], addr);
      assert l == [l[0]] + l[1..];
      forall i | FirstWith(l, addr, i)
        ensures [l[0]] + rest == Without(l, i)
      {
        assert FirstWith(l[1..], addr, i - 1);
        assert l[1..][..i - 1] == l[1..i] && l[1..][i..] == l[i + 1..];
        assert l[..i] == [l[0]] + l[1..i];
      }
      [l[0]] + rest
  }

  /** `delete_link`: nothing happens for the zero address; otherwise the
      first record with the address is removed and all others keep their
      order, later duplicates included. */
  function Delete(l: Link, addr: Addr): (l': Link)
    ensures addr == NoAddr || addr !in Addrs(l) ==> l' == l
    ensures forall i :: Selected(l, addr, i) ==> l' == Without(l, i)
  {
    if addr == NoAddr then l else RemoveFirst(l, addr)
  }

  /** The while loop of `find_link`: `i` is the position of the record
      after the node the cursor stands on. */
  method FindLink(l: Link, addr: Addr) returns (r: Lookup)
    ensures r == Find(l, addr)
  {
    if addr == NoAddr {
      return Missing(InvalidAddress);
    }
    if |l| == 0 {
      return Missing(EmptyLink);
    }
    var i := 0;
    while i < |l|
      invariant 0 <= i <= |l|
      invariant Scan(l, addr, 0) == Scan(l, addr, i)
    {
      if l[i].addr == addr {
        return Found(i);
      }
      i := i + 1;
    }
    return Missing(NotFound);
  }

  /** The look-ahead loop of `delete_link`: the cursor stands on the node
      before record `i` and unlinks that record when it matches. */
  method DeleteLink(l: Link, addr: Addr) returns (l': Link)
    ensures l' == Delete(l, addr)
  {
    if addr == NoAddr {
      return l;
    }
    var i := 0;
    while i < |l|
      invariant 0 <= i <= |l|
      invariant forall j :: 0 <= j < i ==> l[j].addr != addr
    {
      if l[i].addr == addr {
        assert FirstWith(l, addr, i);
        return Without(l, i);
      }
      i := i + 1;
    }
    return l;
  }
}
