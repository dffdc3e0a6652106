/** Migration records and the registry operations on them: ordering by
    version, linking neighbours, and the exact-match lookup by version. */
module Records {

  datatype Option<T> = None | Some(value: T)

  /** Errors the core passes on. `ErrNoRows` and `ErrNoNextVersion` are the
      two sentinel errors of the database layer and of goose; every other
      failure is an opaque `DbFailure`. */
  datatype Error = ErrNoRows | ErrNoNextVersion | DbFailure(code: nat)

  /** One versioned schema change. `previous` and `next` are the neighbour
      links filled in by `SortAndConnectMigrations`; `source` stands for all
      the other fields of the record, which the core never writes. */
  datatype Migration = Migration(version: int, previous: int, next: int, source: string)

  function Versions(s: seq<Migration>): (vs: seq<int>)
    ensures |vs| == |s|
    ensures forall i :: 0 <= i < |s| ==> vs[i] == s[i].version
  {
    seq(|s|, i requires 0 <= i < |s| => s[i].version)
  }

  ghost predicate SortedByVersion(s: seq<Migration>) {
    forall i, j :: 0 <= i < j < |s| ==> s[i].version <= s[j].version
  }

  ghost predicate StrictlySorted(s: seq<Migration>) {
    forall i, j :: 0 <= i < j < |s| ==> s[i].version < s[j].version
  }

  ghost predicate DistinctVersions(s: seq<Migration>) {
    forall i, j :: 0 <= i < j < |s| ==> s[i].version != s[j].version
  }

  /** Two sequences hold the same records up to the link fields. */
  ghost predicate SameRecords(s: seq<Migration>, t: seq<Migration>) {
    |s| == |t| &&
    forall i :: 0 <= i < |s| ==> t[i].version == s[i].version && t[i].source == s[i].source
  }

  /** The doubly-linked total order of the registry: the first record has
      no predecessor (-1), and adjacent records point at each other. */
  ghost predicate DoublyLinked(s: seq<Migration>) {
    (|s| > 0 ==> s[0].previous == -1) &&
    forall i :: 0 < i < |s| ==> s[i].previous == s[i - 1].version && s[i - 1].next == s[i].version
  }

  /** What the linking loop makes of a sequence: every `previous` and every
      `next` but the last one's is assigned; the last `next` keeps its value. */
  function Linked(s: seq<Migration>): seq<Migration> {
    seq(|s|, k requires 0 <= k < |s| => LinkedAt(s, k))
  }

  function LinkedAt(s: seq<Migration>, k: nat): Migration
    requires k < |s|
  {
    s[k].(previous := if k == 0 then -1 else s[k - 1].version,
          next := if k + 1 < |s| then s[k + 1].version else s[k].next)
  }

  lemma LinkedIsDoublyLinked(s: seq<Migration>)
    ensures SameRecords(s, Linked(s))
    ensures DoublyLinked(Linked(s))
    ensures |s| > 0 ==> Linked(s)[|s| - 1].next == s[|s| - 1].next
  {
  }

  /** Conversely, the linking result is the only sequence that keeps the
      records, is doubly linked and leaves the last `next` alone. */
  lemma DoublyLinkedIsLinked(s: seq<Migration>, t: seq<Migration>)
    requires SameRecords(s, t) && DoublyLinked(t)
    requires |s| > 0 ==> t[|s| - 1].next == s[|s| - 1].next
    ensures t == Linked(s)
  {
    var l := Linked(s);
    forall k | 0 <= k < |s| ensures t[k] == l[k] {
      if k + 1 < |s| {
        assert t[k + 1].previous == t[k].version && t[k].next == t[k + 1].version;
      }
    }
  }

  /** Linking an already linked sequence changes nothing. */
  lemma LinkedIdempotent(s: seq<Migration>)
    ensures Linked(Linked(s)) == Linked(s)
  {
    LinkedIsDoublyLinked(s);
    LinkedIsDoublyLinked(Linked(s));
    DoublyLinkedIsLinked(Linked(s), Linked(Linked(s)));
  }

  // ----- permutations and uniqueness of the sorted order -----

  lemma {:induction false} DistinctCountAtMostOne(q: seq<Migration>, x: Migration)
    requires DistinctVersions(q)
    ensures multiset(q)[x] <= 1
  {
    if |q| > 0 {
      var init, last := q[..|q| - 1], q[|q| - 1];
      assert q == init + [last];
      DistinctCountAtMostOne(init, x);
      if x == last {
        forall i | 0 <= i < |init| ensures init[i] != x {
          assert q[i].version != q[|q| - 1].version;
        }
      }
    }
  }

  lemma TwiceCountsTwice(p: seq<Migration>, i: nat, j: nat)
    requires i < j < |p| && p[i] == p[j]
    ensures multiset(p)[p[i]] >= 2
  {
    assert p == p[..j] + p[j..];
    assert p[i] in p[..j];
    assert p[j] in p[j..];
  }

  lemma PermutationKeepsDistinct(q: seq<Migration>, p: seq<Migration>)
    requires DistinctVersions(q) && multiset(p) == multiset(q)
    ensures DistinctVersions(p)
  {
    forall i, j | 0 <= i < j < |p| ensures p[i].version != p[j].version {
      assert p[i] in multiset(q) && p[j] in multiset(q);
      var a :| 0 <= a < |q| && q[a] == p[i];
      var b :| 0 <= b < |q| && q[b] == p[j];
      if a == b {
        TwiceCountsTwice(p, i, j);
        DistinctCountAtMostOne(q, p[i]);
      }
    }
  }

  /** A strictly sorted sequence is the only version-sorted arrangement of
      its records. */
  lemma {:induction false} SortedPermutationUnique(s: seq<Migration>, t: seq<Migration>)
    requires StrictlySorted(s) && SortedByVersion(t) && multiset(s) == multiset(t)
    ensures s == t
  {
    assert |s| == |multiset(s)| == |multiset(t)| == |t|;
    if |s| > 0 {
      SameHead(s, t);
      SameTail(s, t);
      SortedPermutationUnique(s[1..], t[1..]);
      assert s == [s[0]] + s[1..];
      assert t == [t[0]] + t[1..];
    }
  }

  /** Both arrangements start with the record of least version. */
  lemma SameHead(s: seq<Migration>, t: seq<Migration>)
    requires StrictlySorted(s) && SortedByVersion(t) && multiset(s) == multiset(t)
    requires |s| > 0 && |t| > 0
    ensures s[0] == t[0]
  {
    assert s[0] in multiset(t) && t[0] in multiset(s);
    var j :| 0 <= j < |t| && t[j] == s[0];
    var k :| 0 <= k < |s| && s[k] == t[0];
    assert s[k].version == s[0].version;
  }

  lemma SameTail(s: seq<Migration>, t: seq<Migration>)
    requires |s| > 0 && |t| > 0 && s[0] == t[0] && multiset(s) == multiset(t)
    ensures multiset(s[1..]) == multiset(t[1..])
  {
    assert s == [s[0]] + s[1..];
    assert t == [t[0]] + t[1..];
    assert multiset(s[1..]) == multiset(s) - multiset{s[0]};
    assert multiset(t[1..]) == multiset(t) - multiset{t[0]};
  }

  /** Sorting and linking, applied to its own output, changes nothing when the
      versions are distinct: `q` is the first input, `s1` the order the first
      sort chose, `s2` the order the second sort chose on `Linked(s1)`. */
  lemma SortAndConnectIdempotent(q: seq<Migration>, s1: seq<Migration>, s2: seq<Migration>)
    requires DistinctVersions(q)
    requires SortedByVersion(s1) && multiset(s1) == multiset(q)
    requires SortedByVersion(s2) && multiset(s2) == multiset(Linked(s1))
    ensures Linked(s2) == Linked(s1)
  {
    PermutationKeepsDistinct(q, s1);
    LinkedIsDoublyLinked(s1);
    var l := Linked(s1);
    assert StrictlySorted(l);
    SortedPermutationUnique(l, s2);
    LinkedIdempotent(s1);
  }

  // ----- the in-place operations -----

  method Swap(a: array<Migration>, i: nat, j: nat)
    requires i < j < a.Length
    modifies a
    ensures a[i] == old(a[j]) && a[j] == old(a[i])
    ensures forall m :: 0 <= m < a.Length && m != i && m != j ==> a[m] == old(a[m])
    ensures multiset(a[..]) == old(multiset(a[..]))
  {
    a[i], a[j] := a[j], a[i];
  }

  /** `sort.Sort` on the registry, ordering by `Version`: the result is in
      ascending version order and a permutation of the input. */
  method SortByVersion(a: array<Migration>)
    modifies a
    ensures SortedByVersion(a[..])
    ensures multiset(a[..]) == old(multiset(a[..]))
  {
    var i := 0;
    while i < a.Length
      invariant 0 <= i <= a.Length
      invariant SortedByVersion(a[..i])
      invariant multiset(a[..]) == old(multiset(a[..]))
    {
      var j := i;
      while j > 0 && a[j - 1].version > a[j].version
        invariant 0 <= j <= i
        invariant forall p, q :: 0 <= p < q <= i && p != j && q != j ==> a[p].version <= a[q].version
        invariant forall q :: j < q <= i ==> a[j].version <= a[q].version
        invariant multiset(a[..]) == old(multiset(a[..]))
      {
        Swap(a, j - 1, j);
        j := j - 1;
      }
      i := i + 1;
    }
  }

  /** The element at `k` once the linking loop has run its first `i`
      iterations: iteration `i` sets the `previous` of element `i` and the
      `next` of element `i - 1`. */
  ghost function LinkedAfter(s: seq<Migration>, i: nat, k: nat): Migration
    requires k < |s|
  {
    if k + 1 < i then LinkedAt(s, k)
    else if k < i then s[k].(previous := if k == 0 then -1 else s[k - 1].version)
    else s[k]
  }

  /** The linking loop of `sortAndConnectMigrations`. */
  method ConnectMigrations(a: array<Migration>)
    modifies a
    ensures a[..] == Linked(old(a[..]))
  {
    ghost var s := a[..];
    for i := 0 to a.Length
      invariant forall k :: 0 <= k < a.Length ==> a[k] == LinkedAfter(s, i, k)
    {
      var prev := -1;
      if i > 0 {
        prev := a[i - 1].version;
        a[i - 1] := a[i - 1].(next := a[i].version);
      }
      a[i] := a[i].(previous := prev);
    }
    forall k | 0 <= k < a.Length ensures a[k] == Linked(s)[k] {
      assert a[k] == LinkedAfter(s, a.Length, k);
    }
    assert a[..] == Linked(s);
  }

  /** `sortAndConnectMigrations`: sorts the registry in place and links it.
      `sorted` is the order the sort chose. */
  method SortAndConnectMigrations(a: array<Migration>) returns (ghost sorted: seq<Migration>)
    modifies a
    ensures SortedByVersion(sorted) && multiset(sorted) == old(multiset(a[..]))
    ensures a[..] == Linked(sorted)
    ensures SortedByVersion(a[..]) && DoublyLinked(a[..])
  {
    SortByVersion(a);
    sorted := a[..];
    ConnectMigrations(a);
    LinkedIsDoublyLinked(sorted);
  }

  // ----- lookup by version -----

  /** The first index holding `v` as its version, if any. */
  function IndexOf(s: seq<Migration>, v: int): (r: Option<nat>)
    ensures r.Some? ==> r.value < |s| && s[r.value].version == v
    ensures r.Some? ==> forall j :: 0 <= j < r.value ==> s[j].version != v
    ensures r.None? ==> forall j :: 0 <= j < |s| ==> s[j].version != v
  {
    if s == [] then None
    else if s[0].version == v then Some(0)
    else match IndexOf(s[1..], v)
      case None => None
      case Some(i) => Some(i + 1)
  }

  /** `Migrations.Current`, as an exact-match scan of the registry. */
  method Current(ms: seq<Migration>, v: int) returns (r: Option<nat>)
    ensures r == IndexOf(ms, v)
  {
    var i := 0;
    while i < |ms|
      invariant 0 <= i <= |ms|
      invariant forall j :: 0 <= j < i ==> ms[j].version != v
    {
      if ms[i].version == v {
        return Some(i);
      }
      i := i + 1;
    }
    return None;
  }
}
