/**
 * The order `SshConfig.write` puts records in before printing them,
 * `configs.sort! { |a,b| a.host <=> b.host }`, and the text it then prints.
 */
module HostOrder {
  import opened Wrappers
  import opened HostRecords

  /** `String#<=>` as "less or equal": lexicographic on characters, a proper
      prefix first. On valid UTF-8 text the byte order Ruby uses and the order
      of code points agree. */
  predicate LexLe(a: string, b: string) {
    a == [] || (b != [] && (a[0] < b[0] || (a[0] == b[0] && LexLe(a[1..], b[1..]))))
  }

  /** The host order. Nil hosts are only ever compared with nil hosts
      (`nil <=> nil` is 0): a nil host compared with a string makes `sort!`
      raise, see `SshConfigStore.Comparable`. */
  predicate HostLe(a: Option<string>, b: Option<string>) {
    match a
    case None => true
    case Some(x) => b.Some? && LexLe(x, b.value)
  }

  lemma {:induction false} LexLeTotal(a: string, b: string)
    ensures LexLe(a, b) || LexLe(b, a)
  {
    if a != [] && b != [] && a[0] == b[0] {
      LexLeTotal(a[1..], b[1..]);
    }
  }

  lemma {:induction false} LexLeTransitive(a: string, b: string, c: string)
    requires LexLe(a, b) && LexLe(b, c)
    ensures LexLe(a, c)
  {
    if a != [] && b != [] && c != [] && a[0] == b[0] == c[0] {
      LexLeTransitive(a[1..], b[1..], c[1..]);
    }
  }

  lemma {:induction false} LexLeAntisymmetric(a: string, b: string)
    requires LexLe(a, b) && LexLe(b, a)
    ensures a == b
  {
    if a != [] && b != [] {
      LexLeAntisymmetric(a[1..], b[1..]);
      assert a == [a[0]] + a[1..] && b == [b[0]] + b[1..];
    }
  }

  /** The host order is a total preorder on hosts and, on hosts, antisymmetric. */
  lemma HostLeTotalOrder(a: Option<string>, b: Option<string>, c: Option<string>)
    ensures HostLe(a, b) || HostLe(b, a)
    ensures HostLe(a, b) && HostLe(b, c) ==> HostLe(a, c)
    ensures HostLe(a, b) && HostLe(b, a) ==> a == b
  {
    if a.Some? && b.Some? {
      LexLeTotal(a.value, b.value);
      if HostLe(a, b) && HostLe(b, a) {
        LexLeAntisymmetric(a.value, b.value);
      }
      if c.Some? && HostLe(a, b) && HostLe(b, c) {
        LexLeTransitive(a.value, b.value, c.value);
      }
    }
  }

  /** Records in ascending host order. */
  predicate Sorted(rs: seq<HostRecord>) {
    forall i, j | 0 <= i < j < |rs| :: HostLe(rs[i].host, rs[j].host)
  }

  /** No two records share a host. */
  predicate UniqueHosts(rs: seq<HostRecord>) {
    forall i, j | 0 <= i < j < |rs| :: rs[i].host != rs[j].host
  }

  /** Places a record in front of the first record it does not sort after. */
  function Insert(r: HostRecord, s: seq<HostRecord>): seq<HostRecord>
  {
    if s == [] then [r]
    else if HostLe(r.host, s[0].host) then [r] + s
    else [s[0]] + Insert(r, s[1..])
  }

  /** Inserting adds the record and keeps every other one. */
  lemma {:induction false} InsertMultiset(r: HostRecord, s: seq<HostRecord>)
    ensures multiset(Insert(r, s)) == multiset(s) + multiset{r}
  {
    if s == [] {
      assert Insert(r, s) == [r];
    } else if HostLe(r.host, s[0].host) {
      assert Insert(r, s) == [r] + s;
    } else {
      var t := Insert(r, s[1..]);
      InsertMultiset(r, s[1..]);
      assert Insert(r, s) == [s[0]] + t;
      assert multiset([s[0]] + t) == multiset{s[0]} + multiset(t);
      assert s == [s[0]] + s[1..];
      assert multiset(s) == multiset{s[0]} + multiset(s[1..]);
    }
  }

  /** A host placed before a sorted sequence whose elements it does not exceed
      keeps it sorted. */
  lemma SortedCons(x: HostRecord, s: seq<HostRecord>)
    requires Sorted(s)
    requires forall y: HostRecord | y in multiset(s) :: HostLe(x.host, y.host)
    ensures Sorted([x] + s)
  {
    forall j | 1 <= j < |s| + 1
      ensures HostLe(x.host, ([x] + s)[j].host)
    {
      assert s[j - 1] in multiset(s);
    }
  }

  lemma {:induction false} InsertSorted(r: HostRecord, s: seq<HostRecord>)
    requires Sorted(s)
    ensures Sorted(Insert(r, s))
    ensures multiset(Insert(r, s)) == multiset(s) + multiset{r}
  {
    InsertMultiset(r, s);
    if s == [] {
    } else if HostLe(r.host, s[0].host) {
      forall y: HostRecord | y in multiset(s)
        ensures HostLe(r.host, y.host)
      {
        var k :| 0 <= k < |s| && s[k] == y;
        HostLeTotalOrder(r.host, s[0].host, s[k].host);
      }
      SortedCons(r, s);
    } else {
      var t := Insert(r, s[1..]);
      InsertSorted(r, s[1..]);
      HostLeTotalOrder(r.host, s[0].host, r.host);
      forall y: HostRecord | y in multiset(t)
        ensures HostLe(s[0].host, y.host)
      {
        if y != r {
          var k :| 0 <= k < |s[1..]| && s[1..][k] == y;
          assert y == s[k + 1];
        }
      }
      SortedCons(s[0], t);
    }
  }

  /** What `sort!` produces: the same records, ordered by host. (Ruby's sort
      is not stable; this insertion sort is, and `SortedPermutationUnique`
      shows the choice is immaterial when hosts are unique.) */
  function SortByHost(s: seq<HostRecord>): (r: seq<HostRecord>)
    ensures Sorted(r)
    ensures multiset(r) == multiset(s)
  {
    if s == [] then []
    else
      var t := SortByHost(s[1..]);
      InsertSorted(s[0], t);
      assert s == [s[0]] + s[1..];
      Insert(s[0], t)
  }

  /** Sorting records that are already in order leaves them as they are, so
      writing a file that was itself written by `write` reproduces it. */
  lemma {:induction false} SortSortedIsIdentity(s: seq<HostRecord>)
    requires Sorted(s)
    ensures SortByHost(s) == s
  {
    if s != [] {
      SortSortedIsIdentity(s[1..]);
      assert s == [s[0]] + s[1..];
    }
  }

  lemma SortedHeadsAgree(a: seq<HostRecord>, b: seq<HostRecord>)
    requires Sorted(a) && Sorted(b) && UniqueHosts(a)
    requires multiset(a) == multiset(b) && a != []
    ensures b != [] && a[0] == b[0]
  {
    assert a[0] in multiset(b) && |b| > 0 && b[0] in multiset(a);
    var i :| 0 <= i < |a| && a[i] == b[0];
    var j :| 0 <= j < |b| && b[j] == a[0];
    HostLeTotalOrder(a[0].host, b[0].host, a[0].host);
    assert HostLe(a[0].host, a[i].host) || i == 0;
    assert HostLe(b[0].host, b[j].host) || j == 0;
  }

  lemma TailMultiset(s: seq<HostRecord>)
    requires s != []
    ensures multiset(s[1..]) == multiset(s) - multiset{s[0]}
  {
    assert s == [s[0]] + s[1..];
  }

  /** When hosts are unique there is only one way to order records by host:
      any two sorted arrangements of the same records are equal. */
  lemma {:induction false} SortedPermutationUnique(a: seq<HostRecord>, b: seq<HostRecord>)
    requires Sorted(a) && Sorted(b) && UniqueHosts(a)
    requires multiset(a) == multiset(b)
    ensures a == b
  {
    if a == [] {
      assert |b| == |multiset(b)| == 0;
    } else {
      SortedHeadsAgree(a, b);
      TailMultiset(a);
      TailMultiset(b);
      SortedPermutationUnique(a[1..], b[1..]);
      assert a == [a[0]] + a[1..] && b == [b[0]] + b[1..];
    }
  }

  /** The text `write` prints: the records sorted by host, laid out as blocks. */
  function Serialize(rs: seq<HostRecord>): string
  {
    Render(SortByHost(rs))
  }
}
