/**
 * The class-level operations of `SshConfig` on the configuration file:
 * `list`, `parse`, `write`, `find_by_host`, `delete`, `empty!` and `add`.
 * The file is the field `text` of `SshConfigFile`; each operation reads it
 * whole and, when it writes, replaces it whole.
 */
module SshConfigStore {
  import opened Wrappers
  import opened Text
  import opened HostRecords
  import opened HostOrder
  import opened RoundTrip

  /** What the operations raise: `SshConfigDuplicateError` (its message is
      fixed and names no host), and the failure of `sort!` when a nil host
      meets a string host. */
  datatype StoreError = DuplicateError | IncomparableHosts

  // ---------------------------------------------------------------------------
  // The collection operations `find_by_host`, `delete` and `write` rely on

  /** `rs.find { |c| c.host == host }`: the first record with that host. */
  function FindFirst(rs: seq<HostRecord>, host: Option<string>): (r: Option<HostRecord>)
    ensures r.None? <==> forall i | 0 <= i < |rs| :: rs[i].host != host
    ensures r.Some? ==> exists i | 0 <= i < |rs| ::
      rs[i] == r.value && r.value.host == host && forall j | 0 <= j < i :: rs[j].host != host
  {
    if rs == [] then None
    else if rs[0].host == host then Some(rs[0])
    else
      var r := FindFirst(rs[1..], host);
      assert forall j | 1 <= j < |rs| :: rs[j] == rs[1..][j - 1];
      r
  }

  /** `rs.delete_if { |c| c.host == host }`: the records with another host,
      in the same order. */
  function RemoveHost(rs: seq<HostRecord>, host: Option<string>): (r: seq<HostRecord>)
    ensures forall i | 0 <= i < |r| :: r[i].host != host
  {
    if rs == [] then []
    else
      var rest := RemoveHost(rs[1..], host);
      (if rs[0].host == host then [] else [rs[0]]) + rest
  }

  /** `delete_if` drops every record of the host and keeps every other record
      as often as it was there. */
  lemma {:induction false} RemoveHostCounts(rs: seq<HostRecord>, host: Option<string>)
    ensures forall x :: multiset(RemoveHost(rs, host))[x] == if x.host == host then 0 else multiset(rs)[x]
  {
    if rs != [] {
      var rest := RemoveHost(rs[1..], host);
      RemoveHostCounts(rs[1..], host);
      var head := if rs[0].host == host then [] else [rs[0]];
      assert RemoveHost(rs, host) == head + rest;
      assert multiset(RemoveHost(rs, host)) == multiset(head) + multiset(rest);
      assert rs == [rs[0]] + rs[1..];
      assert multiset(rs) == multiset{rs[0]} + multiset(rs[1..]);
    }
  }

  /** `sort!` with the comparison `a.host <=> b.host` returns normally exactly
      when no nil host has to be compared with a string host, that is, when
      the hosts are all nil or all strings. */
  predicate Comparable(rs: seq<HostRecord>) {
    forall i, j | 0 <= i < |rs| && 0 <= j < |rs| :: rs[i].host.Some? == rs[j].host.Some?
  }

  /** Whether `sort!` raises depends only on which records there are. */
  lemma ComparablePermutation(a: seq<HostRecord>, b: seq<HostRecord>)
    requires multiset(a) == multiset(b)
    ensures Comparable(a) <==> Comparable(b)
  {
    forall i | 0 <= i < |a|
      ensures a[i] in multiset(b)
    {
      assert a[i] in multiset(a);
    }
    forall i | 0 <= i < |b|
      ensures b[i] in multiset(a)
    {
      assert b[i] in multiset(b);
    }
  }

  /** Deleting a host that no record has changes nothing. */
  lemma {:induction false} RemoveAbsentHost(rs: seq<HostRecord>, host: Option<string>)
    requires forall i | 0 <= i < |rs| :: rs[i].host != host
    ensures RemoveHost(rs, host) == rs
  {
    if rs != [] {
      assert forall i | 0 <= i < |rs[1..]| :: rs[1..][i] == rs[i + 1];
      RemoveAbsentHost(rs[1..], host);
      assert RemoveHost(rs, host) == [rs[0]] + RemoveHost(rs[1..], host);
      assert rs == [rs[0]] + rs[1..];
    }
  }

  lemma RemoveHostWellFormed(rs: seq<HostRecord>, host: Option<string>)
    requires AllWellFormed(rs)
    ensures AllWellFormed(RemoveHost(rs, host))
  {
    var r := RemoveHost(rs, host);
    RemoveHostCounts(rs, host);
    forall i | 0 <= i < |r|
      ensures WellFormed(r[i])
    {
      assert r[i] in multiset(r);
      assert r[i] in multiset(rs);
    }
  }

  // ---------------------------------------------------------------------------
  // Unique hosts

  lemma CountAtLeastTwo(s: seq<HostRecord>, i: int, j: int)
    requires 0 <= i < j < |s| && s[i] == s[j]
    ensures multiset(s)[s[i]] >= 2
  {
    assert s == s[..j] + s[j..];
    assert s[i] == s[..j][i] && s[j] == s[j..][0];
  }

  lemma TwoIndices(s: seq<HostRecord>, x: HostRecord)
    requires multiset(s)[x] >= 2
    ensures exists i, j :: 0 <= i < j < |s| && s[i] == x && s[j] == x
  {
    assert x in multiset(s);
    var i :| 0 <= i < |s| && s[i] == x;
    var rest := s[..i] + s[i + 1..];
    assert s == s[..i] + [s[i]] + s[i + 1..];
    assert x in multiset(rest);
    var k :| 0 <= k < |rest| && rest[k] == x;
    if k < i {
      assert s[k] == x;
    } else {
      assert s[k + 1] == x;
    }
  }

  /** Unique hosts are a property of which records there are, not of their order. */
  lemma UniqueHostsPermutation(a: seq<HostRecord>, b: seq<HostRecord>)
    requires multiset(a) == multiset(b) && UniqueHosts(a)
    ensures UniqueHosts(b)
  {
    forall i, j | 0 <= i < j < |b|
      ensures b[i].host != b[j].host
    {
      if b[i] == b[j] {
        CountAtLeastTwo(b, i, j);
        TwoIndices(a, b[i]);
      } else {
        assert b[i] in multiset(b) && b[j] in multiset(b);
        var p :| 0 <= p < |a| && a[p] == b[i];
        var q :| 0 <= q < |a| && a[q] == b[j];
        assert p != q;
        if p < q {
          assert a[p].host != a[q].host;
        } else {
          assert a[q].host != a[p].host;
        }
      }
    }
  }

  lemma UniqueTail(rs: seq<HostRecord>)
    requires rs != [] && UniqueHosts(rs)
    ensures UniqueHosts(rs[1..])
    ensures forall j | 0 <= j < |rs[1..]| :: rs[1..][j].host != rs[0].host
  {
    forall i, j | 0 <= i < j < |rs[1..]|
      ensures rs[1..][i].host != rs[1..][j].host
    {
      assert rs[1..][i] == rs[i + 1] && rs[1..][j] == rs[j + 1];
    }
    forall j | 0 <= j < |rs[1..]|
      ensures rs[1..][j].host != rs[0].host
    {
      assert rs[1..][j] == rs[j + 1];
    }
  }

  lemma UniqueCons(r: HostRecord, rest: seq<HostRecord>)
    requires UniqueHosts(rest)
    requires forall j | 0 <= j < |rest| :: rest[j].host != r.host
    ensures UniqueHosts([r] + rest)
  {
    var s := [r] + rest;
    forall i, j | 0 <= i < j < |s|
      ensures s[i].host != s[j].host
    {
      assert s[j] == rest[j - 1];
      if i > 0 {
        assert s[i] == rest[i - 1];
      }
    }
  }

  /** Every record `delete_if` keeps was there before. */
  lemma RemoveHostKeeps(rs: seq<HostRecord>, host: Option<string>, j: int)
    requires 0 <= j < |RemoveHost(rs, host)|
    ensures exists k | 0 <= k < |rs| :: rs[k] == RemoveHost(rs, host)[j]
  {
    var x := RemoveHost(rs, host)[j];
    RemoveHostCounts(rs, host);
    assert x in multiset(RemoveHost(rs, host));
    assert x in multiset(rs);
  }

  /** Deleting a host keeps the remaining hosts unique. */
  lemma {:induction false} RemoveHostUnique(rs: seq<HostRecord>, host: Option<string>)
    requires UniqueHosts(rs)
    ensures UniqueHosts(RemoveHost(rs, host))
  {
    if rs != [] {
      var tail := rs[1..];
      var rest := RemoveHost(tail, host);
      UniqueTail(rs);
      RemoveHostUnique(tail, host);
      if rs[0].host != host {
        forall j | 0 <= j < |rest|
          ensures rest[j].host != rs[0].host
        {
          RemoveHostKeeps(tail, host, j);
        }
        UniqueCons(rs[0], rest);
        assert RemoveHost(rs, host) == [rs[0]] + rest;
      } else {
        assert RemoveHost(rs, host) == [] + rest;
      }
    }
  }

  // ---------------------------------------------------------------------------
  // The operations on the file, as functions of its text

  /** `delete(host)`: the file rewritten without the records of that host,
      every other record kept; it fails, leaving the file as it was, when the
      remaining hosts cannot be sorted. */
  function DeleteSpec(text: string, host: Option<string>): Result<string, StoreError>
  {
    var rs := RemoveHost(ParseAll(text), host);
    if Comparable(rs) then Ok(Serialize(rs)) else Err(IncomparableHosts)
  }

  /** The record `add` builds: `user` defaults to "root" and `port` to "22"
      when they are nil; an empty string is kept, since it is not nil. */
  function NewRecord(host: Option<string>, hostname: Option<string>, user: Option<string>,
                     port: Option<string>, idfile: Option<string>): HostRecord
  {
    HostRecord(host, hostname,
      if user.Some? then user else Some("root"),
      if port.Some? then port else Some("22"),
      idfile)
  }

  /** What `add` returns (or raises) and the text the file holds afterwards. */
  datatype Outcome = Outcome(result: Result<HostRecord, StoreError>, text: string)

  /** `add`: refuses a host that is present unless forced; otherwise deletes
      the host (which rewrites the file), reads the file back, appends the new
      record and writes everything. */
  function AddSpec(text: string, host: Option<string>, hostname: Option<string>, user: Option<string>,
                   port: Option<string>, idfile: Option<string>, force: bool): Outcome
  {
    if FindFirst(ParseAll(text), host).Some? && !force then Outcome(Err(DuplicateError), text)
    else
      match DeleteSpec(text, host)
      case Err(e) => Outcome(Err(e), text)
      case Ok(deleted) =>
        var rec := NewRecord(host, hostname, user, port, idfile);
        var rs := ParseAll(deleted) + [rec];
        if Comparable(rs) then Outcome(Ok(rec), Serialize(rs))
        else Outcome(Err(IncomparableHosts), deleted)
  }

  // ---------------------------------------------------------------------------
  // What the operations guarantee

  /** Records read from a file `write` wrote, each one it could print faithfully. */
  predicate Readable(text: string) {
    AllWellFormed(ParseAll(text))
  }

  /** After `delete(host)` on a readable file, the file reads back as exactly
      the other records, sorted by host: no record of `host` is left and every
      other record is there as often as before. */
  lemma DeleteRemovesHost(text: string, host: Option<string>)
    requires Readable(text)
    ensures DeleteSpec(text, host).Ok?
    ensures var rs := ParseAll(DeleteSpec(text, host).value);
      && rs == SortByHost(RemoveHost(ParseAll(text), host))
      && FindFirst(rs, host).None?
      && (forall x :: multiset(rs)[x] == if x.host == host then 0 else multiset(ParseAll(text))[x])
      && Readable(DeleteSpec(text, host).value)
  {
    var before := ParseAll(text);
    var rs := RemoveHost(before, host);
    RemoveHostCounts(before, host);
    RemoveHostWellFormed(before, host);
    assert Comparable(rs);
    ParseSerialize(rs);
    SortKeepsWellFormed(rs);
  }

  /** Deleting the same host twice does no more than deleting it once. */
  lemma DeleteIdempotent(text: string, host: Option<string>)
    requires Readable(text)
    ensures DeleteSpec(text, host).Ok?
    ensures DeleteSpec(DeleteSpec(text, host).value, host) == DeleteSpec(text, host)
  {
    DeleteRemovesHost(text, host);
    var rs := RemoveHost(ParseAll(text), host);
    var once := DeleteSpec(text, host).value;
    var sorted := SortByHost(rs);
    assert ParseAll(once) == sorted;
    RemoveAbsentHost(sorted, host);
    SortSortedIsIdentity(sorted);
    ComparablePermutation(sorted, rs);
  }

  /** Deleting a host that a written file does not hold leaves the file
      exactly as it was. */
  lemma DeleteAbsentKeepsFile(rs: seq<HostRecord>, host: Option<string>)
    requires AllWellFormed(rs)
    requires forall i | 0 <= i < |rs| :: rs[i].host != host
    ensures DeleteSpec(Serialize(rs), host) == Ok(Serialize(rs))
  {
    var sorted := SortByHost(rs);
    ParseSerialize(rs);
    forall i | 0 <= i < |sorted|
      ensures sorted[i].host != host
    {
      assert sorted[i] in multiset(rs);
    }
    RemoveAbsentHost(sorted, host);
    SortSortedIsIdentity(sorted);
    SortKeepsWellFormed(rs);
    assert Comparable(sorted);
  }

  /** `add` of a host that is present, without force, raises and leaves the file alone. */
  lemma AddRejectsDuplicate(text: string, host: Option<string>, hostname: Option<string>,
                            user: Option<string>, port: Option<string>, idfile: Option<string>)
    requires exists i | 0 <= i < |ParseAll(text)| :: ParseAll(text)[i].host == host
    ensures AddSpec(text, host, hostname, user, port, idfile, false) == Outcome(Err(DuplicateError), text)
  {
  }

  /** A record that is the only one with its host is the one `find` comes to. */
  lemma FindOnly(rs: seq<HostRecord>, rec: HostRecord)
    requires rec in rs
    requires forall i | 0 <= i < |rs| && rs[i].host == rec.host :: rs[i] == rec
    ensures FindFirst(rs, rec.host) == Some(rec)
  {
    var j :| 0 <= j < |rs| && rs[j] == rec;
    assert rs[j].host == rec.host;
  }

  /** Sorting the kept records with the new one appended: the new record is
      the only one with its host, so it is the one `find` comes to. */
  lemma StoredRecords(kept: seq<HostRecord>, rec: HostRecord)
    requires forall i | 0 <= i < |kept| :: kept[i].host != rec.host
    ensures var after := SortByHost(kept + [rec]);
      && multiset(after) == multiset(kept) + multiset{rec}
      && FindFirst(after, rec.host) == Some(rec)
      && forall i | 0 <= i < |after| && after[i].host == rec.host :: after[i] == rec
  {
    var all := kept + [rec];
    var after := SortByHost(all);
    assert multiset(all) == multiset(kept) + multiset{rec};
    assert all[|kept|] == rec;
    assert rec in multiset(after);
    forall i | 0 <= i < |after| && after[i].host == rec.host
      ensures after[i] == rec
    {
      assert after[i] in multiset(all);
      var k :| 0 <= k < |all| && all[k] == after[i];
      assert k == |kept|;
    }
    FindOnly(after, rec);
  }

  /** Appending a record of a new host and sorting keeps hosts unique. */
  lemma UniqueAfterAppend(kept: seq<HostRecord>, rec: HostRecord)
    requires UniqueHosts(kept)
    requires forall j | 0 <= j < |kept| :: kept[j].host != rec.host
    ensures UniqueHosts(SortByHost(kept + [rec]))
  {
    var rs := kept + [rec];
    forall i, j | 0 <= i < j < |rs|
      ensures rs[i].host != rs[j].host
    {
      assert rs[i] == kept[i];
      if j < |kept| {
        assert rs[j] == kept[j];
      }
    }
    UniqueHostsPermutation(rs, SortByHost(rs));
  }

  lemma AppendWellFormed(kept: seq<HostRecord>, rec: HostRecord)
    requires AllWellFormed(kept) && WellFormed(rec)
    ensures AllWellFormed(kept + [rec])
  {
    var rs := kept + [rec];
    forall i | 0 <= i < |rs|
      ensures WellFormed(rs[i])
    {
      if i < |kept| {
        assert rs[i] == kept[i];
      }
    }
  }

  /** Records read from a readable file and a new record with a host can be
      sorted together. */
  lemma AppendPresentComparable(kept: seq<HostRecord>, rec: HostRecord)
    requires AllWellFormed(kept) && rec.host.Some?
    ensures Comparable(kept + [rec])
  {
    var rs := kept + [rec];
    forall i | 0 <= i < |rs|
      ensures rs[i].host.Some?
    {
      if i < |kept| {
        assert rs[i] == kept[i];
      }
    }
  }

  /** Where `add` goes when it is not refused and `delete` succeeds: it reads
      back the rewritten file and writes it again with the new record. */
  lemma AddAfterDelete(text: string, host: Option<string>, hostname: Option<string>, user: Option<string>,
                       port: Option<string>, idfile: Option<string>, force: bool)
    requires force || FindFirst(ParseAll(text), host).None?
    requires DeleteSpec(text, host).Ok?
    ensures var deleted := DeleteSpec(text, host).value;
      var rs := ParseAll(deleted) + [NewRecord(host, hostname, user, port, idfile)];
      AddSpec(text, host, hostname, user, port, idfile, force) ==
        if Comparable(rs) then Outcome(Ok(NewRecord(host, hostname, user, port, idfile)), Serialize(rs))
        else Outcome(Err(IncomparableHosts), deleted)
  {
  }

  /** `add` on a readable file, of a present host that is new or forced,
      succeeds, whatever the other values are: what it writes is the other
      records, sorted by host, with the new record appended. The other
      records are ones `write` prints faithfully, and so is the new one when
      its values are well formed. */
  lemma AddWrites(text: string, host: Option<string>, hostname: Option<string>, user: Option<string>,
                  port: Option<string>, idfile: Option<string>, force: bool)
    requires Readable(text)
    requires host.Some?
    requires force || FindFirst(ParseAll(text), host).None?
    ensures var kept := SortByHost(RemoveHost(ParseAll(text), host));
      var rs := kept + [NewRecord(host, hostname, user, port, idfile)];
      && AddSpec(text, host, hostname, user, port, idfile, force)
           == Outcome(Ok(NewRecord(host, hostname, user, port, idfile)), Serialize(rs))
      && AllWellFormed(kept)
      && (WellFormed(NewRecord(host, hostname, user, port, idfile)) ==> AllWellFormed(rs))
  {
    var rec := NewRecord(host, hostname, user, port, idfile);
    var kept := RemoveHost(ParseAll(text), host);
    RemoveHostWellFormed(ParseAll(text), host);
    assert Comparable(kept);
    ParseSerialize(kept);
    SortKeepsWellFormed(kept);
    var sortedKept := SortByHost(kept);
    if WellFormed(rec) {
      AppendWellFormed(sortedKept, rec);
    }
    AppendPresentComparable(sortedKept, rec);
    AddAfterDelete(text, host, hostname, user, port, idfile, force);
  }

  /** `add` on a readable file, of a host that is new or forced, returns the new
      record with its defaults filled in; the file then reads back as the
      records of every other host plus the new one, sorted by host, so that
      `find_by_host(host)` finds the new record. */
  lemma AddStoresRecord(text: string, host: Option<string>, hostname: Option<string>, user: Option<string>,
                        port: Option<string>, idfile: Option<string>, force: bool)
    requires Readable(text)
    requires WellFormed(NewRecord(host, hostname, user, port, idfile))
    requires force || FindFirst(ParseAll(text), host).None?
    ensures var rec := NewRecord(host, hostname, user, port, idfile);
      var out := AddSpec(text, host, hostname, user, port, idfile, force);
      && out.result == Ok(rec)
      && rec.user == (if user.Some? then user else Some("root"))
      && rec.port == (if port.Some? then port else Some("22"))
      && Sorted(ParseAll(out.text))
      && multiset(ParseAll(out.text)) == multiset(RemoveHost(ParseAll(text), host)) + multiset{rec}
      && FindFirst(ParseAll(out.text), host) == Some(rec)
      && (forall i | 0 <= i < |ParseAll(out.text)| && ParseAll(out.text)[i].host == host ::
            ParseAll(out.text)[i] == rec)
      && Readable(out.text)
  {
    var rec := NewRecord(host, hostname, user, port, idfile);
    var kept := SortByHost(RemoveHost(ParseAll(text), host));
    AddWrites(text, host, hostname, user, port, idfile, force);
    ParseSerialize(kept + [rec]);
    SortKeepsWellFormed(kept + [rec]);
    forall i | 0 <= i < |kept|
      ensures kept[i].host != rec.host
    {
      assert kept[i] in multiset(RemoveHost(ParseAll(text), host));
    }
    StoredRecords(kept, rec);
  }

  /** The kept records, well formed, and a new record without line feeds,
      sorted together: none of them holds a line feed. */
  lemma SortedAddedLineSafe(kept: seq<HostRecord>, rec: HostRecord)
    requires AllWellFormed(kept) && LineSafe(rec)
    ensures AllLineSafe(SortByHost(kept + [rec]))
    ensures rec.host.Some? ==>
      forall i | 0 <= i < |SortByHost(kept + [rec])| :: SortByHost(kept + [rec])[i].host.Some?
  {
    var rs := kept + [rec];
    var sorted := SortByHost(rs);
    AllWellFormedLineSafe(kept);
    forall i | 0 <= i < |sorted|
      ensures LineSafe(sorted[i]) && (rec.host.Some? ==> sorted[i].host.Some?)
    {
      assert sorted[i] in multiset(rs);
      var k :| 0 <= k < |rs| && rs[k] == sorted[i];
      if k < |kept| {
        assert rs[k] == kept[k];
      }
    }
  }

  /** Once `add` has stored a present host, adding it again without force is
      refused and leaves the file as it is. The first record's values may be
      empty or hold spaces; they only must not hold a line feed. */
  lemma AddTwiceRejected(text: string, host: Option<string>, hostname: Option<string>, user: Option<string>,
                         port: Option<string>, idfile: Option<string>, force: bool,
                         hostname2: Option<string>, user2: Option<string>,
                         port2: Option<string>, idfile2: Option<string>)
    requires Readable(text)
    requires host.Some? && LineSafe(NewRecord(host, hostname, user, port, idfile))
    requires force || FindFirst(ParseAll(text), host).None?
    ensures var written := AddSpec(text, host, hostname, user, port, idfile, force).text;
      AddSpec(written, host, hostname2, user2, port2, idfile2, false) == Outcome(Err(DuplicateError), written)
  {
    var rec := NewRecord(host, hostname, user, port, idfile);
    var kept := SortByHost(RemoveHost(ParseAll(text), host));
    var rs := kept + [rec];
    AddWrites(text, host, hostname, user, port, idfile, force);
    var written := Serialize(rs);
    var sorted := SortByHost(rs);
    SortedAddedLineSafe(kept, rec);
    ParseRenderHosts(sorted);
    assert rec in multiset(sorted) by {
      assert rs[|kept|] == rec;
    }
    var k :| 0 <= k < |sorted| && sorted[k] == rec;
    assert ParseAll(written)[k].host == host;
    AddRejectsDuplicate(written, host, hostname2, user2, port2, idfile2);
  }

  /** Records with distinct present hosts and no line feeds, once written,
      read back with distinct hosts. */
  lemma ReadBackUnique(rs: seq<HostRecord>)
    requires AllLineSafe(rs) && UniqueHosts(rs)
    requires forall i | 0 <= i < |rs| :: rs[i].host.Some?
    ensures UniqueHosts(ParseAll(Render(rs)))
  {
    ParseRenderHosts(rs);
  }

  /** `add` with a nil host keeps the hosts of a file unique: on a file with
      records it fails and rewrites them in order, and on a file without
      records it writes the one new record. */
  lemma AddNilHostKeepsUnique(text: string, hostname: Option<string>, user: Option<string>,
                              port: Option<string>, idfile: Option<string>, force: bool)
    requires Readable(text) && UniqueHosts(ParseAll(text))
    requires LineSafe(NewRecord(None, hostname, user, port, idfile))
    ensures UniqueHosts(ParseAll(AddSpec(text, None, hostname, user, port, idfile, force).text))
  {
    var rec := NewRecord(None, hostname, user, port, idfile);
    if ParseAll(text) == [] {
      EmptyLeavesNoRecords();
      assert RemoveHost([], None) == [];
      assert DeleteSpec(text, None) == Ok("");
      AddAfterDelete(text, None, hostname, user, port, idfile, force);
      assert ParseAll("") + [rec] == [rec];
      SortedAddedLineSafe([], rec);
      assert [] + [rec] == [rec];
      ParseRenderHosts(SortByHost([rec]));
    } else {
      AddWithoutHostFails(text, hostname, user, port, idfile, force);
      ParseSerialize(ParseAll(text));
      UniqueHostsPermutation(ParseAll(text), SortByHost(ParseAll(text)));
    }
  }

  /** Adding keeps the hosts of a file unique, whatever the new record's
      values are, as long as none holds a line feed. */
  lemma AddKeepsHostsUnique(text: string, host: Option<string>, hostname: Option<string>, user: Option<string>,
                            port: Option<string>, idfile: Option<string>, force: bool)
    requires Readable(text) && UniqueHosts(ParseAll(text))
    requires LineSafe(NewRecord(host, hostname, user, port, idfile))
    requires force || FindFirst(ParseAll(text), host).None?
    ensures UniqueHosts(ParseAll(AddSpec(text, host, hostname, user, port, idfile, force).text))
  {
    if host.None? {
      AddNilHostKeepsUnique(text, hostname, user, port, idfile, force);
    } else {
      var rec := NewRecord(host, hostname, user, port, idfile);
      var kept := RemoveHost(ParseAll(text), host);
      var sortedKept := SortByHost(kept);
      AddWrites(text, host, hostname, user, port, idfile, force);
      RemoveHostUnique(ParseAll(text), host);
      UniqueHostsPermutation(kept, sortedKept);
      forall j | 0 <= j < |sortedKept|
        ensures sortedKept[j].host != rec.host
      {
        assert sortedKept[j] in multiset(kept);
      }
      UniqueAfterAppend(sortedKept, rec);
      SortedAddedLineSafe(sortedKept, rec);
      ReadBackUnique(SortByHost(sortedKept + [rec]));
    }
  }

  /** A nil host after a string host cannot be sorted. */
  lemma NilAfterString(rs: seq<HostRecord>, r: HostRecord)
    requires exists i | 0 <= i < |rs| :: rs[i].host.Some?
    requires r.host.None?
    ensures !Comparable(rs + [r])
  {
    var i :| 0 <= i < |rs| && rs[i].host.Some?;
    assert (rs + [r])[i] == rs[i] && (rs + [r])[|rs|] == r;
  }

  /** `add` with a nil host on a readable file that has records raises in
      `sort!`, after `delete(nil)` has already rewritten the file in order. */
  lemma AddWithoutHostFails(text: string, hostname: Option<string>, user: Option<string>,
                            port: Option<string>, idfile: Option<string>, force: bool)
    requires Readable(text) && ParseAll(text) != []
    ensures AddSpec(text, None, hostname, user, port, idfile, force)
      == Outcome(Err(IncomparableHosts), Serialize(ParseAll(text)))
  {
    var rs := ParseAll(text);
    RemoveAbsentHost(rs, None);
    assert Comparable(rs);
    ParseSerialize(rs);
    var kept := SortByHost(rs);
    assert kept[0] in multiset(rs);
    NilAfterString(kept, NewRecord(None, hostname, user, port, idfile));
    AddAfterDelete(text, None, hostname, user, port, idfile, force);
  }

  /** `empty!` leaves a file in which `list` finds no record. */
  lemma EmptyLeavesNoRecords()
    ensures Serialize([]) == ""
    ensures ParseAll(Serialize([])) == []
  {
    RenderNothing();
  }

  /** Deleting from an empty file leaves it empty. */
  lemma DeleteFromEmpty(host: Option<string>)
    ensures DeleteSpec("", host) == Ok("")
  {
    RenderNothing();
    assert RemoveHost([], host) == [];
    assert SortByHost([]) == [];
  }

  /** Adding a record with a host to an empty file writes that record alone,
      as one block, and the file then reads back as that record. */
  lemma AddToEmpty(host: Option<string>, hostname: Option<string>, user: Option<string>,
                   port: Option<string>, idfile: Option<string>, force: bool)
    requires host.Some?
    requires WellFormed(NewRecord(host, hostname, user, port, idfile))
    ensures var rec := NewRecord(host, hostname, user, port, idfile);
      var out := AddSpec("", host, hostname, user, port, idfile, force);
      && out == Outcome(Ok(rec), Join(RecordLines(rec)))
      && ParseAll(out.text) == [rec]
  {
    var rec := NewRecord(host, hostname, user, port, idfile);
    RenderNothing();
    DeleteFromEmpty(host);
    assert FindFirst([], host).None?;
    var rs := ParseAll("") + [rec];
    assert rs == [rec];
    assert Comparable(rs);
    assert SortByHost([rec]) == [rec] by {
      assert [rec][1..] == [];
      assert SortByHost([]) == [];
    }
    assert Serialize(rs) == Render([rec]);
    assert RenderLines([rec]) == RecordLines(rec) by {
      assert [rec][1..] == [];
    }
    ParseRender([rec]);
  }

  // ---------------------------------------------------------------------------
  // The class

  /** `SshConfig`'s class-level state: the contents of `~/.ssh/config`. */
  class SshConfigFile {
    var text: string

    constructor (contents: string)
      ensures text == contents
    {
      text := contents;
    }

    /** `SshConfig.list`: reads the file line by line, closing a block at every
        blank line (and at the end) and parsing each non-empty block. */
    method List() returns (entries: seq<HostRecord>)
      ensures entries == ParseAll(text)
    {
      var lines := Lines(text);
      lines := lines + [""];
      entries := [];
      var current: seq<string> := [];
      ghost var blocks: seq<seq<string>> := [];
      var i := 0;
      while i < |lines|
        invariant GroupedUpTo(lines, i, blocks, current)
        invariant entries == ParseBlocks(blocks)
      {
        var line := lines[i];
        StripSpec(line);
        if Strip(line) == [] {
          CloseBlock(lines, i, blocks, current);
          if current != [] {
            var entry := Parse(current);
            ParseBlocksSnoc(blocks, current);
            entries := entries + [entry];
            blocks := blocks + [current];
          }
          current := [];
        } else {
          ExtendBlock(lines, i, blocks, current);
          current := current + [line];
        }
        i := i + 1;
      }
      GroupedAll(lines, blocks, current);
    }

    /** `SshConfig.parse`: the host from the first line, then a table filled
        from the later lines, a later line overriding an earlier one. */
    static method Parse(config: seq<string>) returns (r: HostRecord)
      requires config != []
      ensures r == ParseBlock(config)
      ensures r.host == HostOf(config[0]) && FieldsAreTokens(r)
    {
      var host := HostOf(config[0]);
      var table: map<string, Option<string>> := map[];
      var i := 1;
      while i < |config|
        invariant 1 <= i <= |config|
        invariant table == Fields(config[1..i])
      {
        var entry := Strip(config[i]);
        assert config[1..i + 1] == config[1..i] + [config[i]];
        EntriesAppend(config[1..i], config[i]);
        FieldsOfAppend(Entries(config[1..i]), LineEntry(config[i]));
        if entry != [] {
          var tokens := Tokens(entry);
          if tokens != [] {
            var value := if |tokens| > 1 then Some(tokens[1]) else None;
            table := table[Lower(tokens[0]) := value];
          }
        }
        i := i + 1;
      }
      assert config[1..i] == config[1..];
      r := HostRecord(host,
        Lookup(table, "hostname"), Lookup(table, "user"),
        Lookup(table, "port"), Lookup(table, "identityfile"));
    }

    /** `SshConfig.write`: sorts the records by host (raising, with the file
        untouched, when a nil host meets a string host), prints each as a
        block followed by an empty line and replaces the file with the lines
        joined by line feeds. */
    method Write(configs: seq<HostRecord>) returns (r: Result<(), StoreError>)
      modifies this
      ensures r.Ok? <==> Comparable(configs)
      ensures r.Ok? ==> text == Serialize(configs)
      ensures r.Err? ==> r.error == IncomparableHosts && text == old(text)
    {
      if !Comparable(configs) {
        return Err(IncomparableHosts);
      }
      var sorted := SortByHost(configs);
      var hosts := PrintAll(sorted);
      text := Join(hosts);
      r := Ok(());
    }

    /** `configs.each`: the lines `write` prints for records already sorted. */
    static method PrintAll(sorted: seq<HostRecord>) returns (hosts: seq<string>)
      ensures hosts == RenderLines(sorted)
    {
      hosts := [];
      var i := 0;
      while i < |sorted|
        invariant 0 <= i <= |sorted|
        invariant hosts == RenderLines(sorted[..i])
      {
        var c := sorted[i];
        var block := PrintRecord(c);
        RenderLinesSnoc(sorted[..i], c);
        assert sorted[..i + 1] == sorted[..i] + [c];
        hosts := hosts + block;
        i := i + 1;
      }
      assert sorted[..i] == sorted;
    }

    /** The lines `write` prints for one record: its `Host` and `HostName`
        lines, the other fields when they are not nil, and an empty line. */
    static method PrintRecord(c: HostRecord) returns (lines: seq<string>)
      ensures lines == RecordLines(c)
    {
      lines := ["Host " + Show(c.host)];
      lines := lines + ["  HostName " + Show(c.hostname)];
      PrintedKeyLines(Show(c.hostname));
      if c.user.Some? {
        lines := lines + ["  User " + c.user.value];
        PrintedKeyLines(c.user.value);
      }
      assert lines == BodyLines(c)[..|lines|];
      ghost var head := lines;
      if c.port.Some? {
        lines := lines + ["  Port " + c.port.value];
        PrintedKeyLines(c.port.value);
      }
      assert lines == head + OptionalLine("Port", c.port);
      head := lines;
      if c.idfile.Some? {
        lines := lines + ["  IdentityFile " + c.idfile.value];
        PrintedKeyLines(c.idfile.value);
      }
      assert lines == head + OptionalLine("IdentityFile", c.idfile);
      lines := lines + [""];
    }

    /** `SshConfig.find_by_host`: the first record read with that host. */
    method FindByHost(host: Option<string>) returns (r: Option<HostRecord>)
      ensures r == FindFirst(ParseAll(text), host)
      ensures r.Some? ==> r.value.host == host
    {
      var configs := List();
      r := FindFirst(configs, host);
    }

    /** `SshConfig.empty!`: writes no records. */
    method Empty()
      modifies this
      ensures text == "" && ParseAll(text) == []
    {
      var r := Write([]);
      EmptyLeavesNoRecords();
    }

    /** `SshConfig.delete`: reads the records, drops those of the host and
        writes the rest. */
    method Delete(host: Option<string>) returns (r: Result<(), StoreError>)
      modifies this
      ensures DeleteSpec(old(text), host) == if r.Ok? then Ok(text) else Err(r.error)
      ensures r.Err? ==> text == old(text)
    {
      var configs := List();
      configs := RemoveHost(configs, host);
      r := Write(configs);
    }

    /** `SshConfig.add`. */
    method Add(host: Option<string>, hostname: Option<string>, user: Option<string>,
               port: Option<string>, idfile: Option<string>, force: bool)
      returns (r: Result<HostRecord, StoreError>)
      modifies this
      ensures AddSpec(old(text), host, hostname, user, port, idfile, force) == Outcome(r, text)
    {
      var found := FindByHost(host);
      if found.None? || force {
        var deleted := Delete(host);
        if deleted.Err? {
          return Err(deleted.error);
        }
        var newConfig := NewRecord(host, hostname, user, port, idfile);
        var configs := List();
        configs := configs + [newConfig];
        var written := Write(configs);
        if written.Err? {
          r := Err(written.error);
        } else {
          r := Ok(newConfig);
        }
      } else {
        r := Err(DuplicateError);
      }
    }
  }
}
