/**
 * Reading back what `SshConfig.write` wrote: `list` applied to the text of
 * `write(rs)` gives the records of `rs` sorted by host, provided each record
 * is one `write` can print faithfully.
 */
module RoundTrip {
  import opened Wrappers
  import opened Text
  import opened HostRecords
  import opened HostOrder

  /** A present value survives a write and a read when it is a non-empty
      string without white space (NUL included, which `strip` removes). */
  predicate WellFormedValue(o: Option<string>) {
    o.Some? ==> o.value != [] && NoStripSpace(o.value)
  }

  /** A record `write` prints in a form `list` reads back unchanged: its host is
      present and holds no line feed, and every present value is well formed.
      An absent hostname is fine: `  HostName ` reads back as nil. */
  predicate WellFormed(r: HostRecord) {
    && r.host.Some? && '\n' !in r.host.value
    && WellFormedValue(r.hostname) && WellFormedValue(r.user)
    && WellFormedValue(r.port) && WellFormedValue(r.idfile)
  }

  predicate AllWellFormed(rs: seq<HostRecord>) {
    forall i | 0 <= i < |rs| :: WellFormed(rs[i])
  }

  /** A present value without a line feed. */
  predicate NoLineFeed(o: Option<string>) {
    o.Some? ==> '\n' !in o.value
  }

  /** A record each of whose lines `write` prints as one line of the file:
      no field holds a line feed. Values may be empty or hold white space,
      so the record need not read back unchanged. */
  predicate LineSafe(r: HostRecord) {
    && NoLineFeed(r.host) && NoLineFeed(r.hostname) && NoLineFeed(r.user)
    && NoLineFeed(r.port) && NoLineFeed(r.idfile)
  }

  predicate AllLineSafe(rs: seq<HostRecord>) {
    forall i | 0 <= i < |rs| :: LineSafe(rs[i])
  }

  lemma AllWellFormedLineSafe(rs: seq<HostRecord>)
    requires AllWellFormed(rs)
    ensures AllLineSafe(rs)
  {
    forall i | 0 <= i < |rs|
      ensures LineSafe(rs[i])
    {
      assert WellFormed(rs[i]);
    }
  }

  // ---------------------------------------------------------------------------
  // One line, one block

  /** A `Key value` line as `write` prints it reads back as that key,
      lower-cased, and that value (nil for an empty value). */
  lemma KeyLineEntry(key: string, v: string)
    requires key != [] && NoStripSpace(key) && NoStripSpace(v)
    ensures LineEntry(KeyLine(key, v)) == Some(Entry(Lower(key), if v == [] then None else Some(v)))
  {
    var pad := "  ";
    assert AllStripSpace(pad) && AllStripSpace(" ") && AllStripSpace([]);
    if v == [] {
      assert KeyLine(key, v) == pad + key + " ";
      StripPadded(pad, key, " ");
      TokensOfWord(key);
    } else {
      assert KeyLine(key, v) == pad + (key + " " + v) + [];
      StripPadded(pad, key + " " + v, []);
      TokensOfPair(key, v);
    }
  }

  lemma EntriesAppend(body: seq<string>, line: string)
    ensures Entries(body + [line]) == Entries(body) + [LineEntry(line)]
  {
    assert (body + [line])[..|body|] == body;
  }

  lemma FieldsOfAppend(es: seq<Option<Entry>>, e: Option<Entry>)
    ensures FieldsOf(es + [e]) == Assign(FieldsOf(es), e)
  {
    assert (es + [e])[..|es|] == es;
  }

  lemma FieldsOptionalLine(body: seq<string>, key: string, o: Option<string>)
    requires key != [] && NoStripSpace(key) && WellFormedValue(o)
    ensures Fields(body + OptionalLine(key, o)) ==
              if o.Some? then Fields(body)[Lower(key) := o] else Fields(body)
  {
    if o.Some? {
      var line := KeyLine(key, o.value);
      EntriesAppend(body, line);
      KeyLineEntry(key, o.value);
      FieldsOfAppend(Entries(body), LineEntry(line));
    } else {
      assert body + [] == body;
    }
  }

  /** The four keys `write` prints, lower-cased, are the four keys `parse` keeps. */
  lemma KeyNames()
    ensures Lower("HostName") == "hostname" && Lower("User") == "user"
    ensures Lower("Port") == "port" && Lower("IdentityFile") == "identityfile"
    ensures NoStripSpace("HostName") && NoStripSpace("User")
    ensures NoStripSpace("Port") && NoStripSpace("IdentityFile")
  {
  }

  /** The `HostName` line, which `write` always prints, reads back as the
      record's host name (nil when it was nil and printed empty). */
  lemma FieldsOfHostNameLine(h: Option<string>)
    requires WellFormedValue(h)
    ensures Fields([KeyLine("HostName", Show(h))]) == map["hostname" := h]
  {
    var line := KeyLine("HostName", Show(h));
    KeyNames();
    KeyLineEntry("HostName", Show(h));
    EntriesAppend([], line);
    FieldsOfAppend([], LineEntry(line));
    assert [] + [line] == [line];
    assert Entries([]) + [LineEntry(line)] == [LineEntry(line)];
  }

  /** The later lines of a written block give back the record's four fields. */
  lemma FieldsOfBody(r: HostRecord)
    requires WellFormed(r)
    ensures Lookup(Fields(BodyLines(r)[1..]), "hostname") == r.hostname
    ensures Lookup(Fields(BodyLines(r)[1..]), "user") == r.user
    ensures Lookup(Fields(BodyLines(r)[1..]), "port") == r.port
    ensures Lookup(Fields(BodyLines(r)[1..]), "identityfile") == r.idfile
  {
    KeyNames();
    var b0 := [KeyLine("HostName", Show(r.hostname))];
    var b1 := b0 + OptionalLine("User", r.user);
    var b2 := b1 + OptionalLine("Port", r.port);
    var b3 := b2 + OptionalLine("IdentityFile", r.idfile);
    assert BodyLines(r)[1..] == b3;
    FieldsOfHostNameLine(r.hostname);
    FieldsOptionalLine(b0, "User", r.user);
    FieldsOptionalLine(b1, "Port", r.port);
    FieldsOptionalLine(b2, "IdentityFile", r.idfile);
  }

  /** A block as `write` prints it parses back into the record it came from. */
  lemma ParseBlockOfBody(r: HostRecord)
    requires WellFormed(r)
    ensures ParseBlock(BodyLines(r)) == r
  {
    HostOfHostLine(r.host.value);
    FieldsOfBody(r);
  }

  /** The `Host` line `write` prints reads back as the host it names. */
  lemma HostOfHostLine(h: string)
    requires '\n' !in h
    ensures HostOf("Host " + h) == Some(h)
  {
    var first := "Host " + h;
    assert first[..5] == "Host " && first[5..] == h;
    SplitPrefix(h, []);
    assert h + [] == h;
  }

  lemma KeyLineShape(key: string, v: string)
    requires key != [] && NoStripSpace(key) && '\n' !in v
    ensures !IsBlank(KeyLine(key, v)) && '\n' !in KeyLine(key, v)
  {
    assert KeyLine(key, v)[2] == key[0];
    assert KeyLine(key, v) == "  " + key + " " + v;
    forall i | 0 <= i < |KeyLine(key, v)|
      ensures KeyLine(key, v)[i] != '\n'
    {
      if 2 <= i < 2 + |key| {
        assert KeyLine(key, v)[i] == key[i - 2];
      } else if 3 + |key| <= i {
        assert KeyLine(key, v)[i] == v[i - 3 - |key|];
      }
    }
  }

  lemma OptionalLineShape(key: string, o: Option<string>)
    requires key != [] && NoStripSpace(key) && NoLineFeed(o)
    ensures forall k | 0 <= k < |OptionalLine(key, o)| ::
      !IsBlank(OptionalLine(key, o)[k]) && '\n' !in OptionalLine(key, o)[k]
  {
    if o.Some? {
      KeyLineShape(key, o.value);
    }
  }

  /** A written block is a block, holds no line feed, and ends in a non-empty line. */
  lemma BodyShape(r: HostRecord)
    requires LineSafe(r)
    ensures IsBlock(BodyLines(r))
    ensures forall k | 0 <= k < |BodyLines(r)| :: '\n' !in BodyLines(r)[k] && BodyLines(r)[k] != []
  {
    var first := "Host " + Show(r.host);
    assert first[0] == 'H';
    forall i | 0 <= i < |first|
      ensures first[i] != '\n'
    {
      if i >= 5 {
        assert first[i] == Show(r.host)[i - 5];
      }
    }
    assert NoStripSpace("HostName") && NoStripSpace("User");
    assert NoStripSpace("Port") && NoStripSpace("IdentityFile");
    KeyLineShape("HostName", Show(r.hostname));
    OptionalLineShape("User", r.user);
    OptionalLineShape("Port", r.port);
    OptionalLineShape("IdentityFile", r.idfile);
    var b := BodyLines(r);
    var u := OptionalLine("User", r.user);
    var p := OptionalLine("Port", r.port);
    var d := OptionalLine("IdentityFile", r.idfile);
    assert b == [first, KeyLine("HostName", Show(r.hostname))] + u + p + d;
    forall k | 0 <= k < |b|
      ensures !IsBlank(b[k]) && '\n' !in b[k]
    {
      if k >= 2 + |u| + |p| {
        assert b[k] == d[k - 2 - |u| - |p|];
      } else if k >= 2 + |u| {
        assert b[k] == p[k - 2 - |u|];
      } else if k >= 2 {
        assert b[k] == u[k - 2];
      }
    }
  }

  // ---------------------------------------------------------------------------
  // The whole file

  /** A run of non-blank lines simply extends the block being gathered. */
  lemma {:induction false} GroupRun(b: seq<string>, rest: seq<string>, current: seq<string>)
    requires forall k | 0 <= k < |b| :: !IsBlank(b[k])
    requires forall k | 0 <= k < |current| :: !IsBlank(current[k])
    ensures Group(b + rest, current) == Group(rest, current + b)
  {
    if b == [] {
      assert b + rest == rest && current + b == current;
    } else {
      assert (b + rest)[0] == b[0] && (b + rest)[1..] == b[1..] + rest;
      GroupRun(b[1..], rest, current + [b[0]]);
      assert current + [b[0]] + b[1..] == current + b;
    }
  }

  function Bodies(rs: seq<HostRecord>): seq<seq<string>>
  {
    seq(|rs|, i requires 0 <= i < |rs| => BodyLines(rs[i]))
  }

  /** A block followed by the empty line that closes it is gathered as one block. */
  lemma GroupBlock(b: seq<string>, rest: seq<string>)
    requires IsBlock(b)
    ensures Group(b + ([""] + rest), []) == [b] + Group(rest, [])
  {
    GroupRun(b, [""] + rest, []);
    assert [] + b == b;
    assert IsBlank("");
    assert ([""] + rest)[1..] == rest;
  }

  /** The lines `write` emits split into exactly one block per record. */
  lemma {:induction false} GroupRendered(rs: seq<HostRecord>)
    requires AllLineSafe(rs)
    ensures Group(RenderLines(rs), []) == Bodies(rs)
  {
    if rs != [] {
      var b := BodyLines(rs[0]);
      var rest := RenderLines(rs[1..]);
      BodyShape(rs[0]);
      assert RenderLines(rs) == b + ([""] + rest);
      GroupBlock(b, rest);
      GroupRendered(rs[1..]);
      assert Bodies(rs) == [b] + Bodies(rs[1..]);
    }
  }

  /** The lines `write` emits for one record hold no line feed and end in
      the empty element preceded by a non-empty line. */
  lemma RecordLinesShape(r: HostRecord)
    requires LineSafe(r)
    ensures forall k | 0 <= k < |RecordLines(r)| :: '\n' !in RecordLines(r)[k]
    ensures var ls := RecordLines(r);
      |ls| >= 2 && ls[|ls| - 1] == [] && ls[|ls| - 2] != []
  {
    BodyShape(r);
    var b := BodyLines(r);
    assert RecordLines(r) == b + [""];
    assert forall k | 0 <= k < |b| :: (b + [""])[k] == b[k];
  }

  /** The lines `write` emits hold no line feed and, for at least one record,
      end in the empty element preceded by a non-empty line. */
  lemma {:induction false} RenderLinesShape(rs: seq<HostRecord>)
    requires AllLineSafe(rs)
    ensures forall k | 0 <= k < |RenderLines(rs)| :: '\n' !in RenderLines(rs)[k]
    ensures rs != [] ==> var ls := RenderLines(rs);
      |ls| >= 2 && ls[|ls| - 1] == [] && ls[|ls| - 2] != []
  {
    if rs != [] {
      var head := RecordLines(rs[0]);
      var rest := RenderLines(rs[1..]);
      RecordLinesShape(rs[0]);
      RenderLinesShape(rs[1..]);
      assert RenderLines(rs) == head + rest;
      forall k | 0 <= k < |head| + |rest|
        ensures '\n' !in (head + rest)[k]
      {
        if k >= |head| {
          assert (head + rest)[k] == rest[k - |head|];
        } else {
          assert (head + rest)[k] == head[k];
        }
      }
      if rest != [] {
        assert (head + rest)[|head| + |rest| - 1] == rest[|rest| - 1];
        assert (head + rest)[|head| + |rest| - 2] == rest[|rest| - 2];
      } else {
        assert head + rest == head;
      }
    }
  }

  /** The text laid out for records without line feeds is read as one
      block per record, each block being the lines printed for it. */
  lemma ReadRendered(rs: seq<HostRecord>)
    requires AllLineSafe(rs)
    ensures forall j | 0 <= j < |Bodies(rs)| :: IsBlock(Bodies(rs)[j])
    ensures ParseAll(Render(rs)) == ParseBlocks(Bodies(rs))
  {
    if rs == [] {
      RenderNothing();
      assert Bodies(rs) == [];
    } else {
      var ls := RenderLines(rs);
      RenderLinesShape(rs);
      var init := ls[..|ls| - 1];
      assert ls == init + [""];
      LinesOfJoin(init);
      assert Blocks(Render(rs)) == Group(ls, []);
      GroupRendered(rs);
    }
  }

  /** Round trip: reading the text laid out for well-formed records gives
      those records back, in the same order. */
  lemma ParseRender(rs: seq<HostRecord>)
    requires AllWellFormed(rs)
    ensures ParseAll(Render(rs)) == rs
  {
    AllWellFormedLineSafe(rs);
    ReadRendered(rs);
    ParseBodies(rs);
  }

  /** Records whose fields hold no line feed, though their values may not
      read back unchanged, read back one for one, each with the host it
      was written with. */
  lemma ParseRenderHosts(rs: seq<HostRecord>)
    requires AllLineSafe(rs)
    ensures |ParseAll(Render(rs))| == |rs|
    ensures forall i | 0 <= i < |rs| && rs[i].host.Some? :: ParseAll(Render(rs))[i].host == rs[i].host
  {
    ReadRendered(rs);
    forall i | 0 <= i < |rs| && rs[i].host.Some?
      ensures ParseAll(Render(rs))[i].host == rs[i].host
    {
      assert ParseAll(Render(rs))[i] == ParseBlock(BodyLines(rs[i]));
      HostOfHostLine(rs[i].host.value);
    }
  }

  /** Each written block parses back into its record. */
  lemma ParseBodies(rs: seq<HostRecord>)
    requires AllWellFormed(rs)
    ensures forall j | 0 <= j < |Bodies(rs)| :: IsBlock(Bodies(rs)[j])
    ensures ParseBlocks(Bodies(rs)) == rs
  {
    forall i | 0 <= i < |rs|
      ensures IsBlock(Bodies(rs)[i]) && ParseBlock(Bodies(rs)[i]) == rs[i]
    {
      AllWellFormedLineSafe(rs);
      BodyShape(rs[i]);
      ParseBlockOfBody(rs[i]);
    }
  }

  lemma SortKeepsWellFormed(rs: seq<HostRecord>)
    requires AllWellFormed(rs)
    ensures AllWellFormed(SortByHost(rs))
  {
    var s := SortByHost(rs);
    forall i | 0 <= i < |s|
      ensures WellFormed(s[i])
    {
      assert s[i] in multiset(rs);
    }
  }

  /** Parse-after-write: `list` after `write(rs)` gives `rs` sorted by host. */
  lemma ParseSerialize(rs: seq<HostRecord>)
    requires AllWellFormed(rs)
    ensures ParseAll(Serialize(rs)) == SortByHost(rs)
    ensures Sorted(ParseAll(Serialize(rs)))
    ensures multiset(ParseAll(Serialize(rs))) == multiset(rs)
  {
    SortKeepsWellFormed(rs);
    ParseRender(SortByHost(rs));
  }

  /** Writing what was read from a written file reproduces that file exactly. */
  lemma SerializeIdempotent(rs: seq<HostRecord>)
    requires AllWellFormed(rs)
    ensures Serialize(ParseAll(Serialize(rs))) == Serialize(rs)
  {
    ParseSerialize(rs);
    SortSortedIsIdentity(SortByHost(rs));
  }
}
