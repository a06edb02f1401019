/**
 * The host records of an SSH client configuration file and the two directions
 * between records and text: reading the file into blank-line separated blocks
 * and parsing each block (`SshConfig.list` and `SshConfig.parse`), and laying
 * records out as `Host` blocks (`SshConfig.write`, without its sort).
 */
module HostRecords {
  import opened Wrappers
  import opened Text

  /** One `Host` block: an `SshConfig` instance. Every field may be nil. */
  datatype HostRecord = HostRecord(
    host: Option<string>,
    hostname: Option<string>,
    user: Option<string>,
    port: Option<string>,
    idfile: Option<string>)

  // ---------------------------------------------------------------------------
  // Reading a block

  /** `line[/Host (.*)/, 1]`: what follows the first occurrence of "Host ",
      untrimmed, up to the next line feed (which `.` does not match), or nil
      when the line has no "Host ". */
  function HostOf(line: string): Option<string>
  {
    if |line| < 5 then None
    else if line[..5] == "Host " then Some(Split(line[5..])[0])
    else HostOf(line[1..])
  }

  /** "Host " occurs in the line at index `i`. */
  predicate OccursAt(line: string, i: int) {
    0 <= i && i + 5 <= |line| && line[i..i + 5] == "Host "
  }

  lemma OccursShift(line: string, i: int)
    requires line != [] && 0 <= i
    ensures OccursAt(line, i + 1) <==> OccursAt(line[1..], i)
  {
    if i + 6 <= |line| {
      assert line[i + 1..i + 6] == line[1..][i..i + 5];
    }
  }

  /** `HostOf` finds the leftmost occurrence of "Host " and returns what follows it. */
  lemma {:induction false} HostOfFirstOccurrence(line: string)
    ensures HostOf(line).None? <==> forall i :: !OccursAt(line, i)
    ensures HostOf(line).Some? ==>
      exists i :: OccursAt(line, i) && HostOf(line).value == Split(line[i + 5..])[0] &&
        forall j | 0 <= j < i :: !OccursAt(line, j)
  {
    if |line| < 5 {
      assert forall i :: !OccursAt(line, i);
    } else if line[..5] == "Host " {
      assert OccursAt(line, 0);
    } else {
      assert !OccursAt(line, 0);
      HostOfFirstOccurrence(line[1..]);
      forall i | 0 <= i
        ensures OccursAt(line, i + 1) <==> OccursAt(line[1..], i)
      {
        OccursShift(line, i);
      }
      if HostOf(line).Some? {
        var i :| OccursAt(line[1..], i) && HostOf(line).value == Split(line[1..][i + 5..])[0] &&
          forall j | 0 <= j < i :: !OccursAt(line[1..], j);
        assert OccursAt(line, i + 1);
        assert line[1..][i + 5..] == line[i + 1 + 5..];
        forall j | 0 <= j < i + 1
          ensures !OccursAt(line, j)
        {
          if j > 0 {
            OccursShift(line, j - 1);
          }
        }
      } else {
        forall i
          ensures !OccursAt(line, i)
        {
          if i > 0 {
            OccursShift(line, i - 1);
          }
        }
      }
    }
  }

  /** The key and value that one later line of a block contributes. */
  datatype Entry = Entry(key: string, value: Option<string>)

  /** A later line of a block: stripped, skipped when empty, otherwise split
      on white space; the key is the first token, lower-cased, and the value is
      the second token, or nil when there is none. Further tokens are dropped. */
  function LineEntry(line: string): Option<Entry>
  {
    var t := Strip(line);
    if t == [] then None
    else
      var toks := Tokens(t);
      if toks == [] then None
      else Some(Entry(Lower(toks[0]), if |toks| > 1 then Some(toks[1]) else None))
  }

  /** A line contributes an entry exactly when it is not blank (the key of
      a stripped non-empty line always exists), and the value it contributes,
      if any, is a single token. */
  lemma LineEntrySpec(line: string)
    ensures LineEntry(line).None? <==> IsBlank(line)
    ensures LineEntry(line).Some? && LineEntry(line).value.value.Some? ==>
              IsToken(LineEntry(line).value.value.value)
  {
    var t := Strip(line);
    StripSpec(line);
    TokensAreTokens(t);
    TokensEmpty(t);
    if t != [] {
      assert !IsSplitSpace(t[0]);
    }
  }

  /** `line.strip.empty?`, which by `Text.StripSpec` holds exactly
      when every character of the line is white space. */
  predicate IsBlank(line: string) {
    AllStripSpace(line)
  }

  /** The line the entry comes from carries the key. */
  predicate EntryHasKey(e: Option<Entry>, key: string) {
    e.Some? && e.value.key == key
  }

  /** What each later line of a block contributes, line by line. */
  function Entries(body: seq<string>): (es: seq<Option<Entry>>)
    ensures |es| == |body|
  {
    if body == [] then [] else Entries(body[..|body| - 1]) + [LineEntry(body[|body| - 1])]
  }

  /** `config_hash[key] = value` for one line (nothing for a skipped line). */
  function Assign(m: map<string, Option<string>>, e: Option<Entry>): map<string, Option<string>>
  {
    match e
    case None => m
    case Some(e) => m[e.key := e.value]
  }

  /** `config_hash` after the given entries have been stored, in order. */
  function FieldsOf(es: seq<Option<Entry>>): (m: map<string, Option<string>>)
  {
    if es == [] then map[] else Assign(FieldsOf(es[..|es| - 1]), es[|es| - 1])
  }

  /** `config_hash` after the given lines have been read, in order. */
  function Fields(body: seq<string>): map<string, Option<string>>
  {
    FieldsOf(Entries(body))
  }

  /** `config_hash[key]`: nil both for a missing key and for a key read without a value. */
  function Lookup(m: map<string, Option<string>>, key: string): Option<string>
  {
    if key in m then m[key] else None
  }

  /** Every value stored comes from some line. */
  lemma {:induction false} FieldsOfFrom(es: seq<Option<Entry>>, key: string)
    requires key in FieldsOf(es)
    ensures exists j | 0 <= j < |es| :: es[j] == Some(Entry(key, FieldsOf(es)[key]))
  {
    var n := |es| - 1;
    if EntryHasKey(es[n], key) {
      assert es[n] == Some(Entry(key, FieldsOf(es)[key]));
    } else {
      FieldsOfFrom(es[..n], key);
      var j :| 0 <= j < n && es[..n][j] == Some(Entry(key, FieldsOf(es[..n])[key]));
      assert es[j] == es[..n][j];
    }
  }

  /** A key is present exactly when some line carries it. */
  lemma {:induction false} FieldsOfHasKey(es: seq<Option<Entry>>, key: string)
    ensures key in FieldsOf(es) <==> exists j | 0 <= j < |es| :: EntryHasKey(es[j], key)
  {
    if es != [] {
      var n := |es| - 1;
      FieldsOfHasKey(es[..n], key);
      if exists j | 0 <= j < |es| :: EntryHasKey(es[j], key) {
        var j :| 0 <= j < |es| && EntryHasKey(es[j], key);
        if j < n {
          assert es[..n][j] == es[j];
        }
      }
      if exists j | 0 <= j < n :: EntryHasKey(es[..n][j], key) {
        var j :| 0 <= j < n && EntryHasKey(es[..n][j], key);
        assert es[j] == es[..n][j];
      }
    }
  }

  /** The value a key ends up with is the one given by the LAST line carrying
      that key: later lines override earlier ones. */
  lemma {:induction false} FieldsOfLastWins(es: seq<Option<Entry>>, key: string, j: int)
    requires 0 <= j < |es| && EntryHasKey(es[j], key)
    requires forall j' | j < j' < |es| :: !EntryHasKey(es[j'], key)
    ensures Lookup(FieldsOf(es), key) == es[j].value.value
  {
    var n := |es| - 1;
    if j < n {
      assert es[..n][j] == es[j];
      forall j' | j < j' < n
        ensures !EntryHasKey(es[..n][j'], key)
      {
        assert es[..n][j'] == es[j'];
      }
      FieldsOfLastWins(es[..n], key, j);
    }
  }

  /** A value stored under any key is a single white-space-free token. */
  lemma FieldValuesAreTokens(body: seq<string>)
    ensures forall k | k in Fields(body) && Fields(body)[k].Some? :: IsToken(Fields(body)[k].value)
  {
    forall k | k in Fields(body) && Fields(body)[k].Some?
      ensures IsToken(Fields(body)[k].value)
    {
      FieldsOfFrom(Entries(body), k);
      var j :| 0 <= j < |body| && Entries(body)[j] == Some(Entry(k, Fields(body)[k]));
      EntryAt(body, j);
      LineEntrySpec(body[j]);
    }
  }

  /** Entry `j` is what line `j` contributes. */
  lemma {:induction false} EntryAt(body: seq<string>, j: int)
    requires 0 <= j < |body|
    ensures Entries(body)[j] == LineEntry(body[j])
  {
    var n := |body| - 1;
    assert Entries(body) == Entries(body[..n]) + [LineEntry(body[n])];
    if j < n {
      EntryAt(body[..n], j);
      assert body[..n][j] == body[j];
      assert Entries(body)[j] == Entries(body[..n])[j];
    }
  }

  /** Every field value a parsed block yields is a single white-space-free token. */
  predicate FieldsAreTokens(r: HostRecord) {
    && (r.hostname.Some? ==> IsToken(r.hostname.value))
    && (r.user.Some? ==> IsToken(r.user.value))
    && (r.port.Some? ==> IsToken(r.port.value))
    && (r.idfile.Some? ==> IsToken(r.idfile.value))
  }

  /** `SshConfig.parse`: the host comes from the first line only, which is
      never read as a key/value line; the fields come from the later lines,
      and only the keys hostname, user, port and identityfile are kept. */
  function ParseBlock(block: seq<string>): (r: HostRecord)
    requires block != []
    ensures r.host == HostOf(block[0])
    ensures FieldsAreTokens(r)
  {
    var m := Fields(block[1..]);
    FieldValuesAreTokens(block[1..]);
    HostRecord(HostOf(block[0]),
      Lookup(m, "hostname"), Lookup(m, "user"), Lookup(m, "port"), Lookup(m, "identityfile"))
  }

  // ---------------------------------------------------------------------------
  // Reading the file

  /** A block: a non-empty run of non-blank lines. */
  predicate IsBlock(b: seq<string>) {
    b != [] && forall k | 0 <= k < |b| :: !IsBlank(b[k])
  }

  /** The block-splitting loop of `SshConfig.list`, with `current` the block
      being gathered: a blank line closes the current block (when there is
      one), any other line extends it. */
  function Group(ls: seq<string>, current: seq<string>): (bs: seq<seq<string>>)
    requires forall k | 0 <= k < |current| :: !IsBlank(current[k])
    ensures forall j | 0 <= j < |bs| :: IsBlock(bs[j])
  {
    if ls == [] then []
    else if IsBlank(ls[0]) then (if current == [] then [] else [current]) + Group(ls[1..], [])
    else Group(ls[1..], current + [ls[0]])
  }

  /** The blocks of the file, read with the extra empty line `list` appends. */
  function Blocks(text: string): (bs: seq<seq<string>>)
    ensures forall j | 0 <= j < |bs| :: IsBlock(bs[j])
  {
    Group(Lines(text) + [""], [])
  }

  /** One record per block, in file order. */
  function ParseBlocks(bs: seq<seq<string>>): (rs: seq<HostRecord>)
    requires forall j | 0 <= j < |bs| :: IsBlock(bs[j])
  {
    seq(|bs|, j requires 0 <= j < |bs| && IsBlock(bs[j]) => ParseBlock(bs[j]))
  }

  /** Parsing one more block appends one more record. */
  lemma ParseBlocksSnoc(bs: seq<seq<string>>, b: seq<string>)
    requires forall j | 0 <= j < |bs| :: IsBlock(bs[j])
    requires IsBlock(b)
    ensures ParseBlocks(bs + [b]) == ParseBlocks(bs) + [ParseBlock(b)]
  {
  }

  /** How far the grouping of `ls` has come after `i` lines: the blocks
      already closed, then what the rest of the lines give starting from the
      block being gathered. */
  predicate GroupedUpTo(ls: seq<string>, i: int, closed: seq<seq<string>>, current: seq<string>) {
    && 0 <= i <= |ls|
    && (forall k | 0 <= k < |current| :: !IsBlank(current[k]))
    && (forall j | 0 <= j < |closed| :: IsBlock(closed[j]))
    && Group(ls, []) == closed + Group(ls[i..], current)
  }

  /** A blank line closes the block being gathered, if there is one. */
  lemma CloseBlock(ls: seq<string>, i: int, closed: seq<seq<string>>, current: seq<string>)
    requires GroupedUpTo(ls, i, closed, current) && i < |ls| && IsBlank(ls[i])
    ensures GroupedUpTo(ls, i + 1, if current == [] then closed else closed + [current], [])
  {
    assert ls[i..][0] == ls[i] && ls[i..][1..] == ls[i + 1..];
    if current == [] {
      assert Group(ls[i..], current) == [] + Group(ls[i + 1..], []);
    } else {
      assert Group(ls[i..], current) == [current] + Group(ls[i + 1..], []);
      assert closed + ([current] + Group(ls[i + 1..], [])) == closed + [current] + Group(ls[i + 1..], []);
    }
  }

  /** Any other line extends the block being gathered. */
  lemma ExtendBlock(ls: seq<string>, i: int, closed: seq<seq<string>>, current: seq<string>)
    requires GroupedUpTo(ls, i, closed, current) && i < |ls| && !IsBlank(ls[i])
    ensures GroupedUpTo(ls, i + 1, closed, current + [ls[i]])
  {
    assert ls[i..][0] == ls[i] && ls[i..][1..] == ls[i + 1..];
  }

  /** Once every line is read, the closed blocks are all the blocks. */
  lemma GroupedAll(ls: seq<string>, closed: seq<seq<string>>, current: seq<string>)
    requires GroupedUpTo(ls, |ls|, closed, current)
    ensures Group(ls, []) == closed
  {
    assert ls[|ls|..] == [] && closed + [] == closed;
  }

  /** `SshConfig.list` on the given file contents. */
  function ParseAll(text: string): (rs: seq<HostRecord>)
  {
    ParseBlocks(Blocks(text))
  }

  function Concat(bs: seq<seq<string>>): seq<string>
  {
    if bs == [] then [] else bs[0] + Concat(bs[1..])
  }

  function NonBlank(ls: seq<string>): seq<string>
  {
    if ls == [] then [] else (if IsBlank(ls[0]) then [] else [ls[0]]) + NonBlank(ls[1..])
  }

  /** Grouping loses and reorders nothing: the blocks, read one after the
      other, are exactly the non-blank lines in file order. */
  lemma {:induction false} GroupKeepsLines(ls: seq<string>, current: seq<string>)
    requires forall k | 0 <= k < |current| :: !IsBlank(current[k])
    requires ls != [] && IsBlank(ls[|ls| - 1])
    ensures Concat(Group(ls, current)) == current + NonBlank(ls)
  {
    if |ls| == 1 {
      assert ls[1..] == [];
      if current != [] {
        assert Concat([current]) == current + Concat([]);
      }
    } else if IsBlank(ls[0]) {
      GroupKeepsLines(ls[1..], []);
      ConcatAppend(if current == [] then [] else [current], Group(ls[1..], []));
      if current != [] {
        assert Concat([current]) == current + Concat([]);
      }
    } else {
      GroupKeepsLines(ls[1..], current + [ls[0]]);
    }
  }

  lemma {:induction false} ConcatAppend(a: seq<seq<string>>, b: seq<seq<string>>)
    ensures Concat(a + b) == Concat(a) + Concat(b)
  {
    if a != [] {
      assert (a + b)[0] == a[0] && (a + b)[1..] == a[1..] + b;
      ConcatAppend(a[1..], b);
    } else {
      assert a + b == b;
    }
  }

  /** No block is produced exactly when no line is left over and every line is blank. */
  lemma {:induction false} GroupEmpty(ls: seq<string>, current: seq<string>)
    requires forall k | 0 <= k < |current| :: !IsBlank(current[k])
    requires ls != [] && IsBlank(ls[|ls| - 1])
    ensures Group(ls, current) == [] <==> current == [] && forall k | 0 <= k < |ls| :: IsBlank(ls[k])
  {
    if |ls| > 1 {
      if IsBlank(ls[0]) {
        GroupEmpty(ls[1..], []);
        assert forall k | 1 <= k < |ls| :: ls[k] == ls[1..][k - 1];
      } else {
        GroupEmpty(ls[1..], current + [ls[0]]);
      }
    }
  }

  /** A text without any non-blank line (the empty text among them) holds no
      record, and a text with one holds at least one record. */
  lemma NoRecordsIffAllBlank(text: string)
    ensures ParseAll(text) == [] <==> forall k | 0 <= k < |Lines(text)| :: IsBlank(Lines(text)[k])
  {
    var ls := Lines(text) + [""];
    assert IsBlank("");
    GroupEmpty(ls, []);
    assert forall k | 0 <= k < |Lines(text)| :: Lines(text)[k] == ls[k];
  }

  // ---------------------------------------------------------------------------
  // Writing records

  /** `"#{value}"`: nil prints as the empty string. */
  function Show(o: Option<string>): string
  {
    match o
    case None => ""
    case Some(s) => s
  }

  /** An indented `Key value` line of a block. */
  function KeyLine(key: string, value: string): string
  {
    "  " + key + " " + value
  }

  /** The key lines as `write` spells them out. */
  lemma PrintedKeyLines(v: string)
    ensures KeyLine("HostName", v) == "  HostName " + v
    ensures KeyLine("User", v) == "  User " + v
    ensures KeyLine("Port", v) == "  Port " + v
    ensures KeyLine("IdentityFile", v) == "  IdentityFile " + v
  {
    assert "  " + "HostName" + " " == "  HostName ";
    assert "  " + "User" + " " == "  User ";
    assert "  " + "Port" + " " == "  Port ";
    assert "  " + "IdentityFile" + " " == "  IdentityFile ";
  }

  /** The lines `write` emits for one record, without the empty separator:
      `Host`, then `HostName` always, then `User`, `Port` and `IdentityFile`
      only when present. */
  function BodyLines(r: HostRecord): seq<string>
  {
    ["Host " + Show(r.host), KeyLine("HostName", Show(r.hostname))]
      + OptionalLine("User", r.user)
      + OptionalLine("Port", r.port)
      + OptionalLine("IdentityFile", r.idfile)
  }

  /** A `Key value` line when the value is present, nothing otherwise. */
  function OptionalLine(key: string, value: Option<string>): seq<string>
  {
    if value.Some? then [KeyLine(key, value.value)] else []
  }

  /** The lines `write` emits for one record, ending in the empty element. */
  function RecordLines(r: HostRecord): seq<string>
  {
    BodyLines(r) + [""]
  }

  /** The lines `write` emits for records already in order. */
  function RenderLines(rs: seq<HostRecord>): seq<string>
  {
    if rs == [] then [] else RecordLines(rs[0]) + RenderLines(rs[1..])
  }

  /** The file text `write` prints for records already in order. */
  function Render(rs: seq<HostRecord>): string
  {
    Join(RenderLines(rs))
  }

  /** Writing records one after another appends their lines. */
  lemma {:induction false} RenderLinesAppend(a: seq<HostRecord>, b: seq<HostRecord>)
    ensures RenderLines(a + b) == RenderLines(a) + RenderLines(b)
  {
    if a != [] {
      assert (a + b)[0] == a[0] && (a + b)[1..] == a[1..] + b;
      RenderLinesAppend(a[1..], b);
    } else {
      assert a + b == b;
    }
  }

  /** Writing one more record appends its lines. */
  lemma RenderLinesSnoc(rs: seq<HostRecord>, r: HostRecord)
    ensures RenderLines(rs + [r]) == RenderLines(rs) + RecordLines(r)
  {
    RenderLinesAppend(rs, [r]);
    assert [r][1..] == [];
    assert RenderLines([r]) == RecordLines(r) + [];
  }

  /** No record is written for no records: the file becomes empty. */
  lemma RenderNothing()
    ensures Render([]) == ""
    ensures ParseAll("") == []
  {
    assert Split("") == [""];
    assert [""][..0] == [];
    assert Lines("") == [];
    assert [] + [""] == [""];
    assert Blocks("") == Group([""], []);
    assert IsBlank("");
  }
}
