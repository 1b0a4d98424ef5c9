/**
 The release-file step of `systeminfo()`: every file whose name ends in
 `release` under `/etc` is read, cut into lines at `"\n"`, and each line
 holding an `=` is stored in the information record as `KEY=VALUE`, the key
 being the text before the first `=` with its spaces removed and the value
 the rest of the line as it stands. The record is a `map<string, string>`
 that already holds the probed base entries; the outcome of reading each
 file is an `Option<string>`, `None` standing for a read that raised.
 */
module ReleaseFiles {
  import opened Wrappers
  import opened Strings

  type Record = map<string, string>

  /** One stored pair. */
  datatype Entry = Entry(key: string, value: string)

  /** What one line contributes: nothing when it holds no `=`, else the
      normalised key and the raw value. */
  function ParseLine(line: string): (r: Option<Entry>)
    ensures r.None? <==> '=' !in line
    ensures r.Some? ==> ' ' !in r.value.key && '=' !in r.value.key
    ensures r.Some? ==> |r.value.key| < |line| && |r.value.value| < |line|
  {
    match SplitFirst(line, '=')
    case None => None
    case Some((attribute, value)) =>
      var key := RemoveSpaces(attribute);
      assert multiset(key)['='] == multiset(attribute)['='] == 0;
      Some(Entry(key, value))
  }

  /** Whether `line` stores something under `key`. */
  predicate Produces(line: string, key: string)
  {
    ParseLine(line).Some? && ParseLine(line).value.key == key
  }

  /** The record after one line has been handled. */
  function ApplyLine(m: Record, line: string): Record
  {
    match ParseLine(line)
    case None => m
    case Some(e) => m[e.key := e.value]
  }

  /** The record after the lines have been handled one after another, first to last. */
  function ApplyLines(m: Record, lines: seq<string>): Record
  {
    if lines == [] then m
    else ApplyLine(ApplyLines(m, lines[..|lines| - 1]), lines[|lines| - 1])
  }

  /** The keys that some line of `lines` stores. */
  ghost function KeysOf(lines: seq<string>): set<string>
  {
    set i | 0 <= i < |lines| && ParseLine(lines[i]).Some? :: ParseLine(lines[i]).value.key
  }

  /** The lines that get handled, in order: those of each file in turn, up to
      the first file whose read fails; nothing after that failure is read. */
  function ReadLines(files: seq<Option<string>>): seq<string>
  {
    if files == [] then []
    else match files[0]
      case None => []
      case Some(content) => Split(content, '\n') + ReadLines(files[1..])
  }

  predicate AllRead(files: seq<Option<string>>)
  {
    forall i :: 0 <= i < |files| ==> files[i].Some?
  }

  /** The release-file loop of `systeminfo()`: `data` starts as the base
      record and is updated in place, line by line and file by file; a failing
      read ends the loop and keeps what was already stored. */
  method MergeReleaseFiles(base: Record, files: seq<Option<string>>) returns (data: Record)
    ensures data == ApplyLines(base, ReadLines(files))
    ensures data.Keys == base.Keys + KeysOf(ReadLines(files))
  {
    data := base;
    var i := 0;
    while i < |files|
      invariant 0 <= i <= |files|
      invariant AllRead(files[..i])
      invariant data == ApplyLines(base, ReadLines(files[..i]))
    {
      if files[i].None? {
        ReadStopsAt(files, i);
        break;
      }
      var lines := Split(files[i].value, '\n');
      ghost var before := data;
      var j := 0;
      while j < |lines|
        invariant 0 <= j <= |lines|
        invariant data == ApplyLines(before, lines[..j])
      {
        var line := lines[j];
        ghost var prev := data;
        if '=' in line {
          var parts := SplitFirst(line, '=');
          var attribute := RemoveSpaces(parts.value.0);
          data := data[attribute := parts.value.1];
        }
        assert data == ApplyLine(prev, line);
        ApplyLinesStep(before, lines, j);
        j := j + 1;
      }
      assert lines[..j] == lines;
      ReadStep(base, files, i);
      i := i + 1;
    }
    if i == |files| {
      assert files[..i] == files;
    }
    ApplyLinesKeys(base, ReadLines(files));
  }

  /** Handling the first `j + 1` lines is handling the first `j` and then line `j`. */
  lemma ApplyLinesStep(m: Record, lines: seq<string>, j: nat)
    requires j < |lines|
    ensures ApplyLines(m, lines[..j + 1]) == ApplyLine(ApplyLines(m, lines[..j]), lines[j])
  {
    assert lines[..j + 1][..j] == lines[..j];
  }

  /** After a successful read of file `i`, its lines follow those of the files before it. */
  lemma ReadStep(base: Record, files: seq<Option<string>>, i: nat)
    requires i < |files| && AllRead(files[..i]) && files[i].Some?
    ensures AllRead(files[..i + 1])
    ensures ApplyLines(base, ReadLines(files[..i + 1]))
         == ApplyLines(ApplyLines(base, ReadLines(files[..i])), Split(files[i].value, '\n'))
  {
    assert files[..i + 1] == files[..i] + [files[i]];
    ReadLinesExtend(files[..i], files[i].value);
    ApplyLinesAppend(base, ReadLines(files[..i]), Split(files[i].value, '\n'));
  }

  /** When file `i` fails after the files before it were read, the lines read
      are exactly those of the files before it. */
  lemma ReadStopsAt(files: seq<Option<string>>, i: nat)
    requires i < |files| && AllRead(files[..i]) && files[i].None?
    ensures ReadLines(files) == ReadLines(files[..i])
  {
    assert files == files[..i] + [None] + files[i + 1..];
    ReadLinesStopsAtFailure(files[..i], files[i + 1..]);
  }

  // ---- one line ----

  /** A line `raw=value` whose `raw` part holds no `=` stores `value` (which may
      itself hold `=`) under `raw` with its spaces removed. */
  lemma ParseLineOf(raw: string, value: string)
    requires '=' !in raw
    ensures ParseLine(raw + "=" + value) == Some(Entry(RemoveSpaces(raw), value))
  {
    SplitFirstAt(raw, value, '=');
  }

  /** The effect of one line on the record: none without `=`, else exactly one
      key set to the value after the first `=`. */
  lemma ApplyLineEffect(m: Record, raw: string, value: string)
    requires '=' !in raw
    ensures ApplyLine(m, raw) == m
    ensures ApplyLine(m, raw + "=" + value) == m[RemoveSpaces(raw) := value]
  {
    ParseLineOf(raw, value);
  }

  /** A line starting with `=` stores the rest of the line under the empty key. */
  lemma LeadingEqualsIsEmptyKey(m: Record, value: string)
    ensures ApplyLine(m, "=" + value) == m["" := value]
  {
    assert "=" + value == [] + "=" + value;
    ApplyLineEffect(m, [], value);
  }

  // ---- many lines ----

  /** Handling `a` and then `b` is handling `a + b`. */
  lemma {:induction false} ApplyLinesAppend(m: Record, a: seq<string>, b: seq<string>)
    ensures ApplyLines(m, a + b) == ApplyLines(ApplyLines(m, a), b)
    decreases |b|
  {
    if b == [] {
      assert a + b == a;
    } else {
      var n := |b| - 1;
      assert (a + b)[..|a + b| - 1] == a + b[..n];
      assert (a + b)[|a + b| - 1] == b[n];
      ApplyLinesAppend(m, a, b[..n]);
    }
  }

  /** The keys stored by a sequence of lines are those of all but the last
      line, plus the last line's own key if it has one. */
  lemma KeysOfSnoc(lines: seq<string>)
    requires lines != []
    ensures var n := |lines| - 1;
      KeysOf(lines) == KeysOf(lines[..n])
        + (if ParseLine(lines[n]).Some? then {ParseLine(lines[n]).value.key} else {})
  {
    var n := |lines| - 1;
    var init := lines[..n];
    var extra: set<string> := if ParseLine(lines[n]).Some? then {ParseLine(lines[n]).value.key} else {};
    forall x | x in KeysOf(lines) ensures x in KeysOf(init) + extra {
      var i :| 0 <= i < |lines| && ParseLine(lines[i]).Some? && ParseLine(lines[i]).value.key == x;
      if i < n {
        assert init[i] == lines[i];
      }
    }
    forall x | x in KeysOf(init) ensures x in KeysOf(lines) {
      var i :| 0 <= i < n && ParseLine(init[i]).Some? && ParseLine(init[i]).value.key == x;
      assert lines[i] == init[i];
    }
  }

  /** The key set afterwards: the base keys plus the key of every line with `=`. */
  lemma {:induction false} ApplyLinesKeys(m: Record, lines: seq<string>)
    ensures ApplyLines(m, lines).Keys == m.Keys + KeysOf(lines)
    decreases |lines|
  {
    if lines != [] {
      ApplyLinesKeys(m, lines[..|lines| - 1]);
      KeysOfSnoc(lines);
    }
  }

  /** Last write wins: if line `j` is the last line storing under its key,
      that key ends up with line `j`'s value, whatever came before. */
  lemma {:induction false} ApplyLinesLastWins(m: Record, lines: seq<string>, j: nat)
    requires j < |lines| && ParseLine(lines[j]).Some?
    requires forall k :: j < k < |lines| ==> !Produces(lines[k], ParseLine(lines[j]).value.key)
    ensures ParseLine(lines[j]).value.key in ApplyLines(m, lines)
    ensures ApplyLines(m, lines)[ParseLine(lines[j]).value.key] == ParseLine(lines[j]).value.value
    decreases |lines|
  {
    var n := |lines| - 1;
    if j < n {
      ApplyLinesLastWins(m, lines[..n], j);
      assert !Produces(lines[n], ParseLine(lines[j]).value.key);
    }
  }

  /** A key that no line stores keeps its presence and its value from the base record. */
  lemma {:induction false} ApplyLinesUntouched(m: Record, lines: seq<string>, key: string)
    requires forall k :: 0 <= k < |lines| ==> !Produces(lines[k], key)
    ensures key in ApplyLines(m, lines) <==> key in m
    ensures key in m ==> ApplyLines(m, lines)[key] == m[key]
    decreases |lines|
  {
    if lines != [] {
      var n := |lines| - 1;
      assert !Produces(lines[n], key);
      ApplyLinesUntouched(m, lines[..n], key);
    }
  }

  /** Once some line stores under `key`, the base record no longer matters for it. */
  lemma {:induction false} ApplyLinesOverridesBase(m: Record, m': Record, lines: seq<string>, key: string)
    requires key in KeysOf(lines)
    ensures key in ApplyLines(m, lines) && key in ApplyLines(m', lines)
    ensures ApplyLines(m, lines)[key] == ApplyLines(m', lines)[key]
    decreases |lines|
  {
    var n := |lines| - 1;
    if !Produces(lines[n], key) {
      var i :| 0 <= i < |lines| && ParseLine(lines[i]).Some? && ParseLine(lines[i]).value.key == key;
      assert i < n && lines[..n][i] == lines[i];
      ApplyLinesOverridesBase(m, m', lines[..n], key);
    }
  }

  /** Lines without `=` leave the record as it was. */
  lemma {:induction false} ApplyLinesWithoutEquals(m: Record, lines: seq<string>)
    requires forall k :: 0 <= k < |lines| ==> '=' !in lines[k]
    ensures ApplyLines(m, lines) == m
    decreases |lines|
  {
    if lines != [] {
      ApplyLinesWithoutEquals(m, lines[..|lines| - 1]);
    }
  }

  /** File content without any `=` adds and changes nothing; empty content,
      which splits to `[""]`, is one case of it. */
  lemma ContentWithoutEqualsIsNoop(m: Record, content: string)
    requires '=' !in content
    ensures ApplyLines(m, Split(content, '\n')) == m
  {
    SplitKeepsAbsent(content, '\n', '=');
    ApplyLinesWithoutEquals(m, Split(content, '\n'));
  }

  // ---- many files ----

  /** Reading one more file after files that all read well appends its lines. */
  lemma {:induction false} ReadLinesExtend(files: seq<Option<string>>, content: string)
    requires AllRead(files)
    ensures ReadLines(files + [Some(content)]) == ReadLines(files) + Split(content, '\n')
    decreases |files|
  {
    if files == [] {
      assert ReadLines([Some(content)]) == Split(content, '\n') + ReadLines([]);
    } else {
      assert (files + [Some(content)])[1..] == files[1..] + [Some(content)];
      ReadLinesExtend(files[1..], content);
    }
  }

  /** A failing read ends the scan: later files are never read, and the
      lines of the earlier files are all still handled. */
  lemma {:induction false} ReadLinesStopsAtFailure(files: seq<Option<string>>, rest: seq<Option<string>>)
    requires AllRead(files)
    ensures ReadLines(files + [None] + rest) == ReadLines(files)
    decreases |files|
  {
    if files == [] {
      assert ([None] + rest)[0] == None;
    } else {
      assert (files + [None] + rest)[1..] == files[1..] + [None] + rest;
      ReadLinesStopsAtFailure(files[1..], rest);
    }
  }

  /** Across files: for a key that the last file read stores, the value in
      the merged record is the one that file's lines give, whatever the base
      record and the earlier files held. */
  lemma LastFileDecides(base: Record, earlier: seq<Option<string>>, content: string, key: string)
    requires AllRead(earlier)
    requires key in KeysOf(Split(content, '\n'))
    ensures key in ApplyLines(map[], Split(content, '\n'))
    ensures key in ApplyLines(base, ReadLines(earlier + [Some(content)]))
    ensures ApplyLines(base, ReadLines(earlier + [Some(content)]))[key]
         == ApplyLines(map[], Split(content, '\n'))[key]
  {
    ReadLinesExtend(earlier, content);
    ApplyLinesAppend(base, ReadLines(earlier), Split(content, '\n'));
    ApplyLinesOverridesBase(ApplyLines(base, ReadLines(earlier)), map[], Split(content, '\n'), key);
  }

  /** A plain pair: `NAME=Ubuntu` stores `Ubuntu` under `NAME`. */
  lemma ExamplePlainPair()
    ensures ParseLine("NAME=Ubuntu") == Some(Entry("NAME", "Ubuntu"))
  {
    ParseLineOf("NAME", "Ubuntu");
    assert "NAME" + "=" + "Ubuntu" == "NAME=Ubuntu";
    RemoveSpacesNoSpace("NAME");
  }

  /** A space in the key is dropped: `VERSION ID=20.04` stores under `VERSIONID`. */
  lemma ExampleSpaceInKey()
    ensures ParseLine("VERSION ID=20.04") == Some(Entry("VERSIONID", "20.04"))
  {
    var raw: string, value: string := "VERSION ID", "20.04";
    RemoveSpacesVersionId();
    ParseLineOf(raw, value);
    assert raw + "=" + value == "VERSION ID=20.04";
  }

  lemma RemoveSpacesVersionId()
    ensures RemoveSpaces("VERSION ID") == "VERSIONID"
  {
    var v: string, sp: string, id: string := "VERSION", " ", "ID";
    assert "VERSION ID" == v + sp + id;
    assert RemoveSpaces(sp) == [] by {
      assert sp[0] == ' ' && sp[1..] == [];
    }
    RemoveSpacesAppend(v + sp, id);
    RemoveSpacesAppend(v, sp);
    RemoveSpacesNoSpace(v);
    RemoveSpacesNoSpace(id);
    assert v + id == "VERSIONID";
  }

  /** Only the first `=` separates: `A=b=c` stores `b=c` under `A`. */
  lemma ExampleValueWithEquals()
    ensures ParseLine("A=b=c") == Some(Entry("A", "b=c"))
  {
    ParseLineOf("A", "b=c");
    assert "A" + "=" + "b=c" == "A=b=c";
    RemoveSpacesNoSpace("A");
  }
}
