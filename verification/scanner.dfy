/**
 The scan in `main`: for every directory entry whose name ends in `.log`, every
 line holding the login marker contributes the name `getName` extracts from
 it to the tally. Directory listing and file reading are not modelled: the
 listing arrives as a sequence of entries, each with its lines.
 */
module Scanner {
  import opened Text
  import opened Parser
  import opened LoginTally

  /** Only entries whose names end in this are read. */
  const LogSuffix := ".log"

  /** Only lines holding this are login events. */
  const LoginMarker := "logged in with entity id"

  /** One entry of the data directory, with the lines of its file. */
  datatype DirEntry = DirEntry(fileName: string, lines: seq<string>)

  predicate IsLogFile(e: DirEntry)
  {
    EndsWith(e.fileName, LogSuffix)
  }

  predicate IsLoginLine(line: string)
  {
    Contains(line, LoginMarker)
  }

  /** The marker alone holds four spaces, so a login line always has the
      name field and `getName` never fails on the lines the scan gives it. */
  lemma LoginLineHasName(line: string)
    requires IsLoginLine(line)
    ensures GetName(line).Name?
  {
    ContainsOccurs(line, LoginMarker);
    var i :| OccursAt(line, LoginMarker, i);
    assert line[i..i + |LoginMarker|] == LoginMarker;
    assert LoginMarker[6] == ' ' && LoginMarker[9] == ' ' && LoginMarker[14] == ' ';
    assert line[i + 6] == ' ' && line[i + 9] == ' ' && line[i + 14] == ' ' by {
      assert line[i + 6] == line[i..i + |LoginMarker|][6];
      assert line[i + 9] == line[i..i + |LoginMarker|][9];
      assert line[i + 14] == line[i..i + |LoginMarker|][14];
    }
    ThreeOccurrences(line, ' ', i + 6, i + 9, i + 14);
  }

  /** The name `getName` extracts from a login line. */
  function PlayerName(line: string): string
    requires IsLoginLine(line)
  {
    LoginLineHasName(line);
    GetName(line).name
  }

  /** The names the scan counts from one file's lines, in line order. */
  function LoginNamesIn(lines: seq<string>): seq<string>
  {
    if lines == [] then []
    else
      var last := lines[|lines| - 1];
      LoginNamesIn(lines[..|lines| - 1]) + (if IsLoginLine(last) then [PlayerName(last)] else [])
  }

  /** The names the scan counts from a directory listing, in listing order. */
  function LoginNames(listing: seq<DirEntry>): seq<string>
  {
    if listing == [] then []
    else
      var last := listing[|listing| - 1];
      LoginNames(listing[..|listing| - 1]) + (if IsLogFile(last) then LoginNamesIn(last.lines) else [])
  }

  /** Lines contribute independently: the names from `a + b` are those from
      `a` followed by those from `b`. */
  lemma {:induction false} LoginNamesInAppend(a: seq<string>, b: seq<string>)
    ensures LoginNamesIn(a + b) == LoginNamesIn(a) + LoginNamesIn(b)
    decreases |b|
  {
    if b == [] {
      assert a + b == a;
    } else {
      var b' := b[..|b| - 1];
      assert (a + b)[..|a + b| - 1] == a + b';
      LoginNamesInAppend(a, b');
    }
  }

  /** Files contribute independently: the names from `a + b` are those from
      `a` followed by those from `b`. */
  lemma {:induction false} LoginNamesAppend(a: seq<DirEntry>, b: seq<DirEntry>)
    ensures LoginNames(a + b) == LoginNames(a) + LoginNames(b)
    decreases |b|
  {
    if b == [] {
      assert a + b == a;
    } else {
      var b' := b[..|b| - 1];
      assert (a + b)[..|a + b| - 1] == a + b';
      LoginNamesAppend(a, b');
    }
  }

  /** A line contributes its player's name when it holds the marker and
      nothing otherwise. */
  lemma LoginNamesOfLine(line: string)
    ensures IsLoginLine(line) ==> LoginNamesIn([line]) == [PlayerName(line)]
    ensures !IsLoginLine(line) ==> LoginNamesIn([line]) == []
  {
    assert [line][..0] == [];
  }

  /** An entry contributes the names of its file's login lines when its name
      ends in `.log` and nothing otherwise: other files are never read. */
  lemma LoginNamesOfEntry(e: DirEntry)
    ensures IsLogFile(e) ==> LoginNames([e]) == LoginNamesIn(e.lines)
    ensures !IsLogFile(e) ==> LoginNames([e]) == []
  {
    assert [e][..0] == [];
  }

  /** Removing a line without the marker changes nothing. */
  lemma NonLoginLineIgnored(a: seq<string>, line: string, b: seq<string>)
    requires !IsLoginLine(line)
    ensures LoginNamesIn(a + [line] + b) == LoginNamesIn(a + b)
  {
    LoginNamesInAppend(a + [line], b);
    LoginNamesInAppend(a, [line]);
    LoginNamesInAppend(a, b);
    LoginNamesOfLine(line);
  }

  /** Removing an entry whose name does not end in `.log` changes nothing. */
  lemma NonLogFileIgnored(a: seq<DirEntry>, e: DirEntry, b: seq<DirEntry>)
    requires !IsLogFile(e)
    ensures LoginNames(a + [e] + b) == LoginNames(a + b)
  {
    LoginNamesAppend(a + [e], b);
    LoginNamesAppend(a, [e]);
    LoginNamesAppend(a, b);
    LoginNamesOfEntry(e);
  }

  /** Counting one more name extends the counted sequence by that name. */
  lemma CountAllSnoc(names: seq<string>, name: string)
    ensures CountAll(names + [name]) == CountName(CountAll(names), name)
  {
    assert (names + [name])[..|names|] == names;
  }

  /** What is counted after the first `j + 1` lines: what was counted after
      the first `j`, then the names from line `j`. */
  lemma LoginNamesInPrefix(seen: seq<string>, lines: seq<string>, j: nat)
    requires j < |lines|
    ensures seen + LoginNamesIn(lines[..j + 1]) == (seen + LoginNamesIn(lines[..j])) + LoginNamesIn([lines[j]])
  {
    assert lines[..j + 1] == lines[..j] + [lines[j]];
    LoginNamesInAppend(lines[..j], [lines[j]]);
  }

  /** The body of the inner loop, for one line: a login line counts its
      player once more, any other line changes nothing. `counted` is what
      was counted before the line. */
  method ScanLine(line: string, ghost counted: seq<string>, tally0: Tally, count0: nat)
    returns (tally: Tally, totalCount: nat)
    requires tally0 == CountAll(counted) && count0 == |counted|
    ensures tally == CountAll(counted + LoginNamesIn([line]))
    ensures totalCount == |counted + LoginNamesIn([line])|
  {
    LoginNamesOfLine(line);
    if IsLoginLine(line) {
      var name := PlayerName(line);
      CountAllSnoc(counted, name);
      tally := CountName(tally0, name);
      totalCount := count0 + 1;
    } else {
      assert counted + LoginNamesIn([line]) == counted;
      tally, totalCount := tally0, count0;
    }
  }

  /** The inner loop of the scan, over the lines of one `.log` file: each
      login line counts its player once more. `seen` is what was counted
      before this file. */
  method ScanLines(lines: seq<string>, ghost seen: seq<string>, tally0: Tally, count0: nat)
    returns (tally: Tally, totalCount: nat)
    requires tally0 == CountAll(seen) && count0 == |seen|
    ensures tally == CountAll(seen + LoginNamesIn(lines))
    ensures totalCount == |seen + LoginNamesIn(lines)|
  {
    tally, totalCount := tally0, count0;
    var j := 0;
    ghost var counted := seen;
    assert seen + LoginNamesIn(lines[..j]) == seen;
    while j < |lines|
      invariant 0 <= j <= |lines|
      invariant counted == seen + LoginNamesIn(lines[..j])
      invariant tally == CountAll(counted) && totalCount == |counted|
    {
      LoginNamesInPrefix(seen, lines, j);
      tally, totalCount := ScanLine(lines[j], counted, tally, totalCount);
      counted := counted + LoginNamesIn([lines[j]]);
      j := j + 1;
    }
    assert lines[..j] == lines;
  }

  /** The scanning loop of `main`: the tally it builds counts exactly the
      names of the login lines of the `.log` files, in scan order, and
      `totalCount` is the number of those lines, which is the sum of all
      counts. */
  method Scan(listing: seq<DirEntry>) returns (tally: Tally, totalCount: nat)
    ensures tally == CountAll(LoginNames(listing))
    ensures totalCount == |LoginNames(listing)|
    ensures totalCount == Total(tally)
    ensures Valid(tally)
  {
    tally := [];
    totalCount := 0;
    var k := 0;
    while k < |listing|
      invariant 0 <= k <= |listing|
      invariant tally == CountAll(LoginNames(listing[..k]))
      invariant totalCount == |LoginNames(listing[..k])|
    {
      var entry := listing[k];
      assert listing[..k + 1] == listing[..k] + [entry];
      LoginNamesAppend(listing[..k], [entry]);
      LoginNamesOfEntry(entry);
      if EndsWith(entry.fileName, LogSuffix) {
        tally, totalCount := ScanLines(entry.lines, LoginNames(listing[..k]), tally, totalCount);
      } else {
        assert LoginNames(listing[..k + 1]) == LoginNames(listing[..k]) + [];
        assert LoginNames(listing[..k + 1]) == LoginNames(listing[..k]);
      }
      k := k + 1;
    }
    assert listing[..k] == listing;
    CountAllCounts(LoginNames(listing));
  }
}
