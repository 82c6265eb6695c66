/**
 The whole run (`main`, `ensureDirRead`, `ensureDirWrite`), with the file
 system and the console replaced by values: the run receives what it would
 find on disk and returns what it prints, which directories it creates and
 which file it writes, tagged with how it ended.
 */
module LoginCounter {
  import opened Text
  import opened LoginTally
  import opened Scanner
  import opened Ranking
  import opened Table

  const DataDirectory := "data"
  const OutputDirectory := "output"
  const OutputFileName := "output.txt"
  const OutputDirMade := "Output folder not found, creating one..."
  const DataDirMissing := "Data directory not found. I have created a data folder, please populate it with log files and try again "
  const DataDirEmpty := "Your data directory is empty. Please populate it with log files and try again"

  /** What the run finds on disk: whether the data and output directories
      exist, and the data directory's entries in listing order. */
  datatype Environment = Environment(dataDirExists: bool, listing: seq<DirEntry>, outputDirExists: bool)

  /** How the run ended: stopped early by `exit()`, or ran to the end. */
  datatype Status = StoppedNoDataDir | StoppedEmptyDataDir | Finished

  /** The output file written, if any. */
  datatype FileWrite = NoWrite | Write(path: string, contents: string)

  /** Everything the run does that can be observed. */
  datatype Run = Run(status: Status, console: seq<string>, createdDirs: seq<string>, output: FileWrite)

  /** The ranked tally of a listing: what the table is rendered from. */
  function RankedTally(listing: seq<DirEntry>): seq<Entry>
  {
    RankByCount(CountAll(LoginNames(listing)))
  }

  /** `printTableConsole` followed by `writeTableFile` for a non-empty ranked
      tally: the table goes to the console, `ensureDirWrite` announces and
      creates a missing output directory, and the file receives the table's
      lines, each followed by a newline. */
  function Publish(ranked: seq<Entry>, outputDirExists: bool): (run: Run)
    requires |ranked| > 0
    ensures run.status == Finished
    ensures run.console == ConsoleLines(ranked) + (if outputDirExists then [] else [OutputDirMade])
    ensures run.createdDirs == (if outputDirExists then [] else [OutputDirectory])
    ensures run.output == Write(OutputDirectory + "/" + OutputFileName, Terminated(ConsoleLines(ranked)))
  {
    FileTextIsConsoleLines(ranked);
    var announce := if outputDirExists then [] else [OutputDirMade];
    var created := if outputDirExists then [] else [OutputDirectory];
    Run(Finished, ConsoleLines(ranked) + announce, created,
        Write(OutputDirectory + "/" + OutputFileName, FileText(ranked)))
  }

  /** `main`. A missing data directory is created and the run stops; an
      empty one stops the run; otherwise the logs are scanned, and when any
      login was found the ranked table is printed and then written to
      `output/output.txt`, creating `output` first when it is missing. */
  method CountLogins(env: Environment) returns (run: Run)
    ensures !env.dataDirExists ==>
              run == Run(StoppedNoDataDir, [DataDirMissing], [DataDirectory], NoWrite)
    ensures env.dataDirExists && env.listing == [] ==>
              run == Run(StoppedEmptyDataDir, [DataDirEmpty], [], NoWrite)
    ensures env.dataDirExists && env.listing != [] ==> run.status == Finished
    ensures run.output.Write? <==> env.dataDirExists && LoginNames(env.listing) != []
    ensures run.status == Finished && LoginNames(env.listing) == [] ==>
              run.console == [] && run.createdDirs == []
    ensures run.output.Write? ==>
              var table := ConsoleLines(RankedTally(env.listing));
              && run.output.path == OutputDirectory + "/" + OutputFileName
              && run.output.contents == Terminated(table)
              && run.console == table + (if env.outputDirExists then [] else [OutputDirMade])
              && run.createdDirs == (if env.outputDirExists then [] else [OutputDirectory])
  {
    if !env.dataDirExists {
      return Run(StoppedNoDataDir, [DataDirMissing], [DataDirectory], NoWrite);
    }
    if |env.listing| == 0 {
      return Run(StoppedEmptyDataDir, [DataDirEmpty], [], NoWrite);
    }
    var tally, totalCount := Scan(env.listing);
    var ranked := RankByCount(tally);
    if |ranked| == 0 {
      CountAllCounts(LoginNames(env.listing));
      assert LoginNames(env.listing) == [];
      return Run(Finished, [], [], NoWrite);
    }
    assert LoginNames(env.listing) != [];
    run := Publish(ranked, env.outputDirExists);
  }

  /** End to end: the ranked rows are exactly the players seen on login lines
      of `.log` files, each once, each with the number of its login lines,
      the largest count first and ties in first-seen order. */
  lemma RankedTallyCountsLogins(listing: seq<DirEntry>)
    ensures var ranked := RankedTally(listing);
            var names := LoginNames(listing);
            && ByCountDescending(ranked)
            && DistinctNames(ranked)
            && (forall n :: n in NameSet(ranked) <==> n in names)
            && (forall i :: 0 <= i < |ranked| ==> ranked[i].name in names)
            && (forall i :: 0 <= i < |ranked| ==> ranked[i].count == multiset(names)[ranked[i].name])
            && (forall i, j :: 0 <= i < j < |ranked| && ranked[i].count == ranked[j].count ==>
                  FirstIndex(names, ranked[i].name) < FirstIndex(names, ranked[j].name))
  {
    var names := LoginNames(listing);
    var t := CountAll(names);
    var ranked := RankByCount(t);
    CountAllCounts(names);
    CountAllFirstSeenOrder(names);
    RankKeepsTally(t);
    SameEntriesSameNames(ranked, t);
    ToMapLookup(ranked);
    ToMapLookup(t);
    forall i, j | 0 <= i < j < |ranked| && ranked[i].count == ranked[j].count
      ensures FirstIndex(names, ranked[i].name) < FirstIndex(names, ranked[j].name)
    {
      var c := ranked[i].count;
      RankByCountStable(t, c);
      WithCountKeepsFirstSeenOrder(t, names, c);
      WithCountOrder(ranked, c, i, j);
    }
  }
}
