/**
 * Where the issues come from: the file `issues.json` when it exists,
 * otherwise every closed issue fetched page by page, written to that file
 * only when there is at least one. The file system is a map from file name
 * to the issues the file holds.
 */
module IssueCache {
  import opened QueryString
  import opened ReleaseNotes
  import opened Pagination

  const CacheFile := "issues.json"

  /** The repository's issues endpoint; it has no query of its own. */
  const IssuesResource := Uri("https://api.github.com/repos/signalr/signalr/issues", "")

  const IssueParameters: Parameters := [("state", "closed"), ("per_page", "100")]

  /** The first URL requested. */
  function StartResource(): string
  {
    UriText(AddParameters(IssuesResource, IssueParameters))
  }

  type Files = map<string, seq<Issue>>

  /** The files the program can see, changed in place when it writes one. */
  class FileSystem {
    var files: Files

    constructor(files: Files)
      ensures this.files == files
    {
      this.files := files;
    }
  }

  datatype Loaded = Loaded(outcome: Outcome, files: Files)

  /** The issues the program works on, and the files afterwards. */
  function Load(files: Files, server: Server, fuel: nat): (r: Loaded)
    ensures CacheFile in files ==> r == Loaded(Finished(files[CacheFile]), files)
    ensures CacheFile !in files ==> r.outcome == Run(Pass(server), Initial(StartResource()), fuel)
    ensures CacheFile in r.files ==> r.outcome == Finished(r.files[CacheFile])
    ensures CacheFile !in files && CacheFile in r.files ==> r.outcome.issues != []
    ensures forall name :: name in r.files && name != CacheFile ==> name in files && r.files[name] == files[name]
    ensures forall name :: name in files ==> name in r.files
  {
    if CacheFile in files then Loaded(Finished(files[CacheFile]), files)
    else
      var outcome := Run(Pass(server), Initial(StartResource()), fuel);
      if outcome.Finished? && |outcome.issues| > 0 then Loaded(outcome, files[CacheFile := outcome.issues])
      else Loaded(outcome, files)
  }

  /**
   * A fetch that finishes with issues is written, and from then on every load
   * reads the file: the same issues and no change to any file, whatever the
   * server would answer.
   */
  lemma LoadsAreCached(files: Files, server: Server, fuel: nat, server': Server, fuel': nat)
    ensures Load(files, server, fuel).outcome.Finished? && Load(files, server, fuel).outcome.issues != [] ==>
      CacheFile in Load(files, server, fuel).files
    ensures CacheFile in Load(files, server, fuel).files ==>
      Load(Load(files, server, fuel).files, server', fuel') == Load(files, server, fuel)
  {
  }

  /**
   * Without the file, a fetch that finishes empty, crashes or does not finish
   * writes nothing, so the next load asks the server again.
   */
  lemma OnlyNonEmptyFetchesAreWritten(files: Files, server: Server, fuel: nat)
    requires CacheFile !in files
    requires !(Run(Pass(server), Initial(StartResource()), fuel).Finished? &&
               Run(Pass(server), Initial(StartResource()), fuel).issues != [])
    ensures Load(files, server, fuel).files == files
    ensures forall server': Server, fuel': nat ::
      Load(Load(files, server, fuel).files, server', fuel').outcome == Run(Pass(server'), Initial(StartResource()), fuel')
  {
  }

  /** The first request asks for closed issues, a hundred per page. */
  lemma StartResourceQuery()
    ensures StartResource() == IssuesResource.path + "?state=closed&per_page=100"
  {
    IssueQuery();
    var query := "state=closed&per_page=100";
    assert AddParameters(IssuesResource, IssueParameters) == Uri(IssuesResource.path, query);
  }

  /** `GetIssuesForMilestone`. */
  method GetIssuesForMilestone(fs: FileSystem, server: Server, fuel: nat) returns (outcome: Outcome)
    modifies fs
    ensures Loaded(outcome, fs.files) == Load(old(fs.files), server, fuel)
  {
    if CacheFile !in fs.files {
      outcome := GetIssues(server, StartResource(), fuel);
      if outcome.Finished? && |outcome.issues| > 0 {
        fs.files := fs.files[CacheFile := outcome.issues];
      }
    } else {
      outcome := Finished(fs.files[CacheFile]);
    }
  }

  /** What a run prints: the release notes, or the exception that ended it, or nothing yet. */
  datatype Report = Notes(lines: seq<Line>) | Failed(error: Error) | Unfinished(state: State)

  /**
   * The report of a finished run opens with the count of the milestone's
   * closed issues, and its bullets are exactly those issues that have a
   * known category.
   */
  function ReportFor(outcome: Outcome, milestone: string): (r: Report)
    ensures outcome.Finished? ==>
      var kept := Kept(outcome.issues, milestone);
      r.Notes? && |r.lines| >= 2 && r.lines[0] == SummaryLine(|kept|, milestone) &&
      multiset(Bullets(r.lines)) == multiset(Categorised(kept))
    ensures outcome.Crashed? ==> r == Failed(outcome.error)
    ensures outcome.OutOfFuel? ==> r == Unfinished(outcome.state)
  {
    match outcome
    case Finished(issues) =>
      var groups := IssueGroups(issues, milestone);
      FoundCountsKept(issues, milestone);
      BulletsOfNotesText(groups, milestone);
      ListedIsCategorised(Kept(issues, milestone));
      Notes(NotesText(groups, milestone))
    case Crashed(e) => Failed(e)
    case OutOfFuel(st) => Unfinished(st)
  }

  /** `BuildReleaseNotesForMilestone`: load the issues, then filter, group and print them. */
  method BuildReleaseNotesForMilestone(fs: FileSystem, server: Server, fuel: nat, milestone: string)
    returns (report: Report)
    modifies fs
    ensures fs.files == Load(old(fs.files), server, fuel).files
    ensures report == ReportFor(Load(old(fs.files), server, fuel).outcome, milestone)
  {
    var outcome := GetIssuesForMilestone(fs, server, fuel);
    match outcome {
      case Finished(issues) =>
        var lines := WriteReleaseNotes(IssueGroups(issues, milestone), milestone);
        report := Notes(lines);
      case Crashed(e) =>
        report := Failed(e);
      case OutOfFuel(st) =>
        report := Unfinished(st);
    }
  }
}
