# ReleaseNotesMaker in Dafny

ReleaseNotesMaker prints the markdown release notes for one milestone of the
SignalR repository. It first gathers every closed issue. If the file
`issues.json` exists, the issues are read from that file. Otherwise they are
fetched from the GitHub issues endpoint, one page of 100 at a time. The program
follows the `Link` header of each response until it has fetched the page it
recorded as the last one, and writes the result to `issues.json` when the result
is not empty. Then it keeps the issues whose milestone title is the milestone
asked for and sorts each one into a category:

- "Bugs Fixed" for an issue labelled `5 - Done` and `bug`;
- "Features" for an issue labelled `5 - Done` and `feature`;
- the empty category for everything else.

It groups the issues by category, keeping the order in which each category first
appears. It prints a line saying how many issues were found, then one section
per category, leaving out the empty category. A section has a `###` heading and
one bullet per issue.

The model is split into modules that follow that program:

- `Labels`: `Categorize`.
- `ReleaseNotes`: the issue query (filter, group-by, count) and the printing
  loop.
- `QueryString`: `BuildQueryString` and `AddParameters`.
- `ResourceLinks`: `GetResourceLinks`, the `<(.+?)>` regular expression and the
  bracket trimming.
- `Pagination`: the `GetIssues` paging loop, against an abstract server.
- `IssueCache`: `GetIssuesForMilestone`, with its `issues.json` cache, and
  `BuildReleaseNotesForMilestone`.
- `Text` and `Wrappers` are helpers.

The printed output is modelled as a sequence of `Line` values, each with the
exact text it prints (`ReleaseNotes.LineText`). The file system is a `class`
whose map from file names to contents is replaced when `issues.json` is written.

Three points of the code worth knowing:

- A category needs the exact labels `5 - Done`, `bug` or `feature`. A substring
  of a label does not count, and there is no `enhancement` label.
- The issues are filtered on the milestone only. Issues without labels are not
  dropped.
- The cache is always the file `issues.json`. There is no freshness check, no
  per-repository file name, and the repository URL is fixed.

## Model

| member | source | states |
|---|---|---|
| Labels.Categorize | ReleaseNotesMaker/Program.cs:74-90 | The category is "Bugs Fixed" exactly when the labels contain `5 - Done` and `bug`. It is "Features" exactly when they contain `5 - Done` and `feature` but not `bug`. It is empty exactly when `5 - Done` is missing or neither `bug` nor `feature` is there. |
| Labels.CategorizeDependsOnlyOnLabelSet | ReleaseNotesMaker/Program.cs:74-90 | Two label lists with the same members get the same category, whatever their order or repetitions. |
| Labels.CategorizeIsExactMatch | ReleaseNotesMaker/Program.cs:76-83 | Labels must match exactly and case-sensitively. `Done`, `5 - Done ` (with a trailing space), `Bug` and `enhancement` do not count. `bug` wins over `feature`. |
| ReleaseNotes.InMilestone | ReleaseNotesMaker/Program.cs:48 | Definition: an issue is in the milestone when it has a milestone whose title equals the requested one, case-sensitively. Its use is stated by `Kept`. |
| ReleaseNotes.Kept | ReleaseNotesMaker/Program.cs:48 | An issue is kept exactly when it is among the input issues and its milestone has the requested title. The result is never longer than the input. |
| ReleaseNotes.KeptDistributes | ReleaseNotesMaker/Program.cs:44-48 | Filtering keeps the input order: filtering a concatenation is the concatenation of the filtered parts. |
| ReleaseNotes.AddToGroups | ReleaseNotesMaker/Program.cs:49 | Adding one issue either keeps the number of groups or adds exactly one group. `AddToGroupsNewKey` and `AddToGroupsExistingKey` state which. |
| ReleaseNotes.GroupBy | ReleaseNotesMaker/Program.cs:49 | Definition: the groups are built by adding the issues one at a time, in input order. `GroupByIsGrouping` ties it to the declarative grouping. |
| ReleaseNotes.Grouping | ReleaseNotesMaker/Program.cs:49-50 | Definition: the declarative `group by`, one group per category in first-seen order holding the issues of that category. `GroupByIsGrouping` ties `GroupBy` to it. |
| ReleaseNotes.FirstSeen | ReleaseNotesMaker/Program.cs:49 | The group keys are exactly the categories that occur, each listed once. |
| ReleaseNotes.FirstSeenOrder | ReleaseNotesMaker/Program.cs:49 | The group keys are listed in the order of each category's first occurrence among the issues. |
| ReleaseNotes.Select | ReleaseNotesMaker/Program.cs:49 | A group's members are exactly the input issues of its category. |
| ReleaseNotes.AddToGroupsNewKey | ReleaseNotesMaker/Program.cs:49 | An issue whose category has no group yet opens a new group at the end, holding just that issue. |
| ReleaseNotes.AddToGroupsExistingKey | ReleaseNotesMaker/Program.cs:49 | An issue whose category already has a group is appended to that group's members. Every other group is left unchanged. |
| ReleaseNotes.GroupByIsGrouping | ReleaseNotesMaker/Program.cs:49-50 | Grouping one issue at a time gives the declarative grouping: one group per category in first-seen order, with the members of each group in input order. |
| ReleaseNotes.IssueInExactlyOneGroup | ReleaseNotesMaker/Program.cs:49 | Every issue is in the group keyed by its category, and in no other group. |
| ReleaseNotes.Found | ReleaseNotesMaker/Program.cs:52 | Definition: `issueGroups.Sum(g => g.Count())`, the sum of the group sizes. `FoundCountsAll` and `FoundCountsKept` state what it counts. |
| ReleaseNotes.FoundAddToGroups | ReleaseNotesMaker/Program.cs:49-52 | Adding an issue to the groups raises the total member count by exactly one. |
| ReleaseNotes.FoundCountsAll | ReleaseNotesMaker/Program.cs:52 | The sum of the group sizes equals the number of issues grouped, including the uncategorised group. |
| ReleaseNotes.IssueGroups | ReleaseNotesMaker/Program.cs:44-50 | Definition: the `issueGroups` query, `GroupBy` of `Kept`. `FoundCountsKept` and `ExampleReleaseNotes` state what it yields. |
| ReleaseNotes.FoundCountsKept | ReleaseNotesMaker/Program.cs:44-52 | The count in the "Found" line is the number of issues in the milestone. |
| ReleaseNotes.ListedAddToGroups | ReleaseNotesMaker/Program.cs:49-68 | Adding an issue adds it to the printed bullets exactly when its category is not empty. |
| ReleaseNotes.ListedIsCategorised | ReleaseNotesMaker/Program.cs:49-68 | The issues of the listed groups are exactly the categorised issues, each once: as a multiset they equal the issues with a non-empty category. `BulletsOfNotesText` ties them to the printed bullets. |
| ReleaseNotes.LineText | ReleaseNotesMaker/Program.cs:52-70 | Definition: the exact text of each kind of line, following the four format strings. The `Example…Text` lemmas show the text on the worked example. |
| ReleaseNotes.Section | ReleaseNotesMaker/Program.cs:62-70 | Definition: a heading, a blank line, one bullet per member, a blank line. `WriteSection` is proved against it. |
| ReleaseNotes.Sections | ReleaseNotesMaker/Program.cs:55-71 | Definition: the sections of the groups in order, skipping the group with the empty key. `SectionsAppend` and `BulletsOfSections` state its properties. |
| ReleaseNotes.NotesText | ReleaseNotesMaker/Program.cs:52-71 | Definition: the summary line, a blank line, then the sections. `NotesTextLength` and `BulletsOfNotesText` state its properties. |
| ReleaseNotes.BulletsAppend | ReleaseNotesMaker/Program.cs:55-71 | The bullets of two printouts one after the other are the bullets of the first followed by those of the second. |
| ReleaseNotes.BulletsOfIssueLines | ReleaseNotesMaker/Program.cs:65-68 | The bullet lines of a group name its members, in order, each once. |
| ReleaseNotes.BulletsOfSections | ReleaseNotesMaker/Program.cs:55-71 | The bullets of the sections are exactly the members of the groups with a non-empty key, in group order and member order. |
| ReleaseNotes.BulletsOfNotesText | ReleaseNotesMaker/Program.cs:52-71 | The summary and blank lines hold no bullet, so the bullets of the whole printout are exactly the listed issues. |
| ReleaseNotes.SectionsAppend | ReleaseNotesMaker/Program.cs:55-71 | A further group adds its section to the output, unless its key is empty, in which case it adds nothing. |
| ReleaseNotes.NotesTextLength | ReleaseNotesMaker/Program.cs:52-71 | The output has 2 lines for the summary, plus one line per listed issue, plus 3 lines per printed section. |
| ReleaseNotes.IssueLinesPrefix | ReleaseNotesMaker/Program.cs:65-68 | The bullets of a longer prefix of a group are the bullets of the shorter prefix followed by the next issue's bullet. |
| ReleaseNotes.WriteSection | ReleaseNotesMaker/Program.cs:62-70 | The section loop prints a heading, a blank line, one bullet per member in order, and a blank line. |
| ReleaseNotes.WriteReleaseNotes | ReleaseNotesMaker/Program.cs:52-71 | The loop prints the summary line with the total count, then a blank line, then the sections of all groups in order, skipping the group with the empty key. |
| ReleaseNotes.ExampleKept | ReleaseNotesMaker/Program.cs:48 | Worked example: an issue of another milestone is dropped and the order is kept. |
| ReleaseNotes.ExampleGroupBy | ReleaseNotesMaker/Program.cs:49 | Worked example: a bug and a feature give the groups "Bugs Fixed" and "Features", in that order. |
| ReleaseNotes.ExampleReleaseNotes | ReleaseNotesMaker/Program.cs:44-52 | Worked example: the full query on three issues gives two groups and a count of 2. |
| ReleaseNotes.ExampleSummaryText | ReleaseNotesMaker/Program.cs:52 | Worked example: two issues in 2.1.1 print as `Found (2) issues in 2.1.1`. |
| ReleaseNotes.ExampleHeadingText | ReleaseNotesMaker/Program.cs:62 | Worked example: the bug section heading prints as `### Bugs Fixed`. |
| ReleaseNotes.ExampleBulletText | ReleaseNotesMaker/Program.cs:67 | Worked example: issue 1 titled "Fix crash" at `u1` prints as `* Fix crash ([#1](u1))`. |
| Text.NatDigits | ReleaseNotesMaker/Program.cs:52 | A count prints as a non-empty run of decimal digits with no leading zero. |
| Text.ParseNatDigits | ReleaseNotesMaker/Program.cs:52 | Printing a natural number in decimal and reading the digits back gives the number. |
| Text.DecimalString | ReleaseNotesMaker/Program.cs:67 | An issue number prints with a leading `-` exactly when it is negative. After it comes a non-empty run of decimal digits with no leading zero, and those digits read back as the absolute value. |
| Text.UpperAscii | ReleaseNotesMaker/Program.cs:154 | A lower-case ASCII letter becomes the upper-case letter at the same place in the alphabet. Every other character is unchanged. |
| Text.EqualsIgnoreCase | ReleaseNotesMaker/Program.cs:154 | Equal strings compare equal ignoring case, and strings that compare equal have the same length. |
| Text.EqualsIgnoreCaseCharwise | ReleaseNotesMaker/Program.cs:154 | Two URLs compare equal ignoring case exactly when they have the same length and agree position by position after upper-casing. |
| Text.EqualsIgnoreCaseExamples | ReleaseNotesMaker/Program.cs:154 | `ABC` equals `abc` ignoring case; `abc` does not equal `abd`. |
| QueryString.Joined | ReleaseNotesMaker/Program.cs:188-202 | Definition: the `key=value` pairs joined with `&`. `SplitJoined` and `JoinedIsEmptyOnlyForNoPairs` state its properties. |
| QueryString.BuildQueryString | ReleaseNotesMaker/Program.cs:188-202 | The loop with its `first` flag builds `key=value` pairs in order, separated by `&`, with no leading or trailing `&`. |
| QueryString.SplitJoined | ReleaseNotesMaker/Program.cs:188-202 | For keys and values without `&`, splitting the query string at `&` gives back one `key=value` part per parameter, in order. |
| QueryString.JoinedIsEmptyOnlyForNoPairs | ReleaseNotesMaker/Program.cs:188-202 | The query string is empty exactly when there are no parameters. |
| QueryString.AddParameters | ReleaseNotesMaker/Program.cs:173-186 | The path is unchanged. The new query is empty only when both the old query and the parameters are empty. An existing query is kept as a proper prefix. |
| QueryString.SplitAfterJoined | ReleaseNotesMaker/Program.cs:182 | Appending `&` and the parameters to an existing query adds exactly the parameter parts after the existing parts. |
| QueryString.QueryOfAddParameters | ReleaseNotesMaker/Program.cs:173-186 | Without a query, the new query splits into exactly the parameter pairs. With one, it splits into the old parts followed by the parameter pairs. |
| QueryString.IssueQuery | ReleaseNotesMaker/Program.cs:98-102 | The issue parameters give the query `state=closed&per_page=100`. |
| ResourceLinks.CloseAt | ReleaseNotesMaker/Program.cs:226 | The lazy `.+?` ends at the first `>` before any line break. None is returned exactly when no `>` comes before the first line break. |
| ResourceLinks.MatchLength | ReleaseNotesMaker/Program.cs:226 | A match of `<(.+?)>` spans at least three characters and stays within the text. |
| ResourceLinks.MatchAt | ReleaseNotesMaker/Program.cs:226 | The scanning loop finds the same match as the regular-expression definition, or none. |
| ResourceLinks.TrimStart | ReleaseNotesMaker/Program.cs:235 | Trimming removes a prefix made only of `<` and `>`, and leaves the rest not starting with `<` or `>`. |
| ResourceLinks.TrimEnd | ReleaseNotesMaker/Program.cs:235 | Trimming removes a suffix made only of `<` and `>`, and leaves the rest not ending with `<` or `>`. |
| ResourceLinks.TrimBrackets | ReleaseNotesMaker/Program.cs:235 | Definition: `Trim(new[] { '<', '>' })`, trimming both ends. `TrimBracketsShape` and `TrimBracketsIsUnique` state what it returns. |
| ResourceLinks.TrimBracketsShape | ReleaseNotesMaker/Program.cs:235 | The result is a middle part of the text: everything before it and after it is `<` or `>`, and it neither starts nor ends with one. |
| ResourceLinks.TrimBracketsIsUnique | ReleaseNotesMaker/Program.cs:235 | Any middle part with those properties is the result, so the trim is fully determined by them. |
| ResourceLinks.Links | ReleaseNotesMaker/Program.cs:226 | The non-overlapping matches of `<(.+?)>` take at least three characters each, so there are at most a third as many links as characters. |
| ResourceLinks.GetResourceLinks | ReleaseNotesMaker/Program.cs:221-231 | The loop over the matches collects the trimmed matches in order, scanning on after each match, with no overlap. |
| ResourceLinks.LinksSkip | ReleaseNotesMaker/Program.cs:226 | Text without a `<` contributes no link. |
| ResourceLinks.TrimPlain | ReleaseNotesMaker/Program.cs:235 | Trimming `<u>` gives back `u` when `u` is a non-empty URL with no brackets and no line feed. |
| ResourceLinks.LinksOfLinkValue | ReleaseNotesMaker/Program.cs:226-235 | A `<url>; params` element yields its URL, followed by the links of the rest of the header. |
| ResourceLinks.LinksOfHeader | ReleaseNotesMaker/Program.cs:221-236 | For a well-formed `Link` header, the links read back are exactly the header's URLs, in order. |
| ResourceLinks.NextLastHeader | ReleaseNotesMaker/Program.cs:159-165 | Definition: the header GitHub sends with a page that has a next page, `<a>; rel="next", <b>; rel="last"`. |
| ResourceLinks.NextAndLast | ReleaseNotesMaker/Program.cs:159-165 | A GitHub first-page header `<a>; rel="next", <b>; rel="last"` gives `[a, b]`, so index 0 is the next page and index 1 is the last. |
| Pagination.Initial | ReleaseNotesMaker/Program.cs:128-130 | Definition: before the loop, the start URL, no last page (`null`) and no issues. |
| Pagination.IsNullOrEmpty | ReleaseNotesMaker/Program.cs:163 | Definition: `String.IsNullOrEmpty` on an optional string. Its use is stated by `AdvanceCases` and `LastResourceIsKept`. |
| Pagination.IsLast | ReleaseNotesMaker/Program.cs:154 | The recorded last page matches the same URL, and a match requires a recorded last page of the same length; `null` never matches. |
| Pagination.Advance | ReleaseNotesMaker/Program.cs:137-166 | A pass that stops returns the issues held plus the page if the request succeeded. A pass that goes on holds the issues plus the new page. |
| Pagination.AdvanceCases | ReleaseNotesMaker/Program.cs:137-166 | A failed request stops with the issues so far. A missing rate-limit header throws. The last page stops after appending. A pass goes on only after a success that was not the last page, to the first link. The last page is recorded from the second link only while none is known. |
| Pagination.AdvanceFollowsLinks | ReleaseNotesMaker/Program.cs:159-166 | After a successful response with a rate-limit header, for a page that is not the last: no `Link` header throws, no link throws for index 0, a single link with no last page known throws for index 1. Otherwise the pass goes on to the first link, keeping the known last page or recording the second link. |
| Pagination.NextPage | ReleaseNotesMaker/Program.cs:151-166 | A page that is not the last and carries GitHub's next/last header moves the loop on to the next page, with that page's issues appended, recording the last page if none is known. |
| Pagination.Run | ReleaseNotesMaker/Program.cs:132-168 | Definition: passes of the loop body until one stops or throws, or the fuel runs out. `RunStops`, `RunContinue` and `RunAccumulatesPages` state its properties. |
| Pagination.Trace | ReleaseNotesMaker/Program.cs:132-168 | The states requested number at most the fuel, and the first is the starting state. |
| Pagination.RunStops | ReleaseNotesMaker/Program.cs:137-157 | A pass that does not go on ends the loop: `break` returns the issues, and a throw crashes with that error. |
| Pagination.RunContinue | ReleaseNotesMaker/Program.cs:159-168 | A pass that goes on runs the loop from the next state. |
| Pagination.TraceIsChain | ReleaseNotesMaker/Program.cs:132-168 | Each state requested leads to the next one requested by a pass that goes on. |
| Pagination.TraceKeeps | ReleaseNotesMaker/Program.cs:132-168 | A property preserved by every pass that goes on holds in every state requested. |
| Pagination.RunAppendsPages | ReleaseNotesMaker/Program.cs:151-152 | For any loop body that appends what each request got, the result is the starting issues followed by every request's page, in request order. |
| Pagination.RunAccumulatesPages | ReleaseNotesMaker/Program.cs:132-170 | The issues returned are the issues held at the start, followed by the page of every successful request, in request order. |
| Pagination.PassGoesOn | ReleaseNotesMaker/Program.cs:137-161 | The loop goes on only after a successful response with a rate-limit header, for a resource that was not the last page. |
| Pagination.OnlyTheFinalRequestStops | ReleaseNotesMaker/Program.cs:137-157 | Every request but the final one succeeded, had a rate-limit header and was not the last page. |
| Pagination.LastResourceIsKept | ReleaseNotesMaker/Program.cs:163-166 | Once a non-empty last page is known, it never changes. |
| Pagination.FirstPageIsNotLast | ReleaseNotesMaker/Program.cs:130-166 | The first request is never taken for the last page, because `lastResource` starts as `null`. It stops only on failure, and goes on with the second link recorded as the last page. |
| Pagination.StopsAfterLastPage | ReleaseNotesMaker/Program.cs:151-157 | A successful request for the recorded last page appends its page and ends the loop. |
| Pagination.ThreeSteps | ReleaseNotesMaker/Program.cs:132-168 | For any loop body, two passes that go on and a third that stops request exactly three states and return what the third returned. |
| Pagination.ThreePages | ReleaseNotesMaker/Program.cs:128-170 | Worked example: a first page naming the second as next and the third as last, and a second naming the third as both. The run requests the three pages in order, the third once, and returns their issues in page order. |
| Pagination.SinglePageEndsWithoutLinks | ReleaseNotesMaker/Program.cs:144-159 | A first page without a `Link` header (every issue fits on one page) ends in the missing-header exception rather than returning that page. |
| Pagination.RequestPage | ReleaseNotesMaker/Program.cs:134-166 | One pass of the loop body, written statement by statement, returns exactly the step that `Advance` specifies. |
| Pagination.RunStep | ReleaseNotesMaker/Program.cs:132-168 | With fuel left, a pass that stops or throws ends the run with its issues or error, and a pass that goes on leaves the rest of the run to the next state. |
| Pagination.FollowPages | ReleaseNotesMaker/Program.cs:132-168 | The `while (true)` loop computes exactly the run of the loop body from the start URL with no last page and no issues. |
| Pagination.GetIssues | ReleaseNotesMaker/Program.cs:123-171 | Fetching the issues computes exactly the run of the loop body from the start URL with no last page and no issues. |
| IssueCache.Load | ReleaseNotesMaker/Program.cs:92-121 | If `issues.json` exists, its issues are returned and nothing changes. Otherwise the issues are fetched. `issues.json` is written only with a non-empty finished fetch. No other file is touched or removed. |
| IssueCache.LoadsAreCached | ReleaseNotesMaker/Program.cs:96-115 | A non-empty finished fetch is written. Every later load then returns the same issues and changes nothing, whatever the server answers. |
| IssueCache.OnlyNonEmptyFetchesAreWritten | ReleaseNotesMaker/Program.cs:104-111 | A fetch that is empty, crashes or does not finish writes nothing, so the next load asks the server again. |
| IssueCache.StartResource | ReleaseNotesMaker/Program.cs:129 | Definition: the issues endpoint with the issue parameters added. `StartResourceQuery` states the resulting URL. |
| IssueCache.StartResourceQuery | ReleaseNotesMaker/Program.cs:98-102 | The first URL requested is the issues endpoint with `?state=closed&per_page=100`. |
| IssueCache.FileSystem.constructor | ReleaseNotesMaker/Program.cs:96 | The file system starts with the given files. |
| IssueCache.GetIssuesForMilestone | ReleaseNotesMaker/Program.cs:92-121 | The method returns the issues that `Load` specifies, and leaves the files as `Load` specifies. |
| IssueCache.ReportFor | ReleaseNotesMaker/Program.cs:27-72 | After a finished fetch, the first line counts the issues of the milestone, and the bullets are, as a multiset, exactly those of them that have a category. A crash reports its error. |
| IssueCache.BuildReleaseNotesForMilestone | ReleaseNotesMaker/Program.cs:40-72 | The method loads the issues as `Load` specifies, then prints the release notes for the milestone's groups, or reports the exception. |

## Left out

- HTTP, the network and authentication are not modelled. The server is a total
  function from a URL to a response: success, the first `X-RateLimit-Remaining`
  value, the page of issues, and the first `Link` value. Basic authentication
  (`SetBasicAuthCredentials`, Program.cs:207-216) and the `User-Agent` header
  do not affect the result and are left out.
- Console logging is not modelled, except for the release notes themselves. The
  `GET` lines, the response dump, the "requests remaining" warning (whose
  `Int32.TryParse` only decides whether to print), and the "Wrote/Read" lines
  are left out. The presence of the rate-limit header is modelled, because
  reading a missing header throws.
- JSON is not modelled. An issue is a record of its number, title, URL, labels
  and optional milestone title. A file holds a `seq<Issue>` rather than JSON
  text.
- The casts of the JSON values are left out: a `null` milestone title, a
  missing `labels` array and a `null` label name.
- The `Issue.number` value is an unbounded integer.
- Main's argument check, the `.Wait()`, and the `catch` that prints an exception
  and returns 1 are not modelled. An exception is modelled as a `Crashed` outcome
  that `ReportFor` reports.
- QueryString.AddParameters works on a URL already split into its path and
  query. `UriBuilder`'s parsing and canonicalisation of the URL are left out,
  and so is the `?` it adds or strips.
- BuildQueryString takes the parameters as an ordered list. `Dictionary`
  enumeration order is taken to be insertion order, as it is for a dictionary
  that is only ever added to.
- Pagination.GetIssues runs at most `fuel` passes of `while (true)`. A run that
  would go on is reported as `OutOfFuel` with its state. Nothing is claimed
  about a server that never reaches the last page.
- Text.EqualsIgnoreCase upper-cases ASCII letters only. Ordinal case-insensitive
  comparison of other characters is not modelled.
- A request that throws is not modelled: `GetAsync` (Program.cs:135) failing
  on the network, timing out or refusing the URL. Such an exception would end
  the run through the `catch` at Program.cs:31-35. The server always answers.
- Reading and writing `issues.json` cannot fail in the model. The file holds
  exactly the issues written.
