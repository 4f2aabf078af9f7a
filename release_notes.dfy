/**
 * Release notes for one milestone: keep the issues of that milestone, group
 * them by category the way LINQ `group by` does (keys in the order they are
 * first seen, issues in input order inside a group), count them all and
 * render every group with a non-empty key as a markdown section.
 */
module ReleaseNotes {
  import opened Wrappers
  import opened Text
  import opened Labels

  /** The fields of an issue record the program reads. */
  datatype Issue = Issue(
    number: int,
    title: string,
    htmlUrl: string,
    labels: seq<string>,
    milestone: Option<string>)  // title of the milestone, None when it has none

  datatype Group = Group(key: string, members: seq<Issue>)

  function Category(issue: Issue): string
  {
    Categorize(issue.labels)
  }

  /** The milestone has values and its title is ordinal-equal to `milestone`. */
  predicate InMilestone(issue: Issue, milestone: string)
  {
    issue.milestone.Some? && issue.milestone.value == milestone
  }

  // ----- filter -----

  function Kept(issues: seq<Issue>, milestone: string): (r: seq<Issue>)
    ensures |r| <= |issues|
    ensures forall x :: x in r <==> x in issues && InMilestone(x, milestone)
  {
    if issues == [] then []
    else
      var init, x := issues[..|issues| - 1], issues[|issues| - 1];
      assert issues == init + [x];
      if InMilestone(x, milestone) then Kept(init, milestone) + [x] else Kept(init, milestone)
  }

  /** The filter keeps input order: it distributes over concatenation. */
  lemma {:induction false} KeptDistributes(a: seq<Issue>, b: seq<Issue>, milestone: string)
    ensures Kept(a + b, milestone) == Kept(a, milestone) + Kept(b, milestone)
  {
    if b == [] {
      assert a + b == a;
    } else {
      var b', x := b[..|b| - 1], b[|b| - 1];
      assert (a + b)[..|a + b| - 1] == a + b';
      KeptDistributes(a, b', milestone);
    }
  }

  // ----- grouping, as specified -----

  /** The category of every issue, in input order. */
  function Categories(issues: seq<Issue>): (cs: seq<string>)
    ensures |cs| == |issues|
    ensures forall i :: 0 <= i < |issues| ==> cs[i] == Category(issues[i])
  {
    seq(|issues|, i requires 0 <= i < |issues| => Category(issues[i]))
  }

  /** The distinct elements of `cs`, in the order they are first seen. */
  function FirstSeen(cs: seq<string>): (ks: seq<string>)
    ensures forall k :: k in ks <==> k in cs
    ensures forall i, j :: 0 <= i < j < |ks| ==> ks[i] != ks[j]
  {
    if cs == [] then []
    else
      var ks0 := FirstSeen(cs[..|cs| - 1]);
      assert cs == cs[..|cs| - 1] + [cs[|cs| - 1]];
      if cs[|cs| - 1] in ks0 then ks0 else ks0 + [cs[|cs| - 1]]
  }

  /** The keys of the grouping: the distinct categories, in first-seen order. */
  function Keys(issues: seq<Issue>): seq<string>
  {
    FirstSeen(Categories(issues))
  }

  /** The issues of category `k`, in input order. */
  function Select(issues: seq<Issue>, k: string): (r: seq<Issue>)
    ensures forall x :: x in r <==> x in issues && Category(x) == k
  {
    if issues == [] then []
    else
      var init, x := issues[..|issues| - 1], issues[|issues| - 1];
      assert issues == init + [x];
      if Category(x) == k then Select(init, k) + [x] else Select(init, k)
  }

  /** The grouping LINQ promises: one group per first-seen key, holding that key's issues. */
  function Grouping(issues: seq<Issue>): seq<Group>
  {
    var ks := Keys(issues);
    seq(|ks|, i requires 0 <= i < |ks| => Group(ks[i], Select(issues, ks[i])))
  }

  /** Position of the first occurrence of `k` in `cs`. */
  function FirstIndex(cs: seq<string>, k: string): (p: nat)
    requires k in cs
    ensures p < |cs| && cs[p] == k
    ensures k !in cs[..p]
  {
    if cs[0] == k then 0 else 1 + FirstIndex(cs[1..], k)
  }

  lemma FirstIndexIsFirst(cs: seq<string>, k: string, p: nat)
    requires p < |cs| && cs[p] == k && k !in cs[..p]
    ensures FirstIndex(cs, k) == p
  {
  }

  /** Keys are listed in the order of their first occurrence. */
  lemma {:induction false} FirstSeenOrder(cs: seq<string>, i: nat, j: nat)
    requires i < j < |FirstSeen(cs)|
    ensures FirstSeen(cs)[i] in cs && FirstSeen(cs)[j] in cs
    ensures FirstIndex(cs, FirstSeen(cs)[i]) < FirstIndex(cs, FirstSeen(cs)[j])
  {
    var cs0, c := cs[..|cs| - 1], cs[|cs| - 1];
    assert cs == cs0 + [c];
    var ks, ks0 := FirstSeen(cs), FirstSeen(cs0);
    assert ks[i] == ks0[i];
    var pi := FirstIndex(cs0, ks[i]);
    assert cs[..pi] == cs0[..pi];
    FirstIndexIsFirst(cs, ks[i], pi);
    if j < |ks0| {
      FirstSeenOrder(cs0, i, j);
      var pj := FirstIndex(cs0, ks[j]);
      assert cs[..pj] == cs0[..pj];
      FirstIndexIsFirst(cs, ks[j], pj);
    } else {
      assert ks[j] == c && c !in ks0;
      assert cs[..|cs0|] == cs0;
      FirstIndexIsFirst(cs, c, |cs0|);
    }
  }

  // ----- grouping, as computed -----

  /** Adds one issue to the group with its key, or opens a new group at the end. */
  function AddToGroups(groups: seq<Group>, x: Issue): (r: seq<Group>)
    ensures |r| == |groups| || |r| == |groups| + 1
  {
    if groups == [] then [Group(Category(x), [x])]
    else if groups[0].key == Category(x) then
      [Group(groups[0].key, groups[0].members + [x])] + groups[1..]
    else
      [groups[0]] + AddToGroups(groups[1..], x)
  }

  /** An issue whose key no group has opens a new group at the end. */
  lemma {:induction false} AddToGroupsNewKey(groups: seq<Group>, x: Issue)
    requires forall i :: 0 <= i < |groups| ==> groups[i].key != Category(x)
    ensures AddToGroups(groups, x) == groups + [Group(Category(x), [x])]
  {
    if groups != [] {
      AddToGroupsNewKey(groups[1..], x);
    }
  }

  /** Otherwise it joins the first group with its key, and no other group changes. */
  lemma {:induction false} AddToGroupsExistingKey(groups: seq<Group>, x: Issue, p: nat)
    requires p < |groups| && groups[p].key == Category(x)
    requires forall i :: 0 <= i < p ==> groups[i].key != Category(x)
    ensures AddToGroups(groups, x) == groups[p := Group(Category(x), groups[p].members + [x])]
  {
    if p > 0 {
      AddToGroupsExistingKey(groups[1..], x, p - 1);
    }
  }

  /** `group issue by category`, one issue at a time. */
  function GroupBy(issues: seq<Issue>): seq<Group>
  {
    if issues == [] then []
    else AddToGroups(GroupBy(issues[..|issues| - 1]), issues[|issues| - 1])
  }

  lemma SelectSnoc(init: seq<Issue>, x: Issue, k: string)
    ensures Select(init + [x], k) == Select(init, k) + if Category(x) == k then [x] else []
  {
    assert (init + [x])[..|init|] == init;
  }

  lemma CategoryListed(issues: seq<Issue>, x: Issue)
    requires x in issues
    ensures Category(x) in Categories(issues)
  {
    var q :| 0 <= q < |issues| && issues[q] == x;
    assert Categories(issues)[q] == Category(x);
  }

  lemma SelectAbsent(issues: seq<Issue>, k: string)
    requires k !in Categories(issues)
    ensures Select(issues, k) == []
  {
    if Select(issues, k) != [] {
      CategoryListed(issues, Select(issues, k)[0]);
    }
  }

  lemma KeysSnoc(init: seq<Issue>, x: Issue)
    ensures Keys(init + [x]) ==
      if Category(x) in Keys(init) then Keys(init) else Keys(init) + [Category(x)]
  {
    var cs0 := Categories(init);
    assert Categories(init + [x]) == cs0 + [Category(x)];
    assert (cs0 + [Category(x)])[..|cs0|] == cs0;
  }

  /** The issue joins group `p`, whose key is its category; every other group is unchanged. */
  function JoinGroup(groups: seq<Group>, p: nat, x: Issue): seq<Group>
    requires p < |groups|
  {
    groups[p := Group(groups[p].key, groups[p].members + [x])]
  }

  lemma GroupingSnocAt(init: seq<Issue>, x: Issue, p: nat, i: nat)
    requires p < |Keys(init)| && Keys(init)[p] == Category(x)
    requires i < |Keys(init)| && Keys(init + [x]) == Keys(init)
    ensures i < |Grouping(init + [x])| && i < |Grouping(init)|
    ensures Grouping(init + [x])[i] == JoinGroup(Grouping(init), p, x)[i]
  {
    var ks0 := Keys(init);
    SelectSnoc(init, x, ks0[i]);
    if i != p {
      assert ks0[i] != ks0[p];
    }
  }

  lemma GroupingWithExistingKey(init: seq<Issue>, x: Issue, p: nat)
    requires p < |Keys(init)| && Keys(init)[p] == Category(x)
    ensures p < |Grouping(init)|
    ensures Grouping(init + [x]) == JoinGroup(Grouping(init), p, x)
  {
    KeysSnoc(init, x);
    var g, r := Grouping(init + [x]), JoinGroup(Grouping(init), p, x);
    assert |g| == |r|;
    forall i | 0 <= i < |r| ensures r[i] == g[i] {
      GroupingSnocAt(init, x, p, i);
    }
  }

  lemma JoinExistingGroup(init: seq<Issue>, x: Issue, p: nat)
    requires p < |Keys(init)| && Keys(init)[p] == Category(x)
    ensures p < |Grouping(init)|
    ensures AddToGroups(Grouping(init), x) == JoinGroup(Grouping(init), p, x)
  {
    var g0 := Grouping(init);
    assert forall i :: 0 <= i < p ==> g0[i].key != Category(x);
    AddToGroupsExistingKey(g0, x, p);
  }

  lemma AddToExistingGroup(init: seq<Issue>, x: Issue, p: nat)
    requires p < |Keys(init)| && Keys(init)[p] == Category(x)
    ensures AddToGroups(Grouping(init), x) == Grouping(init + [x])
  {
    JoinExistingGroup(init, x, p);
    GroupingWithExistingKey(init, x, p);
  }

  lemma GroupingSnocNew(init: seq<Issue>, x: Issue, i: nat)
    requires Category(x) !in Keys(init)
    requires Keys(init + [x]) == Keys(init) + [Category(x)] && i <= |Keys(init)|
    ensures i < |Grouping(init + [x])|
    ensures Grouping(init + [x])[i] == (Grouping(init) + [Group(Category(x), [x])])[i]
  {
    var ks := Keys(init + [x]);
    SelectSnoc(init, x, ks[i]);
    if i == |Keys(init)| {
      SelectAbsent(init, Category(x));
    }
  }

  lemma GroupingWithNewKey(init: seq<Issue>, x: Issue)
    requires Category(x) !in Keys(init)
    ensures Grouping(init + [x]) == Grouping(init) + [Group(Category(x), [x])]
  {
    KeysSnoc(init, x);
    var g, r := Grouping(init + [x]), Grouping(init) + [Group(Category(x), [x])];
    assert |g| == |r|;
    forall i | 0 <= i < |r| ensures r[i] == g[i] {
      GroupingSnocNew(init, x, i);
    }
  }

  lemma AppendNewGroup(init: seq<Issue>, x: Issue)
    requires Category(x) !in Keys(init)
    ensures AddToGroups(Grouping(init), x) == Grouping(init) + [Group(Category(x), [x])]
  {
    assert forall i :: 0 <= i < |Grouping(init)| ==> Grouping(init)[i].key != Category(x);
    AddToGroupsNewKey(Grouping(init), x);
  }

  lemma AddToNewGroup(init: seq<Issue>, x: Issue)
    requires Category(x) !in Keys(init)
    ensures AddToGroups(Grouping(init), x) == Grouping(init + [x])
  {
    AppendNewGroup(init, x);
    GroupingWithNewKey(init, x);
  }

  /** Adding one issue to the specified grouping gives the grouping of the longer input. */
  lemma AddToGrouping(init: seq<Issue>, x: Issue)
    ensures AddToGroups(Grouping(init), x) == Grouping(init + [x])
  {
    var ks0 := Keys(init);
    if Category(x) in ks0 {
      var p :| 0 <= p < |ks0| && ks0[p] == Category(x);
      AddToExistingGroup(init, x, p);
    } else {
      AddToNewGroup(init, x);
    }
  }

  /** The computed grouping is the specified one. */
  lemma {:induction false} GroupByIsGrouping(issues: seq<Issue>)
    ensures GroupBy(issues) == Grouping(issues)
  {
    if issues != [] {
      var init, x := issues[..|issues| - 1], issues[|issues| - 1];
      assert issues == init + [x];
      GroupByIsGrouping(init);
      AddToGrouping(init, x);
    }
  }

  /** Every issue lands in exactly one group, the one keyed by its category. */
  lemma IssueInExactlyOneGroup(issues: seq<Issue>, x: Issue)
    requires x in issues
    ensures exists i :: (0 <= i < |GroupBy(issues)| &&
      GroupBy(issues)[i].key == Category(x) && x in GroupBy(issues)[i].members)
    ensures forall i, j :: (0 <= i < |GroupBy(issues)| && 0 <= j < |GroupBy(issues)| &&
      x in GroupBy(issues)[i].members && x in GroupBy(issues)[j].members) ==> i == j
  {
    GroupByIsGrouping(issues);
    var g, ks := Grouping(issues), Keys(issues);
    CategoryListed(issues, x);
    var i :| 0 <= i < |ks| && ks[i] == Category(x);
    assert g[i] == Group(ks[i], Select(issues, ks[i]));
    forall a, b | 0 <= a < |g| && 0 <= b < |g| && x in g[a].members && x in g[b].members
      ensures a == b
    {
      assert g[a].members == Select(issues, ks[a]) && g[b].members == Select(issues, ks[b]);
    }
  }

  // ----- counting -----

  /** `issueGroups.Sum(g => g.Count())`. */
  function Found(groups: seq<Group>): nat
  {
    if groups == [] then 0 else |groups[0].members| + Found(groups[1..])
  }

  lemma {:induction false} FoundAddToGroups(groups: seq<Group>, x: Issue)
    ensures Found(AddToGroups(groups, x)) == Found(groups) + 1
  {
    if groups != [] && groups[0].key != Category(x) {
      FoundAddToGroups(groups[1..], x);
      assert AddToGroups(groups, x)[1..] == AddToGroups(groups[1..], x);
    }
  }

  /** The reported count is every grouped issue, uncategorised ones included. */
  lemma {:induction false} FoundCountsAll(issues: seq<Issue>)
    ensures Found(GroupBy(issues)) == |issues|
  {
    if issues != [] {
      FoundCountsAll(issues[..|issues| - 1]);
      FoundAddToGroups(GroupBy(issues[..|issues| - 1]), issues[|issues| - 1]);
    }
  }

  /** The groups of the release notes for `milestone`. */
  function IssueGroups(issues: seq<Issue>, milestone: string): seq<Group>
  {
    GroupBy(Kept(issues, milestone))
  }

  lemma FoundCountsKept(issues: seq<Issue>, milestone: string)
    ensures Found(IssueGroups(issues, milestone)) == |Kept(issues, milestone)|
  {
    FoundCountsAll(Kept(issues, milestone));
  }

  // ----- what gets listed -----

  /** The issues of the groups that are rendered, in output order. */
  function Listed(groups: seq<Group>): seq<Issue>
  {
    if groups == [] then []
    else if groups[0].key == Uncategorised then Listed(groups[1..])
    else groups[0].members + Listed(groups[1..])
  }

  function Categorised(issues: seq<Issue>): seq<Issue>
  {
    if issues == [] then []
    else
      var init, x := issues[..|issues| - 1], issues[|issues| - 1];
      if Category(x) == Uncategorised then Categorised(init) else Categorised(init) + [x]
  }

  lemma {:induction false} ListedAddToGroups(groups: seq<Group>, x: Issue)
    ensures multiset(Listed(AddToGroups(groups, x))) ==
      multiset(Listed(groups)) + if Category(x) == Uncategorised then multiset{} else multiset{x}
  {
    if groups != [] && groups[0].key != Category(x) {
      ListedAddToGroups(groups[1..], x);
      assert AddToGroups(groups, x)[1..] == AddToGroups(groups[1..], x);
    }
  }

  /** The listed issues are exactly the categorised ones, each once. */
  lemma {:induction false} ListedIsCategorised(issues: seq<Issue>)
    ensures multiset(Listed(GroupBy(issues))) == multiset(Categorised(issues))
  {
    if issues != [] {
      ListedIsCategorised(issues[..|issues| - 1]);
      ListedAddToGroups(GroupBy(issues[..|issues| - 1]), issues[|issues| - 1]);
    }
  }

  // ----- rendering -----

  /** One `Console.WriteLine`: which format string, with which arguments. */
  datatype Line =
    | SummaryLine(found: nat, milestone: string)  // "Found ({0}) issues in {1}"
    | HeadingLine(key: string)                    // "### {0}"
    | IssueLine(issue: Issue)                     // "* {0} ([#{1}]({2}))"
    | BlankLine

  /** The text a line prints, without its line terminator. */
  function LineText(line: Line): string
  {
    match line
    case SummaryLine(found, milestone) => "Found (" + DecimalString(found) + ") issues in " + milestone
    case HeadingLine(key) => "### " + key
    case IssueLine(x) => "* " + x.title + " ([#" + DecimalString(x.number) + "](" + x.htmlUrl + "))"
    case BlankLine => ""
  }

  function IssueLines(members: seq<Issue>): seq<Line>
  {
    seq(|members|, i requires 0 <= i < |members| => IssueLine(members[i]))
  }

  /** The markdown section of one group: heading, blank line, one line per issue, blank line. */
  function Section(g: Group): seq<Line>
  {
    [HeadingLine(g.key), BlankLine] + IssueLines(g.members) + [BlankLine]
  }

  /** The sections of all groups in order, skipping the group with the empty key. */
  function Sections(groups: seq<Group>): seq<Line>
  {
    if groups == [] then []
    else if groups[0].key == Uncategorised then Sections(groups[1..])
    else Section(groups[0]) + Sections(groups[1..])
  }

  /** The lines printed for `groups`: summary, blank line, then the sections. */
  function NotesText(groups: seq<Group>, milestone: string): seq<Line>
  {
    [SummaryLine(Found(groups), milestone), BlankLine] + Sections(groups)
  }

  lemma {:induction false} SectionsAppend(groups: seq<Group>, g: Group)
    ensures Sections(groups + [g]) == Sections(groups) + if g.key == Uncategorised then [] else Section(g)
  {
    if groups == [] {
      assert [g][1..] == [];
    } else {
      assert (groups + [g])[1..] == groups[1..] + [g];
      SectionsAppend(groups[1..], g);
    }
  }

  /** The issues the bullet lines of a printout name, in the order they are printed. */
  function Bullets(lines: seq<Line>): seq<Issue>
  {
    if lines == [] then []
    else (if lines[0].IssueLine? then [lines[0].issue] else []) + Bullets(lines[1..])
  }

  lemma {:induction false} BulletsAppend(a: seq<Line>, b: seq<Line>)
    ensures Bullets(a + b) == Bullets(a) + Bullets(b)
  {
    if a == [] {
      assert a + b == b;
    } else {
      assert (a + b)[0] == a[0] && (a + b)[1..] == a[1..] + b;
      BulletsAppend(a[1..], b);
    }
  }

  lemma {:induction false} BulletsOfIssueLines(members: seq<Issue>)
    ensures Bullets(IssueLines(members)) == members
  {
    if members != [] {
      assert IssueLines(members)[1..] == IssueLines(members[1..]);
      BulletsOfIssueLines(members[1..]);
    }
  }

  /** Every listed issue is printed as exactly one bullet, section by section, and nothing else is. */
  lemma {:induction false} BulletsOfSections(groups: seq<Group>)
    ensures Bullets(Sections(groups)) == Listed(groups)
  {
    if groups != [] {
      BulletsOfSections(groups[1..]);
      if groups[0].key != Uncategorised {
        var g := groups[0];
        BulletsAppend(Section(g), Sections(groups[1..]));
        BulletsAppend([HeadingLine(g.key), BlankLine] + IssueLines(g.members), [BlankLine]);
        BulletsAppend([HeadingLine(g.key), BlankLine], IssueLines(g.members));
        BulletsOfIssueLines(g.members);
        assert Bullets([HeadingLine(g.key), BlankLine]) == [];
        assert Bullets([BlankLine]) == [];
      }
    }
  }

  /** The bullets of the whole printout are exactly the issues of the listed sections. */
  lemma BulletsOfNotesText(groups: seq<Group>, milestone: string)
    ensures Bullets(NotesText(groups, milestone)) == Listed(groups)
  {
    BulletsAppend([SummaryLine(Found(groups), milestone), BlankLine], Sections(groups));
    assert Bullets([SummaryLine(Found(groups), milestone), BlankLine]) == [];
    BulletsOfSections(groups);
  }

  function SectionCount(groups: seq<Group>): nat
  {
    if groups == [] then 0
    else (if groups[0].key == Uncategorised then 0 else 1) + SectionCount(groups[1..])
  }

  /** One bullet line per listed issue, plus a heading and two blank lines per section. */
  lemma {:induction false} NotesTextLength(groups: seq<Group>, milestone: string)
    ensures |NotesText(groups, milestone)| == 2 + |Listed(groups)| + 3 * SectionCount(groups)
  {
    if groups != [] {
      NotesTextLength(groups[1..], milestone);
    }
  }

  lemma IssueLinesPrefix(members: seq<Issue>, j: nat)
    requires j < |members|
    ensures IssueLines(members[..j + 1]) == IssueLines(members[..j]) + [IssueLine(members[j])]
  {
  }

  /** Prints one group: its heading, a blank line, one line per issue in order, a blank line. */
  method WriteSection(g: Group) returns (lines: seq<Line>)
    ensures lines == Section(g)
  {
    lines := [HeadingLine(g.key), BlankLine];
    var j := 0;
    while j < |g.members|
      invariant 0 <= j <= |g.members|
      invariant lines == [HeadingLine(g.key), BlankLine] + IssueLines(g.members[..j])
    {
      IssueLinesPrefix(g.members, j);
      lines := lines + [IssueLine(g.members[j])];
      j := j + 1;
    }
    assert g.members[..j] == g.members;
    lines := lines + [BlankLine];
  }

  /** Prints the summary line and every group with a non-empty key. */
  method WriteReleaseNotes(groups: seq<Group>, milestone: string) returns (lines: seq<Line>)
    ensures lines == NotesText(groups, milestone)
  {
    var header := [SummaryLine(Found(groups), milestone), BlankLine];
    lines := header;
    var i := 0;
    while i < |groups|
      invariant 0 <= i <= |groups|
      invariant lines == header + Sections(groups[..i])
    {
      var g := groups[i];
      assert groups[..i + 1] == groups[..i] + [g];
      SectionsAppend(groups[..i], g);
      if g.key == Uncategorised {
        assert Sections(groups[..i + 1]) == Sections(groups[..i]);
        i := i + 1;
        continue;
      }
      var section := WriteSection(g);
      assert (header + Sections(groups[..i])) + section == header + (Sections(groups[..i]) + section);
      lines := lines + section;
      i := i + 1;
    }
    assert groups[..i] == groups;
  }

  // The three-issue example: one bug, one feature, one issue of another milestone.
  const Crash := Issue(1, "Fix crash", "u1", ["bug", "5 - Done"], Some("2.1.1"))
  const Widget := Issue(2, "Add widget", "u2", ["feature", "5 - Done"], Some("2.1.1"))
  const Unrelated := Issue(3, "Unrelated", "u3", ["bug"], Some("2.0.0"))

  lemma ExampleKept()
    ensures Kept([Crash, Widget, Unrelated], "2.1.1") == [Crash, Widget]
  {
    var all := [Crash, Widget, Unrelated];
    assert all[..2] == [Crash, Widget] && [Crash, Widget][..1] == [Crash] && [Crash][..0] == [];
    assert Kept([Crash], "2.1.1") == [Crash];
    assert Kept([Crash, Widget], "2.1.1") == [Crash, Widget];
  }

  lemma ExampleGroupBy()
    ensures GroupBy([Crash, Widget]) == [Group(BugsFixed, [Crash]), Group(Features, [Widget])]
  {
    assert Category(Crash) == BugsFixed && Category(Widget) == Features;
    assert [Crash, Widget][..1] == [Crash] && [Crash][..0] == [];
    var g1 := [Group(BugsFixed, [Crash])];
    assert GroupBy([Crash]) == g1;
    assert GroupBy([Crash, Widget]) == AddToGroups(g1, Widget);
    AddToGroupsNewKey(g1, Widget);
  }

  /** The bug and the feature each get a section; the other milestone's issue is not counted. */
  lemma ExampleReleaseNotes()
    ensures IssueGroups([Crash, Widget, Unrelated], "2.1.1") ==
      [Group(BugsFixed, [Crash]), Group(Features, [Widget])]
    ensures Found(IssueGroups([Crash, Widget, Unrelated], "2.1.1")) == 2
  {
    ExampleKept();
    ExampleGroupBy();
    FoundCountsKept([Crash, Widget, Unrelated], "2.1.1");
  }

  /** How the example's summary line reads. */
  lemma ExampleSummaryText()
    ensures LineText(SummaryLine(2, "2.1.1")) == "Found (2) issues in 2.1.1"
  {
    assert DecimalString(2) == "2" by { assert DigitChar(2) == '2'; }
  }

  /** How the example's bug section heading reads. */
  lemma ExampleHeadingText()
    ensures LineText(HeadingLine(BugsFixed)) == "### Bugs Fixed"
  {
  }

  /** How the example's bug reads as a bullet: title, then number linked to its page. */
  lemma ExampleBulletText()
    ensures LineText(IssueLine(Crash)) == "* Fix crash ([#1](u1))"
  {
    assert DecimalString(1) == "1" by { assert DigitChar(1) == '1'; }
  }
}
