/**
 * Release-note category of an issue, decided from the names of its labels.
 * Membership is exact equality of whole label names: a label that merely
 * contains "Done" does not qualify, and "enhancement" is never looked at.
 */
module Labels {

  const DoneLabel := "5 - Done"
  const BugLabel := "bug"
  const FeatureLabel := "feature"

  const BugsFixed := "Bugs Fixed"
  const Features := "Features"
  /** The empty category: such issues are counted but never listed. */
  const Uncategorised := ""

  /** First matching rule wins: done bugs, then done features, else nothing. */
  function Categorize(labels: seq<string>): (c: string)
    ensures c == BugsFixed <==> DoneLabel in labels && BugLabel in labels
    ensures c == Features <==> DoneLabel in labels && BugLabel !in labels && FeatureLabel in labels
    ensures c == Uncategorised <==> DoneLabel !in labels || (BugLabel !in labels && FeatureLabel !in labels)
  {
    if DoneLabel in labels then
      if BugLabel in labels then BugsFixed
      else if FeatureLabel in labels then Features
      else Uncategorised
    else Uncategorised
  }

  /** Only the set of label names matters, not their order or repetition. */
  lemma CategorizeDependsOnlyOnLabelSet(a: seq<string>, b: seq<string>)
    requires forall l :: l in a <==> l in b
    ensures Categorize(a) == Categorize(b)
  {
  }

  /** Labels that only resemble the expected names are not matched. */
  lemma CategorizeIsExactMatch()
    ensures Categorize(["Done", "bug"]) == Uncategorised
    ensures Categorize(["5 - Done ", "bug"]) == Uncategorised
    ensures Categorize(["5 - Done", "Bug"]) == Uncategorised
    ensures Categorize(["5 - Done", "enhancement"]) == Uncategorised
    ensures Categorize(["feature", "bug", "5 - Done"]) == BugsFixed
  {
  }
}
