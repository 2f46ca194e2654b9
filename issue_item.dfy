/** The issue list's items: their text fields and the `sort.Interface` the
    page sorts them with, most recently updated first. */
module IssueItems {
  import opened Wrappers
  import opened Text
  import opened IssueModel

  /** `IssueItem`: an issue and its author's display name. */
  datatype IssueItem = IssueItem(issue: Issue, authorName: string)

  /** `ID`: the issue id in decimal; it reads back as the id. */
  function ID(item: IssueItem): (r: string)
    ensures ParseDecimal(r) == Some(item.issue.id)
    ensures |r| > 0 && ' ' !in r
  {
    DecimalRoundTrip(item.issue.id);
    Decimal(item.issue.id)
  }

  /** `Title`. */
  function Title(item: IssueItem): string {
    item.issue.title
  }

  /** `Description`: "#", the id, a bullet, the state's name. */
  function Description(item: IssueItem): string {
    "#" + ID(item) + " \U{2022} " + String(item.issue.state)
  }

  /** The id reads back from what follows the "#" of a description. */
  lemma DescriptionId(item: IssueItem)
    ensures |Description(item)| > 1 && Description(item)[0] == '#'
    ensures ParseDecimal(SplitAtSpace(Description(item)[1..]).0) == Some(item.issue.id)
  {
    var id := ID(item);
    var rest := "\U{2022} " + String(item.issue.state);
    assert Description(item) == "#" + (id + " " + rest);
    SplitAtSpaceJoin(id, rest);
  }

  /** The bullet separator follows the id, and the state's name follows the
      bullet and ends the description. */
  lemma DescriptionSeparator(item: IssueItem)
    ensures |Description(item)| == |ID(item)| + 4 + |String(item.issue.state)|
    ensures Description(item)[|ID(item)| + 1..|ID(item)| + 4] == " \U{2022} "
    ensures Description(item)[|ID(item)| + 4..] == String(item.issue.state)
  {
    var head := "#" + ID(item);
    Infix(head, " \U{2022} ", String(item.issue.state));
    assert Description(item) == head + " \U{2022} " + String(item.issue.state);
  }

  /** A description ends in the state's name. */
  lemma DescriptionState(item: IssueItem)
    ensures |Description(item)| >= |String(item.issue.state)|
    ensures Description(item)[|Description(item)| - |String(item.issue.state)|..] == String(item.issue.state)
  {
    var front := "#" + ID(item) + " \U{2022} ";
    Infix(front, String(item.issue.state), []);
    assert Description(item) == front + String(item.issue.state) + [];
  }

  /** `FilterValue`: the id, a space, the title; splitting at the first space
      gives back both. */
  function FilterValue(item: IssueItem): (r: string)
    ensures SplitAtSpace(r) == (ID(item), Title(item))
    ensures |r| == |ID(item)| + 1 + |Title(item)|
  {
    SplitAtSpaceJoin(ID(item), Title(item));
    ID(item) + " " + Title(item)
  }

  function UpdatedAt(item: IssueItem): int {
    item.issue.updatedAt
  }

  /** `Len`: the number of items. */
  function Len(items: array<IssueItem>): int {
    items.Length
  }

  /** `Less(i, j)`: item i was updated strictly after item j. */
  predicate Less(items: seq<IssueItem>, i: int, j: int)
    requires 0 <= i < |items| && 0 <= j < |items|
  {
    items[i].issue.updatedAt > items[j].issue.updatedAt
  }

  /** Less is a strict order on positions: irreflexive, asymmetric and
      transitive, as `sort.Sort` needs. */
  lemma LessIsStrictOrder(items: seq<IssueItem>, i: int, j: int, k: int)
    requires 0 <= i < |items| && 0 <= j < |items| && 0 <= k < |items|
    ensures !Less(items, i, i)
    ensures Less(items, i, j) ==> !Less(items, j, i)
    ensures Less(items, i, j) && Less(items, j, k) ==> Less(items, i, k)
  {
  }

  /** `Swap(i, j)`: exchanges the two items; nothing else changes. */
  method Swap(items: array<IssueItem>, i: int, j: int)
    requires 0 <= i < items.Length && 0 <= j < items.Length
    modifies items
    ensures items[..] == old(items[..])[i := old(items[j])][j := old(items[i])]
    ensures multiset(items[..]) == multiset(old(items[..]))
  {
    items[i], items[j] := items[j], items[i];
  }

  /** No item is more recently updated than one before it. */
  ghost predicate MostRecentFirst(items: seq<IssueItem>) {
    forall i, j :: 0 <= i < j < |items| ==> UpdatedAt(items[i]) >= UpdatedAt(items[j])
  }

  /** `sort.Sort(IssueItems(items))`, as an insertion sort driven by Less and
      Swap: afterwards the items are most recent first and are the same
      items. The order among equal times is left open. */
  method Sort(items: array<IssueItem>)
    modifies items
    ensures MostRecentFirst(items[..])
    ensures multiset(items[..]) == multiset(old(items[..]))
  {
    if Len(items) == 0 {
      return;
    }
    var i := 1;
    while i < Len(items)
      invariant 1 <= i <= items.Length
      invariant MostRecentFirst(items[..i])
      invariant multiset(items[..]) == multiset(old(items[..]))
    {
      Insert(items, i);
      i := i + 1;
    }
    assert items[..i] == items[..];
  }

  /** One step of the sort: moves item i down past the items before it that
      are less recent, so that the first i + 1 items are in order. */
  method Insert(items: array<IssueItem>, i: int)
    requires 0 < i < items.Length
    requires MostRecentFirst(items[..i])
    modifies items
    ensures MostRecentFirst(items[..i + 1])
    ensures multiset(items[..]) == multiset(old(items[..]))
  {
    var j := i;
    PlacingStart(items[..], i);
    while j > 0 && Less(items[..], j, j - 1)
      invariant 0 <= j <= i
      invariant Placing(items[..], i, j)
      invariant multiset(items[..]) == multiset(old(items[..]))
    {
      Step(items, i, j);
      j := j - 1;
    }
    PlacingDone(items[..], i, j);
  }

  /** One swap of Insert: the moving item at j changes places with the less
      recent item before it. */
  method Step(items: array<IssueItem>, i: int, j: int)
    requires 0 < j <= i < items.Length
    requires Placing(items[..], i, j) && Less(items[..], j, j - 1)
    modifies items
    ensures Placing(items[..], i, j - 1)
    ensures multiset(items[..]) == multiset(old(items[..]))
  {
    ghost var before := items[..];
    Swap(items, j - 1, j);
    PlacingStep(before, i, j);
  }

  /** The state of Insert's loop with the moving item at j: apart from j the
      first i + 1 items are in order, and the moving item is more recent than
      every item after it. */
  ghost predicate Placing(s: seq<IssueItem>, i: int, j: int)
    requires 0 <= j <= i < |s|
  {
    && (forall p, q :: 0 <= p < q <= i && p != j && q != j ==> UpdatedAt(s[p]) >= UpdatedAt(s[q]))
    && (forall q :: j < q <= i ==> UpdatedAt(s[j]) > UpdatedAt(s[q]))
  }

  lemma PlacingStart(s: seq<IssueItem>, i: int)
    requires 0 <= i < |s| && MostRecentFirst(s[..i])
    ensures Placing(s, i, i)
  {
    forall p, q | 0 <= p < q < i ensures UpdatedAt(s[p]) >= UpdatedAt(s[q]) {
      assert s[p] == s[..i][p] && s[q] == s[..i][q];
    }
  }

  lemma PlacingStep(s: seq<IssueItem>, i: int, j: int)
    requires 0 < j <= i < |s| && Placing(s, i, j) && Less(s, j, j - 1)
    ensures Placing(s[j - 1 := s[j]][j := s[j - 1]], i, j - 1)
  {
  }

  lemma PlacingDone(s: seq<IssueItem>, i: int, j: int)
    requires 0 <= j <= i < |s| && Placing(s, i, j)
    requires j == 0 || !Less(s, j, j - 1)
    ensures MostRecentFirst(s[..i + 1])
  {
  }
}
