/**
 * The "My Activities" page (src/app/my-activities/page.tsx): the list is
 * filtered by the selected tab, and each active entry shows its repayment
 * progress with an interest figure of 8.5% of its amount.
 */
module Activities {
  import opened Wrappers
  import opened JsMath

  /** One lending or borrowing activity; `kind` is the record's `type` field. */
  datatype Activity = Activity(
    id: int,
    kind: string,
    amount: real,
    status: string,
    repaymentProgress: int,
    dueDate: string)

  /** The tab that shows every activity. */
  const AllTab: string := "all"

  /** The activities whose `type` equals `tab`, in their original order. */
  function OfType(activities: seq<Activity>, tab: string): (r: seq<Activity>)
    ensures |r| <= |activities|
    ensures forall i :: 0 <= i < |r| ==> r[i].kind == tab
  {
    if activities == [] then []
    else (if activities[0].kind == tab then [activities[0]] else []) + OfType(activities[1..], tab)
  }

  /** `filteredActivities`: everything on the "all" tab, otherwise the activities of that type. */
  function FilterByTab(activities: seq<Activity>, activeTab: string): (r: seq<Activity>)
    ensures |r| <= |activities|
    ensures activeTab != AllTab ==> forall i :: 0 <= i < |r| ==> r[i].kind == activeTab
  {
    if activeTab == AllTab then activities else OfType(activities, activeTab)
  }

  /** `r` lists some of the elements of `s`, in the order they appear in `s`. */
  predicate IsSubsequence<T(==)>(r: seq<T>, s: seq<T>)
    decreases |s|
  {
    if r == [] then true
    else if s == [] then false
    else if r[0] == s[0] then IsSubsequence(r[1..], s[1..])
    else IsSubsequence(r, s[1..])
  }

  /** The interest figure `Math.round(amount * 0.085)`. */
  function InterestFigure(amount: real): (interest: int)
    ensures amount >= 0.0 ==> interest >= 0
    ensures amount * 0.085 - 0.5 < interest as real <= amount * 0.085 + 0.5
  {
    Round(amount * 0.085)
  }

  /** What the progress block of an active activity shows. */
  datatype ProgressBlock = ProgressBlock(
    progress: int,
    dueDate: string,
    verb: string,      // "Receiving" for a loan given, "Paying" otherwise
    interest: int)

  /** The progress block of one activity card: present only for active activities. */
  function ProgressBlockOf(a: Activity): (b: Option<ProgressBlock>)
    ensures b.Some? <==> a.status == "active"
    ensures b.Some? ==> (b.value.verb == "Receiving" <==> a.kind == "lend")
  {
    if a.status == "active" then
      Some(ProgressBlock(a.repaymentProgress, a.dueDate,
                         if a.kind == "lend" then "Receiving" else "Paying",
                         InterestFigure(a.amount)))
    else None
  }

  // ---------------------------------------------------------------- lemmas

  /** The "all" tab shows the list unchanged. */
  lemma AllTabShowsEverything(activities: seq<Activity>)
    ensures FilterByTab(activities, AllTab) == activities
  {
  }

  /** Any other tab keeps exactly the activities of that type, each as often as in the input. */
  lemma {:induction false} OfTypeCounts(activities: seq<Activity>, tab: string)
    ensures forall a :: multiset(OfType(activities, tab))[a]
                        == if a.kind == tab then multiset(activities)[a] else 0
  {
    if activities != [] {
      OfTypeCounts(activities[1..], tab);
      assert activities == [activities[0]] + activities[1..];
    }
  }

  /** Soundness and completeness of a type tab: shown iff of that type and in the list. */
  lemma TabMembership(activities: seq<Activity>, activeTab: string, a: Activity)
    requires activeTab != AllTab
    ensures a in FilterByTab(activities, activeTab) <==> a in activities && a.kind == activeTab
  {
    OfTypeCounts(activities, activeTab);
    assert multiset(OfType(activities, activeTab))[a] > 0 <==> a in OfType(activities, activeTab);
  }

  /** A type tab keeps the relative order of the activities it shows. */
  lemma {:induction false} OfTypeKeepsOrder(activities: seq<Activity>, tab: string)
    ensures IsSubsequence(OfType(activities, tab), activities)
  {
    if activities != [] {
      OfTypeKeepsOrder(activities[1..], tab);
      var rest := OfType(activities[1..], tab);
      if activities[0].kind == tab {
        assert OfType(activities, tab) == [activities[0]] + rest;
        assert ([activities[0]] + rest)[1..] == rest;
      } else {
        assert OfType(activities, tab) == rest;
        SkipKeepsSubsequence(rest, activities);
      }
    }
  }

  /** A subsequence of `s[1..]` is a subsequence of `s`. */
  lemma {:induction false} SkipKeepsSubsequence<T>(r: seq<T>, s: seq<T>)
    requires s != [] && IsSubsequence(r, s[1..])
    ensures IsSubsequence(r, s)
    decreases |s|
  {
    if r != [] && r[0] == s[0] {
      SubsequenceTail(r, s[1..]);
      SkipKeepsSubsequence(r[1..], s[1..]);
    }
  }

  /** Dropping the head of a non-empty subsequence keeps a subsequence of the tail. */
  lemma {:induction false} SubsequenceTail<T>(r: seq<T>, s: seq<T>)
    requires r != [] && IsSubsequence(r, s)
    ensures s != [] && IsSubsequence(r[1..], s[1..])
    decreases |s|
  {
    if r[0] != s[0] {
      SubsequenceTail(r, s[1..]);
      SkipKeepsSubsequence(r[1..], s[1..]);
    }
  }

  /** Every tab shows a subsequence of the list. */
  lemma TabKeepsOrder(activities: seq<Activity>, activeTab: string)
    ensures IsSubsequence(FilterByTab(activities, activeTab), activities)
  {
    if activeTab == AllTab {
      SubsequenceReflexive(activities);
    } else {
      OfTypeKeepsOrder(activities, activeTab);
    }
  }

  lemma {:induction false} SubsequenceReflexive<T>(s: seq<T>)
    ensures IsSubsequence(s, s)
  {
    if s != [] {
      SubsequenceReflexive(s[1..]);
    }
  }

  /** A tab that matches no activity's type shows nothing. */
  lemma UnmatchedTabIsEmpty(activities: seq<Activity>, activeTab: string)
    requires activeTab != AllTab
    requires forall i :: 0 <= i < |activities| ==> activities[i].kind != activeTab
    ensures FilterByTab(activities, activeTab) == []
  {
    var r := FilterByTab(activities, activeTab);
    if r != [] {
      TabMembership(activities, activeTab, r[0]);
    }
  }

  /** A larger amount never shows a smaller interest figure. */
  lemma InterestMonotone(a1: real, a2: real)
    requires a1 <= a2
    ensures InterestFigure(a1) <= InterestFigure(a2)
  {
    RoundMonotone(a1 * 0.085, a2 * 0.085);
  }

  /** Worked values from the page's own entries: 25000 shows 2125, 15000 shows 1275. */
  lemma InterestExamples()
    ensures InterestFigure(25000.0) == 2125 && InterestFigure(15000.0) == 1275
  {
    RoundOfInteger(2125);
    RoundOfInteger(1275);
  }
}
