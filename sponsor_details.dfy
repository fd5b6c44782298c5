/** The values the sponsor detail view derives from a sponsor record and its
    deliverables: the lookup of the sponsor and its deliverables, the value
    label, the cost basis and profit margin, the "Pending" placeholder, the
    completion percentage and the cells of the deliverable tables. */
module SponsorDetails {
  import opened LineItems

  datatype Sponsor = Sponsor(
    id: int,
    name: string,
    status: string,
    cashValue: int,
    inKindValue: int,
    totalValue: int,
    estimatedCost: int,
    actualCost: Option<int>,
    completedDeliverables: int,
    totalDeliverables: int)

  datatype Deliverable = Deliverable(
    id: int,
    sponsorId: int,
    title: string,
    taskType: string,
    departmentId: int,
    status: string,
    priority: string,
    costType: Option<string>,
    estimatedCost: int,
    actualCost: Option<int>)

  // ------------------------------------------------------------------ lookup

  /** `sponsors.find(s => s.id === sponsorId)`; `None` is "Sponsor not found". */
  function FindSponsor(sponsors: seq<Sponsor>, sponsorId: int): (r: Option<Sponsor>)
    ensures r.None? <==> forall k :: 0 <= k < |sponsors| ==> sponsors[k].id != sponsorId
    ensures r.Some? ==> exists j :: 0 <= j < |sponsors| && sponsors[j] == r.value && r.value.id == sponsorId &&
                          forall i :: 0 <= i < j ==> sponsors[i].id != sponsorId
  {
    if sponsors == [] then None
    else if sponsors[0].id == sponsorId then
      assert sponsors[0] == sponsors[0];
      Some(sponsors[0])
    else
      var r := FindSponsor(sponsors[1..], sponsorId);
      assert forall k :: 0 < k < |sponsors| ==> sponsors[k] == sponsors[1..][k - 1];
      if r.Some? then
        var j :| 0 <= j < |sponsors[1..]| && sponsors[1..][j] == r.value && r.value.id == sponsorId &&
                 forall i :: 0 <= i < j ==> sponsors[1..][i].id != sponsorId;
        assert sponsors[j + 1] == r.value;
        r
      else r
  }

  /** `deliverables.filter(d => d.sponsorId === sponsorId)` */
  function SponsorDeliverables(deliverables: seq<Deliverable>, sponsorId: int): (r: seq<Deliverable>)
    ensures |r| <= |deliverables|
    ensures forall k :: 0 <= k < |r| ==> r[k] in deliverables && r[k].sponsorId == sponsorId
    ensures forall d :: d in deliverables && d.sponsorId == sponsorId ==> d in r
  {
    if deliverables == [] then []
    else
      var rest := SponsorDeliverables(deliverables[1..], sponsorId);
      if deliverables[0].sponsorId == sponsorId then [deliverables[0]] + rest else rest
  }

  /** The filter keeps the order of the list it filters: filtering a
      concatenation concatenates the filtered parts, and a single deliverable
      is kept exactly when it belongs to the sponsor. */
  lemma {:induction false} SponsorDeliverablesKeepOrder(a: seq<Deliverable>, b: seq<Deliverable>, sponsorId: int)
    ensures SponsorDeliverables(a + b, sponsorId) == SponsorDeliverables(a, sponsorId) + SponsorDeliverables(b, sponsorId)
    ensures forall d :: SponsorDeliverables([d], sponsorId) == if d.sponsorId == sponsorId then [d] else []
    decreases |a|
  {
    if a == [] {
      assert a + b == b;
    } else {
      assert (a + b)[1..] == a[1..] + b;
      SponsorDeliverablesKeepOrder(a[1..], b, sponsorId);
    }
    forall d ensures SponsorDeliverables([d], sponsorId) == if d.sponsorId == sponsorId then [d] else [] {
      assert [d][1..] == [];
    }
  }

  // ------------------------------------------------------------- the summary

  /** The line under the sponsorship value. */
  datatype ValueLabel = CashAndInKind(cash: int, inKind: int) | CashSponsorship | InKindSponsorship

  function SponsorshipValueLabel(cashValue: int, inKindValue: int): (r: ValueLabel)
    ensures r.CashAndInKind? <==> cashValue > 0 && inKindValue > 0
    ensures r.CashAndInKind? ==> r.cash == cashValue && r.inKind == inKindValue
    ensures r == CashSponsorship <==> cashValue > 0 && inKindValue <= 0
    ensures r == InKindSponsorship <==> cashValue <= 0
  {
    if cashValue > 0 && inKindValue > 0 then CashAndInKind(cashValue, inKindValue)
    else if cashValue > 0 then CashSponsorship
    else InKindSponsorship
  }

  /** How an actual cost is shown: its amount, or "Pending" when it is missing
      or zero (the JavaScript `||` and `?:` treat 0 as false). */
  datatype CostCell = Amount(amount: int) | Pending

  function ActualCostShown(actualCost: Option<int>): (r: CostCell)
    ensures r == Pending <==> actualCost.None? || actualCost.value == 0
    ensures r.Amount? ==> actualCost == Some(r.amount) && r.amount != 0
  {
    match actualCost
    case Some(c) => if c != 0 then Amount(c) else Pending
    case None => Pending
  }

  /** The cost the profit margin is computed from. */
  function CostBasis(estimatedCost: int, actualCost: Option<int>): int
  {
    match actualCost
    case Some(c) => if c != 0 then c else estimatedCost
    case None => estimatedCost
  }

  /** The margin uses the estimated cost exactly while the actual cost is shown
      as "Pending", and the shown actual cost otherwise. */
  lemma CostBasisFollowsShownCost(estimatedCost: int, actualCost: Option<int>)
    ensures ActualCostShown(actualCost) == Pending ==> CostBasis(estimatedCost, actualCost) == estimatedCost
    ensures ActualCostShown(actualCost).Amount? ==> CostBasis(estimatedCost, actualCost) == ActualCostShown(actualCost).amount
  {
  }

  /** `(totalValue - cost) / totalValue * 100` with the cost basis above. */
  function ProfitMargin(totalValue: int, estimatedCost: int, actualCost: Option<int>): (r: real)
    requires totalValue != 0
    ensures r * totalValue as real == (totalValue - CostBasis(estimatedCost, actualCost)) as real * 100.0
  {
    ((totalValue - CostBasis(estimatedCost, actualCost)) as real / totalValue as real) * 100.0
  }

  /** For a positive sponsorship value the margin is not negative exactly when
      the cost does not exceed the value, is 100 exactly when the cost is 0,
      and never exceeds 100 for a non-negative cost. */
  lemma {:induction false} ProfitMarginSign(totalValue: int, estimatedCost: int, actualCost: Option<int>)
    requires totalValue > 0
    ensures ProfitMargin(totalValue, estimatedCost, actualCost) >= 0.0 <==> CostBasis(estimatedCost, actualCost) <= totalValue
    ensures ProfitMargin(totalValue, estimatedCost, actualCost) == 100.0 <==> CostBasis(estimatedCost, actualCost) == 0
    ensures CostBasis(estimatedCost, actualCost) >= 0 ==> ProfitMargin(totalValue, estimatedCost, actualCost) <= 100.0
  {
    var r := ProfitMargin(totalValue, estimatedCost, actualCost);
    var t := totalValue as real;
    var c := CostBasis(estimatedCost, actualCost) as real;
    assert r * t == (t - c) * 100.0;
    assert (r - 100.0) * t == -c * 100.0;
  }

  /** A value of 10000 against an estimated 6000 and no actual cost is a 40%
      margin; an actual cost of 0 still counts as missing, and an actual cost of
      7000 makes it 30%. */
  lemma ProfitMarginExamples()
    ensures ProfitMargin(10000, 6000, None) == 40.0
    ensures ProfitMargin(10000, 6000, Some(0)) == 40.0
    ensures ProfitMargin(10000, 6000, Some(7000)) == 30.0
  {
  }

  /** `completedDeliverables / totalDeliverables * 100` */
  function CompletionPercent(completed: int, total: int): (r: real)
    requires total != 0
    ensures r * total as real == completed as real * 100.0
  {
    (completed as real / total as real) * 100.0
  }

  /** With `0 <= completed <= total` the percentage lies in [0, 100], is 0
      exactly when nothing is completed and 100 exactly when everything is. */
  lemma {:induction false} CompletionPercentBounds(completed: int, total: int)
    requires 0 <= completed <= total && total > 0
    ensures 0.0 <= CompletionPercent(completed, total) <= 100.0
    ensures CompletionPercent(completed, total) == 0.0 <==> completed == 0
    ensures CompletionPercent(completed, total) == 100.0 <==> completed == total
  {
    var r := CompletionPercent(completed, total);
    var t, c := total as real, completed as real;
    assert r * t == c * 100.0;
    assert (r - 100.0) * t == (c - t) * 100.0;
  }

  lemma CompletionPercentExamples()
    ensures CompletionPercent(0, 10) == 0.0
    ensures CompletionPercent(10, 10) == 100.0
    ensures CompletionPercent(3, 4) == 75.0
  {
  }

  // ---------------------------------------------------- the deliverable table

  /** The `deptNames` table of both deliverable tables. */
  const DeptNames: map<int, string> := map[
    1 := "Marketing",
    2 := "Finance",
    3 := "Events",
    4 := "PR & Communications",
    5 := "Digital",
    6 := "Production"]

  /** The "Department" cell of the deliverables table:
      `deptNames[departmentId] || "Unknown"`. */
  function DepartmentCell(departmentId: int): (r: string)
    ensures 1 <= departmentId <= 6 ==> r == DeptNames[departmentId]
    ensures !(1 <= departmentId <= 6) ==> r == "Unknown"
  {
    if departmentId in DeptNames && DeptNames[departmentId] != "" then DeptNames[departmentId] else "Unknown"
  }

  /** The "Department" cell of a task's cost breakdown, which has no fallback:
      an unknown id renders nothing. */
  function CostBreakdownDepartmentCell(departmentId: int): (r: string)
    ensures 1 <= departmentId <= 6 ==> r == DeptNames[departmentId]
    ensures !(1 <= departmentId <= 6) ==> r == ""
  {
    if departmentId in DeptNames then DeptNames[departmentId] else ""
  }

  /** The two department cells agree on the six known ids; on any other id
      one says "Unknown" and the other is empty. The six names are distinct,
      and none is "Unknown". */
  lemma DepartmentCellsAgree(departmentId: int, other: int)
    ensures DepartmentCell(departmentId) != ""
    ensures CostBreakdownDepartmentCell(departmentId) == "" <==> DepartmentCell(departmentId) == "Unknown"
    ensures CostBreakdownDepartmentCell(departmentId) != "" ==> CostBreakdownDepartmentCell(departmentId) == DepartmentCell(departmentId)
    ensures 1 <= departmentId <= 6 && 1 <= other <= 6 && departmentId != other ==> DepartmentCell(departmentId) != DepartmentCell(other)
  {
  }

  /** `toUpperCase` of one character, for the ASCII letters. */
  function UpperCase(c: char): (r: char)
    ensures 'a' <= c <= 'z' ==> 'A' <= r <= 'Z' && r as int - c as int == 'A' as int - 'a' as int
    ensures !('a' <= c <= 'z') ==> r == c
  {
    if 'a' <= c <= 'z' then (c as int - 'a' as int + 'A' as int) as char else c
  }

  /** `s.replace(from, to)` with a one-character string pattern: only the
      first occurrence is replaced (`ReplaceFirstAt`). */
  function ReplaceFirst(s: string, from: char, to: char): (r: string)
    ensures |r| == |s|
    ensures from !in s ==> r == s
  {
    if s == [] then []
    else if s[0] == from then [to] + s[1..]
    else
      assert s == [s[0]] + s[1..];
      [s[0]] + ReplaceFirst(s[1..], from, to)
  }

  /** Position `i` becomes `to` exactly when it holds the first `from`. */
  lemma {:induction false} ReplaceFirstAt(s: string, from: char, to: char, i: nat)
    requires i < |s|
    ensures ReplaceFirst(s, from, to)[i] == if s[i] == from && from !in s[..i] then to else s[i]
    decreases |s|
  {
    if s[0] != from && i > 0 {
      ReplaceFirstAt(s[1..], from, to, i - 1);
      assert s[..i] == [s[0]] + s[1..][..i - 1];
    }
  }

  /** The text of the status badge:
      `status.charAt(0).toUpperCase() + status.slice(1).replace("_", " ")`. */
  function StatusLabel(status: string): (r: string)
    ensures |r| == |status|
    ensures status != [] ==> r[0] == UpperCase(status[0])
    ensures status != [] && '_' !in status ==> r == [UpperCase(status[0])] + status[1..]
  {
    if status == [] then []
    else
      assert '_' !in status ==> '_' !in status[1..];
      [UpperCase(status[0])] + ReplaceFirst(status[1..], '_', ' ')
  }

  /** After the first character, the label shows the status with only its
      first underscore turned into a space. */
  lemma {:induction false} StatusLabelAt(status: string, i: nat)
    requires 1 <= i < |status|
    ensures StatusLabel(status)[i] == if status[i] == '_' && '_' !in status[1..i] then ' ' else status[i]
  {
    ReplaceFirstAt(status[1..], '_', ' ', i - 1);
    assert status[1..][..i - 1] == status[1..i];
  }

  /** Replacing in a string whose first `from` follows the prefix `a`. */
  lemma {:induction false} ReplaceFirstAfter(a: string, b: string, from: char, to: char)
    requires from !in a
    ensures ReplaceFirst(a + [from] + b, from, to) == a + [to] + b
    decreases |a|
  {
    if a != [] {
      assert (a + [from] + b)[1..] == a[1..] + [from] + b;
      ReplaceFirstAfter(a[1..], b, from, to);
    }
  }

  /** The label is the upper-cased first character before the rest with its
      first underscore replaced. */
  lemma StatusLabelSplit(status: string, head: char, a: string, b: string, shown: string)
    requires status == [head] + a + "_" + b
    requires '_' !in a
    requires shown == [UpperCase(head)] + a + " " + b
    ensures StatusLabel(status) == shown
  {
    assert status[0] == head && status[1..] == a + ['_'] + b;
    ReplaceFirstAfter(a, b, '_', ' ');
    assert StatusLabel(status) == [UpperCase(head)] + ReplaceFirst(a + ['_'] + b, '_', ' ');
  }

  /** `in_progress` reads "In progress". */
  lemma StatusLabelInProgress()
    ensures StatusLabel("in_progress") == "In progress"
  {
    StatusLabelSplit("in_progress", 'i', "n", "progress", "In progress");
  }

  /** Only the first underscore becomes a space. */
  lemma StatusLabelFirstUnderscoreOnly()
    ensures StatusLabel("not_yet_started") == "Not yet_started"
  {
    StatusLabelSplit("not_yet_started", 'n', "ot", "yet_started", "Not yet_started");
  }

  /** A status without underscores is only capitalised. */
  lemma StatusLabelCompleted()
    ensures StatusLabel("completed") == "Completed"
  {
    assert '_' !in "completed";
    assert [UpperCase('c')] + "completed"[1..] == "Completed";
  }

  datatype Colour = Green | Blue | Yellow | Red

  /** The colour of the status badge. */
  function StatusColour(status: string): (r: Colour)
    ensures r == Green <==> status == "completed"
    ensures r == Blue <==> status == "in_progress"
    ensures r == Yellow <==> status == "pending"
    ensures r == Red <==> status !in {"completed", "in_progress", "pending"}
  {
    if status == "completed" then Green
    else if status == "in_progress" then Blue
    else if status == "pending" then Yellow
    else Red
  }

  /** The colour of the priority badge. */
  function PriorityColour(priority: string): (r: Colour)
    ensures r == Red <==> priority == "high"
    ensures r == Yellow <==> priority == "medium"
    ensures r == Green <==> priority != "high" && priority != "medium"
    ensures r != Blue
  {
    if priority == "high" then Red
    else if priority == "medium" then Yellow
    else Green
  }

  /** The "Type" badge: its text and its colour. */
  datatype TypeBadge = TypeBadge(text: string, colour: Colour)

  function TaskTypeBadge(taskType: string): (r: TypeBadge)
    ensures r.text == "Standard" <==> taskType == "standard"
    ensures r.text == "Cost-Based" <==> taskType != "standard"
    ensures r.colour == Blue <==> taskType == "standard"
    ensures r.colour == Green <==> taskType != "standard"
  {
    if taskType == "standard" then TypeBadge("Standard", Blue) else TypeBadge("Cost-Based", Green)
  }

  /** The "Cost Type" cell of a task's cost breakdown:
      `taskType === 'cost' ? costType || 'Standard' : 'N/A'`. */
  function CostTypeCell(taskType: string, costType: Option<string>): (r: string)
    ensures taskType != "cost" ==> r == "N/A"
    ensures taskType == "cost" && costType.Some? && costType.value != "" ==> r == costType.value
    ensures taskType == "cost" && (costType.None? || costType.value == "") ==> r == "Standard"
    ensures r != ""
  {
    if taskType == "cost" then
      match costType
      case Some(c) => if c != "" then c else "Standard"
      case None => "Standard"
    else "N/A"
  }

  /** The "Actual" cell of each task row shows "Pending" on the same rule as
      the sponsor's summary. */
  function TaskActualCell(task: Deliverable): (r: CostCell)
    ensures r == Pending <==> task.actualCost.None? || task.actualCost.value == 0
    ensures r.Amount? ==> task.actualCost == Some(r.amount)
  {
    ActualCostShown(task.actualCost)
  }
}
