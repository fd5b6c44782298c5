/** The add-task form of a sponsor: the departments a task is assigned to, the
    cost-type sub-forms (posters, standee, banner, accommodation, food), their
    totals, and the `costDetails` part of the submitted task. The handlers are
    transitions from the old row list to the new one; the class `AddTaskForm`
    holds the component's state and applies them. */
module TaskForm {
  import opened LineItems

  // ---------------------------------------------------------------- departments

  /** An entry of the department catalogue. */
  datatype Department = Department(id: int, name: string)

  /** A department a task is assigned to, with the message for it. */
  datatype SelectedDepartment = SelectedDepartment(id: int, name: string, message: string)

  /** `selected.some(s => s.id === id)` */
  predicate IdSelected(selected: seq<SelectedDepartment>, id: int)
  {
    exists k :: 0 <= k < |selected| && selected[k].id == id
  }

  function CatalogueIds(catalogue: seq<Department>): set<int>
  {
    set k | 0 <= k < |catalogue| :: catalogue[k].id
  }

  function SelectedIds(selected: seq<SelectedDepartment>): set<int>
  {
    set k | 0 <= k < |selected| :: selected[k].id
  }

  predicate DistinctCatalogueIds(catalogue: seq<Department>)
  {
    forall i, j :: 0 <= i < j < |catalogue| ==> catalogue[i].id != catalogue[j].id
  }

  predicate DistinctIds(selected: seq<SelectedDepartment>)
  {
    forall i, j :: 0 <= i < j < |selected| ==> selected[i].id != selected[j].id
  }

  /** Every selected id is the id of some catalogue entry. */
  predicate IdsInCatalogue(catalogue: seq<Department>, selected: seq<SelectedDepartment>)
  {
    forall k :: 0 <= k < |selected| ==> selected[k].id in CatalogueIds(catalogue)
  }

  /** Every selected entry carries the name the catalogue gives its id. */
  predicate NamesMatchCatalogue(catalogue: seq<Department>, selected: seq<SelectedDepartment>)
  {
    forall k :: 0 <= k < |selected| ==> Department(selected[k].id, selected[k].name) in catalogue
  }

  /** `departments.filter(dept => !selected.some(s => s.id === dept.id))`:
      the catalogue entries not yet selected, in catalogue order. */
  function Available(catalogue: seq<Department>, selected: seq<SelectedDepartment>): (r: seq<Department>)
    ensures forall k :: 0 <= k < |r| ==> r[k] in catalogue && !IdSelected(selected, r[k].id)
    ensures forall d :: d in catalogue && !IdSelected(selected, d.id) ==> d in r
    ensures r != [] ==> exists j :: 0 <= j < |catalogue| && catalogue[j] == r[0] &&
                          forall i :: 0 <= i < j ==> IdSelected(selected, catalogue[i].id)
  {
    if catalogue == [] then []
    else
      var rest := Available(catalogue[1..], selected);
      if IdSelected(selected, catalogue[0].id) then
        assert rest != [] ==> exists j :: 0 <= j < |catalogue| && catalogue[j] == rest[0] &&
                                forall i :: 0 <= i < j ==> IdSelected(selected, catalogue[i].id) by {
          if rest != [] {
            var j :| 0 <= j < |catalogue[1..]| && catalogue[1..][j] == rest[0] &&
                     forall i :: 0 <= i < j ==> IdSelected(selected, catalogue[1..][i].id);
            assert catalogue[j + 1] == rest[0];
            assert forall i :: 0 < i < j + 1 ==> catalogue[i] == catalogue[1..][i - 1];
          }
        }
        rest
      else
        assert catalogue[0] == ([catalogue[0]] + rest)[0];
        [catalogue[0]] + rest
  }

  /** `handleAddDepartment`: append the first catalogue entry that is not yet
      selected, with an empty message; when every entry is selected, nothing
      changes. */
  function WithDepartmentAdded(catalogue: seq<Department>, selected: seq<SelectedDepartment>): (r: seq<SelectedDepartment>)
    ensures (forall d :: d in catalogue ==> IdSelected(selected, d.id)) ==> r == selected
    ensures (exists d :: d in catalogue && !IdSelected(selected, d.id)) ==>
              exists j :: 0 <= j < |catalogue| && !IdSelected(selected, catalogue[j].id) &&
                (forall i :: 0 <= i < j ==> IdSelected(selected, catalogue[i].id)) &&
                r == selected + [SelectedDepartment(catalogue[j].id, catalogue[j].name, "")]
  {
    var available := Available(catalogue, selected);
    if |available| > 0 then
      selected + [SelectedDepartment(available[0].id, available[0].name, "")]
    else
      selected
  }

  /** `handleRemoveDepartment(index)` */
  function WithDepartmentRemoved(selected: seq<SelectedDepartment>, index: nat): (r: seq<SelectedDepartment>)
    ensures index < |selected| ==> |r| == |selected| - 1
    ensures index < |selected| ==> forall k :: 0 <= k < |r| ==> r[k] == selected[if k < index then k else k + 1]
    ensures index >= |selected| ==> r == selected
  {
    Spliced(selected, index)
  }

  /** The `[field]: value` of `updateDepartmentField`, one case per field. */
  datatype DepartmentEdit = SetId(id: int) | SetName(name: string) | SetMessage(message: string)

  function DepartmentEdited(d: SelectedDepartment, e: DepartmentEdit): (r: SelectedDepartment)
    ensures r.id == (if e.SetId? then e.id else d.id)
    ensures r.name == (if e.SetName? then e.name else d.name)
    ensures r.message == (if e.SetMessage? then e.message else d.message)
  {
    match e
    case SetId(v) => d.(id := v)
    case SetName(v) => d.(name := v)
    case SetMessage(v) => d.(message := v)
  }

  /** `updateDepartmentField(index, field, value)`: only the named field of
      the entry at `index` changes. */
  function DepartmentFieldUpdated(selected: seq<SelectedDepartment>, index: nat, e: DepartmentEdit): (r: seq<SelectedDepartment>)
    requires index < |selected|
    ensures |r| == |selected|
    ensures r[index] == DepartmentEdited(selected[index], e)
    ensures forall k :: 0 <= k < |r| && k != index ==> r[k] == selected[k]
  {
    selected[index := DepartmentEdited(selected[index], e)]
  }

  /** `departments.find(d => d.id === id)`: the first catalogue entry with
      the id. */
  function FindDepartment(catalogue: seq<Department>, id: int): (r: Option<Department>)
    ensures r.Some? ==> r.value in catalogue && r.value.id == id
    ensures r.Some? ==> exists j :: 0 <= j < |catalogue| && catalogue[j] == r.value &&
                          forall i :: 0 <= i < j ==> catalogue[i].id != id
    ensures r.None? <==> id !in CatalogueIds(catalogue)
  {
    if catalogue == [] then None
    else if catalogue[0].id == id then
      assert catalogue[0] == catalogue[0];
      Some(catalogue[0])
    else
      var r := FindDepartment(catalogue[1..], id);
      assert CatalogueIds(catalogue) == {catalogue[0].id} + CatalogueIds(catalogue[1..]) by {
        assert catalogue == [catalogue[0]] + catalogue[1..];
      }
      assert forall k :: 0 < k < |catalogue| ==> catalogue[k] == catalogue[1..][k - 1];
      if r.Some? then
        var j :| 0 <= j < |catalogue[1..]| && catalogue[1..][j] == r.value &&
                 forall i :: 0 <= i < j ==> catalogue[1..][i].id != id;
        assert catalogue[j + 1] == r.value;
        r
      else r
  }

  /** The chosen department is the first catalogue entry with the id. */
  ghost predicate FirstWithId(catalogue: seq<Department>, id: int, name: string)
  {
    exists j :: 0 <= j < |catalogue| && catalogue[j] == Department(id, name) &&
      forall i :: 0 <= i < j ==> catalogue[i].id != id
  }

  /** The department `Select` handler as written: it calls
      `updateDepartmentField(index, 'id', …)` and then
      `updateDepartmentField(index, 'name', …)`, each on a copy of the same
      `selectedDepartments` of the current render, and the second state update
      replaces the first. Only the name ends up changed. */
  function DepartmentSelected(catalogue: seq<Department>, selected: seq<SelectedDepartment>, index: nat, value: int): (r: seq<SelectedDepartment>)
    requires index < |selected|
    ensures |r| == |selected|
    ensures forall k :: 0 <= k < |r| ==> r[k].id == selected[k].id && r[k].message == selected[k].message
    ensures forall k :: 0 <= k < |r| && k != index ==> r[k] == selected[k]
    ensures value in CatalogueIds(catalogue) ==> Department(value, r[index].name) in catalogue
    ensures value in CatalogueIds(catalogue) ==> FirstWithId(catalogue, value, r[index].name)
    ensures value !in CatalogueIds(catalogue) ==> r == selected
  {
    match FindDepartment(catalogue, value)
    case None => selected
    case Some(d) => DepartmentFieldUpdated(selected, index, SetName(d.name))
  }

  /** The department `Select` handler as evidently intended: the entry at
      `index` becomes the chosen catalogue department, id and name together. */
  function DepartmentSelectedIntended(catalogue: seq<Department>, selected: seq<SelectedDepartment>, index: nat, value: int): (r: seq<SelectedDepartment>)
    requires index < |selected|
    ensures |r| == |selected|
    ensures forall k :: 0 <= k < |r| && k != index ==> r[k] == selected[k]
    ensures r[index].message == selected[index].message
    ensures value in CatalogueIds(catalogue) ==> r[index].id == value && Department(value, r[index].name) in catalogue
    ensures value in CatalogueIds(catalogue) ==> FirstWithId(catalogue, value, r[index].name)
    ensures value !in CatalogueIds(catalogue) ==> r == selected
  {
    match FindDepartment(catalogue, value)
    case None => selected
    case Some(d) => selected[index := selected[index].(id := d.id, name := d.name)]
  }

  /** The ids the `Select` of row `index` offers: its own id, or one no row has. */
  predicate Offered(selected: seq<SelectedDepartment>, index: nat, value: int)
    requires index < |selected|
  {
    value == selected[index].id || !IdSelected(selected, value)
  }

  // ----------------------------------------------------------- accommodation

  datatype AccommodationPerson = AccommodationPerson(person: string, arrival: string, departure: string, food: bool)

  /** The row the form starts with and `handleAddAccommodationPerson` appends. */
  const EmptyPerson := AccommodationPerson("", "", "", false)

  datatype PersonEdit = SetPerson(person: string) | SetArrival(arrival: string) | SetDeparture(departure: string) | SetFood(food: bool)

  function PersonEdited(p: AccommodationPerson, e: PersonEdit): (r: AccommodationPerson)
    ensures r.person == (if e.SetPerson? then e.person else p.person)
    ensures r.arrival == (if e.SetArrival? then e.arrival else p.arrival)
    ensures r.departure == (if e.SetDeparture? then e.departure else p.departure)
    ensures r.food == (if e.SetFood? then e.food else p.food)
  {
    match e
    case SetPerson(v) => p.(person := v)
    case SetArrival(v) => p.(arrival := v)
    case SetDeparture(v) => p.(departure := v)
    case SetFood(v) => p.(food := v)
  }

  /** `updateAccommodationPerson(index, field, value)` */
  function PersonUpdated(people: seq<AccommodationPerson>, index: nat, e: PersonEdit): (r: seq<AccommodationPerson>)
    requires index < |people|
    ensures |r| == |people|
    ensures r[index] == PersonEdited(people[index], e)
    ensures forall k :: 0 <= k < |r| && k != index ==> r[k] == people[k]
  {
    people[index := PersonEdited(people[index], e)]
  }

  /** `handleRemoveAccommodationPerson` and `handleRemoveMeal`: splice the row
      out unless it is the only one left. */
  function RemovedUnlessLast<T>(rows: seq<T>, index: nat): (r: seq<T>)
    ensures |rows| <= 1 ==> r == rows
    ensures |rows| > 1 ==> r == Spliced(rows, index)
    ensures |rows| >= 1 ==> |r| >= 1
  {
    if |rows| > 1 then Spliced(rows, index) else rows
  }

  // -------------------------------------------------------------------- food

  datatype MealType = Breakfast | Lunch | Dinner | Snacks

  datatype Meal = Meal(people: int, mealType: MealType, cost: int)

  /** The row the form starts with and `handleAddMeal` appends. */
  const DefaultMeal := Meal(0, Lunch, 0)

  datatype MealEdit = SetPeople(people: int) | SetMealType(mealType: MealType) | SetCost(cost: int)

  function MealEdited(m: Meal, e: MealEdit): (r: Meal)
    ensures r.people == (if e.SetPeople? then e.people else m.people)
    ensures r.mealType == (if e.SetMealType? then e.mealType else m.mealType)
    ensures r.cost == (if e.SetCost? then e.cost else m.cost)
  {
    match e
    case SetPeople(v) => m.(people := v)
    case SetMealType(v) => m.(mealType := v)
    case SetCost(v) => m.(cost := v)
  }

  /** `updateMealField(index, field, value)` */
  function MealUpdated(meals: seq<Meal>, index: nat, e: MealEdit): (r: seq<Meal>)
    requires index < |meals|
    ensures |r| == |meals|
    ensures r[index] == MealEdited(meals[index], e)
    ensures forall k :: 0 <= k < |r| && k != index ==> r[k] == meals[k]
  {
    meals[index := MealEdited(meals[index], e)]
  }

  /** The subtotal shown beside each meal row. */
  function Subtotal(m: Meal): int
  {
    m.people * m.cost
  }

  /** `getTotalFoodCost`: the `reduce` of `people * cost` over the meals. */
  function TotalFoodCost(meals: seq<Meal>): int
  {
    SumOf(meals, Subtotal)
  }

  /** The total is the sum of the displayed subtotals: no meals cost nothing,
      and each appended meal adds its own subtotal. */
  lemma {:induction false} TotalFoodCostOfRows(meals: seq<Meal>, m: Meal)
    ensures TotalFoodCost([]) == 0
    ensures TotalFoodCost([m]) == m.people * m.cost
    ensures TotalFoodCost(meals + [m]) == TotalFoodCost(meals) + m.people * m.cost
  {
    SumOfSingle(m, Subtotal);
    SumOfAppend(meals, [m], Subtotal);
  }

  /** A meal added with `handleAddMeal` leaves the total unchanged. */
  lemma {:induction false} TotalFoodCostAfterAdd(meals: seq<Meal>)
    ensures TotalFoodCost(meals + [DefaultMeal]) == TotalFoodCost(meals)
  {
    TotalFoodCostOfRows(meals, DefaultMeal);
  }

  /** Removing a meal row lowers the total by its subtotal; removing the only
      row changes nothing. */
  lemma {:induction false} TotalFoodCostAfterRemove(meals: seq<Meal>, index: nat)
    requires index < |meals|
    ensures TotalFoodCost(RemovedUnlessLast(meals, index)) ==
              if |meals| > 1 then TotalFoodCost(meals) - meals[index].people * meals[index].cost
              else TotalFoodCost(meals)
  {
    if |meals| > 1 {
      SumOfSpliced(meals, index, Subtotal);
    }
  }

  /** Editing a meal changes the total by the change in that row's subtotal;
      changing only the meal type keeps it. */
  lemma {:induction false} TotalFoodCostAfterUpdate(meals: seq<Meal>, index: nat, e: MealEdit)
    requires index < |meals|
    ensures TotalFoodCost(MealUpdated(meals, index, e)) ==
              TotalFoodCost(meals) - Subtotal(meals[index]) + Subtotal(MealEdited(meals[index], e))
    ensures e.SetMealType? ==> TotalFoodCost(MealUpdated(meals, index, e)) == TotalFoodCost(meals)
  {
    SumOfReplaced(meals, index, MealEdited(meals[index], e), Subtotal);
  }

  /** The order of the meal rows does not matter. */
  lemma {:induction false} TotalFoodCostOrderIndependent(a: seq<Meal>, b: seq<Meal>)
    requires multiset(a) == multiset(b)
    ensures TotalFoodCost(a) == TotalFoodCost(b)
  {
    SumOfPermutation(a, b, Subtotal);
  }

  /** With no negative head count or cost the total is not negative. */
  lemma {:induction false} TotalFoodCostNonNegative(meals: seq<Meal>)
    requires forall k :: 0 <= k < |meals| ==> meals[k].people >= 0 && meals[k].cost >= 0
    ensures TotalFoodCost(meals) >= 0
  {
    forall k | 0 <= k < |meals| ensures Subtotal(meals[k]) >= 0 {
      assert meals[k].people * meals[k].cost >= 0;
    }
    SumOfNonNegative(meals, Subtotal);
  }

  /** 20 people at 8 for lunch and 20 at 12 for dinner cost 400 in all. */
  lemma {:induction false} TotalFoodCostExample()
    ensures TotalFoodCost([Meal(20, Lunch, 8), Meal(20, Dinner, 12)]) == 400
  {
    TotalFoodCostOfRows([Meal(20, Lunch, 8)], Meal(20, Dinner, 12));
    TotalFoodCostOfRows([], Meal(20, Lunch, 8));
    assert [] + [Meal(20, Lunch, 8)] == [Meal(20, Lunch, 8)];
    assert [Meal(20, Lunch, 8)] + [Meal(20, Dinner, 12)] == [Meal(20, Lunch, 8), Meal(20, Dinner, 12)];
  }

  // ------------------------------------------------- posters, standee, banner

  /** `posterFields`, `standeeFields` and `bannerFields` share this shape. */
  datatype PrintFields = PrintFields(number: int, size: string, cost: int)

  const DefaultPrintFields := PrintFields(0, "small", 0)

  datatype PrintEdit = SetNumber(number: int) | SetSize(size: string) | SetUnitCost(cost: int)

  /** `setPosterFields({...posterFields, [field]: value})` and its two siblings. */
  function PrintFieldsEdited(p: PrintFields, e: PrintEdit): (r: PrintFields)
    ensures r.number == (if e.SetNumber? then e.number else p.number)
    ensures r.size == (if e.SetSize? then e.size else p.size)
    ensures r.cost == (if e.SetUnitCost? then e.cost else p.cost)
  {
    match e
    case SetNumber(v) => p.(number := v)
    case SetSize(v) => p.(size := v)
    case SetUnitCost(v) => p.(cost := v)
  }

  /** The read-only "Total Cost" of a poster, standee or banner sub-form. */
  function PrintTotal(p: PrintFields): int
  {
    p.number * p.cost
  }

  /** The total follows the count and the unit cost and ignores the size; a
      fresh sub-form totals 0. */
  lemma PrintTotalAfterEdit(p: PrintFields, e: PrintEdit)
    ensures PrintTotal(DefaultPrintFields) == 0
    ensures e.SetSize? ==> PrintTotal(PrintFieldsEdited(p, e)) == PrintTotal(p)
    ensures e.SetNumber? ==> PrintTotal(PrintFieldsEdited(p, e)) == e.number * p.cost
    ensures e.SetUnitCost? ==> PrintTotal(PrintFieldsEdited(p, e)) == p.number * e.cost
  {
  }

  // -------------------------------------------------------------- submission

  datatype TaskType = Standard | CostBased
  datatype CostType = Posters | Standee | Banner | Accommodation | Food
  datatype PaymentType = EventPayment | CustomPayment | CommonPayment

  /** The validated form values `...data` copies into the submission, except
      `dueDate` and `proofRequired`, which are carried through unchanged and
      take part in no computation. */
  datatype FormValues = FormValues(
    title: string,
    description: string,
    taskType: TaskType,
    costType: Option<CostType>,
    paymentType: Option<PaymentType>,
    estimatedCost: int)

  datatype SpecificDetails =
    | PrintDetails(fields: PrintFields)
    | AccommodationDetails(people: seq<AccommodationPerson>)
    | FoodDetails(meals: seq<Meal>)

  datatype CostDetails = CostDetails(
    costType: Option<CostType>,
    paymentType: Option<PaymentType>,
    estimatedCost: int,
    specificDetails: Option<SpecificDetails>)

  /** A payment type belongs to the print cost types only. */
  predicate TakesPaymentType(c: Option<CostType>)
  {
    c != Some(Accommodation) && c != Some(Food)
  }

  /** The sub-form state that belongs to each cost type. */
  predicate DetailsMatchCostType(c: Option<CostType>, d: Option<SpecificDetails>)
  {
    match c
    case None => d.None?
    case Some(Accommodation) => d.Some? && d.value.AccommodationDetails?
    case Some(Food) => d.Some? && d.value.FoodDetails?
    case Some(_) => d.Some? && d.value.PrintDetails?
  }

  /** The `costDetails` of `onSubmit`. */
  function AssembleCostDetails(
    data: FormValues,
    posterFields: PrintFields, standeeFields: PrintFields, bannerFields: PrintFields,
    accommodationPeople: seq<AccommodationPerson>, foodMeals: seq<Meal>): (r: Option<CostDetails>)
    ensures r.Some? <==> data.taskType == CostBased
    ensures r.Some? ==> r.value.costType == data.costType && r.value.estimatedCost == data.estimatedCost
    ensures r.Some? ==> r.value.paymentType == if TakesPaymentType(data.costType) then data.paymentType else None
    ensures r.Some? ==> DetailsMatchCostType(data.costType, r.value.specificDetails)
    ensures r.Some? && data.costType == Some(Posters) ==> r.value.specificDetails == Some(PrintDetails(posterFields))
    ensures r.Some? && data.costType == Some(Standee) ==> r.value.specificDetails == Some(PrintDetails(standeeFields))
    ensures r.Some? && data.costType == Some(Banner) ==> r.value.specificDetails == Some(PrintDetails(bannerFields))
    ensures r.Some? && data.costType == Some(Accommodation) ==> r.value.specificDetails == Some(AccommodationDetails(accommodationPeople))
    ensures r.Some? && data.costType == Some(Food) ==> r.value.specificDetails == Some(FoodDetails(foodMeals))
  {
    if data.taskType == CostBased then
      Some(CostDetails(
        data.costType,
        if data.costType != Some(Accommodation) && data.costType != Some(Food) then data.paymentType else None,
        data.estimatedCost,
        if data.costType == Some(Posters) then Some(PrintDetails(posterFields))
        else if data.costType == Some(Standee) then Some(PrintDetails(standeeFields))
        else if data.costType == Some(Banner) then Some(PrintDetails(bannerFields))
        else if data.costType == Some(Accommodation) then Some(AccommodationDetails(accommodationPeople))
        else if data.costType == Some(Food) then Some(FoodDetails(foodMeals))
        else None))
    else None
  }

  /** The compiled `formData` of `onSubmit`, without the file name. */
  datatype Submission = Submission(
    values: FormValues,
    sponsorId: int,
    selectedDepartments: seq<SelectedDepartment>,
    costDetails: Option<CostDetails>)

  // ---------------------------------------------------------- list invariants

  /** The number of distinct ids in a list of distinct ids is its length. */
  lemma {:induction false} SelectedIdsCount(selected: seq<SelectedDepartment>)
    requires DistinctIds(selected)
    ensures |SelectedIds(selected)| == |selected|
    decreases |selected|
  {
    if selected != [] {
      var n := |selected| - 1;
      var front := selected[..n];
      assert DistinctIds(front) by {
        forall i, j | 0 <= i < j < |front| ensures front[i].id != front[j].id {
          assert front[i] == selected[i] && front[j] == selected[j];
        }
      }
      SelectedIdsCount(front);
      SelectedIdsSnoc(selected);
      assert selected[n].id !in SelectedIds(front) by {
        forall k | 0 <= k < n ensures front[k].id != selected[n].id {
          assert front[k] == selected[k];
        }
      }
    }
  }

  lemma SelectedIdsSnoc(selected: seq<SelectedDepartment>)
    requires selected != []
    ensures SelectedIds(selected) == SelectedIds(selected[..|selected| - 1]) + {selected[|selected| - 1].id}
  {
    var n := |selected| - 1;
    var front := selected[..n];
    forall x | x in SelectedIds(selected) ensures x in SelectedIds(front) + {selected[n].id} {
      var k :| 0 <= k < |selected| && selected[k].id == x;
      if k < n { assert front[k].id == x; }
    }
    forall x | x in SelectedIds(front) ensures x in SelectedIds(selected) {
      var k :| 0 <= k < n && front[k].id == x;
      assert selected[k].id == x;
    }
  }

  /** A catalogue has no more distinct ids than entries, and exactly as many
      when its ids are distinct. */
  lemma {:induction false} CatalogueIdsCount(catalogue: seq<Department>)
    ensures |CatalogueIds(catalogue)| <= |catalogue|
    ensures DistinctCatalogueIds(catalogue) ==> |CatalogueIds(catalogue)| == |catalogue|
    decreases |catalogue|
  {
    if catalogue != [] {
      var n := |catalogue| - 1;
      var front := catalogue[..n];
      CatalogueIdsCount(front);
      assert CatalogueIds(catalogue) == CatalogueIds(front) + {catalogue[n].id} by {
        forall x | x in CatalogueIds(catalogue) ensures x in CatalogueIds(front) + {catalogue[n].id} {
          var k :| 0 <= k < |catalogue| && catalogue[k].id == x;
          if k < n { assert front[k].id == x; }
        }
        forall x | x in CatalogueIds(front) ensures x in CatalogueIds(catalogue) {
          var k :| 0 <= k < n && front[k].id == x;
          assert catalogue[k].id == x;
        }
      }
      if DistinctCatalogueIds(catalogue) {
        assert DistinctCatalogueIds(front);
        assert forall k :: 0 <= k < n ==> front[k].id != catalogue[n].id;
        assert catalogue[n].id !in CatalogueIds(front);
      }
    }
  }

  lemma SelectedIdsAreSelected(selected: seq<SelectedDepartment>, id: int)
    ensures id in SelectedIds(selected) <==> IdSelected(selected, id)
  {
    if IdSelected(selected, id) {
      var k :| 0 <= k < |selected| && selected[k].id == id;
      assert id in SelectedIds(selected);
    }
  }

  /** With distinct ids taken from the catalogue, never more departments are
      selected than the catalogue holds. */
  lemma {:induction false} SelectionWithinCatalogue(catalogue: seq<Department>, selected: seq<SelectedDepartment>)
    requires DistinctIds(selected) && IdsInCatalogue(catalogue, selected)
    ensures SelectedIds(selected) <= CatalogueIds(catalogue)
    ensures |selected| <= |catalogue|
  {
    SelectedIdsCount(selected);
    CatalogueIdsCount(catalogue);
    assert SelectedIds(selected) <= CatalogueIds(catalogue);
    SubsetCardinality(SelectedIds(selected), CatalogueIds(catalogue));
  }

  lemma SubsetCardinality(a: set<int>, b: set<int>)
    requires a <= b
    ensures |a| <= |b|
    ensures |a| == |b| ==> a == b
  {
    assert b == a + (b - a);
    assert a * (b - a) == {};
    assert |b| == |a| + |b - a|;
    if |a| == |b| {
      assert b - a == {};
    }
  }

  /** The "Add Department" button is disabled once as many departments are
      selected as the catalogue holds, which is exactly when no catalogue entry
      is left to add. */
  lemma {:induction false} AddDisabledExactlyWhenNoneAvailable(catalogue: seq<Department>, selected: seq<SelectedDepartment>)
    requires DistinctCatalogueIds(catalogue)
    requires DistinctIds(selected) && IdsInCatalogue(catalogue, selected)
    ensures |selected| >= |catalogue| <==> Available(catalogue, selected) == []
  {
    SelectedIdsCount(selected);
    CatalogueIdsCount(catalogue);
    SelectionWithinCatalogue(catalogue, selected);
    var s, c := SelectedIds(selected), CatalogueIds(catalogue);
    if |selected| >= |catalogue| {
      SubsetCardinality(s, c);
      assert s == c;
      forall d | d in catalogue ensures IdSelected(selected, d.id) {
        assert d.id in c;
        SelectedIdsAreSelected(selected, d.id);
      }
    } else {
      assert s != c;
      assert s < c;
      var x :| x in c && x !in s;
      var d :| d in catalogue && d.id == x;
      SelectedIdsAreSelected(selected, x);
      assert d in Available(catalogue, selected);
    }
  }

  /** Adding a department keeps the ids distinct and taken from the
      catalogue, so the list never outgrows the catalogue; it also keeps every
      entry's name that of its catalogue entry. */
  lemma {:induction false} AddDepartmentKeepsIds(catalogue: seq<Department>, selected: seq<SelectedDepartment>)
    requires DistinctIds(selected) && IdsInCatalogue(catalogue, selected)
    ensures DistinctIds(WithDepartmentAdded(catalogue, selected))
    ensures IdsInCatalogue(catalogue, WithDepartmentAdded(catalogue, selected))
    ensures NamesMatchCatalogue(catalogue, selected) ==> NamesMatchCatalogue(catalogue, WithDepartmentAdded(catalogue, selected))
    ensures |WithDepartmentAdded(catalogue, selected)| <= |catalogue|
  {
    var r := WithDepartmentAdded(catalogue, selected);
    if exists d :: d in catalogue && !IdSelected(selected, d.id) {
      var j :| 0 <= j < |catalogue| && !IdSelected(selected, catalogue[j].id) &&
               (forall i :: 0 <= i < j ==> IdSelected(selected, catalogue[i].id)) &&
               r == selected + [SelectedDepartment(catalogue[j].id, catalogue[j].name, "")];
      assert catalogue[j].id in CatalogueIds(catalogue);
      forall a, b | 0 <= a < b < |r| ensures r[a].id != r[b].id {
        if b == |selected| {
          assert r[a] == selected[a];
        }
      }
      assert forall k :: 0 <= k < |selected| ==> r[k] == selected[k];
    }
    SelectionWithinCatalogue(catalogue, r);
  }

  /** Removing a department keeps the remaining entries as they were. */
  lemma {:induction false} RemoveDepartmentKeepsIds(catalogue: seq<Department>, selected: seq<SelectedDepartment>, index: nat)
    requires DistinctIds(selected) && IdsInCatalogue(catalogue, selected)
    ensures DistinctIds(WithDepartmentRemoved(selected, index))
    ensures IdsInCatalogue(catalogue, WithDepartmentRemoved(selected, index))
    ensures NamesMatchCatalogue(catalogue, selected) ==> NamesMatchCatalogue(catalogue, WithDepartmentRemoved(selected, index))
  {
    var r := WithDepartmentRemoved(selected, index);
    if index < |selected| {
      forall a, b | 0 <= a < b < |r| ensures r[a].id != r[b].id {
        assert r[a] == selected[if a < index then a else a + 1];
        assert r[b] == selected[if b < index then b else b + 1];
      }
    }
  }

  /** The trash button of a department row is enabled unless the row is the
      only one; so a removal through it, from a row that is shown, always
      leaves a department selected. */
  lemma EnabledRemoveKeepsDepartment(selected: seq<SelectedDepartment>, index: nat)
    requires index < |selected| && |selected| != 1
    ensures |WithDepartmentRemoved(selected, index)| == |selected| - 1 >= 1
  {
  }

  /** The handler as written never changes an id, so it keeps the ids
      distinct and in the catalogue. */
  lemma {:induction false} SelectDepartmentKeepsIds(catalogue: seq<Department>, selected: seq<SelectedDepartment>, index: nat, value: int)
    requires index < |selected|
    requires DistinctIds(selected) && IdsInCatalogue(catalogue, selected)
    ensures DistinctIds(DepartmentSelected(catalogue, selected, index, value))
    ensures IdsInCatalogue(catalogue, DepartmentSelected(catalogue, selected, index, value))
  {
    var r := DepartmentSelected(catalogue, selected, index, value);
    assert forall k :: 0 <= k < |r| ==> r[k].id == selected[k].id;
  }

  /** Choosing another department in row 0 of a catalogue of two keeps the
      old id 1 beside the new name "Finance": the row no longer agrees with the
      catalogue. */
  lemma SelectDepartmentKeepsStaleId()
    ensures var catalogue := [Department(1, "Marketing"), Department(2, "Finance")];
            var selected := [SelectedDepartment(1, "Marketing", "")];
            && NamesMatchCatalogue(catalogue, selected)
            && Offered(selected, 0, 2)
            && DepartmentSelected(catalogue, selected, 0, 2) == [SelectedDepartment(1, "Finance", "")]
            && !NamesMatchCatalogue(catalogue, DepartmentSelected(catalogue, selected, 0, 2))
  {
    var catalogue := [Department(1, "Marketing"), Department(2, "Finance")];
    var selected := [SelectedDepartment(1, "Marketing", "")];
    assert catalogue[1].id == 2;
    assert 2 in CatalogueIds(catalogue);
    assert Department(1, "Marketing") == catalogue[0];
    var r := DepartmentSelected(catalogue, selected, 0, 2);
    assert r[0] == SelectedDepartment(1, "Finance", "");
    assert Department(1, "Finance") !in catalogue;
  }

  /** The intended handler, given an id the row's `Select` offers, keeps ids
      distinct, in the catalogue, and every name that of its id. */
  lemma {:induction false} SelectDepartmentIntendedKeepsCatalogue(catalogue: seq<Department>, selected: seq<SelectedDepartment>, index: nat, value: int)
    requires index < |selected|
    requires DistinctIds(selected) && IdsInCatalogue(catalogue, selected) && NamesMatchCatalogue(catalogue, selected)
    requires Offered(selected, index, value)
    ensures DistinctIds(DepartmentSelectedIntended(catalogue, selected, index, value))
    ensures IdsInCatalogue(catalogue, DepartmentSelectedIntended(catalogue, selected, index, value))
    ensures NamesMatchCatalogue(catalogue, DepartmentSelectedIntended(catalogue, selected, index, value))
  {
    var r := DepartmentSelectedIntended(catalogue, selected, index, value);
    if value in CatalogueIds(catalogue) {
      forall a, b | 0 <= a < b < |r| ensures r[a].id != r[b].id {
        if a == index || b == index {
          var other := if a == index then b else a;
          assert r[other] == selected[other];
          if value == selected[index].id {
            assert selected[other].id != selected[index].id;
          } else {
            assert !IdSelected(selected, value);
          }
        }
      }
    }
  }

  /** Editing the message of a row leaves ids and names alone. */
  lemma {:induction false} UpdateMessageKeepsCatalogue(catalogue: seq<Department>, selected: seq<SelectedDepartment>, index: nat, message: string)
    requires index < |selected|
    requires DistinctIds(selected) && IdsInCatalogue(catalogue, selected)
    ensures DistinctIds(DepartmentFieldUpdated(selected, index, SetMessage(message)))
    ensures IdsInCatalogue(catalogue, DepartmentFieldUpdated(selected, index, SetMessage(message)))
    ensures NamesMatchCatalogue(catalogue, selected) ==>
              NamesMatchCatalogue(catalogue, DepartmentFieldUpdated(selected, index, SetMessage(message)))
  {
    var r := DepartmentFieldUpdated(selected, index, SetMessage(message));
    assert forall k :: 0 <= k < |r| ==> r[k].id == selected[k].id && r[k].name == selected[k].name;
    assert forall k :: 0 <= k < |r| ==> Department(r[k].id, r[k].name) == Department(selected[k].id, selected[k].name);
  }

  /** Applying the same edit twice leaves the list as applying it once. */
  lemma RowUpdatesIdempotent(
    selected: seq<SelectedDepartment>, people: seq<AccommodationPerson>, meals: seq<Meal>,
    index: nat, d: DepartmentEdit, p: PersonEdit, m: MealEdit)
    ensures index < |selected| ==>
              DepartmentFieldUpdated(DepartmentFieldUpdated(selected, index, d), index, d) == DepartmentFieldUpdated(selected, index, d)
    ensures index < |people| ==>
              PersonUpdated(PersonUpdated(people, index, p), index, p) == PersonUpdated(people, index, p)
    ensures index < |meals| ==>
              MealUpdated(MealUpdated(meals, index, m), index, m) == MealUpdated(meals, index, m)
  {
  }

  // ------------------------------------------------------------ the component

  /** The state of the `AddTaskForm` component of one sponsor. */
  class AddTaskForm {
    const sponsorId: int
    /** The department catalogue the form offers. */
    const departments: seq<Department>
    var selectedDepartments: seq<SelectedDepartment>
    var posterFields: PrintFields
    var standeeFields: PrintFields
    var bannerFields: PrintFields
    var accommodationPeople: seq<AccommodationPerson>
    var foodMeals: seq<Meal>

    /** The accommodation and meal tables always keep at least one row. */
    ghost predicate Valid()
      reads this
    {
      |accommodationPeople| >= 1 && |foodMeals| >= 1
    }

    /** Distinct selected ids, each from the catalogue. */
    ghost predicate DepartmentsWellFormed()
      reads this
    {
      DistinctIds(selectedDepartments) && IdsInCatalogue(departments, selectedDepartments)
    }

    constructor (sponsorId: int, departments: seq<Department>)
      ensures Valid() && DepartmentsWellFormed()
      ensures this.sponsorId == sponsorId && this.departments == departments
      ensures selectedDepartments == []
      ensures posterFields == standeeFields == bannerFields == DefaultPrintFields
      ensures accommodationPeople == [EmptyPerson]
      ensures foodMeals == [DefaultMeal]
    {
      this.sponsorId := sponsorId;
      this.departments := departments;
      selectedDepartments := [];
      posterFields, standeeFields, bannerFields := DefaultPrintFields, DefaultPrintFields, DefaultPrintFields;
      accommodationPeople := [EmptyPerson];
      foodMeals := [DefaultMeal];
    }

    method HandleAddDepartment()
      modifies this`selectedDepartments
      ensures selectedDepartments == WithDepartmentAdded(departments, old(selectedDepartments))
      ensures old(DepartmentsWellFormed()) ==> DepartmentsWellFormed() && |selectedDepartments| <= |departments|
    {
      if old(DepartmentsWellFormed()) {
        AddDepartmentKeepsIds(departments, selectedDepartments);
      }
      selectedDepartments := WithDepartmentAdded(departments, selectedDepartments);
    }

    method HandleRemoveDepartment(index: nat)
      modifies this`selectedDepartments
      ensures selectedDepartments == WithDepartmentRemoved(old(selectedDepartments), index)
      ensures old(DepartmentsWellFormed()) ==> DepartmentsWellFormed()
    {
      if DepartmentsWellFormed() {
        RemoveDepartmentKeepsIds(departments, selectedDepartments, index);
      }
      selectedDepartments := WithDepartmentRemoved(selectedDepartments, index);
    }

    method UpdateDepartmentField(index: nat, e: DepartmentEdit)
      requires index < |selectedDepartments|
      modifies this`selectedDepartments
      ensures selectedDepartments == DepartmentFieldUpdated(old(selectedDepartments), index, e)
      ensures old(DepartmentsWellFormed()) && e.SetMessage? ==> DepartmentsWellFormed()
    {
      if DepartmentsWellFormed() && e.SetMessage? {
        UpdateMessageKeepsCatalogue(departments, selectedDepartments, index, e.message);
      }
      selectedDepartments := DepartmentFieldUpdated(selectedDepartments, index, e);
    }

    /** The department `Select` of row `index`, as written. */
    method SelectDepartment(index: nat, value: int)
      requires index < |selectedDepartments|
      modifies this`selectedDepartments
      ensures selectedDepartments == DepartmentSelected(departments, old(selectedDepartments), index, value)
      ensures old(DepartmentsWellFormed()) ==> DepartmentsWellFormed()
    {
      if DepartmentsWellFormed() {
        SelectDepartmentKeepsIds(departments, selectedDepartments, index, value);
      }
      selectedDepartments := DepartmentSelected(departments, selectedDepartments, index, value);
    }

    method HandleAddAccommodationPerson()
      requires Valid()
      modifies this`accommodationPeople
      ensures Valid()
      ensures accommodationPeople == old(accommodationPeople) + [EmptyPerson]
    {
      accommodationPeople := accommodationPeople + [EmptyPerson];
    }

    method HandleRemoveAccommodationPerson(index: nat)
      requires Valid()
      modifies this`accommodationPeople
      ensures Valid()
      ensures accommodationPeople == RemovedUnlessLast(old(accommodationPeople), index)
    {
      accommodationPeople := RemovedUnlessLast(accommodationPeople, index);
    }

    method UpdateAccommodationPerson(index: nat, e: PersonEdit)
      requires Valid() && index < |accommodationPeople|
      modifies this`accommodationPeople
      ensures Valid()
      ensures accommodationPeople == PersonUpdated(old(accommodationPeople), index, e)
    {
      accommodationPeople := PersonUpdated(accommodationPeople, index, e);
    }

    method HandleAddMeal()
      requires Valid()
      modifies this`foodMeals
      ensures Valid()
      ensures foodMeals == old(foodMeals) + [DefaultMeal]
      ensures TotalFoodCost(foodMeals) == TotalFoodCost(old(foodMeals))
    {
      TotalFoodCostAfterAdd(foodMeals);
      foodMeals := foodMeals + [DefaultMeal];
    }

    method HandleRemoveMeal(index: nat)
      requires Valid()
      modifies this`foodMeals
      ensures Valid()
      ensures foodMeals == RemovedUnlessLast(old(foodMeals), index)
    {
      foodMeals := RemovedUnlessLast(foodMeals, index);
    }

    method UpdateMealField(index: nat, e: MealEdit)
      requires Valid() && index < |foodMeals|
      modifies this`foodMeals
      ensures Valid()
      ensures foodMeals == MealUpdated(old(foodMeals), index, e)
    {
      foodMeals := MealUpdated(foodMeals, index, e);
    }

    method UpdatePosterFields(e: PrintEdit)
      modifies this`posterFields
      ensures posterFields == PrintFieldsEdited(old(posterFields), e)
    {
      posterFields := PrintFieldsEdited(posterFields, e);
    }

    method UpdateStandeeFields(e: PrintEdit)
      modifies this`standeeFields
      ensures standeeFields == PrintFieldsEdited(old(standeeFields), e)
    {
      standeeFields := PrintFieldsEdited(standeeFields, e);
    }

    method UpdateBannerFields(e: PrintEdit)
      modifies this`bannerFields
      ensures bannerFields == PrintFieldsEdited(old(bannerFields), e)
    {
      bannerFields := PrintFieldsEdited(bannerFields, e);
    }

    /** `onSubmit` without its logging, toast and callback: the compiled
        form data. */
    method Submit(data: FormValues) returns (s: Submission)
      ensures s.values == data && s.sponsorId == sponsorId
      ensures s.selectedDepartments == selectedDepartments
      ensures s.costDetails == AssembleCostDetails(data, posterFields, standeeFields, bannerFields, accommodationPeople, foodMeals)
    {
      var costDetails := AssembleCostDetails(data, posterFields, standeeFields, bannerFields, accommodationPeople, foodMeals);
      s := Submission(data, sponsorId, selectedDepartments, costDetails);
    }
  }
}
