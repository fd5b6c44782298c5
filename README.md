# Sponsorship portal: form state and derived values

This project models the logic of three components of a sponsorship-management dashboard:

- the **task form** (`AddTaskForm`): assigning departments to a task, plus the cost sub-forms (posters, standee, banner, accommodation, food) with their totals, plus the `costDetails` part of the submitted task;
- the **add-sponsor form** (`AddSponsorForm`): editing in-kind items and associated events, and the in-kind total;
- the **sponsor detail view** (`SponsorDetailsView`): the values this view derives for display.

Every handler copies a state array, edits the copy and writes it back. Each one is modelled as a pure transition from the old list to the new one (`WithDepartmentAdded`, `ItemUpdated`, ...). The component state is a class (`TaskForm.AddTaskForm`, `SponsorForm.AddSponsorForm`). Each handler is a method on that class whose `ensures` equates the new field with the transition applied to the old field. The properties the source promises are lemmas about the transitions.

Files and modules:

| file | module | models |
|---|---|---|
| `line_items.dfy` | `LineItems` | rows removed with `splice(index, 1)`; the left-to-right `reduce` that sums one numeric field of the rows |
| `task_form.dfy` | `TaskForm` | `components/sponsors/AddtaskForm.tsx` |
| `sponsor_form.dfy` | `SponsorForm` | `components/sponsors/AddSponsorForm.tsx` |
| `sponsor_details.dfy` | `SponsorDetails` | `components/sponsors/SponsorDetailsView.tsx` |

Inputs that come from outside the components are parameters:

- the department catalogue is a `seq<Department>` given to the `AddTaskForm` constructor;
- the sponsor and deliverable records are `seq<Sponsor>` and `seq<Deliverable>` arguments.

Counts and money are `int`. The form inputs go through `parseInt(...) || 0` or `valueAsNumber`, and their result is taken as a given integer. The two divisions use `real`, and each requires a non-zero denominator.

Choices the model makes where the code is looser than a reader might expect:

- Cost basis: the component tests `sponsor.actualCost` for truthiness (`components/sponsors/SponsorDetailsView.tsx:145`). So an actual cost of `0` also falls back to `estimatedCost`, exactly like a missing one (`CostBasis`, `ProfitMarginExamples`).
- Item positivity: the component never checks the sign of `units` or `valuePerUnit`. The schema's `items` array is not connected to the `items` state. The model admits any integer, and the invariant `totalValue == units * valuePerUnit` holds whatever the sign.
- Division by zero: the component divides by `totalValue` and by the deliverable count without a guard. The model requires each denominator to be non-zero.
- Bad indices: `splice` ignores an index past the end, and so does the model (`Spliced`). Update handlers are only ever called with the index of a rendered row.

## Model

| member | source | states |
|---|---|---|
| `LineItems.Spliced` | components/sponsors/AddtaskForm.tsx:101-105 | `splice(i, 1)` deletes exactly the row at `i`; rows before it keep their index, rows after it move up by one, and the multiset loses exactly that row; an index past the end leaves the list unchanged |
| `LineItems.SumOfPermutation` | components/sponsors/AddtaskForm.tsx:164-168 | the left-to-right `reduce` gives the same total for any reordering of the rows |
| `LineItems.SumOfSpliced` | components/sponsors/AddtaskForm.tsx:164-168 | deleting row `i` lowers the reduced total by exactly that row's value |
| `LineItems.SumOfReplaced` | components/sponsors/AddtaskForm.tsx:164-168 | replacing row `i` changes the reduced total by the new value minus the old value |
| `LineItems.SumOf` | components/sponsors/AddtaskForm.tsx:164-168 | the left-to-right `reduce` with start value 0; its properties are `LineItems.SumOfAppend`, `SumOfSpliced`, `SumOfReplaced`, `SumOfPermutation` and `SumOfNonNegative` |
| `LineItems.SumOfAppend` | components/sponsors/AddtaskForm.tsx:164-168 | the total of two lists placed end to end is the sum of their totals |
| `LineItems.SumOfNonNegative` | components/sponsors/AddtaskForm.tsx:164-168 | rows that each contribute a non-negative value give a non-negative total |
| `TaskForm.Available` | components/sponsors/AddtaskForm.tsx:89-91 | the filtered list holds exactly the catalogue entries whose id is not selected; its head is the first such entry in catalogue order |
| `TaskForm.WithDepartmentAdded` | components/sponsors/AddtaskForm.tsx:87-99 | if every catalogue id is already selected, the list is unchanged; otherwise the first unselected catalogue entry `j` (all entries before `j` selected) is appended with message `""` |
| `TaskForm.AddDepartmentKeepsIds` | components/sponsors/AddtaskForm.tsx:87-99 | adding keeps the selected ids distinct, drawn from the catalogue and with matching names, and never more numerous than the catalogue |
| `TaskForm.SelectionWithinCatalogue` | components/sponsors/AddtaskForm.tsx:373 | distinct selected ids drawn from the catalogue are never more numerous than the catalogue entries |
| `TaskForm.AddDisabledExactlyWhenNoneAvailable` | components/sponsors/AddtaskForm.tsx:368-377 | with distinct catalogue ids, the "Add Department" button is disabled (`length >= departments.length`) exactly when no catalogue entry is left to add |
| `TaskForm.WithDepartmentRemoved` | components/sponsors/AddtaskForm.tsx:101-105 | removing at `index` deletes exactly that entry and keeps the others in order |
| `TaskForm.RemoveDepartmentKeepsIds` | components/sponsors/AddtaskForm.tsx:101-105 | removal keeps the ids distinct and drawn from the catalogue, and keeps names matching |
| `TaskForm.EnabledRemoveKeepsDepartment` | components/sponsors/AddtaskForm.tsx:410-416 | while the trash button is enabled (more than one row), removing a row leaves at least one department |
| `TaskForm.DepartmentEdited` | components/sponsors/AddtaskForm.tsx:109-112 | only the named field (`id`, `name` or `message`) takes the new value; the other two are kept |
| `TaskForm.DepartmentFieldUpdated` | components/sponsors/AddtaskForm.tsx:107-114 | length kept, entry `index` edited in its named field only, every other entry unchanged |
| `TaskForm.UpdateMessageKeepsCatalogue` | components/sponsors/AddtaskForm.tsx:424-426 | editing a row's message keeps ids distinct, drawn from the catalogue, and names matching |
| `TaskForm.FindDepartment` | components/sponsors/AddtaskForm.tsx:389 | the result is the first catalogue entry with the requested id; none is found exactly when no catalogue entry has that id |
| `TaskForm.Offered` | components/sponsors/AddtaskForm.tsx:401 | the ids the `Select` of a row lists: its own, or one no row has; `TaskForm.SelectDepartmentIntendedKeepsCatalogue` assumes the chosen id is one of them |
| `TaskForm.DepartmentSelected` | components/sponsors/AddtaskForm.tsx:388-393 | as written: no id and no message changes; only row `index` can change, taking the name of the first catalogue entry with the chosen id; an unknown id changes nothing |
| `TaskForm.SelectDepartmentKeepsIds` | components/sponsors/AddtaskForm.tsx:388-393 | the handler as written keeps the ids distinct and drawn from the catalogue |
| `TaskForm.SelectDepartmentKeepsStaleId` | components/sponsors/AddtaskForm.tsx:388-393 | selecting "Finance" (id 2) in a row holding Marketing (id 1) yields id 1 with name "Finance", and the row no longer agrees with the catalogue |
| `TaskForm.DepartmentSelectedIntended` | components/sponsors/AddtaskForm.tsx:388-393 | intended handler: row `index` gets the chosen id and the name of the first catalogue entry with it, keeps its message; other rows unchanged; unknown id changes nothing |
| `TaskForm.SelectDepartmentIntendedKeepsCatalogue` | components/sponsors/AddtaskForm.tsx:400-401 | for an id the row's `Select` offers (its own or an unselected one), the intended handler keeps ids distinct, drawn from the catalogue, and names matching |
| `TaskForm.PersonEdited` | components/sponsors/AddtaskForm.tsx:133-136 | only the named field of the accommodation row changes |
| `TaskForm.PersonUpdated` | components/sponsors/AddtaskForm.tsx:131-138 | length kept, row `index` edited in its named field only, other rows unchanged |
| `TaskForm.RemovedUnlessLast` | components/sponsors/AddtaskForm.tsx:123-129 | a list of at most one row is left as it is; a longer list is spliced at `index`; a non-empty list stays non-empty (the same handler shape as `handleRemoveMeal`, lines 147-153) |
| `TaskForm.MealEdited` | components/sponsors/AddtaskForm.tsx:157-160 | only the named field of the meal row changes |
| `TaskForm.MealUpdated` | components/sponsors/AddtaskForm.tsx:155-162 | length kept, row `index` edited in its named field only, other rows unchanged |
| `TaskForm.Subtotal` | components/sponsors/AddtaskForm.tsx:963 | a meal row's subtotal `people * cost`; `TaskForm.TotalFoodCostOfRows` and `TaskForm.TotalFoodCostAfterUpdate` tie it to the total |
| `TaskForm.TotalFoodCost` | components/sponsors/AddtaskForm.tsx:164-168 | `getTotalFoodCost`, the sum of the subtotals; its properties are the `TaskForm.TotalFoodCost...` lemmas below |
| `TaskForm.TotalFoodCostOfRows` | components/sponsors/AddtaskForm.tsx:164-168 | the total of no meals is 0, of one meal its `people * cost`, and each appended meal adds its own displayed subtotal |
| `TaskForm.TotalFoodCostAfterAdd` | components/sponsors/AddtaskForm.tsx:140-145 | appending the default meal `{0, lunch, 0}` leaves the food total unchanged |
| `TaskForm.TotalFoodCostAfterRemove` | components/sponsors/AddtaskForm.tsx:147-153 | removing a meal lowers the total by its subtotal, unless it is the only row, in which case nothing changes |
| `TaskForm.TotalFoodCostAfterUpdate` | components/sponsors/AddtaskForm.tsx:155-162 | editing a meal changes the total by the change of that row's subtotal; changing only the meal type keeps the total |
| `TaskForm.TotalFoodCostOrderIndependent` | components/sponsors/AddtaskForm.tsx:164-168 | two meal lists holding the same rows in any order have the same total |
| `TaskForm.TotalFoodCostNonNegative` | components/sponsors/AddtaskForm.tsx:164-168 | with non-negative head counts and costs the total is non-negative |
| `TaskForm.TotalFoodCostExample` | components/sponsors/AddtaskForm.tsx:164-168 | 20 lunches at 8 and 20 dinners at 12 total 400 |
| `TaskForm.PrintFieldsEdited` | components/sponsors/AddtaskForm.tsx:504-541 | a poster (standee, banner) setter changes only the named field of the sub-form state |
| `TaskForm.PrintTotal` | components/sponsors/AddtaskForm.tsx:549 | a print sub-form's total `number * cost`, the same at lines 653 and 758; `TaskForm.PrintTotalAfterEdit` states how it follows the setters |
| `TaskForm.PrintTotalAfterEdit` | components/sponsors/AddtaskForm.tsx:546-551 | the sub-form total `number * cost` is 0 for a fresh sub-form, ignores the size edit, and follows a new count or unit cost |
| `TaskForm.AssembleCostDetails` | components/sponsors/AddtaskForm.tsx:177-192 | `costDetails` is present exactly for cost tasks; it keeps the cost type and estimated cost; `paymentType` is dropped exactly for accommodation and food; `specificDetails` is the sub-form state of the chosen cost type, or absent when there is none |
| `TaskForm.RowUpdatesIdempotent` | components/sponsors/AddtaskForm.tsx:107-162 | applying the same department, person or meal edit twice gives the list that applying it once gives |
| `TaskForm.AddTaskForm.constructor` | components/sponsors/AddtaskForm.tsx:48-63 | no department selected, the three print sub-forms at `{0, "small", 0}`, one empty accommodation row, one default meal |
| `TaskForm.AddTaskForm.HandleAddDepartment` | components/sponsors/AddtaskForm.tsx:87-99 | the selection becomes `WithDepartmentAdded` of the old one; well-formed stays well-formed and within the catalogue size |
| `TaskForm.AddTaskForm.HandleRemoveDepartment` | components/sponsors/AddtaskForm.tsx:101-105 | the selection becomes `WithDepartmentRemoved` of the old one; well-formedness kept |
| `TaskForm.AddTaskForm.UpdateDepartmentField` | components/sponsors/AddtaskForm.tsx:107-114 | the selection becomes `DepartmentFieldUpdated` of the old one; a message edit keeps well-formedness |
| `TaskForm.AddTaskForm.SelectDepartment` | components/sponsors/AddtaskForm.tsx:386-394 | the selection becomes `DepartmentSelected` (as written) of the old one; well-formedness kept |
| `TaskForm.AddTaskForm.HandleAddAccommodationPerson` | components/sponsors/AddtaskForm.tsx:116-121 | an empty person `{"", "", "", false}` is appended; the tables stay non-empty |
| `TaskForm.AddTaskForm.HandleRemoveAccommodationPerson` | components/sponsors/AddtaskForm.tsx:123-129 | the rows become `RemovedUnlessLast` of the old ones; the table never becomes empty |
| `TaskForm.AddTaskForm.UpdateAccommodationPerson` | components/sponsors/AddtaskForm.tsx:131-138 | the rows become `PersonUpdated` of the old ones |
| `TaskForm.AddTaskForm.HandleAddMeal` | components/sponsors/AddtaskForm.tsx:140-145 | the default meal is appended and the food total is unchanged |
| `TaskForm.AddTaskForm.HandleRemoveMeal` | components/sponsors/AddtaskForm.tsx:147-153 | the meals become `RemovedUnlessLast` of the old ones; the table never becomes empty |
| `TaskForm.AddTaskForm.UpdateMealField` | components/sponsors/AddtaskForm.tsx:155-162 | the meals become `MealUpdated` of the old ones |
| `TaskForm.AddTaskForm.UpdatePosterFields` | components/sponsors/AddtaskForm.tsx:504-541 | the poster state becomes `PrintFieldsEdited` of the old one |
| `TaskForm.AddTaskForm.UpdateStandeeFields` | components/sponsors/AddtaskForm.tsx:609-645 | the standee state becomes `PrintFieldsEdited` of the old one |
| `TaskForm.AddTaskForm.UpdateBannerFields` | components/sponsors/AddtaskForm.tsx:713-750 | the banner state becomes `PrintFieldsEdited` of the old one |
| `TaskForm.AddTaskForm.Submit` | components/sponsors/AddtaskForm.tsx:170-193 | the submission carries the form values, the sponsor id, the current selection and `AssembleCostDetails` of the current sub-form state |
| `SponsorForm.ItemEdited` | components/sponsors/AddSponsorForm.tsx:98-106 | the named field takes the new value; a new `units` or `valuePerUnit` sets `totalValue` to it times the other factor's current value; a name edit keeps `totalValue`; the result is consistent after a factor edit and whenever the input was |
| `SponsorForm.ItemUpdated` | components/sponsors/AddSponsorForm.tsx:96-108 | length kept, only row `index` changes, and an all-consistent list stays all-consistent |
| `SponsorForm.ItemRemoved` | components/sponsors/AddSponsorForm.tsx:110-114 | exactly row `index` is deleted, the rest keep their order, and consistency is kept |
| `SponsorForm.HandlersKeepConsistent` | components/sponsors/AddSponsorForm.tsx:92-114 | the fresh item `{"", 0, 0, 0}` is consistent, and add, update and remove all preserve `totalValue == units * valuePerUnit` for every item |
| `SponsorForm.InKindTotal` | components/sponsors/AddSponsorForm.tsx:385 | the sum of the items' `totalValue`; `SponsorForm.InKindTotalOfConsistent`, `InKindTotalAfterEdits` and `InKindTotalOrderIndependent` state its properties |
| `SponsorForm.InKindTotalOfConsistent` | components/sponsors/AddSponsorForm.tsx:385 | over consistent items the in-kind total equals the sum of `units * valuePerUnit` |
| `SponsorForm.InKindTotalAfterEdits` | components/sponsors/AddSponsorForm.tsx:380-386 | the total of no items is 0; adding a fresh item keeps it; removing an item lowers it by that item's value; an edit changes it by the change in that item's value |
| `SponsorForm.InKindTotalOrderIndependent` | components/sponsors/AddSponsorForm.tsx:385 | the in-kind total does not depend on the order of the items |
| `SponsorForm.InKindTotalExample` | components/sponsors/AddSponsorForm.tsx:385 | 3 banners at 50 and 10 posters at 5 are consistent and total 200 |
| `SponsorForm.ItemUpdateIdempotent` | components/sponsors/AddSponsorForm.tsx:96-108 | applying the same item edit twice equals applying it once |
| `SponsorForm.EventEdited` | components/sponsors/AddSponsorForm.tsx:122 | only the named field of the event changes |
| `SponsorForm.EventUpdated` | components/sponsors/AddSponsorForm.tsx:120-124 | length kept, only row `index` changes in its named field |
| `SponsorForm.EventRemoved` | components/sponsors/AddSponsorForm.tsx:126-130 | exactly row `index` is deleted and the rest keep their order |
| `SponsorForm.EventUpdateIdempotent` | components/sponsors/AddSponsorForm.tsx:120-124 | applying the same event edit twice equals applying it once |
| `SponsorForm.AddSponsorForm.constructor` | components/sponsors/AddSponsorForm.tsx:72-73 | both lists start empty and consistent |
| `SponsorForm.AddSponsorForm.TotalInKindValue` | components/sponsors/AddSponsorForm.tsx:385 | the displayed in-kind total equals the sum of `units * valuePerUnit` over the items |
| `SponsorForm.AddSponsorForm.HandleAddItem` | components/sponsors/AddSponsorForm.tsx:92-94 | `{"", 0, 0, 0}` is appended, every item stays consistent, and the total is unchanged |
| `SponsorForm.AddSponsorForm.HandleUpdateItem` | components/sponsors/AddSponsorForm.tsx:96-108 | the items become `ItemUpdated` of the old ones and stay consistent |
| `SponsorForm.AddSponsorForm.HandleRemoveItem` | components/sponsors/AddSponsorForm.tsx:110-114 | the items become `ItemRemoved` of the old ones and stay consistent |
| `SponsorForm.AddSponsorForm.HandleAddEvent` | components/sponsors/AddSponsorForm.tsx:116-118 | `{"", powered}` is appended |
| `SponsorForm.AddSponsorForm.HandleUpdateEvent` | components/sponsors/AddSponsorForm.tsx:120-124 | the events become `EventUpdated` of the old ones |
| `SponsorForm.AddSponsorForm.HandleRemoveEvent` | components/sponsors/AddSponsorForm.tsx:126-130 | the events become `EventRemoved` of the old ones |
| `SponsorDetails.FindSponsor` | components/sponsors/SponsorDetailsView.tsx:42-45 | none ("Sponsor not found") exactly when no sponsor has the id; otherwise the first sponsor with that id |
| `SponsorDetails.SponsorDeliverables` | components/sponsors/SponsorDetailsView.tsx:43 | the shown deliverables are exactly those with the sponsor's id: every kept one matches, and every matching one is kept |
| `SponsorDetails.SponsorDeliverablesKeepOrder` | components/sponsors/SponsorDetailsView.tsx:43 | filtering a concatenation concatenates the filtered parts, and one deliverable is kept exactly when it matches, so original order is preserved |
| `SponsorDetails.SponsorshipValueLabel` | components/sponsors/SponsorDetailsView.tsx:218-223 | "Cash / In-Kind" exactly when both values are positive; "Cash Sponsorship" exactly when only cash is positive; "In-Kind Sponsorship" exactly when cash is not positive, both-zero included |
| `SponsorDetails.ActualCostShown` | components/sponsors/SponsorDetailsView.tsx:144 | "Pending" exactly when the actual cost is missing or zero; otherwise the amount itself |
| `SponsorDetails.CostBasis` | components/sponsors/SponsorDetailsView.tsx:145-147 | the cost the margin subtracts: the actual cost when it is truthy, else the estimated cost; `SponsorDetails.CostBasisFollowsShownCost` ties it to the shown cost |
| `SponsorDetails.CostBasisFollowsShownCost` | components/sponsors/SponsorDetailsView.tsx:144-147 | the margin uses the estimated cost exactly while the actual cost shows "Pending", and the shown amount otherwise |
| `SponsorDetails.ProfitMargin` | components/sponsors/SponsorDetailsView.tsx:145-147 | margin times value equals (value minus cost basis) times 100, for a non-zero value |
| `SponsorDetails.ProfitMarginSign` | components/sponsors/SponsorDetailsView.tsx:145-147 | for a positive value: the margin is non-negative exactly when the cost basis does not exceed the value, is 100 exactly when the cost basis is 0, and is at most 100 for a non-negative cost |
| `SponsorDetails.ProfitMarginExamples` | components/sponsors/SponsorDetailsView.tsx:145-147 | value 10000 against estimated 6000 with no actual cost, or with actual cost 0, is 40; with actual cost 7000 it is 30 |
| `SponsorDetails.CompletionPercent` | components/sponsors/SponsorDetailsView.tsx:233 | percentage times total equals completed times 100, for a non-zero total |
| `SponsorDetails.CompletionPercentBounds` | components/sponsors/SponsorDetailsView.tsx:233 | for `0 <= completed <= total`, the percentage is in [0, 100], is 0 exactly when none is completed, and is 100 exactly when all are |
| `SponsorDetails.CompletionPercentExamples` | components/sponsors/SponsorDetailsView.tsx:233 | 0 of 10 is 0, 10 of 10 is 100, 3 of 4 is 75 |
| `SponsorDetails.DepartmentCell` | components/sponsors/SponsorDetailsView.tsx:72-80 | ids 1 to 6 show their fixed names; any other id shows "Unknown" |
| `SponsorDetails.CostBreakdownDepartmentCell` | components/sponsors/SponsorDetailsView.tsx:412-423 | ids 1 to 6 show their fixed names; any other id shows nothing, because this table has no fallback |
| `SponsorDetails.DepartmentCellsAgree` | components/sponsors/SponsorDetailsView.tsx:72-80 | the deliverables cell is never empty; both cells agree on known ids; the cost-breakdown cell is empty exactly where the other says "Unknown"; the six names are distinct |
| `SponsorDetails.UpperCase` | components/sponsors/SponsorDetailsView.tsx:102 | a lower-case ASCII letter maps to its upper-case letter; any other character is kept |
| `SponsorDetails.ReplaceFirst` | components/sponsors/SponsorDetailsView.tsx:102 | single-character `replace`: length kept, and a string without the pattern is unchanged |
| `SponsorDetails.ReplaceFirstAt` | components/sponsors/SponsorDetailsView.tsx:102 | position `i` becomes the replacement exactly when it holds the pattern and no earlier position does |
| `SponsorDetails.ReplaceFirstAfter` | components/sponsors/SponsorDetailsView.tsx:102 | in `a + [from] + b` with no `from` in `a`, only that `from` is replaced |
| `SponsorDetails.StatusLabel` | components/sponsors/SponsorDetailsView.tsx:102 | length kept, the first character upper-cased, and a status without underscores otherwise unchanged |
| `SponsorDetails.StatusLabelAt` | components/sponsors/SponsorDetailsView.tsx:102 | after the first character, a position becomes a space exactly when it holds the first underscore of the remainder |
| `SponsorDetails.StatusLabelInProgress` | components/sponsors/SponsorDetailsView.tsx:102 | `in_progress` reads "In progress" |
| `SponsorDetails.StatusLabelFirstUnderscoreOnly` | components/sponsors/SponsorDetailsView.tsx:102 | `not_yet_started` reads "Not yet_started": only the first underscore is replaced |
| `SponsorDetails.StatusLabelCompleted` | components/sponsors/SponsorDetailsView.tsx:102 | `completed` reads "Completed" |
| `SponsorDetails.StatusColour` | components/sponsors/SponsorDetailsView.tsx:92-99 | green exactly for completed, blue exactly for in_progress, yellow exactly for pending, red exactly for every other status |
| `SponsorDetails.PriorityColour` | components/sponsors/SponsorDetailsView.tsx:113-118 | red exactly for high, yellow exactly for medium, green exactly for every other priority, never blue |
| `SponsorDetails.TaskTypeBadge` | components/sponsors/SponsorDetailsView.tsx:59-64 | "Standard" in blue exactly for task type `standard`; "Cost-Based" in green for every other task type |
| `SponsorDetails.CostTypeCell` | components/sponsors/SponsorDetailsView.tsx:425 | "N/A" for non-cost tasks; for cost tasks the cost type, or "Standard" when it is missing or empty; never empty |
| `SponsorDetails.TaskActualCell` | components/sponsors/SponsorDetailsView.tsx:429 | a task's actual cost shows "Pending" exactly when it is missing or zero, by the same rule as the summary |

## Findings

| source | as written | input that shows it | evidently intended | confidence | as-written member | corrected member |
|---|---|---|---|---|---|---|
| components/sponsors/AddtaskForm.tsx:388-393 | the department `Select` calls `updateDepartmentField` for `id` and then for `name`; both calls copy the same `selectedDepartments` of the current render, so the second state update replaces the first and only the name changes | catalogue `[{1, Marketing}, {2, Finance}]`, selection `[{1, Marketing, ""}]`, choose id 2 in row 0: the row becomes `{1, Finance, ""}` | the row becomes `{2, Finance, ""}`: id and name change together and the row still agrees with the catalogue | high; not executed | `TaskForm.SelectDepartmentKeepsStaleId` | `TaskForm.DepartmentSelectedIntended` |

The as-written handler is `TaskForm.DepartmentSelected`. `TaskForm.AddTaskForm.SelectDepartment` uses it, because that method models what the component does. The corrected handler, `TaskForm.DepartmentSelectedIntended`, keeps every row agreeing with the catalogue (`TaskForm.SelectDepartmentIntendedKeepsCatalogue`). The handler as written breaks that agreement. It still keeps the ids distinct and drawn from the catalogue (`TaskForm.SelectDepartmentKeepsIds`), since it changes no id at all.

## Left out

- Rendering is not modelled: JSX, layout, tabs, accordions, dialogs, the collapsible flags (`showEditSponsor`, `isTaskFormOpen`), the static placeholder content, and the constant `Progress value={0}`. None of it holds logic.
- Form validation and field watching are foreign library code: the react-hook-form and zod schemas, the resolver, and `form.watch`. The validated values reach the model as a `FormValues` argument.
- Side effects are not modelled: file uploads (`handleFileChange`, the submitted file name, the MOU file), `console.log`, `toast` and the `onSuccess` callbacks.
- Display formatting and floating point are not modelled: `toFixed`, `toLocaleString`, the `$` prefix, and JavaScript float rounding. NaN from an empty `valueAsNumber` or `Number(value)` is not modelled either. Amounts are `int`, and the two ratios are `real`.
- Input coercion: the `parseInt(...) || 0` coercion of the poster, standee, banner and meal inputs is browser string parsing. Its result is taken as a given integer.
- The mock data module (`departments`, `sponsors`, `deliverables`) is not part of this model. Its records are parameters. `DeptNames` is the table written inline in the component.
- Colours: the badge colours are an enumeration (`Colour`), not the Tailwind class strings.
- The value label: the "Cash / In-Kind" label carries the two amounts and not their formatted text.
- `SponsorDetails.UpperCase`: models `toUpperCase` for the ASCII letters only. Unicode case mapping, including one character that becomes several, is out of scope.
- `SponsorDetails.ProfitMargin` and `SponsorDetails.CompletionPercent` require a non-zero denominator. The division by zero the component would perform, which gives Infinity or NaN in JavaScript, is not modelled.
- The update handlers (`DepartmentFieldUpdated`, `PersonUpdated`, `MealUpdated`, `ItemUpdated`, `EventUpdated`) require an index inside the list. Their only callers pass the index of a rendered row. An out-of-range index would make JavaScript add a partial record past the end, which is not modelled.
- Each handler takes its `[field]: value` argument as a tagged edit (`DepartmentEdit`, `PersonEdit`, `MealEdit`, `PrintEdit`, `ItemEdit`, `EventEdit`), one case per field the component passes. A string naming some other property is not modelled.
- `TaskForm.AddTaskForm.UpdateDepartmentField`: promises well-formedness only for a message edit. Its id and name edits happen only inside the `Select` handler, which is modelled on its own.
- Every handler is modelled as one synchronous replacement of its list, taking the list of the current render. In the `Select` handler, both `updateDepartmentField` calls copy the same `selectedDepartments` of the current render, so the id update is lost whether or not React batches the two updates (`TaskForm.DepartmentSelected`). No other handler makes two updates.
- `TaskForm.FormValues` leaves out `dueDate` and `proofRequired`. `...data` copies them into the submitted task unchanged (`components/sponsors/AddtaskForm.tsx:173`), and no computation uses them.
