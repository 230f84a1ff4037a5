# TaskNetwork — a verified model of the "Central de Micro Tarefas" state

TaskNetwork is a JavaFX window. It draws a list of tasks as a ring of circles, with a line between every pair of circles. A click on a circle opens an observation panel listing that task's observations. The panel has an "Adicionar Observação" field and a "Remover" button per row. A search field turns red the circles of tasks that have a matching observation. On the left, a table lists (name, url) links that can be added and removed.

This project models the state behind the window (the ordered task list, the per-task observation lists, the link list, the icons of the last redraw and the observation panel) and every button handler that changes it. It proves what those handlers promise.

Modules:

- `JavaStrings` covers `String.trim()` exactly: it strips every leading and trailing character whose code point is at most U+0020. It also covers `toLowerCase()` and `contains()`; see "Left out" for the limits of the lowering.
- `Lists` covers `ArrayList.remove(int)` (`RemoveAt`) and `ArrayList.remove(Object)` (`RemoveFirst`). `Link` does not override `equals`, so `RemoveFirst` works by object identity.
- `LinePairs` covers the double loop of `drawConnections` and the sequence of pairs it draws.
- `Search` covers the highlight set of a query: the indices of the tasks that have an observation which, once lower-cased, contains the lower-cased query.
- `TaskNetworkApp` holds the classes `Task`, `Link`, `Icon` and `TaskNetwork`. The handlers are methods that update the fields in place.

`TaskNetwork.Valid()` is the invariant every handler keeps:

- Tasks and links are distinct objects.
- The icons of the last redraw are distinct objects, one per task, in task order, captioned with the task's title. That they are fresh white circles is said by the `ensures` of the methods that redraw.
- The lines are exactly `Connections(|icons|)`.
- A panel that still shows a listed task shows it at its index, with that task's current observations.

The panel is modelled the way the source builds it. Each `handleTaskClick(k)` captures the task object and the index `k` in its buttons; the model keeps them as `panel` and `panelIndex`. Removing the last task does not rebuild the panel. A panel left open on that task therefore keeps acting on a task that is no longer listed: an observation added there goes to the detached task. The reopen `handleTaskClick(6)` then throws, because index 6 no longer exists, so the panel stays as it was. `StalePanelAfterRemove` proves this sequence end to end.

## Model

| member | source | states |
|---|---|---|
| `JavaStrings.TrimIsSlice` | src/main/java/com/example/tasknetwork/TaskNetwork.java:111 | `trim()` returns the slice `s[lo..hi]`. Everything cut off on either side is at most U+0020, and the slice neither starts nor ends with such a character. |
| `JavaStrings.TrimStartSlice` | src/main/java/com/example/tasknetwork/TaskNetwork.java:111 | The leading cut of `trim()` is at some index `lo`: everything before it is at most U+0020, and `s[lo]` is not. |
| `JavaStrings.TrimEndOfSuffix` | src/main/java/com/example/tasknetwork/TaskNetwork.java:111 | The trailing cut of `trim()` on `s[lo..]` leaves `s[lo..hi]`: everything after it is at most U+0020, and `s[hi - 1]` is not. |
| `JavaStrings.TrimEmptyIff` | src/main/java/com/example/tasknetwork/TaskNetwork.java:112 | The guard `trim().isEmpty()` holds exactly when every character of the input is at most U+0020, in both directions. |
| `JavaStrings.TrimIdempotent` | src/main/java/com/example/tasknetwork/TaskNetwork.java:111 | Trimming an already trimmed text changes nothing. |
| `JavaStrings.Trim` | src/main/java/com/example/tasknetwork/TaskNetwork.java:111 | Defines `String.trim()`: strip the leading characters at most U+0020, then the trailing ones. Its properties are the three lemmas around it. |
| `JavaStrings.TrimPadded` | src/main/java/com/example/tasknetwork/TaskNetwork.java:325 | The text " nota " trims to "nota". |
| `JavaStrings.TrimStart` | src/main/java/com/example/tasknetwork/TaskNetwork.java:111 | The result is a suffix of the input. It does not start with a trimmable character, and everything dropped was trimmable. |
| `JavaStrings.TrimEnd` | src/main/java/com/example/tasknetwork/TaskNetwork.java:111 | The result is a prefix of the input. It does not end with a trimmable character, and everything dropped was trimmable. |
| `JavaStrings.LowerChar` | src/main/java/com/example/tasknetwork/TaskNetwork.java:216 | The lowering of one character in the ASCII stand-in. No capital A-Z is left in the result. A character is changed only if it is such a capital, and then it moves by the distance from 'A' to 'a'. |
| `JavaStrings.Lower` | src/main/java/com/example/tasknetwork/TaskNetwork.java:216 | The ASCII stand-in for `toLowerCase()`. It lowers every character on its own, so it keeps the length; this is a property of the stand-in, not of Java's Unicode lowering. |
| `JavaStrings.LowerIdempotent` | src/main/java/com/example/tasknetwork/TaskNetwork.java:216 | Lowering twice is lowering once. |
| `JavaStrings.Contains` | src/main/java/com/example/tasknetwork/TaskNetwork.java:216 | Defines `contains(sub)` as a scan over the start positions. A string contains the empty string, and a match needs a string at least as long as `sub`. |
| `JavaStrings.ContainsIff` | src/main/java/com/example/tasknetwork/TaskNetwork.java:216 | `contains(sub)` holds exactly when `sub` occurs at some index of the string, in both directions. |
| `Lists.RemoveAt` | src/main/java/com/example/tasknetwork/TaskNetwork.java:312 | `remove(j)` makes the list one shorter, keeps the elements before `j` and moves every later element down one place. |
| `Lists.RemoveAtDistinct` | src/main/java/com/example/tasknetwork/TaskNetwork.java:312 | On a list of distinct elements, `remove(j)` drops exactly the element at `j`, keeps all others and keeps the list distinct. |
| `Lists.IndexOf` | src/main/java/com/example/tasknetwork/TaskNetwork.java:193 | Gives the first index at which the element occurs. |
| `Lists.RemoveFirst` | src/main/java/com/example/tasknetwork/TaskNetwork.java:193 | Defines `ArrayList.remove(Object)`: the first element equal to `o` goes, and nothing happens when there is none. The result is one shorter exactly when `o` was present, and holds nothing new. |
| `Lists.RemoveFirstIsRemoveAt` | src/main/java/com/example/tasknetwork/TaskNetwork.java:193 | `remove(o)` is `remove(indexOf(o))` when `o` is present. Otherwise it leaves the list unchanged. |
| `Lists.RemoveFirstDistinct` | src/main/java/com/example/tasknetwork/TaskNetwork.java:193 | On a list of distinct links, `remove(o)` leaves exactly the other links, with `o` absent, and the list stays distinct. |
| `LinePairs.Row` | src/main/java/com/example/tasknetwork/TaskNetwork.java:281-291 | Defines the lines the inner loop draws from icon `i`, one per `j` from `from` to `n - 1`. |
| `LinePairs.PairsFrom` | src/main/java/com/example/tasknetwork/TaskNetwork.java:279-292 | Defines the lines the outer loop draws from icon `from` on: each icon's row in turn. |
| `LinePairs.Connections` | src/main/java/com/example/tasknetwork/TaskNetwork.java:278-293 | Defines all the lines `drawConnections` draws between `n` icons, in drawing order. |
| `LinePairs.RowLength` | src/main/java/com/example/tasknetwork/TaskNetwork.java:281 | The inner loop from `j = from` draws `n - from` lines. |
| `LinePairs.RowMembers` | src/main/java/com/example/tasknetwork/TaskNetwork.java:281-291 | The inner loop for icon `i` draws exactly the pairs `(i, j)` with `from <= j < n`. |
| `LinePairs.RowOrdered` | src/main/java/com/example/tasknetwork/TaskNetwork.java:281-291 | The inner loop draws its lines in strictly increasing order. |
| `LinePairs.PairsFromLength` | src/main/java/com/example/tasknetwork/TaskNetwork.java:279-292 | The outer loop from `i = from` draws `(n-from)(n-from-1)/2` lines. |
| `LinePairs.PairsFromMembers` | src/main/java/com/example/tasknetwork/TaskNetwork.java:279-292 | The outer loop from `i = from` draws exactly the pairs `from <= i < j < n`. |
| `LinePairs.PairsFromOrdered` | src/main/java/com/example/tasknetwork/TaskNetwork.java:279-292 | The outer loop draws its lines in strictly increasing lexicographic order. |
| `LinePairs.ConnectionsExactly` | src/main/java/com/example/tasknetwork/TaskNetwork.java:278-293 | A line `(i, j)` is drawn exactly when `i < j < n`, in both directions. So there are no self-loops and no missing pairs. |
| `LinePairs.ConnectionsDistinct` | src/main/java/com/example/tasknetwork/TaskNetwork.java:278-293 | No pair is drawn twice. |
| `LinePairs.ConnectionsCount` | src/main/java/com/example/tasknetwork/TaskNetwork.java:278-293 | `n` icons get `n(n-1)/2` lines, and none at all when `n <= 1`. |
| `LinePairs.InnerStep` | src/main/java/com/example/tasknetwork/TaskNetwork.java:281-291 | One pass of the inner loop moves line `(i, j)` from the lines still to draw to the lines drawn. |
| `LinePairs.OuterStep` | src/main/java/com/example/tasknetwork/TaskNetwork.java:279-281 | Icon `i`'s row comes first among the lines still to draw. |
| `LinePairs.ConnectionLines` | src/main/java/com/example/tasknetwork/TaskNetwork.java:278-293 | The double loop draws exactly `Connections(n)`, in the order of the loops. |
| `Search.Matches` | src/main/java/com/example/tasknetwork/TaskNetwork.java:216 | Defines the test `observation.toLowerCase().contains(query.toLowerCase())`. |
| `Search.AnyMatch` | src/main/java/com/example/tasknetwork/TaskNetwork.java:213-220 | Defines the final value of `taskHighlighted`: some observation of the task matches. |
| `Search.Highlighted` | src/main/java/com/example/tasknetwork/TaskNetwork.java:211-225 | Defines the highlight set: the indices of the tasks with a matching observation. It only holds indices of tasks. |
| `Search.MatchesIff` | src/main/java/com/example/tasknetwork/TaskNetwork.java:216 | An observation matches exactly when the lower-cased query occurs at some index of the lower-cased observation, in both directions. |
| `Search.MatchesIgnoresCase` | src/main/java/com/example/tasknetwork/TaskNetwork.java:216 | Lower-casing either side beforehand does not change whether it matches. |
| `Search.MatchesNeedsLength` | src/main/java/com/example/tasknetwork/TaskNetwork.java:216 | With the ASCII stand-in for lowering, only an observation at least as long as the query can match. |
| `Search.HighlightedAppendTask` | src/main/java/com/example/tasknetwork/TaskNetwork.java:113 | A new search after adding a task (which has no observations) highlights the same tasks as before. The handler itself turns every circle white by redrawing. |
| `Search.HighlightedDropLast` | src/main/java/com/example/tasknetwork/TaskNetwork.java:122 | A new search after removing the last task highlights the same tasks minus, at most, the removed one. The handler itself turns every circle white by redrawing. |
| `Search.HighlightedAddObservation` | src/main/java/com/example/tasknetwork/TaskNetwork.java:327 | A new search after adding observation `o` to task `k` highlights `k` in addition exactly when `o` matches, and nothing else changes. The handler itself leaves the circles as they were. |
| `TaskNetworkApp.Task.constructor` | src/main/java/com/example/tasknetwork/TaskNetwork.java:24-27 | A new task has the given title and no observations. |
| `TaskNetworkApp.Link.constructor` | src/main/java/com/example/tasknetwork/TaskNetwork.java:34-37 | A new link has the given name and url. |
| `TaskNetworkApp.Icon.constructor` | src/main/java/com/example/tasknetwork/TaskNetwork.java:260-266 | A new circle is white and is bound to its task index and caption. |
| `TaskNetworkApp.TaskNetwork.constructor` | src/main/java/com/example/tasknetwork/TaskNetwork.java:138-150 | Start-up gives the seven titles in order as fresh tasks without observations, and the two links Google and GitHub. The panel is closed, nothing is highlighted and the invariant holds. The link table has no row, because it was filled at line 93 (through line 201) before the links existed. |
| `TaskNetworkApp.TaskNetwork.ModelValid` | src/main/java/com/example/tasknetwork/TaskNetwork.java:64-68 | Defines the part of the invariant about the lists and the panel: tasks and links are distinct objects, and a panel on a listed task shows it at its index with its current observations. |
| `TaskNetworkApp.TaskNetwork.Drawn` | src/main/java/com/example/tasknetwork/TaskNetwork.java:246-293 | Defines the icons invariant after a redraw: one icon per task with icon `i` built for task `i`, so `icons.get(i)` at line 223 is in bounds, and the lines of every pair. |
| `TaskNetworkApp.TaskNetwork.Valid` | src/main/java/com/example/tasknetwork/TaskNetwork.java:64-68 | Defines the invariant every handler keeps: `ModelValid` and `Drawn` together. |
| `TaskNetworkApp.TaskNetwork.WithLinkTable` | src/main/java/com/example/tasknetwork/TaskNetwork.java:138-150 | The corrected start-up of the Finding below: as the constructor, but the link table is filled after the two links are added, so it lists them. |
| `TaskNetworkApp.TaskNetwork.ShowLinks` | src/main/java/com/example/tasknetwork/TaskNetwork.java:201 | `table.getItems().setAll(links)` makes the table's rows the links as they are now. |
| `TaskNetworkApp.TaskNetwork.AddInitialTasks` | src/main/java/com/example/tasknetwork/TaskNetwork.java:138-144 | The `tasks.add` calls leave exactly the given titles, in order, as fresh tasks without observations. |
| `TaskNetworkApp.TaskNetwork.AddInitialLinks` | src/main/java/com/example/tasknetwork/TaskNetwork.java:146-147 | The `links.add` calls leave exactly the given (name, url) pairs, in order. |
| `TaskNetworkApp.TaskNetwork.AppendTask` | src/main/java/com/example/tasknetwork/TaskNetwork.java:113 | `tasks.add(new Task(title))` keeps the old tasks as a prefix and appends a fresh task with that title and no observations. |
| `TaskNetworkApp.TaskNetwork.AppendLink` | src/main/java/com/example/tasknetwork/TaskNetwork.java:181 | `links.add(new Link(name, url))` keeps the old links as a prefix and appends a fresh link with those fields. |
| `TaskNetworkApp.TaskNetwork.DrawTasksInCircle` | src/main/java/com/example/tasknetwork/TaskNetwork.java:246-276 | A redraw leaves exactly one fresh white icon per task, with icon `i` built for task `i`, plus every connecting line. Tasks, links and the panel are untouched. |
| `TaskNetworkApp.TaskNetwork.DrawConnections` | src/main/java/com/example/tasknetwork/TaskNetwork.java:278-293 | The lines become `Connections(|icons|)`. |
| `TaskNetworkApp.TaskNetwork.LinesOfDrawing` | src/main/java/com/example/tasknetwork/TaskNetwork.java:278-293 | In every valid state there are `|tasks|(|tasks|-1)/2` lines, one for each pair `i < j` of tasks. |
| `TaskNetworkApp.TaskNetwork.HandleTaskClick` | src/main/java/com/example/tasknetwork/TaskNetwork.java:295-303 | For an index in range, the panel shows task `k` and its observations. Past the end, `tasks.get` throws and the panel stays as it was. |
| `TaskNetworkApp.TaskNetwork.ClickIcon` | src/main/java/com/example/tasknetwork/TaskNetwork.java:264 | A click on icon `i` opens task `i`: the index the icon captured is its task's index. |
| `TaskNetworkApp.TaskNetwork.AddTask` | src/main/java/com/example/tasknetwork/TaskNetwork.java:110-117 | An empty trimmed title changes nothing. Otherwise a fresh task with the trimmed title and no observations is appended and the ring redrawn. Titles and observations gain exactly that entry; links and the panel are unchanged. |
| `TaskNetworkApp.TaskNetwork.RemoveLastTask` | src/main/java/com/example/tasknetwork/TaskNetwork.java:120-125 | On an empty list nothing changes. Otherwise exactly the last task goes and the prefix stays, followed by a redraw. A panel open on the removed task is left showing a task that is no longer listed. |
| `TaskNetworkApp.TaskNetwork.ResetHighlighting` | src/main/java/com/example/tasknetwork/TaskNetwork.java:241-244 | Every old circle turns white, then the redraw leaves only fresh white circles. Tasks, links and the panel are unchanged. |
| `TaskNetworkApp.TaskNetwork.HighlightMatches` | src/main/java/com/example/tasknetwork/TaskNetwork.java:213-220 | The flag ends true exactly when some observation of task `i` matches. Each match reopens the panel on task `i`; without a match the panel is untouched. |
| `TaskNetworkApp.TaskNetwork.PaintRed` | src/main/java/com/example/tasknetwork/TaskNetwork.java:223 | `icons.get(i).setFill(RED)` turns circle `i` red and leaves every other circle's colour alone. |
| `TaskNetworkApp.TaskNetwork.VisitTask` | src/main/java/com/example/tasknetwork/TaskNetwork.java:211-225 | One pass of the outer loop extends to task `i` the state "the matching tasks so far are red, the others white, and the panel is on the last match". |
| `TaskNetworkApp.TaskNetwork.PaintMatches` | src/main/java/com/example/tasknetwork/TaskNetwork.java:211-225 | Starting from white circles, the red circles are exactly `Highlighted(observations, query)`. The panel ends on the largest highlighted index, or is untouched when nothing matches. |
| `TaskNetworkApp.TaskNetwork.SearchObservations` | src/main/java/com/example/tasknetwork/TaskNetwork.java:208-226 | After the reset, the red circles are exactly the highlight set of the query. The panel is as in `PaintMatches`, and tasks and observations are unchanged. |
| `TaskNetworkApp.TaskNetwork.Search` | src/main/java/com/example/tasknetwork/TaskNetwork.java:128-135 | A non-empty trimmed query highlights task `i` exactly when one of its observations contains it, ignoring case. An empty one leaves every circle white. |
| `TaskNetworkApp.TaskNetwork.EditPanelTask` | src/main/java/com/example/tasknetwork/TaskNetwork.java:311-331 | The panel's task object gets the new observations and the panel reopens at its captured index. When that task is still listed, only its entry of the observations changes. When it is not, no listed task changes and the reopen shows whatever task now has that index, or throws. |
| `TaskNetworkApp.TaskNetwork.AddObservation` | src/main/java/com/example/tasknetwork/TaskNetwork.java:324-331 | An empty trimmed text changes nothing. Otherwise the text is appended to the panel's task and every other task is unchanged; the task list and the highlight stay as they were. |
| `TaskNetworkApp.TaskNetwork.RemoveObservation` | src/main/java/com/example/tasknetwork/TaskNetwork.java:311-314 | Row `j` is removed from the panel's task and the later rows move down; every other task is unchanged. An index past the end of the task's current list (possible only on a stale panel) throws, and nothing changes. |
| `TaskNetworkApp.TaskNetwork.AddLink` | src/main/java/com/example/tasknetwork/TaskNetwork.java:177-186 | A fresh link with the trimmed name and url is appended exactly when both are non-empty, and the table then lists all links. Otherwise the links and the table are unchanged. Only the links and the table can change. |
| `TaskNetworkApp.TaskNetwork.RemoveSelectedLink` | src/main/java/com/example/tasknetwork/TaskNetwork.java:189-196 | The selection is null or a row of the table. With no selection nothing changes. Otherwise exactly the selected link object goes, every other link stays, and the table then lists the remaining links. |
| `TaskNetworkApp.LinkTableEmptyAtStart` | src/main/java/com/example/tasknetwork/TaskNetwork.java:93 | Right after start-up `links` holds Google and GitHub, but the table has no row, so no link can be selected or removed until a link is added. |
| `TaskNetworkApp.LinkTableFilledAtStart` | src/main/java/com/example/tasknetwork/TaskNetwork.java:146-147 | With the corrected start-up, the table lists Google and GitHub. |
| `TaskNetworkApp.OpenAndRemoveLast` | src/main/java/com/example/tasknetwork/TaskNetwork.java:120-125 | After start-up, a click on the last circle and "Remover Última", six tasks remain. The panel still shows the removed task, at index 6. |
| `TaskNetworkApp.StalePanelAfterRemove` | src/main/java/com/example/tasknetwork/TaskNetwork.java:324-331 | In that state, adding " nota " stores "nota" in the removed task. No listed task changes, and the panel keeps its old rows because the reopen at index 6 throws. |

## Left out

- JavaFX layout, styling, `Scene`/`Stage`, the header and `main`/`launch` are out: they are UI plumbing with no state the handlers read back.
- The circular geometry is out: the centre, the radius and the `360.0 / tasks.size()` angle step are floating-point layout. Icons keep only their task index, caption and fill.
- The label restyling inside `highlightObservation` is out, because it scans UI nodes rather than model state. Only its `handleTaskClick(taskIndex)` is modelled.
- The `TableView` itself is out. Only its rows are kept (`tableRows`, set wherever `table.getItems().setAll(links)` runs). The selected row is a parameter of `RemoveSelectedLink`, which must be null or one of those rows.
- The clearing of the text fields after a successful add is out. Each handler takes the field's text as a parameter.
- `Link` keeps its name and url as plain strings. Its `StringProperty` getters and setters are never called to change a link, so they are left out.
- `Task.java` is not part of this model. `TaskNetwork` never uses it, because its nested `Task` shadows it.
- `Search.MatchesNeedsLength`: holds only because of the ASCII stand-in for lowering. Java's `toLowerCase()` can make a string longer ("İ", U+0130, becomes "i" followed by U+0307), so in the program a one-character observation can match a two-character query.
- `JavaStrings.Lower`: maps only the ASCII capitals A-Z. It does not follow `toLowerCase()`'s locale-dependent Unicode mapping, so accented capitals and other scripts are not lowered.
- Exceptions are modelled as "nothing changes": `tasks.get` past the end in `handleTaskClick`, and `observations.remove(j)` past the end on a stale panel. The model does not follow the exception any further.
- The seeding in `start()` is modelled as two loops, `AddInitialTasks` over the constant titles and `AddInitialLinks` over the constant links, instead of nine separate `add` calls.
- Mouse clicks are modelled as calls to `ClickIcon` and to the panel methods. The model does not capture their timing or order.

## Findings

| source | as written | input that shows it | evidently intended | confidence | as-written member | corrected member |
|---|---|---|---|---|---|---|
| src/main/java/com/example/tasknetwork/TaskNetwork.java:93 | `createLinkTable()` fills the table from `links` at line 201, but it is called at line 93, before Google and GitHub are added at lines 146-147; the table is next refilled only after a successful "Adicionar Link". | Start the program: the table shows no row while `links` holds two links, so neither can be selected and removed. | The table lists the two initial links from the start. | high; not executed | `TaskNetworkApp.LinkTableEmptyAtStart` | `TaskNetworkApp.LinkTableFilledAtStart` |
