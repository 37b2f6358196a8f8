# CRUDTableOperations, modelled in Dafny

CRUDTableOperations is a WPF desktop editor for SQL Server tables. Its main
page takes a server name and credentials, connects, lists the databases and
then a database's tables. Selecting a table opens a table window, at most one
per "{database}_{table}" key. A table window shows the table page by page, 15
rows per page. Up to three filter rows build a parameterised WHERE clause. New
records come from a form dialog, and a save gives eligible integer columns
increasing numbers before the changes go back. A separate car grid page
compares the grid against a snapshot taken at load time, validates the changed
cars, and issues delete, update and add commands.

This project models that core as pure Dafny functions and methods over
immutable data and proves properties about them. The database, the message
boxes and the WPF controls are not modelled. What they answer becomes an
input instead: row counts, DATA_TYPE lookups, MAX values, key and identity
sets, listings, confirmations, and whether a window could be constructed.

Modules, following the program's structure:

| module | file | what it holds |
|---|---|---|
| `Base` | base.dfy | `Option`, `Result` |
| `Text` | text.dfy | the .NET string operations used: white space, `Trim`, ordinal lower-casing, `Contains`, `Join`, `int.TryParse`, unchecked Int32 wrap-around |
| `Collections` | collections.dfy | order-preserving `Where` and `Count` |
| `Schema` | schema.dfy | `DataColumn`, boxed cell values, `DataRow`, `DataTable` |
| `Paging` | paging.dfy | page arithmetic and the two queries of one load |
| `TableFilter` | table_filter.dfy | `AddFilterCondition` and `BuildDatabaseFilterString` |
| `TableView` | table_view.dfy | a table window's page and filter state and its button handlers |
| `AutoIncrement` | auto_increment.dfy | the save-time numbering of eligible integer columns |
| `NewRecord` | new_record.dfy | `btnCreate_Click`: the form's column projection and the appended row |
| `RecordForm` | record_form.dfy | `RecordFormWindow`: controls, value extraction, save, cancel |
| `CarGrid` | car_grid.dfy | `DataGridViewModel`: snapshot, diff, validation, commands, filter |
| `Connection` | connection.dfy | the connection strings and the credential checks |
| `MainPage` | main_page.dfy | the connect/disconnect toggle, the selections, and the window registry |

## Model

| member | source | states |
|---|---|---|
| `Text.TrimBy` | CRUDTableOperations/Views/TableWindow.xaml.cs:509 | the trimmed text is the contiguous middle of the input. Everything cut off at either end is white space, and the result neither starts nor ends with white space |
| `Text.BlankIffTrimEmpty` | CRUDTableOperations/Views/TableWindow.xaml.cs:505-509 | a text is null-or-white-space exactly when trimming leaves nothing |
| `Text.ToLower` | CRUDTableOperations/Views/TableWindow.xaml.cs:522 | lower-casing keeps the length and maps each character on its own |
| `Text.ToLowerIdempotent` | CRUDTableOperations/Views/TableWindow.xaml.cs:522 | lower-casing twice is the same as once |
| `Text.Contains` | CRUDTableOperations/ViewModels/DataGridViewModel.cs:141 | the substring search answers true exactly when the needle occurs at some position of the text |
| `Text.ContainsIgnoreCase` | CRUDTableOperations/ViewModels/DataGridViewModel.cs:141 | the case-insensitive search is true exactly when the lower-cased needle occurs in the lower-cased text |
| `Text.JoinSnoc` | CRUDTableOperations/Views/TableWindow.xaml.cs:499 | joining one more part appends the separator and that part |
| `Text.JoinEmptyIff` | CRUDTableOperations/Views/TableWindow.xaml.cs:499 | a join of non-empty parts is empty exactly when there are no parts |
| `Text.Wrap32` | CRUDTableOperations/Views/TableWindow.xaml.cs:366 | the unchecked Int32 result is in range, equals the mathematical value when that fits, and differs from it by a multiple of 2^32 |
| `Text.Wrap32Add` | CRUDTableOperations/Views/TableWindow.xaml.cs:366 | wrapping after every increment is the same as wrapping once at the end |
| `Text.ParseInt32` | CRUDTableOperations/Views/TableWindow.xaml.cs:538 | `int.TryParse` succeeds only with a value inside Int32 |
| `Text.ParseFormatInt32` | CRUDTableOperations/ViewModels/DataGridViewModel.cs:151 | every Int32 value survives formatting followed by `int.TryParse` |
| `Text.ParseRejectsBeyondInt32` | CRUDTableOperations/Views/TableWindow.xaml.cs:534-543 | a digit string above Int32.MaxValue does not parse |
| `Collections.Where` | CRUDTableOperations/ViewModels/DataGridViewModel.cs:52-57 | the filtered list holds only elements of the input that meet the predicate, and every element that meets it |
| `Collections.WhereSubsequence` | CRUDTableOperations/ViewModels/DataGridViewModel.cs:136-160 | `Where` drops elements but never reorders or repeats them: its result is a subsequence of its input |
| `Collections.SubsequenceRejectsSwap` | CRUDTableOperations/ViewModels/DataGridViewModel.cs:136-160 | a subsequence keeps order: two distinct elements swapped are not a subsequence of the original pair |
| `Collections.WhereAppend` | CRUDTableOperations/ViewModels/DataGridViewModel.cs:136-160 | filtering keeps order: filtering a concatenation filters each part |
| `Collections.WhereNoneIff` | CRUDTableOperations/ViewModels/DataGridViewModel.cs:69-71 | a filter returns nothing exactly when no element meets the predicate |
| `Schema.WhereDistinctNames` | CRUDTableOperations/Views/TableWindow.xaml.cs:185-200 | dropping columns keeps column names distinct |
| `Paging.TotalPages` | CRUDTableOperations/Views/TableWindow.xaml.cs:145 | the page count is the fewest 15-row pages that hold every row |
| `Paging.OnPageIff` | CRUDTableOperations/Views/TableWindow.xaml.cs:110-116 | a row number lies in a page's BETWEEN range exactly when that page is the row's page |
| `Paging.PagesDisjoint` | CRUDTableOperations/Views/TableWindow.xaml.cs:110-116 | no row number lies on two pages |
| `Paging.PageSpan` | CRUDTableOperations/Views/TableWindow.xaml.cs:116 | each page spans exactly 15 row numbers, and the next page starts right after it |
| `Paging.PagesCoverRows` | CRUDTableOperations/Views/TableWindow.xaml.cs:145-158 | every existing row falls on a page the Next button can reach |
| `Paging.WherePart` | CRUDTableOperations/Views/TableWindow.xaml.cs:451-454 | the WHERE part is attached exactly when the clause is not blank, and then verbatim |
| `Paging.FilteredFetch` | CRUDTableOperations/Views/TableWindow.xaml.cs:450-472 | the count query and the page query carry the same WHERE, present exactly when the clause is not blank and then the clause verbatim, and the page query asks for the requested page's 15 rows |
| `Paging.PlainFetch` | CRUDTableOperations/Views/TableWindow.xaml.cs:102-116 | the unfiltered load has no WHERE in either query and asks for the requested page's 15 rows |
| `TableFilter.ParamName` | CRUDTableOperations/Views/TableWindow.xaml.cs:510 | parameter names start with "@param_" |
| `TableFilter.ParamNamesDistinct` | CRUDTableOperations/Views/TableWindow.xaml.cs:510 | different indices give different parameter names |
| `TableFilter.Condition` | CRUDTableOperations/Views/TableWindow.xaml.cs:530-566 | no condition the builder emits is blank |
| `TableFilter.AddFilterCondition` | CRUDTableOperations/Views/TableWindow.xaml.cs:503-572 | an active slot whose column the DATA_TYPE lookup does not know fails. A silent slot (inactive, or unparsable numeric or date text) changes nothing. Otherwise exactly one condition of the type's shape and one typed parameter "@param_n" are appended, n being the parameters so far |
| `TableFilter.AddAllParallel` | CRUDTableOperations/Views/TableWindow.xaml.cs:495-497 | across the three slots, conditions and parameters stay parallel: condition i was added with parameter "@param_i" |
| `TableFilter.BuildConditionsParallel` | CRUDTableOperations/Views/TableWindow.xaml.cs:490-501 | the builder's conditions and parameters are parallel from an empty start |
| `TableFilter.AddAllErrIff` | CRUDTableOperations/Views/TableWindow.xaml.cs:495-497 | building fails exactly when some active slot names a column unknown to the lookup |
| `TableFilter.AddAllAppend` | CRUDTableOperations/Views/TableWindow.xaml.cs:495-497 | processing slots in two batches equals processing them at once, and an error stops the rest |
| `TableFilter.SilentSlotIgnored` | CRUDTableOperations/Views/TableWindow.xaml.cs:505-506 | inserting a silent slot anywhere leaves the result unchanged, including the parameter numbering |
| `TableFilter.ConditionIgnoresText` | CRUDTableOperations/Views/TableWindow.xaml.cs:530-566 | the emitted condition depends on the column and the parameter index, never on the typed text, which travels only as a parameter |
| `TableFilter.WhereClauseOfBuilt` | CRUDTableOperations/Views/TableWindow.xaml.cs:499 | for the builder's conditions, dropping blank conditions changes nothing, and the clause is empty exactly when there are no conditions |
| `TableFilter.BuildDatabaseFilterString` | CRUDTableOperations/Views/TableWindow.xaml.cs:490-501 | fails exactly when an active slot names an unknown column. On success the clause is the slots' conditions joined with " AND " and the parameters are the ones added with them. The clause is empty exactly when there are no parameters, and parameter i is named "@param_i" |
| `TableFilter.BigintFilterUsesInt32` | CRUDTableOperations/Views/TableWindow.xaml.cs:534-543 | a bigint column filtered by a value above Int32.MaxValue is silently ignored, because the text is parsed as Int32 |
| `TableFilter.BigintIsInteger` | CRUDTableOperations/Views/TableWindow.xaml.cs:534-537 | "bigint" is handled as an integer type |
| `TableView.Open` | CRUDTableOperations/Views/TableWindow.xaml.cs:21-45 | a new window is on page 1 and loads rows 1 to 15 unfiltered, with no parameters, announced by the "Data Loaded" message |
| `TableView.NextPage` | CRUDTableOperations/Views/TableWindow.xaml.cs:155-163 | Next moves forward only while a later page exists. It then reloads exactly the next page of the same table, WITHOUT the filter, unannounced and with the new count; otherwise nothing changes |
| `TableView.PreviousPage` | CRUDTableOperations/Views/TableWindow.xaml.cs:165-172 | Previous moves back only from page 2 on. It then reloads exactly the previous page of the same table, unfiltered and unannounced, and never leaves page 1 or higher |
| `TableView.Refresh` | CRUDTableOperations/Views/TableWindow.xaml.cs:393-408 | Refresh returns to page 1 with every filter slot inactive and issues the unfiltered load of page 1, announced by the "Data Loaded" message |
| `TableView.ClearFilter` | CRUDTableOperations/Views/TableWindow.xaml.cs:597-608 | Clear Filter returns to page 1 with every slot inactive and issues the unfiltered load of page 1 without the "Data Loaded" message |
| `TableView.ApplyFilter` | CRUDTableOperations/Views/TableWindow.xaml.cs:422-488 | a filter change resets to page 1 and keeps the slots. It loads exactly when the clause could be built. Both queries then carry the built AND-joined clause as their WHERE, or none when it is blank, and bind the builder's parameters; on failure the row total is kept |
| `TableView.BlankBuiltClauseIsEmpty` | CRUDTableOperations/Views/TableWindow.xaml.cs:451 | a blank joined clause means no condition was built, so the IsNullOrWhiteSpace test never drops a real condition |
| `TableView.RunKeepsValid` | CRUDTableOperations/Views/TableWindow.xaml.cs:155-172 | no sequence of button clicks and filter edits takes the page number below 1 |
| `TableView.PagingStaysInRange` | CRUDTableOperations/Views/TableWindow.xaml.cs:155-172 | against a fixed row count, Next and Previous keep the page between 1 and the last page |
| `TableView.NextAfterFilterDropsWhere` | CRUDTableOperations/Views/TableWindow.xaml.cs:155-163 | after a filter that matched more than one page, Next loads its page of the UNFILTERED table |
| `AutoIncrement.EligibleColumns` | CRUDTableOperations/Views/TableWindow.xaml.cs:326-337 | a column is numbered exactly when it is Int16/Int32/Int64, not nullable, not identity, and not part of the primary key |
| `AutoIncrement.Seeds` | CRUDTableOperations/Views/TableWindow.xaml.cs:339-351 | every eligible column's counter starts at its MAX, or 0 for a null answer. The save fails exactly when some MAX does not fit Int32 |
| `AutoIncrement.FillRowFrame` | CRUDTableOperations/Views/TableWindow.xaml.cs:360-369 | numbering one row touches only the eligible columns' cells and counters |
| `AutoIncrement.FillRowSpec` | CRUDTableOperations/Views/TableWindow.xaml.cs:360-369 | in one row, each eligible cell that is DBNull, Int32 zero or empty text gets its counter's next Int32 value, and that counter advances by one. Other cells and counters stay |
| `AutoIncrement.FillRowsSpec` | CRUDTableOperations/Views/TableWindow.xaml.cs:356-371 | over all rows, each eligible column's k-th needing Added row gets seed + k, wrapped to Int32. Each counter ends at seed plus the number of needing rows, and nothing outside the eligible columns changes |
| `AutoIncrement.ResolveAutoIncrement` | CRUDTableOperations/Views/TableWindow.xaml.cs:322-371 | the save's numbering fails exactly when an eligible column's MAX overflows Int32. Otherwise columns, row count, row states and cell keys are kept, only needing cells of eligible columns change, and each eligible column is numbered from its MAX in row order |
| `AutoIncrement.NumbersIncrease` | CRUDTableOperations/Views/TableWindow.xaml.cs:356-371 | without overflow, the assigned numbers exceed the MAX and strictly increase in row order |
| `AutoIncrement.CounterWrapsAtMax` | CRUDTableOperations/Views/TableWindow.xaml.cs:366 | when the MAX is Int32.MaxValue, the first new row gets Int32.MinValue |
| `AutoIncrement.WideZeroKept` | CRUDTableOperations/Views/TableWindow.xaml.cs:363 | a boxed long or short zero is not taken as empty and keeps its 0 |
| `AutoIncrement.OnlyAddedRowsChange` | CRUDTableOperations/Views/TableWindow.xaml.cs:358 | rows that are not Added come out of the numbering unchanged |
| `NewRecord.FormColumns` | CRUDTableOperations/Views/TableWindow.xaml.cs:185-200 | the form's table holds exactly the current table's columns that are neither primary key nor RowNum |
| `NewRecord.FormColumnsKeepOrder` | CRUDTableOperations/Views/TableWindow.xaml.cs:185-200 | the projection keeps the table's column order |
| `NewRecord.FormColumnsDistinct` | CRUDTableOperations/Views/TableWindow.xaml.cs:185-200 | the projection keeps column names distinct |
| `NewRecord.NewRowFrom` | CRUDTableOperations/Views/TableWindow.xaml.cs:211-220 | the new row is Added and has a cell for exactly the table's columns |
| `NewRecord.CreateRecord` | CRUDTableOperations/Views/TableWindow.xaml.cs:175-231 | only a dialog result of true appends a row. The existing rows and the columns are kept, the new row is Added, and its key and RowNum cells are DBNull. Every other cell holds the form's value, and a well-formed table stays well formed |
| `NewRecord.CancelAddsNothing` | CRUDTableOperations/Views/TableWindow.xaml.cs:206 | a form closed with Cancel leaves the table exactly as it was |
| `NewRecord.SaveOutcomeDecides` | CRUDTableOperations/Views/TableWindow.xaml.cs:206-219 | an accepted save in the form appends exactly one row, and a rejected one appends nothing |
| `RecordForm.CreateInputControl` | CRUDTableOperations/Views/RecordFormWindow.xaml.cs:48-81 | Boolean columns get a check box and DateTime a date picker. Integer, decimal and double columns get a numeric text box, anything else a plain one, and every control starts empty |
| `RecordForm.CreateFormFields` | CRUDTableOperations/Views/RecordFormWindow.xaml.cs:24-46 | the form has a field, with its type's control, for every column that is not auto-increment and for no other |
| `RecordForm.FieldsUnique` | CRUDTableOperations/Views/RecordFormWindow.xaml.cs:43 | with distinct column names, no two fields edit the same column |
| `RecordForm.GetControlValue` | CRUDTableOperations/Views/RecordFormWindow.xaml.cs:125-151 | blank text gives no value. Numeric text gives its decimal or fails exactly when it does not parse, and plain text is kept as typed. A check box gives its state, and a date picker its date or nothing. Only numeric boxes can fail |
| `RecordForm.SaveButtonClick` | CRUDTableOperations/Views/RecordFormWindow.xaml.cs:83-123 | the save succeeds exactly when every field succeeds. The row then holds each field's value and DBNull in all other columns. A rejected save reports the error of the FIRST failing field |
| `RecordForm.DialogResultOf` | CRUDTableOperations/Views/RecordFormWindow.xaml.cs:115-116 | the dialog reports true exactly for an accepted save and never reports false from Save |
| `RecordForm.CancelButtonClick` | CRUDTableOperations/Views/RecordFormWindow.xaml.cs:153-157 | Cancel sets a dialog result (false) that no save outcome ever produces |
| `RecordForm.NumericGarbageBlocksSave` | CRUDTableOperations/Views/RecordFormWindow.xaml.cs:133-137 | one numeric box with unparsable text makes the whole save fail |
| `RecordForm.FreshFormOutcomes` | CRUDTableOperations/Views/RecordFormWindow.xaml.cs:83-151 | on an untouched form, a check-box field stores false. Any other field gives DBNull for a nullable column and "cannot be empty" for a required one |
| `CarGrid.NavigatedTo` | CRUDTableOperations/ViewModels/DataGridViewModel.cs:23-44 | after loading, grid and snapshot both show the loaded cars, but through disjoint objects (a deep copy) |
| `CarGrid.SameCarIsEquality` | CRUDTableOperations/ViewModels/DataGridViewModel.cs:170-176 | same id and equal properties means the same car value |
| `CarGrid.ChangedCars` | CRUDTableOperations/ViewModels/DataGridViewModel.cs:52-57 | a car counts as changed exactly when it is in the grid and no snapshot car has its id and properties |
| `CarGrid.DeletedCars` | CRUDTableOperations/ViewModels/DataGridViewModel.cs:69-71 | a snapshot car counts as deleted exactly when no grid car has its id |
| `CarGrid.ValidateCars` | CRUDTableOperations/ViewModels/DataGridViewModel.cs:178-194 | validation passes exactly when every car has a non-blank make and model, a positive year and a non-negative price |
| `CarGrid.Route` | CRUDTableOperations/ViewModels/DataGridViewModel.cs:106-118 | a changed car becomes an update when its id is in the snapshot and an add otherwise, carrying the car |
| `CarGrid.Save` | CRUDTableOperations/ViewModels/DataGridViewModel.cs:47-132 | an invalid changed car stops the save, and so does a declined deletion; both leave everything unchanged. Otherwise the deletes and then one update or add per changed car are issued, and the snapshot becomes the grid's references |
| `CarGrid.SavedCommandsAreChanges` | CRUDTableOperations/ViewModels/DataGridViewModel.cs:106-118 | every update or add a save issues carries a car that is in the grid and not in the snapshot |
| `CarGrid.RoutingIsExclusive` | CRUDTableOperations/ViewModels/DataGridViewModel.cs:109-117 | each changed car gets exactly one of update or add |
| `CarGrid.ShallowCopyHidesEdits` | CRUDTableOperations/ViewModels/DataGridViewModel.cs:121 | after a completed save, any in-place edit goes unnoticed: the next save issues nothing |
| `CarGrid.NothingAgainstItself` | CRUDTableOperations/ViewModels/DataGridViewModel.cs:52-71 | a list compared with itself has no changed and no deleted car |
| `CarGrid.DeepCopyShowsEdits` | CRUDTableOperations/ViewModels/DataGridViewModel.cs:31-38 | right after loading, an edit producing a new car value is reported as changed |
| `CarGrid.Filter` | CRUDTableOperations/ViewModels/DataGridViewModel.cs:134-168 | the grid then shows exactly the snapshot's cars meeting every active criterion, in snapshot order (a subsequence of it), as the snapshot's own objects |
| `CarGrid.FilterAliasesSnapshot` | CRUDTableOperations/ViewModels/DataGridViewModel.cs:136-167 | an edit made after filtering also changes the snapshot and is never reported |
| `CarGrid.FilterThenSaveDeletesHidden` | CRUDTableOperations/ViewModels/DataGridViewModel.cs:69-71 | after a filter, a save deletes exactly the snapshot cars the filter hid |
| `Connection.TableConnectionString` | CRUDTableOperations/Views/TableWindow.xaml.cs:129-141 | a table window refuses SQL authentication with an empty user or password. Otherwise it builds the server, database and credential string |
| `Connection.CheckCredentials` | CRUDTableOperations/Views/MainPage.xaml.cs:78-91 | the main page reports a missing user name before a missing password, and accepts Windows authentication as is |
| `Connection.ServerConnectionString` | CRUDTableOperations/Views/MainPage.xaml.cs:75-93 | the connect string fails exactly with the credential check's error, and otherwise names the server and the credentials |
| `Connection.DatabaseConnectionString` | CRUDTableOperations/Views/MainPage.xaml.cs:197-213 | the database string fails exactly with the credential check's error |
| `Connection.PageAndWindowAgree` | CRUDTableOperations/Views/TableWindow.xaml.cs:129-141 | the main page and a table window accept the same credentials and then build the same string |
| `Connection.PasswordCanInjectKeywords` | CRUDTableOperations/Views/TableWindow.xaml.cs:138 | the password is embedded unescaped, so for any keyword, the password "x;" followed by that keyword yields a SQL-authentication string holding that keyword as a segment of its own (e.g. "Integrated Security=True") |
| `MainPage.WindowKey` | CRUDTableOperations/Views/MainPage.xaml.cs:252 | the key is the database name, an underscore and the table name, in that order |
| `MainPage.ServerTextChanged` | CRUDTableOperations/Views/MainPage.xaml.cs:49-50 | Connect is enabled exactly when the server box is not empty, and nothing else changes |
| `MainPage.ConnectToServer` | CRUDTableOperations/Views/MainPage.xaml.cs:67-132 | an empty server name, missing credentials (user first) and a failed listing each leave the page unchanged. Only a listing that arrives connects, replacing the database list and clearing its selection |
| `MainPage.DisconnectFromServer` | CRUDTableOperations/Views/MainPage.xaml.cs:134-169 | only a Yes disconnects, and it closes every window and empties the lists and the selection. Server and credentials stay |
| `MainPage.ConnectButtonClick` | CRUDTableOperations/Views/MainPage.xaml.cs:53-65 | the button disconnects when connected and connects otherwise |
| `MainPage.DatabaseSelected` | CRUDTableOperations/Views/MainPage.xaml.cs:193-242 | missing credentials stop before the table list changes. Otherwise the list is cleared and refilled, and stays empty when the listing fails. The registry is never touched |
| `MainPage.TableSelected` | CRUDTableOperations/Views/MainPage.xaml.cs:245-288 | a table whose key is already registered opens nothing. Otherwise a constructed window is registered under its key, and nothing else changes |
| `MainPage.WindowClosed` | CRUDTableOperations/Views/MainPage.xaml.cs:277-280 | a closing window removes its key and leaves every other entry as it was |
| `MainPage.InitialValid` | CRUDTableOperations/Views/MainPage.xaml.cs:11-28 | the page as constructed (disconnected, Connect disabled, nothing listed, no windows) already satisfies the page invariant of `StepKeepsValid` |
| `MainPage.StepKeepsValid` | CRUDTableOperations/Views/MainPage.xaml.cs:49-288 | every event keeps all of these: Connect enabled exactly with a server name, windows under their own keys and only for listed databases, and a disconnected page holding no listing, selection or window |
| `MainPage.RunKeepsValid` | CRUDTableOperations/Views/MainPage.xaml.cs:49-288 | any sequence of events keeps the page valid |
| `MainPage.ConnectedOnlyAfterListing` | CRUDTableOperations/Views/MainPage.xaml.cs:95-125 | the page becomes connected only by a Connect click with a server name, complete credentials and an arrived listing, which becomes the database list |
| `MainPage.ConnectionLockedWhileConnected` | CRUDTableOperations/Views/MainPage.xaml.cs:119-124 | while the page stays connected, server, authentication choice and credentials cannot change |
| `MainPage.EmptyServerNeverReachesConnect` | CRUDTableOperations/Views/MainPage.xaml.cs:69-73 | on a valid page the Connect click never meets an empty server name, so that check is defensive only |
| `MainPage.ReselectOpensNothing` | CRUDTableOperations/Views/MainPage.xaml.cs:254-261 | selecting an open table again changes nothing |
| `MainPage.WindowKeyCollides` | CRUDTableOperations/Views/MainPage.xaml.cs:252-261 | database "a_b" with table "c" and database "a" with table "b_c" share one key, so the second cannot be opened while the first is open |

## Left out

- Every SQL statement is out of the model: COUNT, paged SELECT, DATA_TYPE, primary-key, identity, non-nullable and MAX lookups, and the listings. Their answers are inputs of the modelled operations.
- The connection strings are modelled, but opening connections is not.
- `adapter.Update`, `AcceptChanges` and `RejectChanges` (TableWindow.xaml.cs:373-378, 410-420) are left out, because they are ADO.NET and database behaviour. btnUpdate_Click and btnDelete_Click (234-264) only start a grid edit or call `Row.Delete()`, and are also left out.
- Status texts, message boxes other than whether a load is announced by "Data Loaded" (the `announce` flag of a load), visibility, colours and the button enabling inside a table window are left out. They are display only.
- `decimal.TryParse` and `DateTime.TryParse` are function parameters. Their culture-dependent grammars are not modelled. Decimals and doubles are both `real`.
- The `DataRow` setter's conversion of a form value into the column type (RecordFormWindow.xaml.cs:98) is a parameter. This includes an Int16 column refusing a value above 32767.
- `TableView.ApplyFilter`: the failure path is modelled only as "no load". The source has already replaced `CurrentDataTable` by an empty table (TableWindow.xaml.cs:442), while the grid keeps showing the old view.
- `TableView.NextPage`, `TableView.PreviousPage`: the model has every load succeed. In the source the page number is changed before `LoadPagedData` runs (TableWindow.xaml.cs:160-161, 169-170), so a failed load leaves the new page number with the old rows. Its exception is left to `OnDispatcherUnhandledException` (App.xaml.cs:101-105), which has an empty body.
- `TableView.Refresh`, `TableView.ClearFilter`: the TextChanged cascade is not modelled. Clearing the three text boxes re-enters ApplyFilter once per box, and the model treats each handler as one step. Refresh makes its announced load before it clears the boxes (TableWindow.xaml.cs:395-404), so the cascade's unannounced loads follow the "Data Loaded" message.
- `Text.ToLower`: it lower-cases only ASCII letters, because .NET's full Unicode case mapping is not modelled. `Text.ContainsIgnoreCase` inherits this.
- `Text.ParseInt32`: it accepts the white space of `NumberStyles.Integer`, a sign and ASCII digits. It does not model trailing NUL characters or the culture's sign symbols.
- `AutoIncrement.ResolveAutoIncrement`: column flags and values are taken as given. `Fill` without a schema leaves `AllowDBNull` true and `AutoIncrement` false.
- `NewRecord.FormColumns`: `DataTable.Columns.Contains` is case-insensitive (TableWindow.xaml.cs:189, 196), so a key column or "rownum" differing only in case is also removed by the source. The model compares names exactly.
- `AutoIncrement.ResolveAutoIncrement`: storing the Int32 counter into an Int16 column that cannot hold it throws in the source. The model stores the number as is.
- `NewRecord.CreateRecord`: `NewRow()` defaults (`DefaultValue`, `AutoIncrement` seeds) are taken as DBNull.
- `NewRecord.CreateRecord`: a constraint violation thrown by `Rows.Add` is not modelled.
- `CarGrid.Save`: exceptions thrown by the data service in the middle of the command sequence are not modelled. The model issues the whole command list.
- `CarGrid.Save`: a null Make or Model is modelled as the empty string.
- `CarGrid.Filter`: a null Make or Model (a row just added in the grid) is modelled as the empty string. With make or model filter text present, the source's `Contains` on such a car throws a NullReferenceException (DataGridViewModel.cs:141, 147), and the grid is left cleared or half filled. The model filters it like an empty text.
- `SaveNewCars` (DataGridViewModel.cs:196-203) is left out, because nothing calls it.
- `MainPage.DatabaseSelected`: a listing is modelled as arriving whole or not at all. A read that fails halfway through leaves a partial list in the source.
- `MainPage.ConnectToServer`: the same all-or-nothing listing applies.
- `ROW_NUMBER() OVER (ORDER BY (SELECT NULL))` gives no stable order, so which rows land on a page is not modelled. Only the row-number ranges are.
- `Math.Ceiling` over a double is modelled as exact integer ceiling division. The two agree for every Int32 count.
- The primary-key chooser window (PrimaryKeySelectionWIndow.cs) is out of scope, as are the application shell, navigation, the dependency-injection setup, the Employee service and the other pages.
- `UpdateConnectionStatus` (MainPage.xaml.cs:171-189) only restyles the button and the badge, so it is left out.
