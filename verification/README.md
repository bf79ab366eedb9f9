# Bitforce front-end booking rules in Dafny

Bitforce is a gym-booking web application. Its React front-end decides on its own whether a client may book or cancel a class. It also keeps the administrator's lists of classes, activities, branches, clients, bookings and credits in shape, and it guards its routes. This project models those rules as pure Dafny functions over immutable records and proves what they promise.

Conventions:

- Every timestamp is an integer number of milliseconds. The current time is a parameter `now`.
- Optional fields (`??`, `?.`) are `Option`s. Loosely typed form and API values are `Js.Value`.
- `Number(...)` yields `Js.Number`, an `Option<int>` whose `None` is NaN.
- Local-calendar helpers are function parameters: the day key of `ymdLocal`, `addDays`, date parsing and the day/month/year reading of a date.
- `localeCompare` is a comparator parameter. Sort results are stated for comparators that are total preorders.

Modules:

- `Wrappers` and `Domain` hold the shared records: slot, slot snapshot, booking and profile.
- `Text` models `trim`, white-space collapsing, `toLowerCase` and `includes`.
- `Js` models truthiness, `||`, `String`, `Number` on integer text and `padStart`.
- `Seqs` models `filter` and element replacement. `Sorting` is a stable insertion sort.
- There is one module per page or guard:
  - `ClientClases`, `ClientReservas` and `ClientCreditos`.
  - `AdminClases`, `AdminActividades`, `AdminSucursales`, `AdminClientes`, `AdminReservas` and `AdminCreditos`.
  - `Guards` and `FakeApi`.

Behaviour of the program that the model keeps as written:

- The two client pages test the cutoff differently. `pages/client/Clases.js` reads `cutoff_minutes ?? cutoff`. `pages/client/Reservas.js` reads only `cutoff`. `ClientReservas.CutoffVariantsDisagree` exhibits a slot on which they disagree.
- The client list hides a slot as soon as it starts (`inicio > now`). The administrator list drops a slot only once it has ended (`isPast`). `AdminClases.RunningClassShownOnlyToAdmin` exhibits a class that is under way and listed only for the administrator.
- The free-seat count is clamped at zero with `Math.max`.
- A disabled Cancel button on the bookings page is explained by its own title, not by an alert. `ClientReservas.CancelButton` states both titles.
- The administrator's class edit leaves out a capacity or cutoff that is numerically 0. `AdminClases.ZeroCapacityDropped` states this.

## Model

| member | source | states |
|---|---|---|
| ClientClases.BeforeCutoff | bitforce-frontend/src/pages/client/Clases.js:36-41 | booking and cancelling are open exactly while now < start − window minutes; the window is `cutoff_minutes`, then `cutoff`, then 0 |
| ClientClases.CutoffClosedStaysClosed | bitforce-frontend/src/pages/client/Clases.js:36-41 | once the cutoff has passed, it stays passed at every later time |
| ClientClases.OpenSlotNotStarted | bitforce-frontend/src/pages/client/Clases.js:36-44 | with a non-negative window, a slot open for booking has not started |
| ClientClases.Overlaps | bitforce-frontend/src/pages/client/Clases.js:47-48 | for non-empty half-open ranges, the test holds iff some instant lies in both; ranges that only touch never overlap |
| ClientClases.OverlapsSymmetric | bitforce-frontend/src/pages/client/Clases.js:47-48 | the overlap test is symmetric in its two ranges |
| ClientClases.TengoSolape | bitforce-frontend/src/pages/client/Clases.js:300-307 | an overlap is reported iff one of my bookings has a snapshot starting after now whose range, with default end start + (duracion ?? 60) min, overlaps the slot's range |
| ClientClases.PastBookingsIgnored | bitforce-frontend/src/pages/client/Clases.js:300-307 | adding a booking with no start, or one starting at or before now, never changes the overlap verdict |
| ClientClases.Disponibles | bitforce-frontend/src/pages/client/Clases.js:295-297 | free seats are never negative; they are positive iff occupancy is below capacity, and then occupancy plus free seats equals capacity |
| ClientClases.MyBookings | bitforce-frontend/src/pages/client/Clases.js:142-144 | keeps exactly the bookings whose `user_info.id ?? user` equals `me?.id ?? -1`, in order |
| ClientClases.BookedBySlot | bitforce-frontend/src/pages/client/Clases.js:85-92 | the map's keys are exactly the non-zero slot ids my bookings name; each maps to the id of the last booking naming it |
| ClientClases.Motivo | bitforce-frontend/src/pages/client/Clases.js:309-314 | no reason iff every check passes; otherwise the reason is the first failing check in the order booked, overlap, cutoff, credits, capacity |
| ClientClases.PuedeReservar | bitforce-frontend/src/pages/client/Clases.js:316-321 | booking is allowed iff not booked, no overlap, before the cutoff, credits > 0 and a free seat; this holds exactly when there is no disabling reason |
| ClientClases.ButtonFor | bitforce-frontend/src/pages/client/Clases.js:354-371 | a booked slot shows Cancel, enabled iff before the cutoff; other slots show Reserve, enabled iff booking is allowed, and a disabled one is titled with its non-empty reason |
| ClientClases.Cancelar | bitforce-frontend/src/pages/client/Clases.js:183-190 | nothing happens without a booking on the slot; past the cutoff only a warning; otherwise exactly the recorded booking, one of mine on that slot, is removed |
| ClientClases.CancelButtonMatchesAction | bitforce-frontend/src/pages/client/Clases.js:183-190 | the Cancel button is shown enabled iff pressing it removes a booking |
| ClientClases.VisibleSlots | bitforce-frontend/src/pages/client/Clases.js:131-138 | a slot is listed iff it was fetched, starts within the inclusive day bounds, matches the branch and activity filters when set, and starts strictly after now; the result is an ordered subsequence |
| ClientClases.ListedIffNotStarted | bitforce-frontend/src/pages/client/Clases.js:44 | a fetched slot within the day and the filters is listed iff it has not started by `isStarted`'s test |
| ClientClases.VisibleSlotsKeepOrder | bitforce-frontend/src/pages/client/Clases.js:118-138 | a fetch ordered by start stays ordered after filtering |
| ClientClases.GroupByDate | bitforce-frontend/src/pages/client/Clases.js:51-62 | one group per day that occurs, days strictly ascending, each group holding that day's rows sorted by start |
| ClientClases.GroupByDateGroups | bitforce-frontend/src/pages/client/Clases.js:53-60 | each group is non-empty, holds only rows of its day, is sorted by start, and holds every such row as often as it was fetched |
| ClientClases.GroupByDateRowPlaced | bitforce-frontend/src/pages/client/Clases.js:53-57 | every row appears in a group, and only under its own day |
| ClientClases.GroupsChronological | bitforce-frontend/src/pages/client/Clases.js:61 | when the day key follows the clock, every slot of an earlier group starts before every slot of a later one |
| AdminClases.IsPast | bitforce-frontend/src/pages/admin/Clases.js:38-41 | past iff end <= now, where the end is `fin`, else start + (duracion ?? 60) minutes |
| AdminClases.PastImpliesStarted | bitforce-frontend/src/pages/admin/Clases.js:38-41 | a class that does not end before it starts has started once it is past |
| AdminClases.RunningClassShownOnlyToAdmin | bitforce-frontend/src/pages/admin/Clases.js:38-41 | some class is not past although it has started, so the two lists disagree on it |
| AdminClases.LoadRows | bitforce-frontend/src/pages/admin/Clases.js:73-74 | the list holds exactly the fetched classes that are not past, with their multiplicities, sorted by start |
| AdminClases.LoadValidRows | bitforce-frontend/src/pages/admin/Clases.js:73-74 | loading a list that is already sorted and future-only returns it unchanged |
| AdminClases.AddCreated | bitforce-frontend/src/pages/admin/Clases.js:114-115 | a created class joins the list only if it is not past; the list stays sorted and otherwise unchanged |
| AdminClases.SaveEdit | bitforce-frontend/src/pages/admin/Clases.js:145-150 | the list is the replaced rows minus the past ones, each kept row as often as it occurs after the replacement, and it is sorted by start; the rows with the edited id become the server's copy and every other row that is not past stays |
| AdminClases.Delete | bitforce-frontend/src/pages/admin/Clases.js:169 | exactly the rows with that id go, every other row stays as often as it occurred, and the rest keep their order |
| AdminClases.RowsStayValid | bitforce-frontend/src/pages/admin/Clases.js:114-169 | create, edit and delete all keep the list sorted by start and free of past classes |
| AdminClases.OptionalField | bitforce-frontend/src/pages/admin/Clases.js:110-111 | an optional field is present iff its input is truthy, and then it carries `Number(input)` |
| AdminClases.OnCreate | bitforce-frontend/src/pages/admin/Clases.js:100-112 | refused iff a required input is empty or the start parses to a time at or before now; otherwise the payload carries the numeric ids, the start text and the optional fields only when they are filled in |
| AdminClases.FutureStartSubmits | bitforce-frontend/src/pages/admin/Clases.js:100-113 | a complete form whose start lies in the future is always sent |
| AdminClases.CreateAlert | bitforce-frontend/src/pages/admin/Clases.js:100-105 | an alert is shown exactly for a refused create |
| AdminClases.EditPayload | bitforce-frontend/src/pages/admin/Clases.js:137-143 | the edit keeps the row's activity and branch, sends the draft's start, and includes capacity and cutoff iff the draft value is truthy |
| AdminClases.ZeroCapacityDropped | bitforce-frontend/src/pages/admin/Clases.js:141 | a draft capacity of numeric 0 is left out of the request |
| ClientReservas.BeforeCutoff | bitforce-frontend/src/pages/client/Reservas.js:14-19 | open iff the snapshot has a start and now < start − (cutoff ?? 0) minutes; `cutoff_minutes` is ignored |
| ClientReservas.CutoffAgreesWithoutMinutes | bitforce-frontend/src/pages/client/Reservas.js:14-19 | without `cutoff_minutes`, this page's cutoff test agrees with the class page's |
| ClientReservas.CutoffVariantsDisagree | bitforce-frontend/src/pages/client/Reservas.js:14-19 | a slot with only `cutoff_minutes` is cancellable here while the class page already refuses |
| ClientReservas.Mine | bitforce-frontend/src/pages/client/Reservas.js:33-35 | keeps exactly the bookings whose `user_info.id ?? user` equals the profile id, in order |
| ClientReservas.OrdersAreTotalPreorders | bitforce-frontend/src/pages/client/Reservas.js:60-67 | both list orders are total preorders |
| ClientReservas.Split | bitforce-frontend/src/pages/client/Reservas.js:55-67 | every item lands in exactly one list (upcoming iff start >= now), the two lists together are a permutation of the items, upcoming is ascending and history descending |
| ClientReservas.FuturasAscending | bitforce-frontend/src/pages/client/Reservas.js:60-63 | in the upcoming list every item has a start, and starts never decrease |
| ClientReservas.PasadasDescending | bitforce-frontend/src/pages/client/Reservas.js:64-67 | in the history, every later item that has a start is preceded only by items with a start no earlier than it |
| ClientReservas.Cancel | bitforce-frontend/src/pages/client/Reservas.js:72-83 | refused iff this page's cutoff has passed; otherwise exactly the items with that id leave the list, every other item stays as often as it occurred, and the rest keep their order |
| ClientReservas.CancelAlert | bitforce-frontend/src/pages/client/Reservas.js:77-84 | the cutoff warning is shown iff the cancel was refused |
| ClientReservas.CancelButton | bitforce-frontend/src/pages/client/Reservas.js:127-154 | the button is enabled iff this page's cutoff is open; its title is "Cancelar" when enabled and "No se puede cancelar (cutoff)" exactly when disabled |
| ClientReservas.DisabledButtonMatchesAlert | bitforce-frontend/src/pages/client/Reservas.js:77-84 | the button is disabled exactly when pressing it would end in the cutoff warning |
| ClientReservas.CancelButtonMatchesCancel | bitforce-frontend/src/pages/client/Reservas.js:127-154 | the button is enabled iff cancelling removes the booking, and then it is in neither list |
| ClientReservas.CancellableIsUpcoming | bitforce-frontend/src/pages/client/Reservas.js:123-130 | with a non-negative cutoff, a cancellable item is in the upcoming list |
| ClientCreditos.PeriodOf | bitforce-frontend/src/pages/client/Creditos.js:26-33 | no period without an expiry date; otherwise it ends at the expiry and starts at the activation date, or 30 days before the expiry when there is none |
| ClientCreditos.InPeriod | bitforce-frontend/src/pages/client/Creditos.js:35-39 | false without a period; otherwise membership is inclusive at both ends |
| ClientCreditos.FallbackPeriodContainsExpiry | bitforce-frontend/src/pages/client/Creditos.js:29-31 | a fallback period that really moves back in time contains the expiry instant |
| ClientCreditos.Usados | bitforce-frontend/src/pages/client/Creditos.js:41-55 | zero without a (truthy) profile id or a period; never more than the bookings; positive only when some booking of mine has started by now inside the period |
| ClientCreditos.UsadosCounts | bitforce-frontend/src/pages/client/Creditos.js:48-53 | the count equals the number of bookings that used a credit, tallied one by one |
| ClientCreditos.UsadosGrowsWithTime | bitforce-frontend/src/pages/client/Creditos.js:47-53 | as time passes the used count never decreases |
| ClientCreditos.Clamp | bitforce-frontend/src/pages/client/Creditos.js:17 | the result lies in [lo, hi]; it is x when x is in range, lo below and hi above |
| ClientCreditos.Disponibles | bitforce-frontend/src/pages/client/Creditos.js:76 | the available balance lies in [0, 9999]; it is credits − used when that is in range, 0 when that is negative and 9999 when that is larger |
| ClientCreditos.Vencido | bitforce-frontend/src/pages/client/Creditos.js:77 | expired iff there is an expiry date strictly before now |
| ClientCreditos.ExpiredPeriodOver | bitforce-frontend/src/pages/client/Creditos.js:35-39 | for an expired profile, no instant from now on lies in its period |
| ClientCreditos.UsadosAfterLoadAsWritten | bitforce-frontend/src/pages/client/Creditos.js:58-73 | the load as written counts with the period of the profile shown before, so it reports zero when that profile had no period |
| ClientCreditos.FirstLoadCountsNothing | bitforce-frontend/src/pages/client/Creditos.js:58-73 | as written, the first load always reports zero credits used |
| ClientCreditos.StaleClosureExample | bitforce-frontend/src/pages/client/Creditos.js:58-73 | a concrete client with one finished class sees 0 used as written where 1 is meant |
| ClientCreditos.ReloadCountsAsIntended | bitforce-frontend/src/pages/client/Creditos.js:58-73 | reloading a profile already on screen counts as intended |
| ClientCreditos.UsadosAfterLoad | bitforce-frontend/src/pages/client/Creditos.js:41-55 | the intended count uses the period of the profile just fetched: the number of that user's used bookings, or 0 without an expiry date |
| ClientCreditos.Load | bitforce-frontend/src/pages/client/Creditos.js:58-77 | the summary shows the profile's credits, the intended used count, and the expiry flag; the balance is total − used when that lies in [0, 9999], 0 below and 9999 above |
| AdminActividades.ParseOrNull | bitforce-frontend/src/pages/admin/Actividades.js:49 | null iff the value is "", null or undefined; otherwise `Number(value)` |
| AdminActividades.BlankIsZeroNotNull | bitforce-frontend/src/pages/admin/Actividades.js:49 | a blank but non-empty input parses as 0, not as null |
| AdminActividades.BuildPayload | bitforce-frontend/src/pages/admin/Actividades.js:79-84 | the name is the trimmed text of the name input, with no white space at its ends, and it is empty iff the input is falsy or blank; the duration is `Number(input)` and each limit is parsed with `parseOrNull` |
| AdminActividades.Validate | bitforce-frontend/src/pages/admin/Actividades.js:51-72 | no error iff the name is non-blank, the duration is a number >= 1, the capacity is null or >= 1 and the cutoff is null or >= 0; otherwise the error is the first failing check in that order |
| AdminActividades.Submit | bitforce-frontend/src/pages/admin/Actividades.js:79-90 | the request goes out iff the payload validates, and then it has a non-empty trimmed name, a duration >= 1 and limits in range |
| AdminActividades.ResetFormLacksName | bitforce-frontend/src/pages/admin/Actividades.js:100-104 | the reset form is refused only for its missing name |
| AdminActividades.ResetFormWithName | bitforce-frontend/src/pages/admin/Actividades.js:100-104 | with any non-blank name, the reset values 60, 12 and 10 pass validation |
| AdminActividades.NameLeTotal | bitforce-frontend/src/pages/admin/Actividades.js:29-35 | a collation that is a total preorder orders activities by name as a total preorder |
| AdminActividades.LoadRows | bitforce-frontend/src/pages/admin/Actividades.js:29-35 | the loaded list is a permutation of the fetch, sorted by name |
| AdminActividades.AddCreated | bitforce-frontend/src/pages/admin/Actividades.js:93-99 | the created activity joins the list, which is a permutation sorted by name |
| AdminActividades.Update | bitforce-frontend/src/pages/admin/Actividades.js:144 | rows with the edited id become the server's copy; every other row stays in place |
| AdminActividades.UpdateKeepsOrderWhenNameKept | bitforce-frontend/src/pages/admin/Actividades.js:144 | an edit that keeps the name keeps the list sorted (it is not re-sorted) |
| AdminActividades.Remove | bitforce-frontend/src/pages/admin/Actividades.js:155 | exactly the rows with that id go, every other row stays as often as it occurred, and the rest keep their order |
| AdminActividades.RemoveKeepsOrder | bitforce-frontend/src/pages/admin/Actividades.js:155 | removing keeps the list sorted by name |
| AdminSucursales.BranchLeTotal | bitforce-frontend/src/pages/admin/Sucursales.js:48-52 | ordering by name, then by address between equal names, is a total preorder when the collation is |
| AdminSucursales.Ordenar | bitforce-frontend/src/pages/admin/Sucursales.js:46-54 | returns a permutation of its input, sorted by name then address |
| AdminSucursales.ClashTrim | bitforce-frontend/src/pages/admin/Sucursales.js:88-90 | checking the trimmed inputs finds the same clashes as checking the raw ones |
| AdminSucursales.Check | bitforce-frontend/src/pages/admin/Sucursales.js:80-94 | refused as empty iff a trimmed field is empty; as a duplicate iff both are non-blank and another row has both normalised keys; otherwise the trimmed, non-empty values are sent |
| AdminSucursales.Create | bitforce-frontend/src/pages/admin/Sucursales.js:87-94 | a create is a duplicate iff some row has the same normalised name and address |
| AdminSucursales.Save | bitforce-frontend/src/pages/admin/Sucursales.js:138-148 | an edit is a duplicate iff some other row (different id) has the same normalised name and address |
| AdminSucursales.CheckSeesOnlyKeys | bitforce-frontend/src/pages/admin/Sucursales.js:88-90 | inputs that differ only in case or spacing get the same verdict |
| AdminSucursales.SaveIgnoresItself | bitforce-frontend/src/pages/admin/Sucursales.js:139-144 | saving a row with its own values is never a duplicate of itself |
| AdminSucursales.CreateTwiceIsDuplicate | bitforce-frontend/src/pages/admin/Sucursales.js:88-99 | after a create is added, the same input is refused as a duplicate |
| AdminSucursales.AddCreated | bitforce-frontend/src/pages/admin/Sucursales.js:99 | the created branch joins the list, which is re-sorted |
| AdminSucursales.AfterSave | bitforce-frontend/src/pages/admin/Sucursales.js:153 | rows with the edited id become the server's copy, no other row changes, and the list is re-sorted |
| AdminSucursales.Delete | bitforce-frontend/src/pages/admin/Sucursales.js:180 | exactly the rows with the confirmed id go, every other row stays as often as it occurred, and the rest keep their order |
| AdminClientes.Needle | bitforce-frontend/src/pages/admin/Clientes.js:44 | the needle is empty iff the query is blank |
| AdminClientes.Filtered | bitforce-frontend/src/pages/admin/Clientes.js:43-60 | a row is listed iff it passes the text filter and the status filter; the result is an ordered subsequence |
| AdminClientes.BlankQueryKeepsAll | bitforce-frontend/src/pages/admin/Clientes.js:44-48 | a blank query with status "all" lists every row |
| AdminClientes.SearchIgnoresCase | bitforce-frontend/src/pages/admin/Clientes.js:44-50 | a query and its lower-cased form list the same rows |
| AdminClientes.UsernameFound | bitforce-frontend/src/pages/admin/Clientes.js:47-50 | a username containing the needle, ignoring case, passes the text filter |
| AdminClientes.UnknownStatusKeepsNone | bitforce-frontend/src/pages/admin/Clientes.js:53-56 | a status other than "all", "active" and "inactive" lists nothing |
| AdminClientes.StatusesPartition | bitforce-frontend/src/pages/admin/Clientes.js:53-56 | "active" and "inactive" together list exactly what "all" lists |
| AdminClientes.ToggleRequest | bitforce-frontend/src/pages/admin/Clientes.js:64 | the toggle asks for the opposite of the current state |
| AdminClientes.ToggleTwice | bitforce-frontend/src/pages/admin/Clientes.js:64 | toggling a toggled client asks for the original state back |
| AdminClientes.EditRequest | bitforce-frontend/src/pages/admin/Clientes.js:85-92 | nothing is sent for id 0; otherwise the trimmed username and email are sent, a missing one as "" |
| AdminReservas.Uid | bitforce-frontend/src/pages/admin/Reservas.js:41 | the user is the first truthy of `user_id`, `user`, else `user_username` |
| AdminReservas.Sid | bitforce-frontend/src/pages/admin/Reservas.js:42 | the class is the first truthy of `slot`, `slot_id`, else `clase_id` |
| AdminReservas.RowsFiltered | bitforce-frontend/src/pages/admin/Reservas.js:39-47 | a row is listed iff it passes both filters; the result is an ordered subsequence |
| AdminReservas.NoFilterKeepsAll | bitforce-frontend/src/pages/admin/Reservas.js:43-44 | with neither filter chosen every row is listed |
| AdminReservas.FiltersCompose | bitforce-frontend/src/pages/admin/Reservas.js:43-45 | applying the two filters one after the other equals applying them together |
| AdminReservas.NumericUserIdMatches | bitforce-frontend/src/pages/admin/Reservas.js:41-43 | a row whose `user_id` is the chosen client's number passes the client filter |
| AdminReservas.CrearManual | bitforce-frontend/src/pages/admin/Reservas.js:49-52 | nothing is sent iff a client or a class is missing; otherwise both go out as `Number(...)` |
| AdminReservas.ChosenIdsRoundTrip | bitforce-frontend/src/pages/admin/Reservas.js:52 | the ids picked from the lists are sent back unchanged |
| AdminCreditos.Asignar | bitforce-frontend/src/pages/admin/Creditos.js:48-53 | refused iff the credits are NaN or <= 0; otherwise they go out with the typed days, or 30 when that input is empty or missing |
| AdminCreditos.SetEntry | bitforce-frontend/src/pages/admin/Creditos.js:78-82 | only the given client's entry changes |
| AdminCreditos.Clear | bitforce-frontend/src/pages/admin/Creditos.js:58 | only the given client's credit input is emptied |
| AdminCreditos.ClearedInputRefused | bitforce-frontend/src/pages/admin/Creditos.js:52-58 | right after a clear, assigning to that client is refused, and every other client's assignment is as before |
| AdminCreditos.TypedCreditsAssigned | bitforce-frontend/src/pages/admin/Creditos.js:49-53 | a typed positive whole number is assigned as typed |
| AdminCreditos.FmtDDMMYYYY | bitforce-frontend/src/pages/admin/Creditos.js:5-15 | "—" iff the value is missing or empty; otherwise the padded day, month (from 1) and year joined by "/" |
| AdminCreditos.FmtReadsBack | bitforce-frontend/src/pages/admin/Creditos.js:9-11 | for a calendar date, the three fields sit at fixed places and read back as the day, the month and the year |
| Guards.RoleKey | bitforce-frontend/src/routes/RoleRoute.js:22 | a falsy role gives the empty key; a text role gives its lower-cased form |
| Guards.HomeOf | bitforce-frontend/src/routes/RoleRoute.js:27 | the target is the admin panel iff the role is "admin", else the client panel |
| Guards.RoleRoute | bitforce-frontend/src/routes/RoleRoute.js:10-32 | loading iff not ready, no user or undefined role; then login iff not authenticated; content iff the allow list is empty or holds the role; any other redirect sends a disallowed role to its own panel |
| Guards.EmptyAllowAdmitsAll | bitforce-frontend/src/routes/RoleRoute.js:26-32 | an empty allow list admits every authenticated user with a known role |
| Guards.RoleRouteIgnoresCase | bitforce-frontend/src/routes/RoleRoute.js:22-26 | lower-casing the role or the allow list never changes the decision |
| Guards.AdminRedirectAdmitted | bitforce-frontend/src/routes/RoleRoute.js:26-29 | an administrator redirected to the admin panel is admitted by a route that allows "admin" |
| Guards.ProtectedRoute | bitforce-frontend/src/routes/ProtectedRoute.js:8-10 | nothing iff not ready; login iff ready and not authenticated; content iff ready and authenticated |
| Guards.ClienteLayout | bitforce-frontend/src/layouts/ClienteAppLayout.js:7-13 | nothing iff not ready; login iff there is no user; home iff the lower-cased role is not "limmerchant"; the client area otherwise |
| Guards.LayoutAgreesWithRoleRoute | bitforce-frontend/src/layouts/ClienteAppLayout.js:10-11 | for an authenticated user with a known role, the layout admits exactly whom a route allowing only "limmerchant" admits |
| Guards.ProtectedAgreesWithRoleRoute | bitforce-frontend/src/routes/ProtectedRoute.js:8-10 | for a user with a known role, `ProtectedRoute` shows the content, and sends to the login page, exactly when `RoleRoute` with an empty allow list does; it shows nothing exactly when `RoleRoute` shows its loading notice |
| FakeApi.Find | bitforce-frontend/src/utils/FakeApi.js:11 | none iff no account has the username; otherwise the first account with it |
| FakeApi.FakeLogin | bitforce-frontend/src/utils/FakeApi.js:9-20 | success iff the found account has exactly that password, and then the user is the account without its password; failure carries the fixed error |
| FakeApi.LoginIffListed | bitforce-frontend/src/utils/FakeApi.js:2-15 | a login succeeds iff the pair is in the table |
| FakeApi.KnownAccounts | bitforce-frontend/src/utils/FakeApi.js:2-19 | both listed accounts sign in with their roles; a swapped password fails |
| Domain.SortByStart | bitforce-frontend/src/pages/admin/Clases.js:74 | the result is a permutation of the rows, sorted by start |
| Domain.StartLeTotalPreorder | bitforce-frontend/src/pages/admin/Clases.js:74 | comparing by start is a total preorder |
| Text.LowerChar | bitforce-frontend/src/pages/admin/Sucursales.js:56 | an upper-case letter becomes the letter 32 code points on, its lower-case form; any other character is kept; the result is never upper-case and white space stays white space |
| Text.Lower | bitforce-frontend/src/pages/admin/Sucursales.js:56 | lower-cases character by character, keeping the length |
| Text.LowerIdempotent | bitforce-frontend/src/routes/RoleRoute.js:22-23 | lower-casing twice is lower-casing once |
| Text.Trim | bitforce-frontend/src/pages/admin/Sucursales.js:80-81 | the result is a slice of the input with only white space cut from either side, and no white space is left at its ends; it is empty iff the input is blank; an input without white space at its ends is unchanged |
| Text.TrimIdempotent | bitforce-frontend/src/pages/admin/Actividades.js:52 | trimming twice is trimming once |
| Text.TrimLower | bitforce-frontend/src/pages/admin/Clientes.js:44 | trimming and lower-casing commute |
| Text.Collapse | bitforce-frontend/src/pages/admin/Sucursales.js:56 | never longer, and empty iff the input is |
| Text.CollapseKeepsHead | bitforce-frontend/src/pages/admin/Sucursales.js:56 | a leading character that is not white space stays the first character |
| Text.CollapseFixed | bitforce-frontend/src/pages/admin/Sucursales.js:56 | text whose only white space is isolated single spaces is unchanged |
| Text.CollapseWord | bitforce-frontend/src/pages/admin/Sucursales.js:56 | text without white space is unchanged |
| Text.CollapseAppend | bitforce-frontend/src/pages/admin/Sucursales.js:56 | collapsing two pieces joined where the first ends in a non-space character is collapsing each piece |
| Text.CollapseJoin | bitforce-frontend/src/pages/admin/Sucursales.js:56 | a run of white space between two pieces becomes exactly one space, and each piece is collapsed on its own |
| Text.Norm | bitforce-frontend/src/pages/admin/Sucursales.js:56 | the key is empty iff the input is blank |
| Text.NormWord | bitforce-frontend/src/pages/admin/Sucursales.js:56 | the key of a word without white space is its lower-cased form |
| Text.NormJoin | bitforce-frontend/src/pages/admin/Sucursales.js:56 | the key of two trimmed words separated by any run of white space is their keys joined by one space |
| Text.NormIsNormal | bitforce-frontend/src/pages/admin/Sucursales.js:56 | every key has no white space at its ends, only single ' ' separators and nothing upper-case |
| Text.NormFixed | bitforce-frontend/src/pages/admin/Sucursales.js:56 | a normalised string is its own key |
| Text.NormIdempotent | bitforce-frontend/src/pages/admin/Sucursales.js:56 | normalising twice is normalising once |
| Text.NormTrim | bitforce-frontend/src/pages/admin/Sucursales.js:88-90 | trimming before normalising does not change the key |
| Text.Includes | bitforce-frontend/src/pages/admin/Clientes.js:49-50 | holds iff the needle occurs at some index of the text |
| Js.Or | bitforce-frontend/src/pages/admin/Reservas.js:41 | the first operand when it is truthy, otherwise the second |
| Js.NatToString | bitforce-frontend/src/pages/admin/Creditos.js:9-11 | a non-empty digit string without a leading zero whose value is the number; one digit iff below 10 |
| Js.IntToString | bitforce-frontend/src/pages/admin/Creditos.js:9-11 | the digits of the magnitude, preceded by "-" for a negative number |
| Js.NumberOf | bitforce-frontend/src/pages/admin/Clases.js:107-108 | after trimming, empty text is 0, a digit string is its decimal value, a sign followed by digits is the signed value, and every other text is NaN |
| Js.NumberOfIntToString | bitforce-frontend/src/pages/admin/Reservas.js:52 | `Number(String(n))` is n for every integer |
| Js.ToNumber | bitforce-frontend/src/pages/admin/Actividades.js:81 | undefined is NaN, null is 0, a number is itself |
| Js.ToStr | bitforce-frontend/src/pages/admin/Reservas.js:43-44 | undefined prints as "undefined", null as "null", text as itself, and a printed number reads back as that number |
| Js.Pad | bitforce-frontend/src/pages/admin/Clases.js:29 | at least two characters: `String(n)` preceded only by zeros, exactly two when `String(n)` is shorter; a natural number reads back |
| Seqs.Filter | bitforce-frontend/src/pages/admin/Clases.js:169 | keeps exactly the elements satisfying the predicate, with their multiplicities and order |
| Seqs.FilterAll | bitforce-frontend/src/pages/admin/Reservas.js:43-44 | filtering by a predicate every element meets changes nothing |
| Seqs.FilterNone | bitforce-frontend/src/pages/admin/Clientes.js:53-56 | filtering by a predicate no element meets leaves nothing |
| Seqs.FilterFilter | bitforce-frontend/src/pages/client/Clases.js:53-56 | a first filter implied by the second is redundant |
| Seqs.FilterAnd | bitforce-frontend/src/pages/admin/Reservas.js:45 | filtering twice equals filtering once by the conjunction |
| Seqs.FilterCongruent | bitforce-frontend/src/pages/admin/Clientes.js:45 | predicates that agree on the elements filter identically |
| Seqs.FilterMonotone | bitforce-frontend/src/pages/client/Creditos.js:48-53 | a weaker predicate keeps at least as many elements |
| Seqs.FilterCount | bitforce-frontend/src/pages/client/Creditos.js:48-53 | the length of a filter is the one-by-one count of matching elements |
| Seqs.ReplaceWhere | bitforce-frontend/src/pages/admin/Actividades.js:144 | same length; each matching element becomes the new value and the others stay |
| Seqs.SubsequencePairs | bitforce-frontend/src/pages/admin/Actividades.js:155 | a subsequence keeps every ordered relation of the original |
| Sorting.Sort | bitforce-frontend/src/pages/admin/Sucursales.js:48-52 | a permutation of the input, sorted whenever the comparator is a total preorder |
| Sorting.SortSameElements | bitforce-frontend/src/pages/admin/Sucursales.js:48-52 | the sorted list has exactly the input's elements |
| Sorting.SortSorted | bitforce-frontend/src/pages/admin/Clases.js:74 | sorting an already sorted list returns it unchanged |
| Sorting.InsertSorted | bitforce-frontend/src/pages/admin/Sucursales.js:48-52 | inserting into a sorted list keeps it sorted |

## Left out

- Network calls, `async` sequencing, loading flags, `console.error`, and alerts that only report a failed request. Each operation is modelled up to the request it would send, and the page's own list update is modelled on the server's reply.
- The 60-second auto-refresh of the client class list and the `setTimeout` that hides alerts. These are timer behaviour.
- Date parsing, time zones and `Intl` formatting. `ymdLocal`, `dayBoundsLocal`, `addDays`, `new Date(text)` and the day/month/year reading of a date are parameters. The display helpers `ddmmyyyy`, `hhmm`, `weekdayLong` and `fmtFechaHora` are not modelled.
- Js.NumberOf: only optionally signed decimal integers with surrounding white space are read. Fractions, exponents (so "1e3" is NaN, not 1000), hexadecimal and `Infinity` read as NaN, because the model has no floating point.
- AdminCreditos.Asignar: a typed fraction such as "1.5" reads as NaN, so the model refuses it with `InvalidCredits`. The numeric inputs' `min` and `step` are only hints, because the page has no `<form>` and no constraint validation runs, so the source reads 1.5 and sends 1.5 credits.
- AdminActividades.Validate: a fractional duration such as "1.5" reads as NaN, so the model reports `BadDuration`. The source reads 1.5, which is finite and at least 1, and accepts it. Fractional limits are refused the same way in the model, where the source accepts them.
- ClientReservas.HistoryLe: the history order places bookings without a start last. In the source the comparator reads `slot_info.inicio` without `?.`, so a booking without a snapshot throws a `TypeError`; a missing `inicio` gives NaN and the engine's sort then decides the order; the history render reads `s.inicio` and throws as well. The model chooses a total order instead.
- ClientReservas.PasadasDescending: states the descending order among items that have a start, and places items without a start after all of them. That placement is the order HistoryLe chooses (line above), not the source's: where the source throws or leaves the order to the engine, the model still sorts.
- Text.LowerChar: lower-cases ASCII and Latin-1 letters only. Other scripts are left as they are.
- `localeCompare` collation is a comparator parameter. Sorting.Sort: stability is not stated in its contract, and sortedness is stated only for comparators that are total preorders.
- The administrator's "suggest defaults" effect (`pages/admin/Clases.js:84-91`). It is a form prefill that decides nothing.
- The `toISOString` split in `startEdit` (`pages/admin/Clases.js:124-133`). It fills the draft's date and time in UTC, while `saveEdit` (`pages/admin/Clases.js:140`) sends `${fecha}T${hora}:00` with no zone, so an edit saved with the time untouched may send a start shifted by the UTC offset. The model has no time zones and does not represent this; `AdminClases.EditPayload` takes the draft's start text as given.
- The edit-draft prefill of activities (`pages/admin/Actividades.js:114-122`). `AdminActividades.Inputs` takes any loosely typed values in its place.
- AdminCreditos.Asignar: the days value is sent without a check, as in the source, so NaN or negative days go out unchanged.
- AdminCreditos.FmtDDMMYYYY: the `catch` branch returning the input is not modelled. `new Date` on text never throws, so the branch cannot run.
- The login, register, profile and home pages, the authentication context and the API client. They are I/O and rendering. The 400 ms delay in `fakeLogin` is left out as well.
- ClientCreditos.UsadosAfterLoadAsWritten: models the stale period only for the load started by the first render, through the `prevMe` parameter. It does not model later renders of React.

## Findings

| source | as written | input that shows it | evidently intended | confidence | as-written member | corrected member |
|---|---|---|---|---|---|---|
| bitforce-frontend/src/pages/client/Creditos.js:58-73 | `cargar` stores the fetched profile with `setMe(yo)` and then calls `contarUsados(yo)`. `contarUsados` reads `periodo` from the render that created `cargar`. On the first load that is the mount render, where `me` is null and so `periodo` is null. The page therefore reports 0 credits used. | First load with profile id 7, 10 credits, activation 0 and expiry 1000. One own booking starts at 500, and `now` is 600. As written: 0 used, 10 available. | The count uses the period of the profile just fetched: 1 used, 9 available. | not executed; high: the mount effect runs `cargar` once, with the closure of the first render | ClientCreditos.UsadosAfterLoadAsWritten | ClientCreditos.UsadosAfterLoad |
