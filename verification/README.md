# FleetControl verified models

Dafny models of the parts of FleetControl whose correctness spans several calls, with proofs over every
input, every interleaving or every run. `dafny verify dfyconfig.toml` checks the whole project.

| area | files |
|---|---|
| satellites: SQL statements, service calls, interleavings, guarantees, `fleetctl satellite delete` | `satellite_table.dfy`, `satellite_calls.dfy`, `satellite_service.dfy`, `satellite_protocol.dfy`, `satellite_guarantees.dfy`, `fleetctl_delete.dfy` |
| fleetctl configuration file: UTF-8, strings, quoting, line scanner, load, save, login | `utf8.dfy`, `gostrings.dfy`, `strconv.dfy`, `line_scanner.dfy`, `config.dfy` |
| Satellite reconciler against a versioned API server | `api_server.dfy`, `reconcile_loop.dfy` |
| human identity: principals, tokens, users, login, middlewares, runs of all of them | `principal.dfy`, `jwt.dfy`, `users.dfy`, `auth_runs.dfy` |
| deep copy of Satellite lists on the heap | `deepcopy.dfy` |
| `UncommentCode` | `uncomment.dfy` (with `line_scanner.dfy`) |

## How the system is modelled

**Satellites.** The table is a map from id to row. Every SQL statement is one atomic step (`Exec`). A call of
`satellite.Service` is a program counter; any number of calls interleave statement by statement with time
passing. `Atomic` says separately what a whole call means when it runs alone, and the history of a run is a
list of atomic calls. Runs start from an arbitrary well-formed table with rows of any owner. The same
statements are executed in place by the classes `PostgresRepository` and `Service`, where the statements of
other connections between the check and the write are a parameter.

**Configuration.** Byte strings throughout. `Quote`, `Unquote`, `TrimSpace`, UTF-8 decoding and the scanner
are written out as Go's library does them, including bad UTF-8, the single-quote and back-quote forms, and
the shortcut of `Unquote`. Printability above U+00FF is an arbitrary function. The scanner's buffer is 65536
bytes and must hold a line with its newline.

**Reconciler.** Resource versions come from one counter. The cache may hold any past state of an object. A
watch event updates the cache and queues the name; an error queues the name again. Any number of workers run.
The steps of a run and the method `Reconcile` are tied together by `ReconcileInWorld`.

**Tokens.** Instants are nanoseconds since Go's zero time; claims keep whole seconds. Strings in claims go
through JSON, which replaces bad UTF-8. A `Manager` is what its constructor can make, no more. A login is
two steps (read the row, issue the token) and so is a gated request (pass the gate, act), with anything in
between; a request to the other routes is one step and is served for either role. `LoginInRun` and `ActInRun` tie these
steps to the methods of `LoginHandler` and `UserService`.

**Deep copy.** Structs are values that hold references into the heap. What a list says, without addresses, is
a `ListView`; a write through a pointer is an `Edit`, whose meaning on views is `EditList`.

**Assumptions.** Statements are atomic; a statement that fails changes nothing; a generated id was never used
before; PostgreSQL's clock and the process clock do not run backwards; a MAC tag under the server's key is
one the server made; bcrypt accepts what it hashed (stated as `Sound`, needed for one theorem only); ids in
URLs are well formed.

## Where code and documentation differ

- The documents promise that manual routes reject changes to operator-owned rows. The code exempts every
  call whose `fromOperator` flag is set, and the flag comes from a request header (the API design document
  lists this as a known gap). `OwnershipHoldsExactly` says when the promise holds: if and only if no call that
  clients may make claims to be the operator's, short of an update to the region the row already has.
  `OperatorRowsAreSafe` is the one half, and `HarmfulCallHarms` gives the run that breaks it otherwise.
- `UncommentCode` promises to remove the prefix. It also drops the target's final newline, carriage returns
  at line ends, and everything from the first line of 65536 bytes or more. `UncommentingRestoresLines` and
  `UncommentingRestoresFile` give the exact condition under which lines come back, and `FinalNewlineIsLost`
  says that a target with a newline at its end never comes back whole.
- A login that spends long in bcrypt may issue a token for a row that was deleted meanwhile. `StaleLogin` is
  such a run, possible wherever an admin can log in (`StaleLoginHappens` is one from a table with one row), and
  `IssuedMeansStored` says exactly when the user of an issued token is still stored.
- Issuer and audience are configured as any bytes, but JSON replaces bad UTF-8. A manager whose names have bad
  bytes rejects its own tokens (`ParseOfGenerate`), and another manager that has the replacement characters in
  its configuration accepts them (`BadNamesMayMeet`).
- `Login` has an error branch for a token that cannot be generated; for the rows the service can store it is
  never taken (`LoginHandler.Login`).

## Model

| member | source | states |
|---|---|---|
| SatelliteTable.HappenAllEvolves | api/internal/satellite/repository.go:28-127 | whatever statements run, the clock and the used ids only grow, and a stored row keeps name, owner and creation time and never reappears once gone |
| SatelliteTable.UpdateAndHeartbeatCommute | api/internal/satellite/repository.go:84-127 | a region update and a heartbeat on any two ids leave the same database in either order |
| SatelliteCalls.AdvanceIsAtomicOrSilent | api/internal/satellite/service.go:34-60 | each statement of a call changes nothing and reaches the guarded point, or answers and does exactly what the whole call does atomically at that moment, also when the row vanished after the check |
| SatelliteCalls.CreatedRowsAreEditable | api/internal/satellite/service.go:20-60 | a satellite that was just created can be updated and then deleted by a caller who is not the operator |
| SatelliteService.PostgresRepository.Query | api/internal/satellite/repository.go:28-42 | the (out, err) pair and the new table are those of the statement: a fresh struct with each of the stored row's columns under its own name, nil for no rows, an error without effect |
| SatelliteService.PostgresRepository.Delete | api/internal/satellite/repository.go:103-107 | unless it fails the row of that id is gone, whether or not there was one, every other row is as it was, and no id becomes free; if it fails nothing changes |
| SatelliteService.Service.Create | api/internal/satellite/service.go:20-24 | overwrites status and owner of the caller's struct, succeeds exactly if id and name are free and the statement works, and then returns the name and region given, Pending, manual, never seen, created now |
| SatelliteService.Service.GetByID | api/internal/satellite/service.go:26-28 | a struct exactly if the row is stored, with each column under its own name |
| SatelliteService.Service.Update | api/internal/satellite/service.go:34-46 | with any statements of others between check and write, outcome and table are those of the atomic call, at the check for early returns and at the write otherwise; a returned struct has the row's columns, the new region, and an owner the caller may edit |
| SatelliteService.Service.Delete | api/internal/satellite/service.go:48-60 | the same for Delete, where a missing row is no error |
| SatelliteService.Service.Heartbeat | api/internal/satellite/service.go:62-64 | one atomic statement: the row as it was but Ready and last seen now, or not found |
| SatelliteProtocol.Linearizable | api/internal/satellite/service.go:20-64 | every interleaving of any number of calls has the final table of a legal sequential history, in which each answered call has exactly one effect, with its response, and no other call has any |
| SatelliteProtocol.EffectPlace | api/internal/satellite/service.go:34-60 | a call's effect lies in the history of a prefix of the run if and only if the call was answered within that prefix |
| SatelliteProtocol.RealTimeOrder | api/internal/satellite/service.go:34-60 | a call that returned before another was made takes effect before it |
| SatelliteGuarantees.OperatorRowsAreSafe | api/internal/satellite/service.go:42-59 | in every run, an operator-owned row that no call claims as the operator, short of an update to its own region, still exists at the end with its region, name, owner and creation time |
| SatelliteGuarantees.HarmfulCallHarms | api/internal/satellite/handler.go:124-134 | any other call that claims to be the operator's, a DELETE or an update to another region, breaks this when it runs alone |
| SatelliteGuarantees.OwnershipHoldsExactly | api/internal/satellite/service.go:34-60 | an operator-owned row survives all interleavings of any number of calls from a given set if and only if no call of the set is of that kind |
| SatelliteGuarantees.RefusalsAreExact | api/internal/satellite/service.go:42-57 | in every run an update or delete is refused if and only if it does not claim to be the operator's and finds an operator-owned row, which then was one when the run began |
| SatelliteGuarantees.CreatedRowsNeverRefuse | api/internal/satellite/service.go:20-60 | no satellite created in a run ever makes a call come back refused |
| SatelliteGuarantees.LastWriterWins | api/internal/satellite/repository.go:84-127 | after any interleaving a row is stored exactly if created and not removed since, and each column is what its last writer gave it: region from Update only, status and last_seen_at from Heartbeat only, the rest from the insert |
| SatelliteGuarantees.TableStaysConsistent | api/internal/db/migrations/000001_create_satellites.up.sql:3-11 | in every run ids and names are unique, Pending means never seen and Ready means seen, created_at <= last_seen_at <= now, and Ready rows never go back |
| FleetctlDelete.ClientAndServerGuardsAgree | fleetctl/cmd/satellite/satellite.go:90-104 | in every interleaving, once fleetctl is past its own guard the stored row is not operator-owned, and the server never answers its DELETE with the ownership error |
| FleetctlDelete.CliCannotRemoveOperatorRows | fleetctl/cmd/satellite/satellite.go:80-108 | no number of fleetctl delete runs removes an operator-owned row, or changes its region, unless another caller claims it as the operator |
| FleetctlDelete.ExitTellsOutcome | fleetctl/cmd/satellite/satellite.go:90-108 | in every run and ever after the exit, "deleted" is reported if and only if the DELETE was answered so, and then the satellite is gone for good; "managed by the Operator" if and only if the GET returned such a row, and then no DELETE was sent; an error otherwise |
| FleetctlDelete.EveryCallIsOnRecord | fleetctl/cmd/satellite/satellite.go:90-108 | every call at the server was made by another client or is the one GET or the one DELETE a process has on record |
| FleetctlDelete.DeleteWorks | fleetctl/cmd/satellite/satellite.go:80-108 | left alone, the command deletes a manual satellite and reports it, and leaves an operator-owned one as it is and reports that |
| Strconv.ShortcutAgreesWithLoop | fleetctl/internal/runtime/runtime.go:73-75 | unquoting gives what the escape loop alone computes, for every input in double or single quotes |
| Strconv.UnquoteOfQuote | fleetctl/internal/runtime/runtime.go:100-100 | unquoting a quoted string gives back every byte string, bad UTF-8 included, whatever counts as printable |
| Strconv.QuoteSize | fleetctl/internal/runtime/runtime.go:100-100 | a quoted string of n bytes is one line of at most 4n + 2 bytes |
| Strconv.QuoteIsPlain | fleetctl/internal/runtime/runtime.go:100-100 | quoting only adds the two quotes if and only if every rune is printable (given literally up to U+00FF) and no quote or backslash |
| Strconv.HexEscapes | fleetctl/internal/runtime/runtime.go:100-100 | any other rune without a letter of its own is written in two, four or eight hexadecimal digits by its size |
| Strconv.UnquoteNeedsQuotes | fleetctl/internal/runtime/runtime.go:73-75 | only a string that begins and ends with the same one of the three quotes is unquoted |
| LineScanner.Scanner.Scan | fleetctl/internal/runtime/runtime.go:66-67 | delivers the lines one by one, without newline and one trailing carriage return, and stops with an error at the first line of 65536 bytes or more |
| Config.Options.Load | fleetctl/internal/runtime/runtime.go:48-90 | for every file, the last line with a key gives its value as written if that does not begin with a quote; without such a line, or without a file, the server is http://localhost:8080 and the token empty; --server overrides unless reading failed |
| Config.Options.Save | fleetctl/internal/runtime/runtime.go:92-102 | a successful save leaves exactly the printed configuration, which for fields without escapes is the two lines with the fields between quotes; one that fails before opening the file leaves it alone |
| Config.Options.Login | fleetctl/cmd/root.go:52-81 | a login against the server in effect stores the token it was given with that server; one that fails earlier leaves the file alone |
| Config.LoadAfterSave | fleetctl/internal/runtime/runtime.go:66-102 | load after save returns the saved configuration if and only if both printed lines fit the scanner, and otherwise the scanner's error |
| Config.ShortFieldsSurvive | fleetctl/internal/runtime/runtime.go:100-101 | fields of up to 16381 bytes always come back |
| Config.BoundIsTight | fleetctl/internal/runtime/runtime.go:83-85 | a field of 16382 bytes can make the saved file unreadable |
| Config.PlainFieldsSurvive | fleetctl/internal/runtime/runtime.go:66-101 | fields without escapes come back if and only if the server has at most 65525 bytes and the token at most 65526 |
| Config.LoadAfterLogin | fleetctl/cmd/root.go:71-78 | after a login on any readable file, load gives the new token with the overriding server, or else the server in effect before |
| Controller.SatelliteReconciler.Reconcile | operator/internal/controller/satellite_controller.go:50-79 | after reading an object that is not Ready it succeeds if and only if, after the writes of others, the object is there at the version read; then that object is Ready, the operator's, and keeps uid and region, and nothing else changes; otherwise nothing changes, with an error |
| ReconcileLoop.ReconcileInWorld | operator/internal/controller/satellite_controller.go:50-79 | in every run and with any steps in between, the method leaves the cluster and the error of the steps Begin and Finish, so its write changes phase and owner of the current object only, and an error puts the name back into the queue |
| ReconcileLoop.QuietMeansReady | operator/internal/controller/satellite_controller.go:54-79 | in every run, when the cache has caught up, the queue is empty and no worker is busy, every object is Ready: no wakeup is lost |
| ReconcileLoop.EveryRunCanRest | operator/internal/controller/satellite_controller.go:50-87 | from wherever a run has got to, some steps without outside writes reach that rest, and then every object is as it was if it was Ready, and otherwise was marked Ready and nothing else |
| ReconcileLoop.ControllerWritesLoseNothing | operator/internal/controller/satellite_controller.go:67-76 | under any staleness, a successful write changes phase and owner of the current object only and never hits a deleted or recreated one; a failed one changes nothing and is retried |
| ReconcileLoop.WritesBalance | operator/internal/controller/satellite_controller.go:65-78 | exact balance per object: controller writes equal the outside turns to not Ready, plus one if it started that way, minus those undone from outside or still open |
| ReconcileLoop.SelfTriggeringStops | operator/internal/controller/satellite_controller.go:65-87 | controller writes, plus one if the object is not Ready, never exceed the outside writes that left it not Ready, plus one if it started that way |
| ReconcileLoop.WrittenObjectsBecomeReady | operator/internal/controller/satellite_controller.go:50-87 | after any run, an object written from outside while not Ready can come to rest Ready and the operator's, with the region, heartbeat and conditions it was written with |
| Principals.ValidIsExact | api/internal/auth/principal.go:74-136 | a principal is valid if and only if its subject is not blank and it is a human with one of two roles, an operator, or an agent bound to a satellite, with nothing of the other kinds |
| Principals.ValidMeansConstructed | api/internal/auth/principal.go:42-136 | the valid principals are exactly those the three constructors produce, and none has both a human role and a satellite |
| Jwt.NewManagerMakesAll | api/internal/auth/jwt.go:71-91 | a manager can be made exactly for a secret of 32 bytes and non-blank names, its names are the configured ones trimmed, and every manager is what its own fields configure |
| Jwt.ParseIsExact | api/internal/auth/jwt.go:119-144 | a token is accepted if and only if algorithm, MAC, issuer, audience, exp, iat, nbf, actor kind, subject and role meet the contract, and building the principal after validation never fails |
| Jwt.WindowOfDates | api/internal/auth/jwt.go:100-111 | with whole-second dates, a token issued at n is good at every instant up to n + 3599 s and at none from n + 3600 s on |
| Jwt.ParseOfGenerate | api/internal/auth/jwt.go:94-144 | an issued token parses if and only if issuer and audience are well-formed UTF-8 and the clock is in its window, to the role and subject it was issued for, the subject unchanged if and only if well formed |
| Jwt.ManagersAreSeparate | api/internal/auth/jwt.go:60-144 | a manager accepts a token of another if and only if the secrets are equal, its issuer and audience are the other's as JSON carries them, and the clock is in the window; it is then the same manager if and only if the other's names are well-formed UTF-8 |
| Jwt.BadNamesMayMeet | api/internal/auth/jwt.go:78-112 | two different managers, one with a bad byte in its issuer and one with U+FFFD there, where one accepts the other's tokens |
| Users.UserService.CreateUser | api/internal/user/service.go:21-38 | succeeds if and only if the role is one of the two, the password can be hashed, the statement does not fail, and id and username are free; then it inserts exactly that row with the hash, and otherwise changes nothing |
| Users.UserService.DeleteUser | api/internal/user/service.go:48-50 | removes exactly that row |
| Users.AdminGateIsExact | api/internal/auth/middleware.go:29-64 | the middlewares let a request pass the admin gate if and only if its bearer token meets the contract and names the role admin |
| Users.LoginHandler.Login | api/internal/auth/handler.go:27-63 | hands out a token exactly if the row read matches the password, for that row's id and role at the time of issue, whatever others do meanwhile; generating it never fails |
| AuthRuns.RunKeepsTable | api/internal/user/repository.go:27-96 | in every run roles are admin or viewer, usernames are unique, and a row stays as inserted until it is deleted |
| AuthRuns.RequestsComeFromLogins | api/internal/httpserver/router.go:27-43 | in every run, an authenticated request was preceded, less than 3600 s before, by a token issued to the user and role it names, admin if it passed the gate; that user was stored with that role when the login read the table, and at the end is gone if and only if removed since, and otherwise still has the role |
| AuthRuns.IssuedMeansStored | api/internal/auth/handler.go:40-63 | after any run the user of an issued token is stored if and only if no step since the login read the row removed it, and then with the role of the token |
| AuthRuns.StaleLogin | api/internal/auth/handler.go:40-63 | wherever an admin can log in, any stored user can be issued a good token after the row was deleted |
| AuthRuns.RequestsAreOnRecord | api/internal/auth/middleware.go:29-64 | a request is served as the user and role of its token if and only if the token meets the contract, and admitted to the users routes if and only if that role is admin |
| AuthRuns.EveryWriteWasAdmitted | api/internal/httpserver/router.go:37-43 | in every run the attempts to create or delete users, and the admitted requests that have not acted yet, are together exactly the admissions |
| AuthRuns.AdminCanCreate | api/internal/user/service.go:21-38 | wherever an admin can log in there is a run that creates any acceptable user |
| AuthRuns.WithoutAdminNothingChanges | api/internal/httpserver/router.go:37-43 | if no admin is stored at the start, no request ever passes the gate and the users table never changes |
| AuthRuns.AccountLeadsToPrincipal | api/internal/auth/middleware.go:29-49 | in every run that creates an account, reads it by name and password before anything removes it, issues the token, and later gets a request with it, the request is served as that user and role if and only if the clock is in the window of the issue, whatever else happens in between |
| AuthRuns.LoginInRun | api/internal/auth/handler.go:27-63 | in every run and with any steps in between, the method Login refuses exactly if the step ReadRow starts no login, and otherwise leaves the table and hands out the token of the step Issue |
| AuthRuns.ActInRun | api/internal/user/service.go:21-50 | the methods CreateUser and DeleteUser leave the table of the steps of those names, and fail exactly when they do |
| DeepCopy.CopyConditions | operator/api/v1alpha1/zz_generated.deepcopy.go:109-115 | the loop over Conditions fills a fresh array with the same elements, and keeps nil apart from empty |
| DeepCopy.DeepCopyElement | operator/api/v1alpha1/zz_generated.deepcopy.go:29-35 | after the aliasing assignment is repaired, the element says what the original says and points only to fresh memory |
| DeepCopy.CopyItems | operator/api/v1alpha1/zz_generated.deepcopy.go:60-66 | the loop over Items copies every element, and no two copies share memory even where the originals do |
| DeepCopy.DeepCopyList | operator/api/v1alpha1/zz_generated.deepcopy.go:70-77 | nil for nil, and otherwise an equal graph whose reachable memory is all fresh, with the original unchanged |
| DeepCopy.Perform | operator/api/v1alpha1/satellite_types.go:26-82 | any write through a list pointer, to a field, through a pointer, map or slice, re-pointing one, or assigning items, shows exactly where it was made if the list shares no memory, and uses only the list's memory and new memory |
| DeepCopy.EditsOfCopyStayPrivate | operator/api/v1alpha1/zz_generated.deepcopy.go:56-77 | no sequence of writes to the copy changes what the original says, and the copy then says what the original says, edited (if no write makes items share memory) |
| DeepCopy.EditsOfOriginalStayPrivate | operator/api/v1alpha1/zz_generated.deepcopy.go:56-77 | no sequence of writes to the original changes what the copy says, whatever the original shares; an original that shares nothing then says what the copy says, edited (if no write makes items share) |
| DeepCopy.EditsDoNotMix | operator/api/v1alpha1/zz_generated.deepcopy.go:56-77 | after writes to both sides in any order, each side says what the original said at the copy, edited by the writes to that side alone, if none of those makes items share memory and, for the original, it shared none before |
| Uncomment.AppendStripped | operator/test/utils/utils.go:198-213 | the buffer loop appends the scanner's lines, each with one prefix stripped, joined by newlines |
| Uncomment.StripIsExact | operator/test/utils/utils.go:203-203 | a line loses the prefix once if it begins with it, and otherwise stays as it is |
| GoStrings.TrimSpaceOfPadded | fleetctl/internal/runtime/runtime.go:72-76 | trimming takes off any amount of Unicode white space at both ends and nothing else |
| Uncomment.UncommentCode | operator/test/utils/utils.go:178-226 | finds the target if and only if it occurs; the file becomes the bytes before its first occurrence, the stripped lines, and the bytes after |
| Uncomment.UncommentingRestoresLines | operator/test/utils/utils.go:198-213 | commented lines, with or without a newline at the end, come back if and only if each fits the scanner's buffer with its prefix and none ends in a carriage return the scanner drops |
| Uncomment.UncommentingRestoresFile | operator/test/utils/utils.go:187-221 | a block commented out in the middle of a file, whose text does not occur earlier in the file, is restored in place if and only if its lines come back |
| Uncomment.FinalNewlineIsLost | operator/test/utils/utils.go:200-213 | such a block whose target ends in a newline is never restored, and what replaces it is the block without that newline if and only if its lines come back |

## Left out

- `List` of satellites and users, `GetNonEmptyLines`, mappers, status errors, URL trimming: single reads or element-wise loops.
- HTTP, JSON encoding beyond the repair of bad UTF-8, routing, cobra flags, terminal input, logging, health and docs handlers.
- Statements that take effect although they report an error, such as a connection lost after the commit.
- Reading the configuration file: I/O errors in the middle of a file, and the buffering of reads inside the scanner.
- Config.Options.Save: a write that breaks off leaves a prefix of the text, which is modelled but about which nothing is claimed.
- DeepCopy.CopyMeta: of ObjectMeta only a name, the labels and the deletion timestamp are modelled, because ObjectMeta.DeepCopyInto belongs to a library; its other maps, slices and pointers have the same shapes.
- DeepCopy.DeepCopyList: ListMeta is one string, because ListMeta.DeepCopyInto belongs to a library; its `RemainingItemCount` pointer has the shape of the modelled times.
- DeepCopy.DeepCopyElement: a pointer to a field inside a struct is modelled as an in-out value, so aliasing between two fields of one struct cannot be expressed.
- HMAC, bcrypt, UUID generation and PostgreSQL are abstract; golang-jwt's checks are modelled for the options the manager passes.
- Tokens that carry fractional NumericDates are read as the whole seconds golang-jwt keeps.
- The order and fairness of the work queue and of watch events: the reconcile loop can always become quiet, but nothing is claimed about how soon it does.
- DeepCopy.Perform: writes that share items are exact only while nothing is shared yet, and appending to or re-slicing a slice is not a write of the model; replacing the slice is.
- Planned behaviour without code: `Unreachable`, source UID routes, Agent credentials, finalizers.
