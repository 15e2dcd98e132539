# In-app notifications of the job portal, modelled in Dafny

This project models the notification core of the job portal: the `Notifications`
table and the `NotificationService` that writes and reads it.

- The service creates one unread notification for one user, saves it, and pushes it
  to that user's live connections.
- It fans one notification out to every administrator by creating it once per
  administrator.
- It lists a user's most recent notifications, counts a user's unread ones, marks one
  notification read by its key, and marks all of a user's notifications read.

The table is a sequence of `Notification` rows in insertion order plus an identity
counter that issues keys. The real-time push is an entry appended to a log of pushes
delivered.

Files and modules:

- `domain.dfy`, module `NotificationDomain`: the `NotificationType` enumeration and the
  `Notification` record with its declared defaults (`Models/Domain/Notification.cs`).
- `configuration.dfy`, module `NotificationConfiguration`: the column constraints of a
  stored row, the primary key, and the category stored as its name
  (`Data/Configurations/NotificationConfiguration.cs`).
- `queries.dfy`, module `NotificationQueries`: the service's queries and the effect of
  its two read-state updates, as functions of the rows, with their lemmas.
- `service.dfy`, module `NotificationService`:
  - a functional model of one creation (`CreateStep`) and of the administrator fan-out
    (`FanOut`), with their lemmas;
  - the class `NotificationService`, whose fields are the rows, the identity counter and
    a ghost push log. Its methods are proved against the functions above.

How the model reads the code:

- **Column lengths.** `HasMaxLength` on `Title` (200), `Message` (500),
  `RelatedEntityId` (50) and `ActionUrl` (500) is read as a save the database rejects.
  A creation whose content is too long ends in `SaveFailed`: nothing is stored, no key is
  issued and nothing is pushed. So every stored row satisfies `WellFormed`.
- **Push failures.** The push is awaited after the save with no handler, so a failing
  push escapes after the row has committed. `Env.pushSucceeds` says whether the
  transport accepts the push. When it does not, the creation ends in `PushFailed` with
  the row kept.
- **Fan-out.** The administrator fan-out is a plain loop with no handler. The first
  failing creation ends it, and the remaining administrators get nothing. All
  administrators share the content, so a content the table rejects fails at the first
  administrator and stores nothing at all.
- **Validation.** The service checks none of its arguments. An empty `Title` or
  `Message` is stored as it is. `UserId` is constrained only by the foreign key to the
  users table, which this model leaves out (see `CreateStep` under "Left out").
- **Ordering.** The recent query promises newest first by `CreatedAt` only:
  `OrderByDescending` promises no order among equal `CreatedAt`.
  `IsRecentResult` is a relation that admits any order among equal timestamps. The
  insertion sort `OrderByNewest` is one admissible order.
- **Categories.** The enumeration's comments group the nine categories as three for
  administrators, two for employers and four for job seekers.

The two query methods, `GetUserNotifications` and `GetUnreadCount`, have no `modifies`
clause. Dafny therefore guarantees that they leave the table, the counter and the push
log unchanged.

## Model

| member | source | states |
|---|---|---|
| NotificationDomain.AudienceOf | job-portal-system/Models/Domain/Notification.cs:5-18 | defines the audience of each category as the comment it is declared under: administrators, employers or job seekers |
| NotificationDomain.Ordinal | job-portal-system/Models/Domain/Notification.cs:3-19 | each category's underlying value k is its position in declaration order (0 to 8) |
| NotificationDomain.EnumerationIsComplete | job-portal-system/Models/Domain/Notification.cs:3-19 | there are exactly nine categories, pairwise distinct, and every value is one of them |
| NotificationDomain.AdminCategories | job-portal-system/Models/Domain/Notification.cs:5-8 | NewUser, NewJobPost and NewApplication, three in all, are the administrator categories |
| NotificationDomain.EmployerCategories | job-portal-system/Models/Domain/Notification.cs:10-12 | JobApplicationReceived and ApplicationWithdrawn, two in all, are the employer categories |
| NotificationDomain.JobSeekerCategories | job-portal-system/Models/Domain/Notification.cs:14-18 | NewJobPosted, ApplicationStatusChanged, ApplicationAccepted and ApplicationRejected, four in all, are the job-seeker categories |
| NotificationDomain.NewNotification | job-portal-system/Models/Domain/Notification.cs:21-35 | defines the record built with no initializer: key 0, empty strings, the zero category, unread, no optional references, CreatedAt the clock reading |
| NotificationDomain.NewNotificationDefaults | job-portal-system/Models/Domain/Notification.cs:21-35 | a freshly constructed notification is unread, has empty UserId, Title and Message, the zero category, no related entity and no action URL, and takes the clock reading as CreatedAt |
| NotificationConfiguration.WellFormed | job-portal-system/Data/Configurations/NotificationConfiguration.cs:16-22 | defines the column constraints of a stored row: Title at most 200 and Message at most 500 characters, RelatedEntityId at most 50 and ActionUrl at most 500 when present |
| NotificationConfiguration.KeysUnique | job-portal-system/Data/Configurations/NotificationConfiguration.cs:11 | defines the primary key: no two rows share an Id |
| NotificationConfiguration.TypeName | job-portal-system/Data/Configurations/NotificationConfiguration.cs:24-26 | defines the text stored in the Type column: the member's name |
| NotificationConfiguration.FindByName | job-portal-system/Data/Configurations/NotificationConfiguration.cs:24-26 | a category found for a text is among the candidates and is named by that text; when none is found, no candidate has that name |
| NotificationConfiguration.ParseTypeName | job-portal-system/Data/Configurations/NotificationConfiguration.cs:24-26 | reading a stored category text yields a category whose name is that text, or nothing exactly when no category has that name |
| NotificationConfiguration.TypeNameInjective | job-portal-system/Data/Configurations/NotificationConfiguration.cs:24-26 | distinct categories are stored as distinct texts |
| NotificationConfiguration.TypeNameRoundTrip | job-portal-system/Data/Configurations/NotificationConfiguration.cs:24-26 | storing a category as its name and reading it back gives the same category |
| NotificationQueries.UnreadCount | job-portal-system/Services/Implementations/NotificationService.cs:88-90 | defines the number of the user's rows that are unread (its bounds and its zero case are the lemmas below) |
| NotificationQueries.UserRows | job-portal-system/Services/Implementations/NotificationService.cs:79-80 | the user filter keeps exactly the rows owned by the user, each no more often than in the table |
| NotificationQueries.UnreadCountBound | job-portal-system/Services/Implementations/NotificationService.cs:88-90 | the unread count never exceeds the number of the user's rows |
| NotificationQueries.UnreadCountZero | job-portal-system/Services/Implementations/NotificationService.cs:88-90 | the unread count is 0 exactly when every row of the user is read (so 0 for a user with no rows) |
| NotificationQueries.UnreadCountAppend | job-portal-system/Services/Implementations/NotificationService.cs:49-50 | saving one more row adds one to its owner's unread count when it is unread and appends it to its owner's rows; other users' counts and rows are unchanged |
| NotificationQueries.UnreadPositions | job-portal-system/Services/Implementations/NotificationService.cs:105-107 | the mark-all update loads exactly the positions of the user's unread rows |
| NotificationQueries.UnreadPositionsCount | job-portal-system/Services/Implementations/NotificationService.cs:105-107 | the mark-all update loads as many rows as the unread count counts |
| NotificationQueries.InsertByDate | job-portal-system/Services/Implementations/NotificationService.cs:81 | inserting into a newest-first sequence keeps it newest first and adds exactly the one row |
| NotificationQueries.OrderByNewest | job-portal-system/Services/Implementations/NotificationService.cs:81 | ordering by CreatedAt descending yields a newest-first permutation of its input |
| NotificationQueries.Take | job-portal-system/Services/Implementations/NotificationService.cs:82 | the result is a prefix of its input whose length is `count` clamped between 0 and the input's length |
| NotificationQueries.IsRecentResult | job-portal-system/Services/Implementations/NotificationService.cs:79-83 | defines what the recent query may return: drawn from the user's rows, as many as `count` allows, newest first, and no row of the user left out that is newer than one returned |
| NotificationQueries.PrefixLeavesNoneNewer | job-portal-system/Services/Implementations/NotificationService.cs:81-82 | cutting a newest-first arrangement anywhere leaves out nothing newer than what it keeps |
| NotificationQueries.NewestPrefixIsSelection | job-portal-system/Services/Implementations/NotificationService.cs:81-82 | taking `count` from a newest-first arrangement gives rows drawn from the candidates, min(max(count, 0), candidates) of them, newest first, none left out newer |
| NotificationQueries.RecentQueryIsRecent | job-portal-system/Services/Implementations/NotificationService.cs:79-83 | filter, order and take together return only the user's rows, at most `count`, newest first, with no omitted row of the user newer than one returned |
| NotificationQueries.RecentResultOwnedByUser | job-portal-system/Services/Implementations/NotificationService.cs:79-80 | every row of a recent result is in the table and owned by the user |
| NotificationQueries.NewestRowComesFirst | job-portal-system/Services/Implementations/NotificationService.cs:79-83 | a row saved strictly later than every other row of its owner is the one result of the owner's recent query with count 1, whatever admissible order is used |
| NotificationQueries.FindById | job-portal-system/Services/Implementations/NotificationService.cs:95 | the lookup by key returns a position holding that key, or nothing exactly when no row has it |
| NotificationQueries.MarkOne | job-portal-system/Services/Implementations/NotificationService.cs:95-98 | defines the effect of marking one notification: the row keyed `id`, if any, becomes read and every other row stays as it was |
| NotificationQueries.MarkOneUnknownId | job-portal-system/Services/Implementations/NotificationService.cs:95-100 | marking an unknown key changes nothing |
| NotificationQueries.MarkOneIdempotent | job-portal-system/Services/Implementations/NotificationService.cs:95-100 | marking one notification twice has the effect of marking it once |
| NotificationQueries.MarkOneFrame | job-portal-system/Services/Implementations/NotificationService.cs:96-98 | marking one notification sets IsRead on the row with that key and changes no other row and no other field |
| NotificationQueries.MarkOneUnreadCount | job-portal-system/Services/Implementations/NotificationService.cs:95-100 | with unique keys, marking a notification lowers its owner's unread count by one when it was unread and leaves every other count unchanged |
| NotificationQueries.MarkAll | job-portal-system/Services/Implementations/NotificationService.cs:105-112 | defines the effect of marking all: every row of the user becomes read and every other row stays as it was |
| NotificationQueries.MarkAllClearsUnread | job-portal-system/Services/Implementations/NotificationService.cs:105-114 | after marking all, the user's unread count is 0 |
| NotificationQueries.MarkAllOtherUsers | job-portal-system/Services/Implementations/NotificationService.cs:105-114 | marking all of one user's notifications leaves every other user's rows and unread count unchanged |
| NotificationQueries.MarkAllFrame | job-portal-system/Services/Implementations/NotificationService.cs:105-114 | marking all is idempotent and changes only IsRead, only on the user's rows |
| NotificationQueries.MarkingKeepsRowsStorable | job-portal-system/Data/Configurations/NotificationConfiguration.cs:11-39 | both read-state updates keep every row within the column constraints and the keys unique |
| NotificationService.Invariant | job-portal-system/Data/Configurations/NotificationConfiguration.cs:11-39 | defines what every reachable table satisfies: each row within the column constraints, keys unique, and each key issued by the identity counter (1 up to the next value) |
| NotificationService.Compose | job-portal-system/Services/Implementations/NotificationService.cs:37-47 | defines the record a creation builds: the arguments as fields, unread, stamped with the clock reading, keyed by the next identity value |
| NotificationService.PayloadOf | job-portal-system/Services/Implementations/NotificationService.cs:120-129 | defines the pushed object: the record's Id, Title, Message, Type, ActionUrl, CreatedAt and IsRead |
| NotificationService.Deliver | job-portal-system/Services/Implementations/NotificationService.cs:117-130 | defines the push log after one push: one more entry for the user when the transport accepts it, unchanged otherwise |
| NotificationService.CreateStep | job-portal-system/Services/Implementations/NotificationService.cs:27-56 | a creation fails at the save, with nothing changed, exactly when the content breaks a column constraint; otherwise it appends one row keyed by the next identity value, advances the counter, and ends in a push failure exactly when the transport refuses the push |
| NotificationService.ComposeStorable | job-portal-system/Services/Implementations/NotificationService.cs:37-47 | the record built for a creation is unread, and whether the table accepts it depends on its content only, not on its key, recipient or timestamp |
| NotificationService.CreateStepKeepsInvariant | job-portal-system/Services/Implementations/NotificationService.cs:37-50 | a creation keeps every row within the column constraints, the keys unique and below the identity counter |
| NotificationService.CreateStepAddsOneRecord | job-portal-system/Services/Implementations/NotificationService.cs:37-50 | a creation with accepted content appends exactly one row with the arguments as fields, unread, stamped with the clock reading and a fresh key; existing rows are unchanged, the owner's unread count grows by one and other users' rows are unchanged |
| NotificationService.CreateStepPushesOnce | job-portal-system/Services/Implementations/NotificationService.cs:50-55 | after the save exactly one push goes to the owner, carrying the saved key, Title, Message, Type, ActionUrl, CreatedAt and IsRead false; a failing push ends the creation in PushFailed with the row kept |
| NotificationService.CreateStepRejected | job-portal-system/Services/Implementations/NotificationService.cs:49-50 | content that breaks a column constraint fails at the save and changes nothing: no row, no key, no push |
| NotificationService.CreateThenRecent | job-portal-system/Services/Implementations/NotificationService.cs:37-50 | a creation stamped later than the owner's other rows is what the owner's recent query with count 1 returns, unread |
| NotificationService.FanOut | job-portal-system/Services/Implementations/NotificationService.cs:58-75 | a fan-out only appends rows, at most one per administrator, keys them consecutively from the counter, and completes only after saving one row for every administrator |
| NotificationService.FanOutAllDelivered | job-portal-system/Services/Implementations/NotificationService.cs:66-74 | when every push succeeds, the fan-out saves one record per administrator in list order with consecutive keys and the shared content, and pushes each to its owner; an empty list saves nothing and completes |
| NotificationService.FanOutStopsAtPushFailure | job-portal-system/Services/Implementations/NotificationService.cs:70-74 | when the push to administrator f is the first to fail, the fan-out ends in that failure with records for the first f + 1 administrators saved, the first f pushed, and the rest skipped |
| NotificationService.FanOutEmptyList | job-portal-system/Services/Implementations/NotificationService.cs:70-74 | an empty administrator list saves nothing, pushes nothing and does not fail |
| NotificationService.FanOutRejected | job-portal-system/Services/Implementations/NotificationService.cs:70-74 | content the table rejects makes the fan-out fail at its first save with nothing changed |
| NotificationService.FanOutKeepsInvariant | job-portal-system/Services/Implementations/NotificationService.cs:70-74 | however a fan-out ends, the table keeps its invariant |
| NotificationService.MarkingKeepsInvariant | job-portal-system/Services/Implementations/NotificationService.cs:93-114 | both read-state updates keep the table's invariant |
| NotificationService.NotificationService.SendNotificationToUser | job-portal-system/Services/Implementations/NotificationService.cs:117-130 | a push appends one entry addressed to the user with the record's payload when the transport accepts it, and otherwise fails with the log unchanged |
| NotificationService.NotificationService.CreateNotification | job-portal-system/Services/Implementations/NotificationService.cs:27-56 | the new state and the outcome are those of CreateStep, and the invariant is kept; the related entity and action URL default to absent |
| NotificationService.NotificationService.CreateAdminNotification | job-portal-system/Services/Implementations/NotificationService.cs:58-75 | the loop over the administrators reaches the state and outcome of FanOut, keeping the invariant |
| NotificationService.NotificationService.GetUserNotifications | job-portal-system/Services/Implementations/NotificationService.cs:77-84 | returns a recent result for the user (`count` defaults to 10): only the user's rows, at most `count`, newest first, none omitted newer; the table is unchanged |
| NotificationService.NotificationService.GetUnreadCount | job-portal-system/Services/Implementations/NotificationService.cs:86-91 | returns the user's unread count, which is 0 exactly when every row of the user is read; the table is unchanged |
| NotificationService.NotificationService.MarkAsRead | job-portal-system/Services/Implementations/NotificationService.cs:93-101 | the rows become MarkOne of the old rows (only the keyed row gains IsRead, nothing for an unknown key); counter and push log unchanged; invariant kept |
| NotificationService.NotificationService.MarkAllAsRead | job-portal-system/Services/Implementations/NotificationService.cs:103-115 | marking the loaded unread rows one by one yields MarkAll of the old rows; counter and push log unchanged; invariant kept |

## Left out

- The real-time hub (`Hubs/NotificationHub.cs`): connection-group membership on connect and disconnect is transport and concurrency. A push is one log entry addressed to a user, and delivery to that user's several connections is not modelled.
- The controllers (`Controllers/NotificationController.cs`, `Controllers/DebugNotificationController.cs`) and the interface `Services/Interfaces/INotificationService.cs` are not part of this model: routing, claims, result shaping and signatures only.
- The administrator lookup `GetUsersInRoleAsync("Admin")` is an input list of administrator ids. The order and content of that list are whatever the identity store returns.
- `DateTime.Now` is the `now` of each creation's `Env`, as an integer tick count. Time zones and clock resolution are not modelled.
- Asynchrony, concurrency, and storage failures other than a column constraint (unavailability, timeouts) are not modelled. Each save is one atomic update.
- Console logging is not modelled.
- CreateStep: the foreign key from `UserId` to the users table is not modelled. A creation for an id that names no user fails at the save in the database, but the model stores and pushes it.
- Cascade delete on the owning user and the `(UserId, IsRead)` index are not modelled. The first needs the user entity, which is not part of this model. The second affects performance only.
- The `User` navigation property of a notification is not modelled.
- The required-column check is not modelled. Dafny strings cannot be null, so a null `UserId`, `Title` or `Message` reaching the save cannot be represented.
- The `IsRead` column default (false) has no member of its own. The service always writes `IsRead` as false, so a created row is unread either way.
- Whether the database enforces column lengths depends on the provider. The model assumes it rejects an over-long value. Lengths are counted in characters, not UTF-16 code units.
- `ParseTypeName` reads back only exact category names. The framework's handling of other stored texts (numbers, unknown names) is not modelled.
- Keys are unbounded integers. Identity overflow at 32 bits, and identity values consumed by rejected inserts, are not modelled. `count` is likewise unbounded.
- The push payload's serialised form (for instance the category as a number in JSON) is not modelled. The payload is a record of the seven fields.
