/** The notification record and its category enumeration
    (job-portal-system/Models/Domain/Notification.cs). */
module NotificationDomain {

  /** Absent or present value, for the nullable `string?` properties. */
  datatype Option<T> = None | Some(value: T)

  /** The nine notification categories, in declaration order. */
  datatype NotificationType =
    // addressed to administrators
    | NewUser | NewJobPost | NewApplication
    // addressed to employers
    | JobApplicationReceived | ApplicationWithdrawn
    // addressed to job seekers
    | NewJobPosted | ApplicationStatusChanged | ApplicationAccepted | ApplicationRejected

  /** The audience a category is grouped under by the declaration's comments. */
  datatype Audience = Admins | Employers | JobSeekers

  /** Every category, in declaration order: position k holds the member whose
      underlying enum value is k. */
  const AllTypes: seq<NotificationType> :=
    [NewUser, NewJobPost, NewApplication,
     JobApplicationReceived, ApplicationWithdrawn,
     NewJobPosted, ApplicationStatusChanged, ApplicationAccepted, ApplicationRejected]

  function AudienceOf(t: NotificationType): Audience
  {
    match t
    case NewUser | NewJobPost | NewApplication => Admins
    case JobApplicationReceived | ApplicationWithdrawn => Employers
    case NewJobPosted | ApplicationStatusChanged | ApplicationAccepted | ApplicationRejected => JobSeekers
  }

  /** The underlying integer value of an enum member (implicit numbering from 0). */
  function Ordinal(t: NotificationType): (k: nat)
    ensures k < |AllTypes| && AllTypes[k] == t
  {
    match t
    case NewUser => 0
    case NewJobPost => 1
    case NewApplication => 2
    case JobApplicationReceived => 3
    case ApplicationWithdrawn => 4
    case NewJobPosted => 5
    case ApplicationStatusChanged => 6
    case ApplicationAccepted => 7
    case ApplicationRejected => 8
  }

  /** The categories grouped under audience `a`. */
  function MembersOf(a: Audience): set<NotificationType>
  {
    set t | t in AllTypes && AudienceOf(t) == a
  }

  /** The enumeration has exactly nine pairwise distinct members and every value is
      one of them. */
  lemma EnumerationIsComplete()
    ensures |AllTypes| == 9
    ensures forall i, j :: 0 <= i < j < |AllTypes| ==> AllTypes[i] != AllTypes[j]
    ensures forall t :: t in AllTypes
  {
    forall i, j | 0 <= i < j < |AllTypes| ensures AllTypes[i] != AllTypes[j] {
      assert Ordinal(AllTypes[i]) == i;
      assert Ordinal(AllTypes[j]) == j;
    }
    forall t ensures t in AllTypes {
      assert AllTypes[Ordinal(t)] == t;
    }
  }

  /** Three categories are addressed to administrators. */
  lemma AdminCategories()
    ensures MembersOf(Admins) == {NewUser, NewJobPost, NewApplication}
    ensures |MembersOf(Admins)| == 3
  {
    EnumerationIsComplete();
  }

  /** Two categories are addressed to employers. */
  lemma EmployerCategories()
    ensures MembersOf(Employers) == {JobApplicationReceived, ApplicationWithdrawn}
    ensures |MembersOf(Employers)| == 2
  {
    EnumerationIsComplete();
  }

  /** Four categories are addressed to job seekers. */
  lemma JobSeekerCategories()
    ensures MembersOf(JobSeekers) ==
      {NewJobPosted, ApplicationStatusChanged, ApplicationAccepted, ApplicationRejected}
    ensures |MembersOf(JobSeekers)| == 4
  {
    EnumerationIsComplete();
  }

  /** A stored notification; `createdAt` is a clock reading (a tick count). */
  datatype Notification = Notification(
    id: int,
    userId: string,
    title: string,
    message: string,
    kind: NotificationType,
    isRead: bool,
    createdAt: int,
    relatedEntityId: Option<string>,
    actionUrl: Option<string>)

  /** A notification built with no initializer: every property keeps its declared
      default, and `CreatedAt` takes the clock reading `now`. */
  function NewNotification(now: int): Notification
  {
    Notification(0, "", "", "", AllTypes[0], false, now, None, None)
  }

  /** A freshly constructed notification is unread, its strings are empty, its category
      is the enum's zero value, and both optional references are absent. */
  lemma NewNotificationDefaults(now: int)
    ensures !NewNotification(now).isRead
    ensures NewNotification(now).userId == "" && NewNotification(now).title == ""
    ensures NewNotification(now).message == ""
    ensures Ordinal(NewNotification(now).kind) == 0
    ensures NewNotification(now).relatedEntityId.None? && NewNotification(now).actionUrl.None?
    ensures NewNotification(now).createdAt == now
  {
  }
}
